/** On-disk structures of NVFS: bitmap sectors, packed inodes, indirect blocks
    and directory entries, with the laws that relate reading to writing. */
module NvfsFormat {
  import opened Bytes

  const SECTOR_SIZE := 512
  const BITS_PER_SECTOR := 4096
  const INODE_SIZE := 128
  const DIRENT_SIZE := 32
  const ENTRIES_PER_SECTOR := 16
  const MAX_EXTENTS := 14
  const DIRECT_EXTENTS := 13
  const INDIRECT_ENTS := 64
  const INDIRECT_MARKER: u32 := 0xFFFF_FFFF
  const MAX_NAME := 27
  const TYPE_FREE: byte := 0
  const TYPE_FILE: byte := 1
  const TYPE_DIR: byte := 2

  type Sector = s: seq<byte> | |s| == 512 witness seq(512, _ => 0)

  function Zeros(n: nat): (z: seq<byte>)
    ensures |z| == n
    ensures forall k :: 0 <= k < n ==> z[k] == 0
  {
    if n == 0 then [] else Zeros(n - 1) + [0]
  }

  function ZeroSector(): Sector { Zeros(SECTOR_SIZE) }

  // ---------------------------------------------------------------- bitmap

  predicate SectorBit(s: Sector, bit: nat)
    requires bit < BITS_PER_SECTOR
  {
    Bit(s[bit / 8], bit % 8)
  }

  function PutSectorBit(s: Sector, bit: nat, on: bool): Sector
    requires bit < BITS_PER_SECTOR
  {
    assert Pow2(8) == 256;
    s[bit / 8 := WithBit(s[bit / 8], bit % 8, on)]
  }

  /** Storing one bit of a bitmap sector changes that bit and no other. */
  lemma SectorBitLaw(s: Sector, bit: nat, on: bool, other: nat)
    requires bit < BITS_PER_SECTOR && other < BITS_PER_SECTOR
    ensures SectorBit(PutSectorBit(s, bit, on), other) == if other == bit then on else SectorBit(s, other)
  {
    if other != bit && other / 8 == bit / 8 {
      WithBitOther(s[bit / 8], bit % 8, on, other % 8);
    }
  }

  // ---------------------------------------------------------------- inodes

  datatype Extent = Extent(start: u32, count: u32)

  datatype InodeFields = InodeFields(
    size: u32, kind: byte, c0: byte, c1: byte, c2: byte,
    extentCount: u32, extents: seq<Extent>, mtime: u32)

  type Inode = n: InodeFields | |n.extents| == 14
    witness InodeFields(0, 0, 0, 0, 0, 0, seq(14, _ => Extent(0, 0)), 0)

  /** Byte k of the 128-byte record of an inode. */
  function InodeByte(n: Inode, k: nat): byte
    requires k < INODE_SIZE
  {
    if k < 4 then ByteOf(n.size, k)
    else if k == 4 then n.kind
    else if k == 5 then n.c0
    else if k == 6 then n.c1
    else if k == 7 then n.c2
    else if k < 12 then ByteOf(n.extentCount, k - 8)
    else if k < 124 then
      var e := n.extents[(k - 12) / 8];
      if (k - 12) % 8 < 4 then ByteOf(e.start, (k - 12) % 8) else ByteOf(e.count, (k - 12) % 8 - 4)
    else ByteOf(n.mtime, k - 124)
  }

  function PutInodeByte(s: Sector, off: nat, n: Inode, k: int): byte {
    if off <= k < off + INODE_SIZE then InodeByte(n, k - off) else if 0 <= k < SECTOR_SIZE then s[k] else 0
  }

  /** The record written over bytes off..off+128 of a sector. */
  function PutInode(s: Sector, off: nat, n: Inode): Sector
    requires off + INODE_SIZE <= SECTOR_SIZE
  {
    seq(512, k => PutInodeByte(s, off, n, k))
  }

  function ExtentAt(s: seq<byte>, o: nat): Extent
    requires o + 8 <= |s|
  {
    Extent(GetU32(s, o), GetU32(s, o + 4))
  }

  /** n extents stored one after the other from offset o. */
  function ExtentsFrom(s: Sector, o: nat, n: nat): (es: seq<Extent>)
    requires o + 8 * n <= SECTOR_SIZE
    ensures |es| == n
    ensures forall i :: 0 <= i < n ==> es[i] == ExtentAt(s, o + 8 * i)
  {
    if n == 0 then [] else ExtentsFrom(s, o, n - 1) + [ExtentAt(s, o + 8 * (n - 1))]
  }

  /** The record as it stands on disk, before the extent count is clamped. */
  function RawInode(s: Sector, off: nat): Inode
    requires off + INODE_SIZE <= SECTOR_SIZE
  {
    InodeFields(GetU32(s, off), s[off + 4], s[off + 5], s[off + 6], s[off + 7],
                GetU32(s, off + 8),
                ExtentsFrom(s, off + 12, 14),
                GetU32(s, off + 124))
  }

  /** inode_read clamps the extent count to the 14 slots of the record. */
  function Clamp(n: Inode): Inode {
    if n.extentCount <= MAX_EXTENTS then n
    else InodeFields(n.size, n.kind, n.c0, n.c1, n.c2, MAX_EXTENTS, n.extents, n.mtime)
  }

  lemma PutInodeWord(s: Sector, off: nat, n: Inode, k: nat, x: u32)
    requires off + INODE_SIZE <= SECTOR_SIZE && k + 4 <= INODE_SIZE
    requires forall j: nat {:trigger ByteOf(x, j)} :: j < 4 ==> InodeByte(n, k + j) == ByteOf(x, j)
    ensures GetU32(PutInode(s, off, n), off + k) == x
  {
    var p := PutInode(s, off, n);
    assert p[off + k] == ByteOf(x, 0) && p[off + k + 1] == ByteOf(x, 1);
    assert p[off + k + 2] == ByteOf(x, 2) && p[off + k + 3] == ByteOf(x, 3);
    BytesOfWord(x);
  }

  lemma PutInodeExtent(s: Sector, off: nat, n: Inode, i: nat)
    requires off + INODE_SIZE <= SECTOR_SIZE && i < MAX_EXTENTS
    ensures ExtentAt(PutInode(s, off, n), off + 12 + 8 * i) == n.extents[i]
  {
    hide PutInode, GetU32, InodeByte;
    ExtentBytes(n, i);
    PutInodeWord(s, off, n, 12 + 8 * i, n.extents[i].start);
    PutInodeWord(s, off, n, 16 + 8 * i, n.extents[i].count);
  }

  lemma ExtentBytes(n: Inode, i: nat)
    requires i < MAX_EXTENTS
    ensures forall j: nat {:trigger ByteOf(n.extents[i].start, j)} :: j < 4 ==>
      InodeByte(n, 12 + 8 * i + j) == ByteOf(n.extents[i].start, j)
    ensures forall j: nat {:trigger ByteOf(n.extents[i].count, j)} :: j < 4 ==>
      InodeByte(n, 16 + 8 * i + j) == ByteOf(n.extents[i].count, j)
  {
    hide ByteOf;
  }

  /** A record read from bytes that hold the extents es has those extents. */
  lemma RawExtents(p: Sector, off: nat, es: seq<Extent>)
    requires off + INODE_SIZE <= SECTOR_SIZE && |es| == MAX_EXTENTS
    requires forall i :: 0 <= i < MAX_EXTENTS ==> ExtentAt(p, off + 12 + 8 * i) == es[i]
    ensures RawInode(p, off).extents == es
  {}

  /** Reading an inode record back after it was written. */
  lemma InodeRoundTrip(s: Sector, off: nat, n: Inode)
    requires off + INODE_SIZE <= SECTOR_SIZE
    ensures RawInode(PutInode(s, off, n), off) == n
  {
    PutInodeWord(s, off, n, 0, n.size);
    PutInodeWord(s, off, n, 8, n.extentCount);
    PutInodeWord(s, off, n, 124, n.mtime);
    var p := PutInode(s, off, n);
    forall i | 0 <= i < MAX_EXTENTS ensures ExtentAt(p, off + 12 + 8 * i) == n.extents[i] {
      PutInodeExtent(s, off, n, i);
    }
    RawExtents(p, off, n.extents);
    assert p[off + 4] == n.kind && p[off + 5] == n.c0 && p[off + 6] == n.c1 && p[off + 7] == n.c2;
  }

  /** The three other inodes of the sector keep their records. */
  lemma InodeNeighbour(s: Sector, off: nat, n: Inode, other: nat)
    requires off + INODE_SIZE <= SECTOR_SIZE && other + INODE_SIZE <= SECTOR_SIZE
    requires other + INODE_SIZE <= off || off + INODE_SIZE <= other
    ensures RawInode(PutInode(s, off, n), other) == RawInode(s, other)
  {
    var p := PutInode(s, off, n);
    assert forall k {:trigger p[k]} :: other <= k < other + INODE_SIZE ==> p[k] == s[k];
    RawExtents(p, other, RawInode(s, other).extents);
  }

  // ------------------------------------------------------ directory entries

  datatype Dirent = Dirent(name: seq<byte>, inode: u32)

  /** The entry of 32 bytes at offset off. */
  function DirentAt(s: Sector, off: nat): Dirent
    requires off + DIRENT_SIZE <= SECTOR_SIZE
  {
    Dirent(s[off..off + 28], GetU32(s, off + 28))
  }

  type Name = seq<byte>

  /** A C string without its terminator. */
  predicate ZeroFree(s: seq<byte>) {
    forall k :: 0 <= k < |s| ==> s[k] != 0
  }

  /** The bytes before the first zero. */
  function CString(s: seq<byte>): Name
    ensures |CString(s)| <= |s| && CString(s) == s[..|CString(s)|] && ZeroFree(CString(s))
    ensures |CString(s)| < |s| ==> s[|CString(s)|] == 0
  {
    if s == [] || s[0] == 0 then [] else [s[0]] + CString(s[1..])
  }

  lemma {:induction false} CStringUnique(s: seq<byte>, n: Name)
    requires |n| < |s| && ZeroFree(n) && s[..|n|] == n && s[|n|] == 0
    ensures CString(s) == n
  {
    if n != [] {
      assert s[0] == n[0];
      assert s[1..][..|n| - 1] == n[1..];
      CStringUnique(s[1..], n[1..]);
    }
  }

  /** What dir_find compares: the name without its terminator, cut at 27 bytes. */
  function Key(name: seq<byte>): (k: Name)
    ensures |k| <= MAX_NAME
  {
    if |name| > MAX_NAME then name[..MAX_NAME] else name
  }
}
