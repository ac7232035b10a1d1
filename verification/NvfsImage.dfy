/** A mounted NVFS volume as a value: where the bitmap, the inode table and the
    data blocks lie on the disk, which blocks every inode owns, and what the
    bitmap has to say about them. */
module NvfsImage {
  import opened NvfsFormat

  type Image = seq<Sector>

  /** The superblock fields the driver keeps in memory, and the offset of the volume on the drive. */
  datatype Geo = Geo(
    offset: nat, bitmapStart: nat, bitmapSectors: nat,
    inodeStart: nat, inodeCount: nat, inodeBlocks: nat, dataStart: nat)

  /** The layout nvfs_mount checks, on a drive of n sectors (28-bit addresses) whose
      bitmap covers its data blocks and whose inodes fit the inode table. */
  predicate GeoOk(g: Geo, n: nat) {
    && 2 <= g.bitmapStart && 0 < g.bitmapSectors && 0 < g.inodeBlocks && 0 < g.inodeCount
    && g.bitmapStart + g.bitmapSectors <= g.inodeStart
    && g.inodeStart + g.inodeBlocks <= g.dataStart
    && g.inodeCount <= 4 * g.inodeBlocks
    && g.offset + g.dataStart <= n < 0x1000_0000
    && n - g.offset - g.dataStart <= Bits(g) < 0x8000_0000
  }

  /** Number of bits in the bitmap. */
  function Bits(g: Geo): nat { BITS_PER_SECTOR * g.bitmapSectors }

  /** Number of data blocks the drive really has. */
  function DataBlocks(g: Geo, n: nat): int { n - g.offset - g.dataStart }

  // ------------------------------------------------- reading the image

  /** A sector, or zeros past the end of the drive. */
  function Sec(d: Image, lba: nat): Sector {
    if lba < |d| then d[lba] else ZeroSector()
  }

  function BitmapLba(g: Geo, b: nat): nat { g.offset + g.bitmapStart + b / BITS_PER_SECTOR }
  function InodeLba(g: Geo, i: nat): nat { g.offset + g.inodeStart + i / 4 }
  function DataLba(g: Geo, b: nat): nat { g.offset + g.dataStart + b }

  /** The bitmap bit of block b. */
  predicate Used(g: Geo, d: Image, b: nat) {
    SectorBit(Sec(d, BitmapLba(g, b)), b % BITS_PER_SECTOR)
  }

  function BlockAt(g: Geo, d: Image, b: nat): Sector {
    Sec(d, DataLba(g, b))
  }

  /** Inode i as inode_read delivers it. */
  function InodeAt(g: Geo, d: Image, i: nat): Inode {
    Clamp(RawInode(Sec(d, InodeLba(g, i)), INODE_SIZE * (i % 4)))
  }

  // ------------------------------------------------- writing the image

  function PutSec(d: Image, lba: nat, s: Sector): Image
  {
    if lba < |d| then d[lba := s] else d
  }

  function SetUsed(g: Geo, d: Image, b: nat, on: bool): Image {
    PutSec(d, BitmapLba(g, b), PutSectorBit(Sec(d, BitmapLba(g, b)), b % BITS_PER_SECTOR, on))
  }

  function PutBlock(g: Geo, d: Image, b: nat, s: Sector): Image {
    PutSec(d, DataLba(g, b), s)
  }

  function PutNode(g: Geo, d: Image, i: nat, n: Inode): Image {
    PutSec(d, InodeLba(g, i), PutInode(Sec(d, InodeLba(g, i)), INODE_SIZE * (i % 4), n))
  }

  /** The sectors before the bitmap are the same. */
  ghost predicate SameHead(g: Geo, d: Image, e: Image) {
    |d| == |e| && forall l :: 0 <= l < g.offset + g.bitmapStart && l < |d| ==> d[l] == e[l]
  }

  ghost predicate SameBits(g: Geo, d: Image, e: Image) {
    forall b: nat {:trigger Used(g, e, b)} :: b < Bits(g) ==> Used(g, e, b) == Used(g, d, b)
  }

  ghost predicate SameInodes(g: Geo, d: Image, e: Image) {
    forall i: nat {:trigger InodeAt(g, e, i)} :: i < g.inodeCount ==> InodeAt(g, e, i) == InodeAt(g, d, i)
  }

  ghost predicate SameBlocks(g: Geo, d: Image, e: Image) {
    forall b: nat {:trigger BlockAt(g, e, b)} :: b < DataBlocks(g, |d|) ==> BlockAt(g, e, b) == BlockAt(g, d, b)
  }

  /** e differs from d in the bit of block b only. */
  ghost predicate OneBit(g: Geo, d: Image, e: Image, b: nat, on: bool) {
    && |e| == |d| && SameInodes(g, d, e) && SameBlocks(g, d, e)
    && forall c: nat {:trigger Used(g, e, c)} :: c < Bits(g) ==> Used(g, e, c) == if c == b then on else Used(g, d, c)
  }

  /** e differs from d in the contents of data block b only. */
  ghost predicate OneBlock(g: Geo, d: Image, e: Image, b: nat, s: Sector) {
    && |e| == |d| && SameInodes(g, d, e) && SameBits(g, d, e)
    && forall c: nat {:trigger BlockAt(g, e, c)} :: c < DataBlocks(g, |d|) ==>
         BlockAt(g, e, c) == if c == b then s else BlockAt(g, d, c)
  }

  /** e differs from d in inode i only. */
  ghost predicate OneInode(g: Geo, d: Image, e: Image, i: nat, n: Inode) {
    && |e| == |d| && SameBlocks(g, d, e) && SameBits(g, d, e)
    && forall j: nat {:trigger InodeAt(g, e, j)} :: j < g.inodeCount ==>
         InodeAt(g, e, j) == if j == i then Clamp(n) else InodeAt(g, d, j)
  }

  lemma KeepsBlocks(g: Geo, d: Image, lba: nat, s: Sector)
    requires lba < g.offset + g.dataStart
    ensures SameBlocks(g, d, PutSec(d, lba, s))
  {}

  lemma KeepsInodes(g: Geo, d: Image, lba: nat, s: Sector)
    requires g.inodeCount <= 4 * g.inodeBlocks
    requires !(g.offset + g.inodeStart <= lba < g.offset + g.inodeStart + g.inodeBlocks)
    ensures SameInodes(g, d, PutSec(d, lba, s))
  {
    hide RawInode, Clamp;
  }

  lemma KeepsBits(g: Geo, d: Image, lba: nat, s: Sector)
    requires !(g.offset + g.bitmapStart <= lba < g.offset + g.bitmapStart + g.bitmapSectors)
    ensures SameBits(g, d, PutSec(d, lba, s))
  {
    hide SectorBit;
  }

  /** A sector write outside the data blocks leaves them alone, and so on for the other two areas. */
  lemma PutSecAreas(g: Geo, d: Image, lba: nat, s: Sector)
    requires GeoOk(g, |d|)
    ensures lba < g.offset + g.dataStart ==> SameBlocks(g, d, PutSec(d, lba, s))
    ensures !(g.offset + g.inodeStart <= lba < g.offset + g.inodeStart + g.inodeBlocks) ==>
      SameInodes(g, d, PutSec(d, lba, s))
    ensures lba < g.offset + g.bitmapStart || g.offset + g.inodeStart <= lba ==> SameBits(g, d, PutSec(d, lba, s))
  {
    hide SameBlocks, SameInodes, SameBits, PutSec;
    if lba < g.offset + g.dataStart { KeepsBlocks(g, d, lba, s); }
    if !(g.offset + g.inodeStart <= lba < g.offset + g.inodeStart + g.inodeBlocks) { KeepsInodes(g, d, lba, s); }
    if lba < g.offset + g.bitmapStart || g.offset + g.inodeStart <= lba { KeepsBits(g, d, lba, s); }
  }

  lemma SetUsedBit(g: Geo, d: Image, b: nat, on: bool, c: nat)
    requires GeoOk(g, |d|) && b < Bits(g) && c < Bits(g)
    ensures Used(g, SetUsed(g, d, b, on), c) == if c == b then on else Used(g, d, c)
  {
    SectorBitLaw(Sec(d, BitmapLba(g, b)), b % BITS_PER_SECTOR, on, c % BITS_PER_SECTOR);
  }

  /** bitmap_set changes the bit of one block and nothing else on the volume. */
  lemma SetUsedLaw(g: Geo, d: Image, b: nat, on: bool)
    requires GeoOk(g, |d|) && b < Bits(g)
    ensures OneBit(g, d, SetUsed(g, d, b, on), b, on)
  {
    PutSecAreas(g, d, BitmapLba(g, b), PutSectorBit(Sec(d, BitmapLba(g, b)), b % BITS_PER_SECTOR, on));
    forall c: nat | c < Bits(g)
      ensures Used(g, SetUsed(g, d, b, on), c) == if c == b then on else Used(g, d, c)
    {
      SetUsedBit(g, d, b, on, c);
    }
  }

  /** A data block write changes that block and nothing else on the volume. */
  lemma PutBlockLaw(g: Geo, d: Image, b: nat, s: Sector)
    requires GeoOk(g, |d|)
    ensures OneBlock(g, d, PutBlock(g, d, b, s), b, s)
  {
    PutSecAreas(g, d, DataLba(g, b), s);
  }

  lemma PutNodeOne(g: Geo, d: Image, i: nat, n: Inode, j: nat)
    requires GeoOk(g, |d|) && i < g.inodeCount && j < g.inodeCount
    ensures InodeAt(g, PutNode(g, d, i, n), j) == if j == i then Clamp(n) else InodeAt(g, d, j)
  {
    var s := Sec(d, InodeLba(g, i));
    if j == i {
      InodeRoundTrip(s, INODE_SIZE * (i % 4), n);
    } else if j / 4 == i / 4 {
      InodeNeighbour(s, INODE_SIZE * (i % 4), n, INODE_SIZE * (j % 4));
    }
  }

  /** An inode write changes that inode and nothing else on the volume. */
  lemma PutNodeLaw(g: Geo, d: Image, i: nat, n: Inode)
    requires GeoOk(g, |d|) && i < g.inodeCount
    ensures OneInode(g, d, PutNode(g, d, i, n), i, n)
  {
    PutSecAreas(g, d, InodeLba(g, i), PutInode(Sec(d, InodeLba(g, i)), INODE_SIZE * (i % 4), n));
    forall j: nat | j < g.inodeCount
      ensures InodeAt(g, PutNode(g, d, i, n), j) == if j == i then Clamp(n) else InodeAt(g, d, j)
    {
      PutNodeOne(g, d, i, n, j);
    }
  }
}
