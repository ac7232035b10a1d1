/** The volume behind an image: the set of blocks marked in the bitmap, the inode
    table and the data blocks.  Ownership of blocks, the contents of inodes and the
    effect of the three kinds of sector writes are stated here. */
module NvfsVolume {
  import opened Bytes
  import opened Collections
  import opened NvfsFormat
  import opened NvfsImage

  datatype Vol = Vol(used: set<nat>, inodes: seq<Inode>, blocks: seq<Sector>)

  // ------------------------------------------------- from image to volume

  ghost function InodeSeq(g: Geo, d: Image, n: nat): (s: seq<Inode>)
    ensures |s| == n
    ensures forall i: nat :: i < n ==> s[i] == InodeAt(g, d, i)
  {
    if n == 0 then [] else InodeSeq(g, d, n - 1) + [InodeAt(g, d, n - 1)]
  }

  ghost function BlockSeq(g: Geo, d: Image, n: nat): (s: seq<Sector>)
    ensures |s| == n
    ensures forall b: nat :: b < n ==> s[b] == BlockAt(g, d, b)
  {
    if n == 0 then [] else BlockSeq(g, d, n - 1) + [BlockAt(g, d, n - 1)]
  }

  ghost function UsedSet(g: Geo, d: Image): set<nat> {
    set b: nat | b < Bits(g) && Used(g, d, b)
  }

  ghost function View(g: Geo, d: Image): Vol
    requires GeoOk(g, |d|)
  {
    Vol(UsedSet(g, d), InodeSeq(g, d, g.inodeCount), BlockSeq(g, d, DataBlocks(g, |d|)))
  }

  /** A volume behind other sectors is the same volume at a later offset. */
  lemma ViewBehind(g: Geo, before: Image, d: Image)
    requires GeoOk(g, |d|) && |before| + |d| < 0x1000_0000
    ensures GeoOk(g.(offset := |before| + g.offset), |before + d|)
    ensures View(g.(offset := |before| + g.offset), before + d) == View(g, d)
  {
    hide Used, BlockAt, InodeAt;
    var h, e := g.(offset := |before| + g.offset), before + d;
    forall b: nat
      ensures (Used(h, e, b) <==> Used(g, d, b)) && BlockAt(h, e, b) == BlockAt(g, d, b)
      ensures InodeAt(h, e, b) == InodeAt(g, d, b)
    {
      ReadsBehind(g, before, d, b);
    }
    assert UsedSet(h, e) == UsedSet(g, d);
    assert InodeSeq(h, e, g.inodeCount) == InodeSeq(g, d, g.inodeCount);
    assert BlockSeq(h, e, DataBlocks(h, |e|)) == BlockSeq(g, d, DataBlocks(g, |d|));
  }

  lemma ReadsBehind(g: Geo, before: Image, d: Image, b: nat)
    ensures var h, e := g.(offset := |before| + g.offset), before + d;
      && (Used(h, e, b) <==> Used(g, d, b)) && BlockAt(h, e, b) == BlockAt(g, d, b)
      && InodeAt(h, e, b) == InodeAt(g, d, b)
  {
    SecBehind(before, d, BitmapLba(g, b));
    SecBehind(before, d, DataLba(g, b));
    SecBehind(before, d, InodeLba(g, b));
    hide Sec, RawInode, SectorBit, Clamp;
  }

  lemma SecBehind(before: Image, d: Image, lba: nat)
    ensures Sec(before + d, |before| + lba) == Sec(d, lba)
  {}

  /** bitmap_set seen on the volume. */
  lemma ViewSetUsed(g: Geo, d: Image, b: nat, on: bool)
    requires GeoOk(g, |d|) && b < Bits(g)
    ensures |SetUsed(g, d, b, on)| == |d|
    ensures View(g, SetUsed(g, d, b, on)) ==
      View(g, d).(used := if on then View(g, d).used + {b} else View(g, d).used - {b})
  {
    hide SetUsed, InodeAt, Used, UsedSet;
    SetUsedLaw(g, d, b, on);
    var e := SetUsed(g, d, b, on);
    assert InodeSeq(g, e, g.inodeCount) == InodeSeq(g, d, g.inodeCount);
    assert BlockSeq(g, e, DataBlocks(g, |d|)) == BlockSeq(g, d, DataBlocks(g, |d|));
    UsedSetOne(g, d, e, b, on);
  }

  lemma UsedSetOne(g: Geo, d: Image, e: Image, b: nat, on: bool)
    requires b < Bits(g) && OneBit(g, d, e, b, on)
    ensures UsedSet(g, e) == if on then UsedSet(g, d) + {b} else UsedSet(g, d) - {b}
  {
    hide Used, SameInodes, SameBlocks;
  }

  /** A data block write seen on the volume. */
  lemma ViewPutBlock(g: Geo, d: Image, b: nat, s: Sector)
    requires GeoOk(g, |d|) && b < DataBlocks(g, |d|)
    ensures |PutBlock(g, d, b, s)| == |d|
    ensures View(g, PutBlock(g, d, b, s)) == View(g, d).(blocks := View(g, d).blocks[b := s])
  {
    hide InodeAt, Used, BlockAt, PutBlock;
    PutBlockLaw(g, d, b, s);
    var e := PutBlock(g, d, b, s);
    assert InodeSeq(g, e, g.inodeCount) == InodeSeq(g, d, g.inodeCount);
    assert BlockSeq(g, e, DataBlocks(g, |d|)) == BlockSeq(g, d, DataBlocks(g, |d|))[b := s];
    assert UsedSet(g, e) == UsedSet(g, d);
  }

  /** An inode write seen on the volume. */
  lemma ViewPutNode(g: Geo, d: Image, i: nat, n: Inode)
    requires GeoOk(g, |d|) && i < g.inodeCount
    ensures |PutNode(g, d, i, n)| == |d|
    ensures View(g, PutNode(g, d, i, n)) == View(g, d).(inodes := View(g, d).inodes[i := Clamp(n)])
  {
    hide InodeAt, Used, BlockAt, PutNode, Clamp;
    PutNodeLaw(g, d, i, n);
    var e := PutNode(g, d, i, n);
    assert InodeSeq(g, e, g.inodeCount) == InodeSeq(g, d, g.inodeCount)[i := Clamp(n)];
    assert BlockSeq(g, e, DataBlocks(g, |d|)) == BlockSeq(g, d, DataBlocks(g, |d|));
    assert UsedSet(g, e) == UsedSet(g, d);
  }

  /** A write to the superblock is not seen on the volume. */
  lemma ViewPutSuper(g: Geo, d: Image, s: Sector)
    requires GeoOk(g, |d|)
    ensures |PutSec(d, g.offset + 1, s)| == |d| && View(g, PutSec(d, g.offset + 1, s)) == View(g, d)
  {
    hide InodeAt, Used, BlockAt;
    PutSecAreas(g, d, g.offset + 1, s);
    var e := PutSec(d, g.offset + 1, s);
    assert InodeSeq(g, e, g.inodeCount) == InodeSeq(g, d, g.inodeCount);
    assert BlockSeq(g, e, DataBlocks(g, |d|)) == BlockSeq(g, d, DataBlocks(g, |d|));
    assert UsedSet(g, e) == UsedSet(g, d);
  }

  // ------------------------------------------------- extents and blocks

  function Blk(v: Vol, b: nat): Sector {
    if b < |v.blocks| then v.blocks[b] else ZeroSector()
  }

  /** extent_load_all: the direct extents, then those of the indirect block. */
  function ExtentsOf(v: Vol, n: Inode): seq<Extent> {
    if n.extentCount <= DIRECT_EXTENTS then n.extents[..n.extentCount]
    else
      n.extents[..DIRECT_EXTENTS]
      + ExtentsFrom(Blk(v, n.extents[DIRECT_EXTENTS].start), 0,
                    if n.extentCount - DIRECT_EXTENTS > INDIRECT_ENTS then INDIRECT_ENTS
                    else n.extentCount - DIRECT_EXTENTS)
  }

  /** The blocks of one extent. */
  function Run(start: nat, count: nat): (r: seq<nat>)
    ensures |r| == count
    ensures forall j :: 0 <= j < count ==> r[j] == start + j
  {
    if count == 0 then [] else Run(start, count - 1) + [start + count - 1]
  }

  /** The data blocks of a list of extents, in file order. */
  function BlockList(es: seq<Extent>): seq<nat> {
    if es == [] then [] else BlockList(es[..|es| - 1]) + Run(es[|es| - 1].start, es[|es| - 1].count)
  }

  function IndirectBlock(n: Inode): seq<nat> {
    if n.extentCount > DIRECT_EXTENTS then [n.extents[DIRECT_EXTENTS].start] else []
  }

  /** Every block an inode points at: its data blocks and its indirect block. */
  function RefsOf(v: Vol, n: Inode): seq<nat> {
    BlockList(ExtentsOf(v, n)) + IndirectBlock(n)
  }

  /** The blocks owned by inode i; a free inode owns none. */
  function Owned(v: Vol, i: nat): seq<nat>
    requires i < |v.inodes|
  {
    if v.inodes[i].kind == TYPE_FREE then [] else RefsOf(v, v.inodes[i])
  }

  function Load(v: Vol, bs: seq<nat>): (r: seq<Sector>)
    ensures |r| == |bs|
    ensures forall k :: 0 <= k < |bs| ==> r[k] == Blk(v, bs[k])
  {
    if bs == [] then [] else Load(v, bs[..|bs| - 1]) + [Blk(v, bs[|bs| - 1])]
  }

  /** What an inode holds: its type, its size and the contents of its data blocks. */
  datatype Obj = Obj(kind: byte, size: u32, blocks: seq<Sector>)

  function ObjOf(v: Vol, n: Inode): Obj {
    Obj(n.kind, n.size, Load(v, BlockList(ExtentsOf(v, n))))
  }

  function Objects(v: Vol): map<nat, Obj> {
    map i: nat | i < |v.inodes| && v.inodes[i].kind != TYPE_FREE :: ObjOf(v, v.inodes[i])
  }

  // ------------------------------------------------- block ownership

  ghost predicate Apart(s: seq<nat>, t: seq<nat>) {
    forall b :: b in s ==> b !in t
  }

  ghost predicate Referenced(v: Vol, b: nat) {
    exists i: nat :: i < |v.inodes| && b in Owned(v, i)
  }

  ghost predicate SoundInode(v: Vol, leaked: set<nat>, i: nat)
    requires i < |v.inodes|
  {
    && NoDup(Owned(v, i))
    && forall b :: b in Owned(v, i) ==> b < |v.blocks| && b in v.used && b !in leaked
  }

  ghost predicate Disjoint(v: Vol) {
    forall i: nat, j: nat :: i < j < |v.inodes| ==> Apart(Owned(v, i), Owned(v, j))
  }

  /** Block ownership: no block is referenced twice, every referenced block is on the
      drive and marked in the bitmap, and the marked blocks that nothing references
      are exactly those in `leaked`. */
  ghost predicate Acct(v: Vol, leaked: set<nat>) {
    && (forall i: nat :: i < |v.inodes| ==> SoundInode(v, leaked, i))
    && Disjoint(v)
    && (forall b: nat :: b < |v.blocks| && b in v.used ==> b in leaked || Referenced(v, b))
    && (forall b: nat :: b in leaked ==> b < |v.blocks| && b in v.used)
  }

  /** Two volumes that agree on an inode and on every block it references agree on
      its extents, its blocks and its contents. */
  lemma Frame(v: Vol, w: Vol, n: Inode)
    requires forall b :: b in RefsOf(v, n) ==> Blk(w, b) == Blk(v, b)
    ensures RefsOf(w, n) == RefsOf(v, n) && ExtentsOf(w, n) == ExtentsOf(v, n)
    ensures ObjOf(w, n) == ObjOf(v, n)
  {
    if n.extentCount > DIRECT_EXTENTS {
      assert n.extents[DIRECT_EXTENTS].start in RefsOf(v, n);
    }
    assert ExtentsOf(w, n) == ExtentsOf(v, n);
    var bs := BlockList(ExtentsOf(v, n));
    forall k | 0 <= k < |bs| ensures Load(w, bs)[k] == Load(v, bs)[k] {
      assert bs[k] in RefsOf(v, n);
    }
    assert Load(w, bs) == Load(v, bs);
  }
}
