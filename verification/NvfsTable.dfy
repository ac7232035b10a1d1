/** expand_inode_table: one sector more for the inodes, and what the next mount makes of it. */
module NvfsTable {
  import opened Bytes
  import opened NvfsFormat
  import opened NvfsImage
  import opened NvfsVolume
  import opened NvfsDriver
  import opened NvfsExtents
  import opened NvfsMount

  /** The geometry after expand_inode_table. */
  function Expanded(g: Geo): Geo {
    Geo(g.offset, g.bitmapStart, g.bitmapSectors, g.inodeStart, 4 * (g.inodeBlocks + 1), g.inodeBlocks + 1, g.dataStart)
  }

  /** A sector lies between the inode table and the data. */
  predicate HasGap(g: Geo) { g.inodeStart + g.inodeBlocks < g.dataStart }

  /** The superblock once its two words are written. */
  function GrownSuper(s: Sector, blocks: u32): Sector
    requires 4 * (blocks + 1) < 0x1_0000_0000
  {
    PutU32(PutU32(s, 36, blocks + 1), 28, 4 * (blocks + 1))
  }

  lemma GrownWords(s: Sector, blocks: u32)
    requires 4 * (blocks + 1) < 0x1_0000_0000
    ensures var t := GrownSuper(s, blocks);
      && GetU32(t, 36) == blocks + 1 && GetU32(t, 28) == 4 * (blocks + 1) && (Signed(t) <==> Signed(s))
      && GetU32(t, 16) == GetU32(s, 16) && GetU32(t, 20) == GetU32(s, 20)
      && GetU32(t, 24) == GetU32(s, 24) && GetU32(t, 32) == GetU32(s, 32)
  {
    hide GetU32;
    var m := PutU32(s, 36, blocks + 1);
    assert forall o: nat :: o in {16, 20, 24, 32} ==> GetU32(m, o) == GetU32(s, o) by {
      GetPutU32(s, 36, blocks + 1, 16);
      GetPutU32(s, 36, blocks + 1, 20);
      GetPutU32(s, 36, blocks + 1, 24);
      GetPutU32(s, 36, blocks + 1, 32);
    }
    GetPutU32(s, 36, blocks + 1, 36);
    GetPutU32(m, 28, 4 * (blocks + 1), 28);
    GetPutU32(m, 28, 4 * (blocks + 1), 16);
    GetPutU32(m, 28, 4 * (blocks + 1), 20);
    GetPutU32(m, 28, 4 * (blocks + 1), 24);
    GetPutU32(m, 28, 4 * (blocks + 1), 32);
    GetPutU32(m, 28, 4 * (blocks + 1), 36);
  }

  /** Mount's check accepts the grown table exactly when there was a gap for it. */
  lemma GrownLayout(g: Geo, n: nat)
    requires GeoOk(g, n)
    ensures LayoutOk(Expanded(g)) <==> HasGap(g)
    ensures GeoOk(Expanded(g), n) <==> HasGap(g)
  {}

  /** The superblock holds the geometry g. */
  predicate Records(s: Sector, g: Geo) { Signed(s) && ParseGeo(s, g.offset) == g }

  /** The next mount of a drive whose inode table grew finds the grown table when there was a gap,
      and refuses the drive otherwise. */
  lemma NextMount(d: Image, g: Geo, s: Sector)
    requires GeoOk(g, |d|) && Records(s, g) && Sec(d, g.offset + 1) == GrownSuper(s, g.inodeBlocks)
    ensures Probe(Some(d), g.offset) == if HasGap(g) then Some(Expanded(g)) else None
  {
    hide GetU32, GrownSuper, LayoutOk;
    GrownWords(s, g.inodeBlocks);
    GrownLayout(g, |d|);
  }

  /** Without a gap, the inodes gained are the contents of data block 0. */
  lemma GainedAreData(g: Geo, d: Image, i: nat, m: Inode)
    requires GeoOk(g, |d|) && !HasGap(g) && g.inodeCount <= 4 * g.inodeBlocks <= i < 4 * (g.inodeBlocks + 1)
    ensures InodeAt(Expanded(g), d, i) == Clamp(RawInode(BlockAt(g, d, 0), INODE_SIZE * (i % 4)))
    ensures PutNode(Expanded(g), d, i, m) == PutBlock(g, d, 0, PutInode(BlockAt(g, d, 0), INODE_SIZE * (i % 4), m))
  {
    assert i / 4 == g.inodeBlocks;
  }

  /** With a gap, the grown drive shows the same blocks and marks and the old inodes, with four more
      that lie in the gap. */
  lemma GainedInGap(g: Geo, d: Image)
    requires GeoOk(g, |d|) && HasGap(g)
    ensures GeoOk(Expanded(g), |d|)
    ensures View(Expanded(g), d).used == View(g, d).used && View(Expanded(g), d).blocks == View(g, d).blocks
    ensures View(Expanded(g), d).inodes[..g.inodeCount] == View(g, d).inodes
    ensures |View(Expanded(g), d).inodes| == 4 * (g.inodeBlocks + 1)
  {
    hide InodeAt, Used, BlockAt, UsedSet;
    GrownLayout(g, |d|);
    var h := Expanded(g);
    forall i: nat ensures InodeAt(h, d, i) == InodeAt(g, d, i) && BlockAt(h, d, i) == BlockAt(g, d, i) {
      SamePlaces(g, d, i);
    }
    SameMarks(g, d);
    assert InodeSeq(h, d, h.inodeCount)[..g.inodeCount] == InodeSeq(g, d, g.inodeCount);
    assert BlockSeq(h, d, DataBlocks(h, |d|)) == BlockSeq(g, d, DataBlocks(g, |d|));
  }

  lemma SamePlaces(g: Geo, d: Image, i: nat)
    ensures InodeAt(Expanded(g), d, i) == InodeAt(g, d, i) && BlockAt(Expanded(g), d, i) == BlockAt(g, d, i)
    ensures Used(Expanded(g), d, i) == Used(g, d, i)
  {}

  lemma SameMarks(g: Geo, d: Image)
    ensures UsedSet(Expanded(g), d) == UsedSet(g, d)
  {
    hide Used;
    forall b: nat ensures Used(Expanded(g), d, b) == Used(g, d, b) { SamePlaces(g, d, b); }
  }

  // ------------------------------------------------- the code

  ghost predicate HasFreeBlock(v: Vol) {
    exists b: nat :: b < |v.blocks| && b !in v.used
  }

  /** Block b is the lowest free one. */
  ghost predicate LowestFree(v: Vol, b: nat) {
    b < |v.blocks| && b !in v.used && forall c: nat :: c < b ==> c in v.used
  }

  /** A free block is marked and cleared. */
  ghost function Taken(v: Vol, b: nat): Vol
    requires b < |v.blocks|
  {
    v.(used := v.used + {b}, blocks := v.blocks[b := ZeroSector()])
  }

  /** The lowest free block, marked and cleared. */
  method TakeBlock(dr: Drive) returns (blk: int)
    requires dr.Valid()
    modifies dr`disk, dr`vol, dr`trail, dr`history
    ensures old(dr.Logged()) ==> dr.Logged()
    ensures dr.Valid() && |dr.disk| == |old(dr.disk)| && dr.Super() == old(dr.Super())
    ensures old(dr.trail) <= dr.trail && TrailShadows(old(dr.vol), dr.trail, |old(dr.trail)|)
    ensures blk >= 0 <==> HasFreeBlock(old(dr.vol))
    ensures blk < 0 ==> dr.vol == old(dr.vol)
    ensures blk >= 0 ==> LowestFree(old(dr.vol), blk) && dr.vol == Taken(old(dr.vol), blk) && blk < Bits(dr.geo)
  {
    hide Drive.Valid, Drive.Logged, LowestFree, HasFreeBlock;
    ghost var v := dr.vol;
    dr.Sizes();
    blk := dr.BitmapFind(1);
    FoundLowest(dr.geo, v, blk);
    if blk < 0 { return; }
    var _ := dr.BitmapSet(blk, true);
    var ok := dr.WriteBlock(blk, ZeroSector());
    if !ok {
      var _ := dr.BitmapSet(blk, false);
      assert v.used + {blk} - {blk} == v.used;
      blk := -1;
    }
  }

  /** expand_inode_table: on a drive with a free block, the lowest one is taken, and the superblock
      and the geometry in memory count one sector more; otherwise nothing has changed. */
  method GrowTable(dr: Drive) returns (ok: bool, geo: Geo)
    requires dr.Valid()
    modifies dr`disk, dr`vol, dr`trail, dr`history
    ensures !ok && old(dr.Logged()) ==> dr.Logged()
    ensures dr.Valid() && |dr.disk| == |old(dr.disk)|
    ensures old(dr.trail) <= dr.trail && TrailShadows(old(dr.vol), dr.trail, |old(dr.trail)|)
    ensures ok <==> HasFreeBlock(old(dr.vol))
    ensures !ok ==> dr.vol == old(dr.vol) && geo == dr.geo
    ensures ok ==> geo == Expanded(dr.geo) && TookLowest(old(dr.vol), dr.vol)
    ensures ok && Records(old(dr.Super()), dr.geo) ==>
      Probe(Some(dr.disk), dr.geo.offset) == if HasGap(dr.geo) then Some(geo) else None
  {
    hide Drive.Valid, Drive.Logged, Probe, Records, LowestFree, HasFreeBlock, GetU32, PutU32;
    ghost var v, s := dr.vol, dr.Super();
    geo := dr.geo;
    var blk := TakeBlock(dr);
    ok := blk >= 0;
    if !ok { return; }
    TakenShadow(v, blk);
    FewBlocks(dr);
    ok := dr.SbWriteField(36, dr.geo.inodeBlocks + 1);
    if !ok { return; }
    ok := dr.SbWriteField(28, 4 * (dr.geo.inodeBlocks + 1));
    if !ok { return; }
    geo := Expanded(dr.geo);
    if Records(s, dr.geo) { NextMount(dr.disk, dr.geo, s); }
  }

  /** What inode_alloc makes of a free inode. */
  function FreshInode(kind: byte, t: u32): Inode {
    InodeFields(0, kind, t % 0x100, t / 0x100 % 0x100, t / 0x1_0000 % 0x100, 0, NoExtents(), t)
  }

  /** Inode r of the grown table written: in the gap if there is one, otherwise into data block 0. */
  ghost function Gained(g: Geo, v: Vol, r: nat, m: Inode): Vol
    requires |v.blocks| > 0
  {
    if HasGap(g) then v else v.(blocks := v.blocks[0 := PutInode(v.blocks[0], INODE_SIZE * (r % 4), m)])
  }

  lemma GainedView(g: Geo, d: Image, r: nat, m: Inode)
    requires GeoOk(g, |d|) && DataBlocks(g, |d|) > 0 && 4 * g.inodeBlocks <= r < 4 * (g.inodeBlocks + 1)
    ensures |PutNode(Expanded(g), d, r, m)| == |d|
    ensures View(g, PutNode(Expanded(g), d, r, m)) == Gained(g, View(g, d), r, m)
    ensures Sec(PutNode(Expanded(g), d, r, m), g.offset + 1) == Sec(d, g.offset + 1)
  {
    hide InodeAt, Used, RawInode, PutInode, Clamp;
    assert r / 4 == g.inodeBlocks;
    if HasGap(g) {
      GapView(g, d, PutInode(Sec(d, InodeLba(g, r)), INODE_SIZE * (r % 4), m));
    } else {
      GainedAreData(g, d, r, m);
      ViewPutBlock(g, d, 0, PutInode(BlockAt(g, d, 0), INODE_SIZE * (r % 4), m));
    }
  }

  lemma GapView(g: Geo, d: Image, s: Sector)
    requires GeoOk(g, |d|) && HasGap(g)
    ensures View(g, PutSec(d, g.offset + g.inodeStart + g.inodeBlocks, s)) == View(g, d)
  {
    hide Used, BlockAt, InodeAt;
    var e := PutSec(d, g.offset + g.inodeStart + g.inodeBlocks, s);
    PutSecAreas(g, d, g.offset + g.inodeStart + g.inodeBlocks, s);
    assert InodeSeq(g, e, g.inodeCount) == InodeSeq(g, d, g.inodeCount);
    assert BlockSeq(g, e, DataBlocks(g, |d|)) == BlockSeq(g, d, DataBlocks(g, |d|));
    assert UsedSet(g, e) == UsedSet(g, d);
  }

  /** One turn of the second loop of inode_alloc: an inode whose type byte is 0 is initialised. */
  method TryGained(dr: Drive, geo: Geo, i: nat, m: Inode) returns (took: bool)
    requires dr.Valid() && geo == Expanded(dr.geo) && |dr.vol.blocks| > 0
    requires geo.inodeCount - 4 <= i < geo.inodeCount
    modifies dr`disk, dr`vol, dr`trail, dr`history
    ensures dr.Valid() && |dr.disk| == |old(dr.disk)| && dr.Super() == old(dr.Super())
    ensures took <==> InodeAt(geo, old(dr.disk), i).kind == TYPE_FREE
    ensures took ==> dr.disk == PutNode(geo, old(dr.disk), i, m) && dr.vol == Gained(dr.geo, old(dr.vol), i, m)
    ensures took ==> dr.trail == old(dr.trail) + [dr.vol]
    ensures !took ==> dr.disk == old(dr.disk) && dr.vol == old(dr.vol) && dr.trail == old(dr.trail)
  {
    hide View, PutInode, Gained;
    dr.Sizes();
    InodePlace(i);
    assert i / 4 == dr.geo.inodeBlocks;
    var ok, buf := dr.ReadSector(geo.offset + geo.inodeStart + i * INODE_SIZE / SECTOR_SIZE);
    var off := i * INODE_SIZE % SECTOR_SIZE;
    took := ok && buf[off + 4] == TYPE_FREE;
    if took {
      GainedView(dr.geo, dr.disk, i, m);
      var rec := PackInode(buf, off, m);
      ok := dr.WriteSector(geo.offset + geo.inodeStart + i * INODE_SIZE / SECTOR_SIZE, rec);
    }
  }

  /** The second loop of inode_alloc: the first of the four inodes gained whose type byte is 0. */
  method AllocGained(dr: Drive, geo: Geo, m: Inode) returns (r: int)
    requires dr.Valid() && geo == Expanded(dr.geo) && |dr.vol.blocks| > 0
    modifies dr`disk, dr`vol, dr`trail, dr`history
    ensures dr.Valid() && |dr.disk| == |old(dr.disk)| && old(dr.trail) <= dr.trail && dr.Super() == old(dr.Super())
    ensures r == -1 || geo.inodeCount - 4 <= r < geo.inodeCount
    ensures forall i: nat :: geo.inodeCount - 4 <= i < geo.inodeCount ==>
      InodeAt(geo, old(dr.disk), i).kind == TYPE_FREE ==> 0 <= r <= i
    ensures r >= 0 ==> InodeAt(geo, old(dr.disk), r).kind == TYPE_FREE
    ensures dr.disk == if r >= 0 then PutNode(geo, old(dr.disk), r, m) else old(dr.disk)
    ensures dr.vol == if r >= 0 then Gained(dr.geo, old(dr.vol), r, m) else old(dr.vol)
  {
    hide Drive.Valid, Drive.Logged, Gained, InodeAt, PutNode;
    for i := geo.inodeCount - 4 to geo.inodeCount
      invariant forall j: nat :: geo.inodeCount - 4 <= j < i ==> InodeAt(geo, old(dr.disk), j).kind != TYPE_FREE
      invariant dr.Valid() && dr.disk == old(dr.disk) && dr.vol == old(dr.vol) && dr.trail == old(dr.trail)
    {
      var took := TryGained(dr, geo, i, m);
      if took { return i; }
    }
    r := -1;
  }

  /** The table grew by a sector and, if one of the inodes gained looked free, it was initialised. */
  ghost predicate Grew(g: Geo, v: Vol, w: Vol, r: int, m: Inode) {
    exists u: Vol :: TookLowest(v, u) && |u.blocks| > 0 && w == if r >= 0 then Gained(g, u, r, m) else u
  }

  /** inode_alloc once every inode is taken. */
  method AllocByGrowth(dr: Drive, kind: byte, now: u32) returns (r: int, geo: Geo)
    requires dr.Valid()
    modifies dr
    ensures !HasFreeBlock(old(dr.vol)) && old(dr.Logged()) ==> dr.Logged()
    ensures dr.Valid() && old(dr.trail) <= dr.trail
    ensures geo == if HasFreeBlock(old(dr.vol)) then Expanded(dr.geo) else dr.geo
    ensures !HasFreeBlock(old(dr.vol)) ==>
      r == -1 && dr.vol == old(dr.vol) && TrailShadows(dr.vol, dr.trail, |old(dr.trail)|)
    ensures HasFreeBlock(old(dr.vol)) ==> Grew(dr.geo, old(dr.vol), dr.vol, r, FreshInode(kind, now))
    ensures r < 0 ==> r == -1 && dr.errno == ERR_NO_INODE
    ensures r >= 0 ==> geo.inodeCount - 4 <= r < geo.inodeCount
    ensures HasFreeBlock(old(dr.vol)) && Records(old(dr.Super()), dr.geo) ==>
      Probe(Some(dr.disk), dr.geo.offset) == if HasGap(dr.geo) then Some(geo) else None
  {
    hide Drive.Valid, Drive.Logged, Probe, Records, HasFreeBlock, Gained, Shadow, FreshInode, InodeAt, PutNode;
    var ok;
    ok, geo := GrowTable(dr);
    if !ok { dr.errno := ERR_NO_INODE; return -1, geo; }
    ghost var d, u := dr.disk, dr.vol;
    assert TookLowest(old(dr.vol), u);
    TookSome(old(dr.vol), u);
    r := AllocGained(dr, geo, FreshInode(kind, now));
    ProbeSame(d, dr.disk, dr.geo.offset);
    if r < 0 { dr.errno := ERR_NO_INODE; }
  }

  lemma TookSome(v: Vol, w: Vol)
    requires TookLowest(v, w)
    ensures |w.blocks| > 0
  {}

  lemma ProbeSame(d: Image, e: Image, offset: nat)
    requires |d| == |e| && Sec(d, offset + 1) == Sec(e, offset + 1)
    ensures Probe(Some(d), offset) == Probe(Some(e), offset)
  {}

  ghost predicate TookLowest(v: Vol, w: Vol) {
    exists b: nat :: LowestFree(v, b) && w == Taken(v, b)
  }

  lemma TakenShadow(v: Vol, b: nat)
    requires LowestFree(v, b)
    ensures Shadow(v, Taken(v, b))
  {}

  lemma FewBlocks(dr: Drive)
    requires dr.Valid()
    ensures GeoOk(dr.geo, |dr.disk|) && 4 * (dr.geo.inodeBlocks + 1) < 0x1_0000_0000
  {}

  lemma FoundLowest(g: Geo, v: Vol, blk: int)
    requires -1 <= blk < Bits(g) && |v.blocks| <= Bits(g)
    requires blk >= 0 ==> forall b: nat :: blk <= b < blk + 1 && b < Bits(g) ==> b !in v.used
    requires forall s: nat :: s + 1 <= Bits(g) && FreeRun(v, s, 1) ==> 0 <= blk <= s
    ensures 0 <= blk < |v.blocks| <==> HasFreeBlock(v)
    ensures 0 <= blk < |v.blocks| ==> LowestFree(v, blk)
  {
    if 0 <= blk < |v.blocks| { assert blk !in v.used; }
    forall b: nat | b < |v.blocks| && b !in v.used ensures 0 <= blk <= b { assert FreeRun(v, b, 1); }
  }
}
