/** dir_add: insertion into a directory, by reusing a cleared slot or by growing the directory. */
module NvfsDirAdd {
  import opened Bytes
  import opened Collections
  import opened NvfsFormat
  import opened NvfsImage
  import opened NvfsVolume
  import opened NvfsDriver
  import opened NvfsExtents
  import opened NvfsSlots
  import opened NvfsOwnership
  import opened NvfsCommit
  import opened NvfsFiles
  import opened NvfsTable
  import opened NvfsDirs
  import opened NvfsDirScan
  import opened NvfsGrow

  // ------------------------------------------------- the slot tables

  lemma FilledTable(secs: seq<Sector>, p: nat, e: nat, name: seq<byte>, child: u32)
    requires p < |secs| && e < ENTRIES_PER_SECTOR && TableOk(Slots(secs)) && Row(secs[p])[e].inode == 0
    requires ZeroFree(name) && 0 < child < 0x8000_0000 && Key(name) !in Entries(Slots(secs))
    ensures TableOk(Slots(secs[p := PutDirent(secs[p], e, DirentBytes(name, child))]))
    ensures Entries(Slots(secs[p := PutDirent(secs[p], e, DirentBytes(name, child))])) ==
      Entries(Slots(secs))[Key(name) := child]
  {
    hide Slots, Row, Unique, Entries, CString, DirentBytes, PutDirent;
    var nd := DirentBytes(name, child);
    var t := PutDirent(secs[p], e, nd);
    DirentRead(secs[p], e, nd);
    DirentHolds(name, child);
    forall f: nat | f < ENTRIES_PER_SECTOR && f != e ensures Row(t)[f] == Row(secs[p])[f] {
      DirentOther(secs[p], e, nd, f);
    }
    SlotAt(secs, p, e);
    SlotsPut(secs, p, e, t);
    FillSlot(Slots(secs), ENTRIES_PER_SECTOR * p + e, Row(t)[e]);
  }

  /** The block dir_add starts when no slot is free. */
  function FirstBlock(name: seq<byte>, child: u32): Sector {
    DirentBytes(name, child) + Zeros(SECTOR_SIZE - DIRENT_SIZE)
  }

  lemma FirstRow(name: seq<byte>, child: u32)
    ensures Row(FirstBlock(name, child))[0] ==
      Dirent(DirentBytes(name, child)[..28], GetU32(DirentBytes(name, child), 28))
    ensures forall f: nat :: 0 < f < ENTRIES_PER_SECTOR ==> Row(FirstBlock(name, child))[f].inode == 0
  {
    hide DirentBytes;
    var s := FirstBlock(name, child);
    var nd := DirentBytes(name, child);
    assert s[0..28] == nd[..28];
    assert s[28] == nd[28] && s[29] == nd[29] && s[30] == nd[30] && s[31] == nd[31];
    forall f: nat | 0 < f < ENTRIES_PER_SECTOR ensures Row(s)[f].inode == 0 {
      var o := DIRENT_SIZE * f + 28;
      assert s[o] == 0 && s[o + 1] == 0 && s[o + 2] == 0 && s[o + 3] == 0;
    }
  }

  lemma OneRowMore(secs: seq<Sector>, s: Sector)
    ensures Slots(secs + [s]) == Slots(secs) + [Row(s)[0]] + Row(s)[1..]
  {
    hide Row;
    assert (secs + [s])[..|secs|] == secs;
    assert Row(s) == [Row(s)[0]] + Row(s)[1..];
  }

  lemma GrownTable(secs: seq<Sector>, name: seq<byte>, child: u32)
    requires TableOk(Slots(secs)) && ZeroFree(name) && 0 < child < 0x8000_0000 && Key(name) !in Entries(Slots(secs))
    ensures TableOk(Slots(secs + [FirstBlock(name, child)]))
    ensures Entries(Slots(secs + [FirstBlock(name, child)])) == Entries(Slots(secs))[Key(name) := child]
  {
    hide Slots, Row, Unique, Entries, CString, DirentBytes, FirstBlock, ZeroFree, Key;
    var s := FirstBlock(name, child);
    FirstRow(name, child);
    DirentHolds(name, child);
    OneRowMore(secs, s);
    AddSlots(Slots(secs), Row(s)[0], Row(s)[1..]);
  }

  // ------------------------------------------------- when there is room

  ghost predicate HasSlot(v: Vol, dir: nat)
    requires dir < |v.inodes|
  {
    exists k :: 0 <= k < |Table(v, dir)| && Table(v, dir)[k].inode == 0
  }

  ghost predicate TwoFreeBlocks(v: Vol) {
    exists a: nat, b: nat :: a < b < |v.blocks| && a !in v.used && b !in v.used
  }

  /** A directory takes a new block as long as it has at most 13 extents. */
  ghost predicate Growable(v: Vol, dir: nat)
    requires dir < |v.inodes|
  {
    if v.inodes[dir].extentCount == DIRECT_EXTENTS then TwoFreeBlocks(v) else HasFreeBlock(v)
  }

  /** Reserving one of two free blocks leaves the other. */
  lemma SecondBlock(v: Vol, w: Vol, blk: nat)
    requires Reserved(v, w, {blk})
    ensures HasFreeBlock(w) <==> TwoFreeBlocks(v)
  {
    if HasFreeBlock(w) {
      var b: nat :| b < |w.blocks| && b !in w.used;
      assert b != blk && b !in v.used;
      assert blk !in v.used;
      if b < blk { assert TwoFreeBlocks(v); }
    }
    if TwoFreeBlocks(v) {
      var a: nat, b: nat :| a < b < |v.blocks| && a !in v.used && b !in v.used;
      assert a !in w.used || b !in w.used;
    }
  }

  // ------------------------------------------------- the code

  /** A marked block past the end of the drive is nobody's. */
  lemma MarkedOutside(v: Vol, leaked: set<nat>, blk: nat)
    requires Acct(v, leaked) && |v.inodes| > 0 && blk >= |v.blocks|
    ensures Acct(v.(used := v.used + {blk}), leaked) && Objects(v.(used := v.used + {blk})) == Objects(v)
    ensures Shadow(v, v.(used := v.used + {blk}))
  {
    RebooksAcct(v, leaked, v.(used := v.used + {blk}), leaked);
  }

  /** The error when a directory cannot grow.  With no block left, bitmap_find still finds the bits
      that the bitmap has beyond the end of the drive, and then the write of the block fails. */
  ghost function FullError(g: Geo, v: Vol): int {
    if !HasFreeBlock(v) && Spare(g, v) then ERR_IO else ERR_NO_SPACE
  }

  /** A bit beyond the end of the drive is not marked. */
  ghost predicate Spare(g: Geo, v: Vol) {
    exists b: nat :: |v.blocks| <= b < Bits(g) && b !in v.used
  }

  /** bitmap_find and bitmap_set for the new block, and its contents. */
  method StartBlock(dr: Drive, s: Sector, ghost v: Vol, ghost leaked: set<nat>) returns (ok: bool, blk: int)
    requires dr.Valid() && dr.vol == v && Acct(v, leaked)
    modifies dr
    ensures old(dr.Logged()) ==> dr.Logged()
    ensures dr.Valid() && old(dr.trail) <= dr.trail && TrailShadows(v, dr.trail, |old(dr.trail)|)
    ensures ok <==> HasFreeBlock(v)
    ensures ok ==> 0 <= blk < |v.blocks| < 0x8000_0000 && Reserved(v, dr.vol, {blk}) && Blk(dr.vol, blk) == s
    ensures !ok ==> Acct(dr.vol, leaked) && Objects(dr.vol) == Objects(v) && dr.errno == FullError(dr.geo, v)
    ensures dr.vol.inodes == v.inodes
  {
    hide Drive.Valid, Drive.Logged, Acct, Objects, Shadow, Reserved, HasFreeBlock;
    dr.Sizes();
    FreeBlockRuns(v);
    NothingReserved(v);
    blk := dr.BitmapFind(1);
    forall b: nat | b < Bits(dr.geo) && b !in v.used ensures blk >= 0 { assert FreeRun(v, b, 1); }
    if blk < 0 { dr.errno := ERR_NO_SPACE; return false, blk; }
    if blk < |v.blocks| {
      assert FreeRun(v, blk, 1);
      ReserveStep(v, v, {}, blk, s);
      RewriteReserved(v, v.(used := v.used + {blk}), {blk}, blk, s);
      assert {} + {blk as nat} == {blk as nat};
    } else {
      MarkedOutside(v, leaked, blk);
    }
    var _ := dr.BitmapSet(blk, true);
    ok := dr.WriteBlock(blk, s);
    if !ok { dr.errno := ERR_IO; }
  }

  lemma NothingReserved(v: Vol)
    ensures Reserved(v, v, {})
  {}

  /** The part of dir_add that allocates a block, for at most 13 extents. */
  method AddBlock(dr: Drive, dir: nat, n: Inode, name: seq<byte>, child: u32, now: u32, ghost leaked: set<nat>)
    returns (ok: bool, ghost after: Obj)
    requires dr.Valid() && Acct(dr.vol, leaked) && IsDir(dr.vol, dir) && n == dr.vol.inodes[dir]
    requires n.extentCount <= DIRECT_EXTENTS
    modifies dr
    ensures old(dr.Logged()) ==> dr.Logged()
    ensures dr.Valid() && old(dr.trail) <= dr.trail
    ensures ok <==> Growable(old(dr.vol), dir)
    ensures ok ==> after.kind == TYPE_DIR
    ensures ok ==> after.blocks == Load(old(dr.vol), BlockList(ExtentsOf(old(dr.vol), n))) + [FirstBlock(name, child)]
    ensures ok ==> dir < |dr.vol.inodes| && dr.vol.inodes[dir].mtime == now
    ensures ok ==> after.size == (n.size + 512) % 0x1_0000_0000
    ensures ok ==> Acct(dr.vol, leaked) && Objects(dr.vol) == Objects(old(dr.vol))[dir := after]
    ensures !ok ==>
      && Acct(dr.vol, leaked) && Objects(dr.vol) == Objects(old(dr.vol))
      && dr.errno == FullError(dr.geo, old(dr.vol))
    ensures !ok ==> dr.vol.inodes == old(dr.vol).inodes
    ensures Plain(old(dr.vol)) ==> Plain(dr.vol)
    ensures TrailEitherOr(dr.trail, |old(dr.trail)|, Objects(old(dr.vol)), Objects(dr.vol))
  {
    hide Drive.Valid, Drive.Logged, Acct, Objects, Shadow, Reserved, HasFreeBlock, TwoFreeBlocks, Extended, BlockList,
      ExtentsOf, FirstBlock, PlainTable;
    ghost var v := dr.vol;
    dr.Sizes();
    after := Obj(0, 0, []);
    var blk;
    ok, blk := StartBlock(dr, FirstBlock(name, child), v, leaked);
    if !ok {
      TwoIsMore(v);
      ShadowsAreOld(v, leaked, dr.trail, |old(dr.trail)|, Objects(dr.vol));
      return;
    }
    SecondBlock(v, dr.vol, blk);
    ghost var one := |dr.trail|;
    ghost var w := dr.vol;
    var m; ghost var ind;
    ok, m, ind := DirAddExtent(dr, n, blk, v);
    assert TrailShadows(v, dr.trail, |old(dr.trail)|);
    if !ok {
      Unreserve(v, dr.vol, blk);
      var _ := dr.BitmapSet(blk, false);
      ShadowKeeps(v, leaked, dr.vol);
      ShadowTable(v, dr.vol);
      ShadowsAreOld(v, leaked, dr.trail, |old(dr.trail)|, Objects(dr.vol));
      return;
    }
    ghost var x := dr.vol;
    ExtendedCommit(v, leaked, x, dir, m, blk, ind, now);
    ExtendedSmall(v, x, n, m, blk, ind, now);
    ReservedApart(v, x, {blk as nat} + SeqSet(ind));
    after := Obj(m.kind, m.size, Load(v, BlockList(ExtentsOf(v, n))) + [FirstBlock(name, child)]);
    ObjSelf(v, dir);
    PlainGrow(v.inodes, Objects(v), dir, Stamped(m, now), after, 1);
    ShadowsAreOld(v, leaked, dr.trail, |old(dr.trail)|, Objects(v)[dir := after]);
    ok := dr.InodeWrite(dir, Stamped(m, now));
  }

  lemma TwoIsMore(v: Vol)
    ensures TwoFreeBlocks(v) ==> HasFreeBlock(v)
  {}

  lemma Unreserve(v: Vol, w: Vol, blk: nat)
    requires Reserved(v, w, {blk})
    ensures Shadow(v, w.(used := w.used - {blk})) && w.used - {blk} == v.used
  {}

  lemma ExtendedSmall(v: Vol, w: Vol, n: Inode, m: Inode, block: u32, ind: seq<nat>, now: u32)
    requires Extended(v, w, n, m, block, ind)
    ensures Clamp(Stamped(m, now)) == Stamped(m, now) && m.kind == n.kind && m.extentCount <= n.extentCount + 1
    ensures m.size == (n.size + 512) % 0x1_0000_0000
  {
    ExtentNumber(v, n);
    ExtentNumber(w, m);
  }

  lemma ExtentNumber(v: Vol, n: Inode)
    requires n.extentCount <= MAX_EXTENTS
    ensures |ExtentsOf(v, n)| == n.extentCount
  {}

  // ------------------------------------------------- the fifteenth extent

  lemma FullFrame(v: Vol, w: Vol, n: Inode, s: Sector)
    requires n.extentCount == MAX_EXTENTS && n.extents[DIRECT_EXTENTS].start < |v.blocks|
    requires n.extents[DIRECT_EXTENTS].start !in BlockList(ExtentsOf(v, n))
    requires ExtentsFrom(s, 0, 1) == ExtentsFrom(v.blocks[n.extents[DIRECT_EXTENTS].start], 0, 1)
    requires w == v.(blocks := v.blocks[n.extents[DIRECT_EXTENTS].start := s])
    ensures ExtentsOf(w, n) == ExtentsOf(v, n) && RefsOf(w, n) == RefsOf(v, n) && ObjOf(w, n) == ObjOf(v, n)
  {
    assert ExtentsOf(w, n) == ExtentsOf(v, n);
    hide ExtentsOf, BlockList;
    var bs := BlockList(ExtentsOf(v, n));
    forall k | 0 <= k < |bs| ensures Load(w, bs)[k] == Load(v, bs)[k] { assert bs[k] in bs; }
    assert Load(w, bs) == Load(v, bs);
  }

  /** Writing a fifteenth extent into the indirect block and reading the inode back changes
      nothing but the size field. */
  lemma FullKeeps(v: Vol, leaked: set<nat>, i: nat, s: Sector)
    requires Acct(v, leaked) && i < |v.inodes| && v.inodes[i].kind != TYPE_FREE
    requires v.inodes[i].extentCount == MAX_EXTENTS
    requires v.inodes[i].extents[DIRECT_EXTENTS].start < |v.blocks|
    requires ExtentsFrom(s, 0, 1) == ExtentsFrom(v.blocks[v.inodes[i].extents[DIRECT_EXTENTS].start], 0, 1)
    ensures Acct(v.(blocks := v.blocks[v.inodes[i].extents[DIRECT_EXTENTS].start := s]), leaked)
    ensures Objects(v.(blocks := v.blocks[v.inodes[i].extents[DIRECT_EXTENTS].start := s])) == Objects(v)
  {
    hide Acct, Moves, Objects, ObjOf, RefsOf, ExtentsOf, BlockList, NoDup, ExtentsFrom;
    var n := v.inodes[i];
    var b := n.extents[DIRECT_EXTENTS].start;
    var w := v.(blocks := v.blocks[b := s]);
    OwnBlocks(v, leaked, i);
    FullFrame(v, w, n, s);
    RefsInclude(v, n);
    RewriteMoves(v, leaked, i, b, s);
    MovesAcct(v, leaked, w, leaked, i);
    MovesObjects(v, leaked, w, leaked, i);
    ObjSelf(v, i);
  }

  function Oversized(n: Inode, count: u32): Inode {
    InodeFields((n.size + SECTOR_SIZE) % 0x1_0000_0000, n.kind, n.c0, n.c1, n.c2, count, n.extents, n.mtime)
  }

  lemma OversizedSwitch(v: Vol, leaked: set<nat>, i: nat, now: u32)
    requires Acct(v, leaked) && i < |v.inodes| && v.inodes[i].kind != TYPE_FREE
    requires v.inodes[i].extentCount == MAX_EXTENTS
    ensures var m := Stamped(Oversized(v.inodes[i], MAX_EXTENTS), now);
      Acct(Switch(v, i, m), leaked) &&
      Objects(Switch(v, i, m)) == Objects(v)[i := Obj(m.kind, m.size, ObjOf(v, v.inodes[i]).blocks)]
  {
    var n := v.inodes[i];
    var m := Stamped(Oversized(n, MAX_EXTENTS), now);
    assert SoundInode(v, leaked, i);
    assert RefsOf(v, m) == RefsOf(v, n) == Owned(v, i);
    assert ObjOf(v, m) == Obj(m.kind, m.size, ObjOf(v, n).blocks);
    hide Acct, RefsOf, ObjOf;
    assert leaked + SeqSet(Owned(v, i)) - SeqSet(Owned(v, i)) == leaked;
    SwitchAcct(v, leaked, i, m, Owned(v, i), leaked);
  }

  /** A second entry behind the first of an indirect block. */
  method PutSecond(dr: Drive, ind: nat, blk: u32) returns (ok: bool)
    requires dr.Valid()
    modifies dr
    ensures old(dr.Logged()) ==> dr.Logged()
    ensures dr.Valid() && (ok <==> ind < |old(dr.vol).blocks|) && |dr.vol.blocks| == |old(dr.vol).blocks|
    ensures ok ==> dr.vol == old(dr.vol).(blocks := old(dr.vol).blocks[ind := dr.vol.blocks[ind]])
    ensures ok ==> ExtentsFrom(dr.vol.blocks[ind], 0, 1) == ExtentsFrom(old(dr.vol).blocks[ind], 0, 1)
    ensures ok ==> dr.trail == old(dr.trail) + [dr.vol]
  {
    hide Drive.Valid, Drive.Logged, ExtentsFrom;
    ghost var w := dr.vol;
    var ibuf;
    ok, ibuf := dr.IndirectReadExtents(ind, INDIRECT_ENTS);
    if !ok { return; }
    ibuf := ibuf[1 := Extent(blk, 1)];
    ok := IndirectWriteExtents(dr, ind, ibuf[..2]);
    SameFirst(w.blocks[ind], dr.vol.blocks[ind], blk);
  }

  /** dir_add_extent on 14 extents: a second entry of the indirect block, and an extent count of 15. */
  method WriteFifteenth(dr: Drive, dir: nat, n: Inode, blk: u32, now: u32, ghost leaked: set<nat>)
    returns (ok: bool, ghost after: Obj)
    requires dr.Valid() && Acct(dr.vol, leaked) && IsDir(dr.vol, dir) && n == dr.vol.inodes[dir]
    requires n.extentCount == MAX_EXTENTS
    modifies dr
    ensures old(dr.Logged()) ==> dr.Logged()
    ensures dr.Valid() && ok && old(dr.trail) <= dr.trail
    ensures after.kind == TYPE_DIR && after.blocks == ObjOf(old(dr.vol), n).blocks
    ensures after.size == (n.size + 512) % 0x1_0000_0000
    ensures dir < |dr.vol.inodes| && dr.vol.inodes[dir].mtime == now
    ensures Acct(dr.vol, leaked) && Objects(dr.vol) == Objects(old(dr.vol))[dir := after]
    ensures Plain(old(dr.vol)) ==> Plain(dr.vol)
    ensures TrailEitherOr(dr.trail, |old(dr.trail)|, Objects(old(dr.vol)), Objects(dr.vol))
  {
    hide Drive.Valid, Drive.Logged, Acct, Objects, ExtentsOf, BlockList, ObjOf, PlainTable, ExtentsFrom, Oversized,
      Stamped, Clamp, EitherOr, Table;
    ghost var w := dr.vol;
    TableBlocks(w, leaked, dir);
    OversizedClamped(n, now);
    ghost var ind := n.extents[DIRECT_EXTENTS].start;
    after := Obj(0, 0, []);
    ok := PutSecond(dr, n.extents[DIRECT_EXTENTS].start, blk);
    if !ok { return; }
    ghost var x := dr.vol;
    after := FifteenthLaws(w, leaked, x, dir, now);
    ok := dr.InodeWrite(dir, Stamped(Oversized(n, MAX_EXTENTS + 1), now));
  }

  /** What the two writes make of the volume: the size of the directory, and no block more. */
  lemma FifteenthLaws(w: Vol, leaked: set<nat>, x: Vol, dir: nat, now: u32) returns (after: Obj)
    requires Acct(w, leaked) && IsDir(w, dir) && w.inodes[dir].extentCount == MAX_EXTENTS
    requires var ind := w.inodes[dir].extents[DIRECT_EXTENTS].start;
      && ind < |w.blocks| && |x.blocks| == |w.blocks| && x == w.(blocks := w.blocks[ind := x.blocks[ind]])
      && ExtentsFrom(x.blocks[ind], 0, 1) == ExtentsFrom(w.blocks[ind], 0, 1)
    ensures after.kind == TYPE_DIR && after.blocks == ObjOf(w, w.inodes[dir]).blocks
    ensures after.size == (w.inodes[dir].size + 512) % 0x1_0000_0000
    ensures var z := Switch(x, dir, Stamped(Oversized(w.inodes[dir], MAX_EXTENTS), now));
      && Acct(z, leaked) && Objects(z) == Objects(w)[dir := after] && (Plain(w) ==> Plain(z))
      && EitherOr(x, Objects(w), Objects(z)) && EitherOr(z, Objects(w), Objects(z))
  {
    hide Acct, Objects, ExtentsOf, BlockList, ObjOf, PlainTable, ExtentsFrom, Oversized, Stamped, EitherOr;
    var n := w.inodes[dir];
    var ind := n.extents[DIRECT_EXTENTS].start;
    FullKeeps(w, leaked, dir, x.blocks[ind]);
    KeptObj(w, x, dir);
    OversizedSwitch(x, leaked, dir, now);
    OversizedClamped(n, now);
    var m := Stamped(Oversized(n, MAX_EXTENTS), now);
    after := Obj(m.kind, m.size, ObjOf(x, n).blocks);
    ObjSelf(w, dir);
    PlainGrow(w.inodes, Objects(w), dir, m, after, 0);
    BothConsistent(x, Switch(x, dir, m), leaked);
  }

  lemma OversizedClamped(n: Inode, now: u32)
    requires n.kind == TYPE_DIR
    ensures Clamp(Stamped(Oversized(n, MAX_EXTENTS + 1), now)) == Stamped(Oversized(n, MAX_EXTENTS), now)
    ensures Stamped(Oversized(n, MAX_EXTENTS), now).kind == TYPE_DIR
    ensures Stamped(Oversized(n, MAX_EXTENTS), now).mtime == now
    ensures Stamped(Oversized(n, MAX_EXTENTS), now).extentCount == MAX_EXTENTS
    ensures Stamped(Oversized(n, MAX_EXTENTS), now).size == (n.size + 512) % 0x1_0000_0000
  {}

  lemma BothConsistent(v: Vol, w: Vol, leaked: set<nat>)
    requires Acct(v, leaked) && Acct(w, leaked)
    ensures EitherOr(v, Objects(v), Objects(w)) && EitherOr(w, Objects(v), Objects(w))
  {
    hide Acct, Objects;
  }

  /** dir_add on a directory that already has 14 extents and no free slot: the block is
      written and marked, but inode_read will never list it.  The code reports success. */
  method AddLost(dr: Drive, dir: nat, n: Inode, name: seq<byte>, child: u32, now: u32, ghost leaked: set<nat>)
    returns (ok: bool, ghost after: Obj, ghost lost: set<nat>)
    requires dr.Valid() && Acct(dr.vol, leaked) && IsDir(dr.vol, dir) && n == dr.vol.inodes[dir]
    requires n.extentCount == MAX_EXTENTS
    modifies dr
    ensures old(dr.Logged()) ==> dr.Logged()
    ensures dr.Valid() && old(dr.trail) <= dr.trail
    ensures ok <==> HasFreeBlock(old(dr.vol))
    ensures ok ==> |lost| == 1 && after.kind == TYPE_DIR && after.blocks == ObjOf(old(dr.vol), n).blocks
    ensures ok ==> dir < |dr.vol.inodes| && dr.vol.inodes[dir].mtime == now
    ensures ok ==> after.size == (n.size + 512) % 0x1_0000_0000
    ensures ok ==> Acct(dr.vol, leaked + lost) && Objects(dr.vol) == Objects(old(dr.vol))[dir := after]
    ensures !ok ==>
      && Acct(dr.vol, leaked) && Objects(dr.vol) == Objects(old(dr.vol))
      && dr.errno == FullError(dr.geo, old(dr.vol))
    ensures !ok ==> dr.vol.inodes == old(dr.vol).inodes
    ensures Plain(old(dr.vol)) ==> Plain(dr.vol)
    ensures TrailEitherOr(dr.trail, |old(dr.trail)|, Objects(old(dr.vol)), Objects(dr.vol))
  {
    hide Drive.Valid, Drive.Logged, Acct, Objects, Shadow, Reserved, HasFreeBlock, FirstBlock, ObjOf, EitherOr,
      PlainTable;
    ghost var v := dr.vol;
    dr.Sizes();
    after, lost := Obj(0, 0, []), {};
    var blk;
    ok, blk := StartBlock(dr, FirstBlock(name, child), v, leaked);
    if !ok {
      ShadowsAreOld(v, leaked, dr.trail, |old(dr.trail)|, Objects(dr.vol));
      return;
    }
    ghost var early := dr.trail;
    lost := {blk as nat};
    ReservedAcct(v, leaked, dr.vol, lost);
    ReservedObj(v, leaked, dr.vol, lost, dir);
    ReservedApart(v, dr.vol, lost);
    ok, after := WriteFifteenth(dr, dir, n, blk, now, leaked + lost);
    ShadowsAreOld(v, leaked, early, |old(dr.trail)|, Objects(dr.vol));
  }

  lemma KeptObj(v: Vol, w: Vol, i: nat)
    requires Objects(w) == Objects(v) && i < |v.inodes| && w.inodes == v.inodes && v.inodes[i].kind != TYPE_FREE
    ensures ObjOf(w, v.inodes[i]) == ObjOf(v, v.inodes[i])
  {
    assert i in Objects(v) && Objects(v)[i] == ObjOf(v, v.inodes[i]) && Objects(w)[i] == ObjOf(w, w.inodes[i]);
  }

  lemma ReservedObj(v: Vol, leaked: set<nat>, w: Vol, taken: set<nat>, i: nat)
    requires Acct(v, leaked) && Reserved(v, w, taken) && i < |v.inodes| && v.inodes[i].kind != TYPE_FREE
    ensures w.inodes == v.inodes && ObjOf(w, v.inodes[i]) == ObjOf(v, v.inodes[i])
  {
    RebooksMoves(v, leaked, w, leaked + taken, i);
  }

  lemma SameFirst(before: Sector, after: Sector, blk: u32)
    requires ExtentsFrom(after, 0, 2) == ExtentsFrom(before, 0, INDIRECT_ENTS)[1 := Extent(blk, 1)][..2]
    ensures ExtentsFrom(after, 0, 1) == ExtentsFrom(before, 0, 1)
  {
    assert ExtentsFrom(after, 0, 2)[0] == ExtentsFrom(before, 0, INDIRECT_ENTS)[0];
  }

  // ------------------------------------------------- dir_add

  /** The directory can list one more entry: it has a cleared slot or fewer than 14 extents. */
  ghost predicate Roomy(v: Vol, dir: nat)
    requires dir < |v.inodes|
  {
    HasSlot(v, dir) || v.inodes[dir].extentCount < MAX_EXTENTS
  }

  ghost predicate Insertable(v: Vol, dir: nat, key: Name) {
    IsDir(v, dir) && key !in Entries(Table(v, dir)) && (HasSlot(v, dir) || Growable(v, dir))
  }

  /** Why dir_add fails. */
  ghost function AddError(g: Geo, v: Vol, dir: nat, key: Name): int {
    if dir >= |v.inodes| then ERR_IO
    else if !IsDir(v, dir) then ERR_NOT_DIR
    else if key in Entries(Table(v, dir)) then ERR_EXISTS
    else FullError(g, v)
  }

  /** dir_add inserts the entry into the map of the directory, rejecting duplicates.  It
      keeps its promise exactly on directories with room for the entry; on a full directory
      of 14 extents it leaks a block and loses the entry. */
  method DirAdd(dr: Drive, dir: nat, name: seq<byte>, child: u32, now: u32, ghost leaked: set<nat>)
    returns (ok: bool, ghost after: Obj, ghost lost: set<nat>)
    requires dr.Valid() && Acct(dr.vol, leaked) && ZeroFree(name) && 0 < child < 0x8000_0000
    requires IsDir(dr.vol, dir) ==> TableOk(Table(dr.vol, dir))
    modifies dr
    ensures old(dr.Logged()) ==> dr.Logged()
    ensures dr.Valid() && old(dr.trail) <= dr.trail
    ensures ok <==> Insertable(old(dr.vol), dir, Key(name))
    ensures ok ==> dir < |dr.vol.inodes| && dr.vol.inodes[dir].mtime == now
    ensures ok ==> Acct(dr.vol, leaked + lost) && Objects(dr.vol) == Objects(old(dr.vol))[dir := after]
    ensures ok && Roomy(old(dr.vol), dir) ==>
      lost == {} && DirHolds(after, Entries(Table(old(dr.vol), dir))[Key(name) := child])
    ensures ok && !Roomy(old(dr.vol), dir) ==> |lost| == 1 && DirHolds(after, Entries(Table(old(dr.vol), dir)))
    ensures !ok ==>
      Acct(dr.vol, leaked) && Objects(dr.vol) == Objects(old(dr.vol)) && dr.vol.inodes == old(dr.vol).inodes
    ensures !ok ==>
      (dr.errno == ERR_EXISTS <==> IsDir(old(dr.vol), dir) && Key(name) in Entries(Table(old(dr.vol), dir)))
    ensures !ok ==> dr.errno == AddError(dr.geo, old(dr.vol), dir, Key(name))
    ensures Plain(old(dr.vol)) ==> Plain(dr.vol)
    ensures TrailEitherOr(dr.trail, |old(dr.trail)|, Objects(old(dr.vol)), Objects(dr.vol))
  {
    hide Drive.Valid, Drive.Logged, Acct, Objects, ExtentsOf, BlockList, Slots, TableOk, Entries, Row, Table, Load,
      NoHitBefore, HasSlot, Growable, EitherOr, ObjOf, PlainTable;
    ok, after, lost := false, Obj(0, 0, []), {};
    ghost var v := dr.vol;
    var got, n := dr.InodeRead(dir);
    if !got { dr.errno := ERR_IO; return; }
    if n.kind != TYPE_DIR { dr.errno := ERR_NOT_DIR; return; }
    var dup := DirFind(dr, dir, name, leaked);
    if dup >= 0 { dr.errno := ERR_EXISTS; return; }
    TableBlocks(v, leaked, dir);
    CountClamped(dr, dir);
    var loaded, es := dr.ExtentLoadAll(n);
    if !loaded { return; }
    var e, block, tmp, p := LocateInode(dr, es, 0, true);
    FreeSlotMeans(v, dir, BlockList(es), e, block, tmp, p);
    ghost var secs := Load(v, BlockList(es));
    ObjBlocks(v, n);
    if e >= 0 {
      FilledTable(secs, p, e, name, child);
      ok, after := StoreSlots(dr, dir, n, block, PutDirent(tmp, e, DirentBytes(name, child)), now, p, leaked);
      assert leaked + {} == leaked;
      return;
    }
    GrowCases(v, dir);
    if n.extentCount <= DIRECT_EXTENTS {
      GrownTable(secs, name, child);
      ok, after := AddBlock(dr, dir, n, name, child, now, leaked);
      assert leaked + {} == leaked;
    } else {
      ok, after, lost := AddLost(dr, dir, n, name, child, now, leaked);
    }
  }

  lemma FreeSlotMeans(v: Vol, dir: nat, bs: seq<nat>, e: int, block: nat, tmp: Sector, p: nat)
    requires dir < |v.inodes| && Table(v, dir) == Slots(Load(v, bs)) && SpotOk(v, bs, e, block, tmp, p)
    requires e >= 0 ==> Hit(Row(tmp)[e], 0, true)
    requires e < 0 ==> NoHitBefore(Slots(Load(v, bs)), 0, true, |Slots(Load(v, bs))|)
    ensures e >= 0 <==> HasSlot(v, dir)
    ensures e >= 0 ==> p < |Load(v, bs)| && tmp == Load(v, bs)[p] && block == bs[p] && Row(tmp)[e].inode == 0
  {
    hide Slots, Row, Table;
    if e >= 0 { SpotSlot(v, bs, e, block, tmp, p); }
  }

  lemma GrowCases(v: Vol, dir: nat)
    requires dir < |v.inodes|
    ensures v.inodes[dir].extentCount > DIRECT_EXTENTS ==> (Growable(v, dir) <==> HasFreeBlock(v))
  {}
}
