/** Whole-file updates: overwriting by shadow paging, appending, and the allocation
    and release of inodes. */
module NvfsFiles {
  import opened Bytes
  import opened Collections
  import opened NvfsFormat
  import opened NvfsImage
  import opened NvfsVolume
  import opened NvfsDriver
  import opened NvfsContents
  import opened NvfsExtents
  import opened NvfsOwnership
  import opened NvfsCommit
  import opened NvfsMount
  import opened NvfsTable

  /** An indirect block that happens to be block 0 is mistaken for "no indirect block". */
  function Stranded(n: Inode): set<nat> {
    if n.extentCount > DIRECT_EXTENTS && n.extents[DIRECT_EXTENTS].start == 0 then {0} else {}
  }

  ghost predicate TrailEitherOr(trail: seq<Vol>, from: nat, before: map<nat, Obj>, after: map<nat, Obj>) {
    forall k :: from <= k < |trail| ==> EitherOr(trail[k], before, after)
  }

  lemma ShadowsAreOld(v: Vol, leaked: set<nat>, trail: seq<Vol>, from: nat, after: map<nat, Obj>)
    requires Acct(v, leaked) && |v.inodes| > 0 && TrailShadows(v, trail, from)
    ensures TrailEitherOr(trail, from, Objects(v), after)
  {
    hide Acct, Objects, Shadow;
    forall k | from <= k < |trail| ensures EitherOr(trail[k], Objects(v), after) {
      ShadowKeeps(v, leaked, trail[k]);
    }
  }

  lemma FreedAreNew(v: Vol, leaked: set<nat>, w: Vol, bs: seq<nat>, before: map<nat, Obj>, after: map<nat, Obj>)
    requires Acct(v, leaked) && |v.inodes| > 0 && Objects(v) == after
    requires Freed(v, w, bs) && SeqSet(bs) <= leaked
    ensures EitherOr(w, before, after)
  {
    hide Acct, Objects;
    FreedAcct(v, leaked, w, bs);
  }

  /** The blocks of a live inode are on the drive, and extent_load_all can read them. */
  lemma OwnedInRange(v: Vol, leaked: set<nat>, i: nat)
    requires Acct(v, leaked) && i < |v.inodes| && v.inodes[i].kind != TYPE_FREE
    ensures Owned(v, i) == RefsOf(v, v.inodes[i])
    ensures forall b :: b in RefsOf(v, v.inodes[i]) ==> b < |v.blocks|
    ensures forall b :: b in BlockList(ExtentsOf(v, v.inodes[i])) ==> b < |v.blocks|
    ensures v.inodes[i].extentCount > DIRECT_EXTENTS ==> v.inodes[i].extents[DIRECT_EXTENTS].start < |v.blocks|
    ensures SeqSet(Owned(v, i)) == SeqSet(BlockList(ExtentsOf(v, v.inodes[i]))) + SeqSet(IndirectBlock(v.inodes[i]))
  {
    assert SoundInode(v, leaked, i);
    RefsInclude(v, v.inodes[i]);
  }

  /** After the switch, the old blocks are released one by one; the volume stays
      consistent and keeps showing the new contents. */
  method ReleaseOld(dr: Drive, n: Inode, es: seq<Extent>, ghost leaked: set<nat>, ghost before: map<nat, Obj>)
    requires dr.Valid() && SeqSet(BlockList(es)) !! leaked && SeqSet(IndirectBlock(n)) !! leaked
    requires SeqSet(BlockList(es)) !! SeqSet(IndirectBlock(n))
    requires Acct(dr.vol, leaked + SeqSet(BlockList(es)) + SeqSet(IndirectBlock(n)))
    modifies dr
    ensures old(dr.Logged()) ==> dr.Logged()
    ensures dr.Valid() && old(dr.trail) <= dr.trail
    ensures Acct(dr.vol, leaked + Stranded(n)) && Objects(dr.vol) == Objects(old(dr.vol))
    ensures dr.vol.inodes == old(dr.vol).inodes
    ensures TrailEitherOr(dr.trail, |old(dr.trail)|, before, Objects(old(dr.vol)))
  {
    hide Drive.Valid, Drive.Logged, Objects, BlockList, Freed;
    dr.Sizes();
    ghost var v, bs := dr.vol, BlockList(es);
    ghost var all := leaked + SeqSet(bs) + SeqSet(IndirectBlock(n));
    LeakedInRange(v, all);
    assert forall b :: b in bs ==> b in SeqSet(bs);
    hide Acct;
    FreeExtents(dr, es);
    forall k | |old(dr.trail)| <= k < |dr.trail| ensures EitherOr(dr.trail[k], before, Objects(v)) {
      FreedAreNew(v, all, dr.trail[k], bs, before, Objects(v));
    }
    ghost var w := dr.vol;
    FreedAll(v, w, bs);
    FreedAcct(v, all, w, bs);
    ghost var rest := leaked + SeqSet(IndirectBlock(n));
    assert all * w.used == rest by { LeakedMarked(v, all); }
    if n.extentCount > DIRECT_EXTENTS && n.extents[DIRECT_EXTENTS].start != 0 {
      ghost var ind := IndirectBlock(n);
      assert n.extents[DIRECT_EXTENTS].start in SeqSet(ind);
      var _ := dr.BitmapSet(n.extents[DIRECT_EXTENTS].start, false);
      assert SeqSet(ind) == {n.extents[DIRECT_EXTENTS].start};
      FreedAll(w, dr.vol, ind);
      FreedAcct(w, rest, dr.vol, ind);
      FreedAreNew(w, rest, dr.vol, ind, before, Objects(v));
      assert rest * dr.vol.used == leaked + Stranded(n) by { LeakedMarked(w, rest); }
    } else {
      assert SeqSet(IndirectBlock(n)) == Stranded(n);
    }
  }

  lemma FreedAll(v: Vol, w: Vol, bs: seq<nat>)
    requires w == v.(used := v.used - SeqSet(bs))
    ensures Freed(v, w, bs)
  {}

  lemma LeakedInRange(v: Vol, leaked: set<nat>)
    requires Acct(v, leaked)
    ensures forall b :: b in leaked ==> b < |v.blocks|
  {}

  lemma LeakedMarked(v: Vol, leaked: set<nat>)
    requires Acct(v, leaked)
    ensures leaked <= v.used
  {}

  lemma OwnedApart(v: Vol, leaked: set<nat>, i: nat)
    requires Acct(v, leaked) && i < |v.inodes| && v.inodes[i].kind != TYPE_FREE
    ensures SeqSet(BlockList(ExtentsOf(v, v.inodes[i]))) !! leaked && SeqSet(IndirectBlock(v.inodes[i])) !! leaked
    ensures SeqSet(BlockList(ExtentsOf(v, v.inodes[i]))) !! SeqSet(IndirectBlock(v.inodes[i]))
    ensures v.inodes[i].extentCount > DIRECT_EXTENTS ==> v.inodes[i].extents[DIRECT_EXTENTS].start < |v.blocks|
    ensures SeqSet(Owned(v, i)) == SeqSet(BlockList(ExtentsOf(v, v.inodes[i]))) + SeqSet(IndirectBlock(v.inodes[i]))
  {
    hide BlockList, ExtentsOf;
    assert SoundInode(v, leaked, i);
    OwnedInRange(v, leaked, i);
    var bs, ind := BlockList(ExtentsOf(v, v.inodes[i])), IndirectBlock(v.inodes[i]);
    forall b | b in bs ensures b !in ind {
      var p :| 0 <= p < |bs| && bs[p] == b;
      assert ind != [] ==> Owned(v, i)[p] != Owned(v, i)[|bs|];
    }
  }

  /** nvfs_write on an existing target: new blocks first, then the inode, then the old
      blocks.  Every sector write leaves a consistent volume that shows exactly the old
      or exactly the new contents, with every other inode untouched. */
  method Overwrite(dr: Drive, inum: nat, data: seq<byte>, now: u32, ghost leaked: set<nat>) returns (ok: bool)
    requires dr.Valid() && |data| <= MAX_BUFFER && Acct(dr.vol, leaked)
    requires inum < |dr.vol.inodes| && dr.vol.inodes[inum].kind != TYPE_FREE
    modifies dr
    ensures old(dr.Logged()) ==> dr.Logged()
    ensures dr.Valid() && old(dr.trail) <= dr.trail
    ensures ok <==> data == [] || Fits(old(dr.vol), SectorsFor(|data|))
    ensures ok ==> Acct(dr.vol, leaked + Stranded(old(dr.vol).inodes[inum]))
    ensures ok ==> Objects(dr.vol) == Objects(old(dr.vol))[inum := Holding(old(dr.vol).inodes[inum].kind, data)]
    ensures !ok ==> Acct(dr.vol, leaked) && Objects(dr.vol) == Objects(old(dr.vol)) && dr.errno == ERR_NO_SPACE
    ensures |dr.vol.inodes| == |old(dr.vol).inodes| && (ok ==> dr.vol.inodes[inum].mtime == now)
    ensures Plain(old(dr.vol)) ==> Plain(dr.vol)
    ensures TrailEitherOr(dr.trail, |old(dr.trail)|, Objects(old(dr.vol)),
                          Objects(old(dr.vol))[inum := Holding(old(dr.vol).inodes[inum].kind, data)])
  {
    hide Drive.Valid, Drive.Logged, Acct, Objects, BlockList, ExtentsOf, Prepared, Shadow, Owned, SectorsFor,
      PlainTable, Stamped, EitherOr, Clamp;
    dr.Sizes();
    ghost var v := dr.vol;
    ghost var after := Objects(v)[inum := Holding(v.inodes[inum].kind, data)];
    OwnedApart(v, leaked, inum);
    CountClamped(dr, inum);
    var got, n := dr.InodeRead(inum);
    if !got { return false; }
    var loaded, es := dr.ExtentLoadAll(n);
    if !loaded { return false; }
    var m;
    ok, m := ExtentWrite(dr, n, data);
    ShadowsAreOld(v, leaked, dr.trail, |old(dr.trail)|, after);
    if !ok {
      dr.errno := ERR_NO_SPACE;
      ShadowKeeps(v, leaked, dr.vol);
      ShadowTable(v, dr.vol);
      return;
    }
    SwitchOver(dr, inum, n, m, es, data, now, v, leaked);
  }

  /** The inode write that switches to the stored data, and the release of the old blocks. */
  method SwitchOver(dr: Drive, inum: nat, n: Inode, m: Inode, es: seq<Extent>, data: seq<byte>, now: u32, ghost v: Vol,
                    ghost leaked: set<nat>)
    requires dr.Valid() && Acct(v, leaked) && |data| <= MAX_BUFFER && inum < |v.inodes| && n == v.inodes[inum]
    requires n.kind != TYPE_FREE && Prepared(v, dr.vol, n, m, data) && es == ExtentsOf(v, n)
    modifies dr
    ensures old(dr.Logged()) ==> dr.Logged()
    ensures dr.Valid() && old(dr.trail) <= dr.trail && Acct(dr.vol, leaked + Stranded(n))
    ensures Objects(dr.vol) == Objects(v)[inum := Holding(n.kind, data)]
    ensures |dr.vol.inodes| == |v.inodes| && dr.vol.inodes[inum].mtime == now
    ensures Plain(v) ==> Plain(dr.vol)
    ensures TrailEitherOr(dr.trail, |old(dr.trail)|, Objects(v), Objects(v)[inum := Holding(n.kind, data)])
  {
    hide Drive.Valid, Drive.Logged, Acct, Objects, BlockList, ExtentsOf, Prepared, Shadow, Owned, SectorsFor,
      PlainTable, Stamped, EitherOr, Clamp;
    OwnedApart(v, leaked, inum);
    Commit(v, leaked, dr.vol, inum, n, m, data, now);
    PreparedSmall(v, dr.vol, n, m, data, now);
    PreparedPlain(v, dr.vol, n, m, data, now);
    PlainPut(v.inodes, Objects(v), inum, Stamped(m, now), Holding(n.kind, data));
    hide Holding;
    var _ := dr.InodeWrite(inum, Stamped(m, now));
    NewShown(dr.vol, leaked + SeqSet(Owned(v, inum)), Objects(v));
    assert leaked + SeqSet(Owned(v, inum)) == leaked + SeqSet(BlockList(es)) + SeqSet(IndirectBlock(n));
    ReleaseOld(dr, n, es, leaked, Objects(v));
  }

  lemma NewShown(v: Vol, leaked: set<nat>, before: map<nat, Obj>)
    requires Acct(v, leaked)
    ensures EitherOr(v, before, Objects(v))
  {
    hide Acct, Objects;
  }

  lemma CountClamped(dr: Drive, i: nat)
    requires dr.Valid() && i < |dr.vol.inodes|
    ensures dr.vol.inodes[i].extentCount <= MAX_EXTENTS
  {}

  lemma PreparedSmall(v: Vol, w: Vol, n: Inode, m: Inode, data: seq<byte>, now: u32)
    requires Prepared(v, w, n, m, data)
    ensures Clamp(Stamped(m, now)) == Stamped(m, now) && Stamped(m, now).mtime == now
  {}

  // ------------------------------------------------- append

  const APPEND_BUFFER := 4096

  /** The blocks of the inode hold as many bytes as its size says. */
  predicate Filled(o: Obj) { o.size <= SECTOR_SIZE * |o.blocks| }

  lemma FilledBytes(o: Obj, max: nat)
    requires Filled(o)
    ensures |FileBytes(o)| == o.size
  {}

  /** nvfs_append once the target is found: the first 4096 bytes of the old contents
      followed by the data are written back by shadow paging. */
  method AppendTo(dr: Drive, inum: nat, data: seq<byte>, now: u32, gotBuffer: bool, ghost leaked: set<nat>)
    returns (ok: bool)
    requires dr.Valid() && |data| <= MAX_BUFFER && Acct(dr.vol, leaked)
    requires inum < |dr.vol.inodes| && dr.vol.inodes[inum].kind != TYPE_FREE
    requires Filled(ObjOf(dr.vol, dr.vol.inodes[inum]))
    modifies dr
    ensures old(dr.Logged()) ==> dr.Logged()
    ensures dr.Valid() && old(dr.trail) <= dr.trail
    ensures ok <==> gotBuffer && (Appended(old(dr.vol), inum, data).size == 0
                                  || Fits(old(dr.vol), SectorsFor(Appended(old(dr.vol), inum, data).size)))
    ensures ok ==> Acct(dr.vol, leaked + Stranded(old(dr.vol).inodes[inum]))
    ensures ok ==> Objects(dr.vol) == Objects(old(dr.vol))[inum := Appended(old(dr.vol), inum, data)]
    ensures |dr.vol.inodes| == |old(dr.vol).inodes| && (ok ==> dr.vol.inodes[inum].mtime == now)
    ensures Plain(old(dr.vol)) ==> Plain(dr.vol)
    ensures !ok ==> Acct(dr.vol, leaked) && Objects(dr.vol) == Objects(old(dr.vol))
    ensures !ok ==> dr.errno == if gotBuffer then ERR_NO_SPACE else ERR_IO
    ensures TrailEitherOr(dr.trail, |old(dr.trail)|, Objects(old(dr.vol)),
                          Objects(old(dr.vol))[inum := Appended(old(dr.vol), inum, data)])
  {
    hide Drive.Valid, Drive.Logged, Acct, Objects, RefsOf, ObjOf, FileBytes, Owned, TrailEitherOr, PlainTable;
    CountClamped(dr, inum);
    OwnedInRange(dr.vol, leaked, inum);
    NothingWritten(dr.trail, Objects(dr.vol), Objects(dr.vol)[inum := Appended(dr.vol, inum, data)]);
    if !gotBuffer { dr.errno := ERR_IO; return false; }
    var got, n := dr.InodeRead(inum);
    if !got { return false; }
    FilledBytes(ObjOf(dr.vol, n), 0);
    ObjSize(dr.vol, n);
    var have := if n.size > APPEND_BUFFER then APPEND_BUFFER else n.size;
    var remain := APPEND_BUFFER - have;
    var add := if |data| > remain then remain else |data|;
    var read, tmp := ExtentRead(dr, n, have);
    if !read { return false; }
    tmp := tmp + data[..add];
    assert tmp == Take(FileBytes(ObjOf(dr.vol, n)) + data, APPEND_BUFFER);
    ok := Overwrite(dr, inum, tmp, now, leaked);
  }

  ghost function Appended(v: Vol, i: nat, data: seq<byte>): Obj
    requires i < |v.inodes|
  {
    Holding(v.inodes[i].kind, Take(FileBytes(ObjOf(v, v.inodes[i])) + data, APPEND_BUFFER))
  }

  lemma ObjSize(v: Vol, n: Inode)
    ensures ObjOf(v, n).size == n.size
  {}

  lemma NothingWritten(trail: seq<Vol>, before: map<nat, Obj>, after: map<nat, Obj>)
    ensures TrailEitherOr(trail, |trail|, before, after)
  {}

  // ------------------------------------------------- inodes

  ghost predicate FreeInode(v: Vol, i: nat) {
    0 < i < |v.inodes| && v.inodes[i].kind == TYPE_FREE
  }

  /** inode_alloc with a free inode in the table, or with no block left to grow the table. */
  ghost predicate TableSuffices(v: Vol) {
    (exists i: nat :: FreeInode(v, i)) || !HasFreeBlock(v)
  }

  /** inode_alloc: the lowest free inode is initialised on disk.  Without one the table grows if a
      block is free, which the next mount accepts exactly when there was a gap behind the table. */
  method InodeAlloc(dr: Drive, kind: byte, now: u32) returns (r: int, geo: Geo)
    requires dr.Valid()
    modifies dr
    ensures TableSuffices(old(dr.vol)) && old(dr.Logged()) ==> dr.Logged()
    ensures dr.Valid() && old(dr.trail) <= dr.trail
    ensures geo == if TableSuffices(old(dr.vol)) then dr.geo else Expanded(dr.geo)
    ensures TableSuffices(old(dr.vol)) ==> r == -1 || (r > 0 && FreeInode(old(dr.vol), r))
    ensures forall i: nat :: FreeInode(old(dr.vol), i) ==> 0 <= r <= i
    ensures TableSuffices(old(dr.vol)) && r >= 0 ==>
      dr.vol == Switch(old(dr.vol), r, FreshInode(kind, now)) && dr.trail == old(dr.trail) + [dr.vol]
    ensures TableSuffices(old(dr.vol)) && r == -1 ==>
      dr.vol == old(dr.vol) && TrailShadows(old(dr.vol), dr.trail, |old(dr.trail)|)
    ensures r < 0 ==> r == -1 && dr.errno == ERR_NO_INODE
    ensures !TableSuffices(old(dr.vol)) ==> Grew(dr.geo, old(dr.vol), dr.vol, r, FreshInode(kind, now))
    ensures !TableSuffices(old(dr.vol)) && Records(old(dr.Super()), dr.geo) ==>
      Probe(Some(dr.disk), dr.geo.offset) == if HasGap(dr.geo) then Some(geo) else None
  {
    hide Drive.Valid, Drive.Logged, Probe, Records, HasFreeBlock, TookLowest, Gained, Shadow, Clamp, FreshInode;
    dr.Sizes();
    FreshClamped(kind, now);
    geo := dr.geo;
    var i := 1;
    while i < dr.geo.inodeCount
      invariant old(dr.Logged()) ==> dr.Logged()
      invariant 1 <= i && dr.vol == old(dr.vol) && dr.Valid() && dr.trail == old(dr.trail) && dr.disk == old(dr.disk)
      invariant forall j: nat :: 0 < j < i && j < |dr.vol.inodes| ==> dr.vol.inodes[j].kind != TYPE_FREE
    {
      var got, n := dr.InodeRead(i);
      if got && n.kind == TYPE_FREE {
        assert FreeInode(old(dr.vol), i);
        var ok := dr.InodeWrite(i, FreshInode(kind, now));
        if !ok { return -1, geo; }
        return i, geo;
      }
      i := i + 1;
    }
    r, geo := AllocByGrowth(dr, kind, now);
  }

  lemma FreshClamped(kind: byte, now: u32)
    ensures Clamp(FreshInode(kind, now)) == FreshInode(kind, now)
  {}

  function Dead(n: Inode): Inode {
    InodeFields(0, TYPE_FREE, n.c0, n.c1, n.c2, 0, n.extents, n.mtime)
  }

  lemma DropMoves(v: Vol, leaked: set<nat>, i: nat)
    requires Acct(v, leaked) && i < |v.inodes|
    ensures Moves(v, leaked, Switch(v.(used := v.used - SeqSet(Owned(v, i))), i, Dead(v.inodes[i])), leaked, i)
  {
    var w := Switch(v.(used := v.used - SeqSet(Owned(v, i))), i, Dead(v.inodes[i]));
    assert Owned(w, i) == [];
    forall b | b in leaked ensures b in w.used {
      assert SoundInode(v, leaked, i);
    }
  }

  lemma DropAcct(v: Vol, leaked: set<nat>, i: nat)
    requires Acct(v, leaked) && i < |v.inodes|
    ensures Acct(Switch(v.(used := v.used - SeqSet(Owned(v, i))), i, Dead(v.inodes[i])), leaked)
    ensures Objects(Switch(v.(used := v.used - SeqSet(Owned(v, i))), i, Dead(v.inodes[i]))) == Objects(v) - {i}
  {
    DropMoves(v, leaked, i);
    MovesAcct(v, leaked, Switch(v.(used := v.used - SeqSet(Owned(v, i))), i, Dead(v.inodes[i])), leaked, i);
    MovesObjects(v, leaked, Switch(v.(used := v.used - SeqSet(Owned(v, i))), i, Dead(v.inodes[i])), leaked, i);
  }

  /** A volume whose inode i references an unmarked block is not consistent. */
  lemma UnmarkedReference(v: Vol, w: Vol, i: nat, b: nat)
    requires i < |v.inodes| && Freed(v, w, Owned(v, i)) && b in Owned(v, i) && b !in w.used
    ensures !Consistent(w) && Objects(w) == Objects(v)
  {
    hide RefsOf, ObjOf;
    forall n: Inode ensures RefsOf(w, n) == RefsOf(v, n) && ObjOf(w, n) == ObjOf(v, n) {
      Frame(v, w, n);
    }
    assert Owned(w, i) == Owned(v, i);
    forall leaked: set<nat> ensures !Acct(w, leaked) {
      assert !SoundInode(w, leaked, i);
    }
  }

  /** inode_free clears the bits of all blocks of the inode, then the inode itself.  A power
      cut before the last write leaves marks missing: the price of this order. */
  method InodeFree(dr: Drive, inum: nat, ghost leaked: set<nat>) returns (ok: bool)
    requires dr.Valid() && Acct(dr.vol, leaked)
    requires 0 < inum < |dr.vol.inodes| && dr.vol.inodes[inum].kind != TYPE_FREE
    modifies dr
    ensures old(dr.Logged()) ==> dr.Logged()
    ensures dr.Valid() && ok && dr.errno == old(dr.errno)
    ensures Acct(dr.vol, leaked) && Objects(dr.vol) == Objects(old(dr.vol)) - {inum}
    ensures |dr.vol.inodes| == |old(dr.vol).inodes| && dr.vol.inodes[inum].size == dr.vol.inodes[inum].extentCount == 0
    ensures Plain(old(dr.vol)) ==> Plain(dr.vol)
    ensures old(dr.trail) <= dr.trail && |dr.trail| == |old(dr.trail)| + |Owned(old(dr.vol), inum)| + 1
    ensures dr.trail[|dr.trail| - 1] == dr.vol
    ensures forall k :: |old(dr.trail)| <= k < |dr.trail| - 1 ==>
      !Consistent(dr.trail[k]) && Objects(dr.trail[k]) == Objects(old(dr.vol))
  {
    hide Drive.Valid, Drive.Logged, Acct, Objects, BlockList, ExtentsOf, Owned, Consistent, Freed, PlainTable;
    dr.Sizes();
    ghost var v := dr.vol;
    CountClamped(dr, inum);
    OwnedInRange(v, leaked, inum);
    var got, n := dr.InodeRead(inum);
    if !got { return false; }
    var loaded, es := dr.ExtentLoadAll(n);
    if !loaded { return false; }
    FreeBlocks(dr, n, es);
    forall k | |old(dr.trail)| <= k < |dr.trail|
      ensures !Consistent(dr.trail[k]) && Objects(dr.trail[k]) == Objects(v)
    {
      assert Unmarked(RefsOf(v, n), dr.trail[k].used);
      var b :| b in RefsOf(v, n) && b !in dr.trail[k].used;
      UnmarkedReference(v, dr.trail[k], inum, b);
    }
    DropAcct(v, leaked, inum);
    PlainDrop(v.inodes, Objects(v), inum, Clamp(Dead(n)));
    ok := dr.InodeWrite(inum, Dead(n));
  }

  /** Some of the blocks is not marked. */
  ghost predicate Unmarked(bs: seq<nat>, used: set<nat>) {
    exists b :: b in bs && b !in used
  }

  /** The data blocks, then the indirect block. */
  method FreeBlocks(dr: Drive, n: Inode, es: seq<Extent>)
    requires dr.Valid() && es == ExtentsOf(dr.vol, n)
    requires forall b :: b in RefsOf(dr.vol, n) ==> b < Bits(dr.geo)
    modifies dr
    ensures old(dr.Logged()) ==> dr.Logged()
    ensures dr.Valid() && old(dr.trail) <= dr.trail && dr.errno == old(dr.errno)
    ensures dr.vol == old(dr.vol).(used := old(dr.vol).used - SeqSet(RefsOf(old(dr.vol), n)))
    ensures |dr.trail| == |old(dr.trail)| + |RefsOf(old(dr.vol), n)|
    ensures forall k :: |old(dr.trail)| <= k < |dr.trail| ==>
      Freed(old(dr.vol), dr.trail[k], RefsOf(old(dr.vol), n)) && Unmarked(RefsOf(old(dr.vol), n), dr.trail[k].used)
  {
    hide Drive.Valid, Drive.Logged, BlockList, ExtentsOf, Freed;
    ghost var v, bs, refs := dr.vol, BlockList(es), RefsOf(dr.vol, n);
    RefsInclude(v, n);
    FreeExtents(dr, es);
    assert SeqSet(refs) == SeqSet(bs) + SeqSet(IndirectBlock(n));
    forall k | |old(dr.trail)| <= k < |dr.trail| ensures Freed(v, dr.trail[k], refs) {
      FreedMore(v, dr.trail[k], bs, refs);
    }
    assert |bs| > 0 ==> bs[0] in refs;
    if n.extentCount > DIRECT_EXTENTS {
      assert n.extents[DIRECT_EXTENTS].start in refs;
      var _ := dr.BitmapSet(n.extents[DIRECT_EXTENTS].start, false);
      assert SeqSet(IndirectBlock(n)) == {n.extents[DIRECT_EXTENTS].start};
      FreedAll(v, dr.vol, refs);
    }
  }

  lemma FreedMore(v: Vol, w: Vol, bs: seq<nat>, refs: seq<nat>)
    requires Freed(v, w, bs) && SeqSet(bs) <= SeqSet(refs)
    ensures Freed(v, w, refs)
  {}
}
