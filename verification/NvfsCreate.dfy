/** Creating a file or a directory: a fresh inode, its contents, and the entry in its directory. */
module NvfsCreate {
  import opened Bytes
  import opened Collections
  import opened NvfsFormat
  import opened NvfsVolume
  import opened NvfsDriver
  import opened NvfsContents
  import opened NvfsExtents
  import opened NvfsSlots
  import opened NvfsOwnership
  import opened NvfsCommit
  import opened NvfsFiles
  import opened NvfsTable
  import opened NvfsDirs
  import opened NvfsDirAdd
  import opened NvfsSpace

  lemma FreshMoves(v: Vol, leaked: set<nat>, i: nat, kind: byte, now: u32)
    requires Acct(v, leaked) && FreeInode(v, i) && kind != TYPE_FREE
    ensures Moves(v, leaked, Switch(v, i, FreshInode(kind, now)), leaked, i)
    ensures ObjOf(Switch(v, i, FreshInode(kind, now)), FreshInode(kind, now)) == Holding(kind, [])
  {
    var m := FreshInode(kind, now);
    var w := Switch(v, i, m);
    assert Owned(v, i) == [];
    assert ExtentsOf(w, m) == [];
    assert Owned(w, i) == [];
    assert SoundInode(w, leaked, i);
  }

  /** A fresh inode owns nothing and is an empty object. */
  lemma FreshAcct(v: Vol, leaked: set<nat>, i: nat, kind: byte, now: u32)
    requires Acct(v, leaked) && FreeInode(v, i) && kind != TYPE_FREE
    ensures Acct(Switch(v, i, FreshInode(kind, now)), leaked)
    ensures Objects(Switch(v, i, FreshInode(kind, now))) == Objects(v)[i := Holding(kind, [])]
    ensures SeqSet(Owned(Switch(v, i, FreshInode(kind, now)), i)) == {} && i !in Objects(v)
  {
    var w := Switch(v, i, FreshInode(kind, now));
    FreshMoves(v, leaked, i, kind, now);
    MovesAcct(v, leaked, w, leaked, i);
    MovesObjects(v, leaked, w, leaked, i);
    assert ExtentsOf(w, FreshInode(kind, now)) == [];
    assert Owned(w, i) == [];
  }

  /** Apart from inode r the volume shows `before`. */
  ghost predicate KeepsRest(v: Vol, r: nat, before: map<nat, Obj>) {
    Consistent(v) && Objects(v) - {r} == before
  }

  lemma WithoutNew(before: map<nat, Obj>, r: nat, o: Obj)
    requires r !in before
    ensures before[r := o] - {r} == before && before - {r} == before
  {}

  ghost predicate TrailKeeps(trail: seq<Vol>, from: nat, r: nat, before: map<nat, Obj>) {
    forall k :: from <= k < |trail| ==> KeepsRest(trail[k], r, before)
  }

  lemma ShadowsKeep(v: Vol, leaked: set<nat>, trail: seq<Vol>, from: nat, r: nat, before: map<nat, Obj>)
    requires Acct(v, leaked) && |v.inodes| > 0 && TrailShadows(v, trail, from) && Objects(v) - {r} == before
    ensures TrailKeeps(trail, from, r, before)
  {
    hide Acct, Objects, Shadow;
    forall k | from <= k < |trail| ensures KeepsRest(trail[k], r, before) {
      ShadowKeeps(v, leaked, trail[k]);
    }
  }

  /** The in-memory inode of nvfs_write and nvfs_mkdir; its extents are left uninitialised there. */
  function NewInode(kind: byte, now: u32, junk: seq<Extent>): Inode
    requires |junk| == MAX_EXTENTS
  {
    InodeFields(0, kind, now % 0x100, now / 0x100 % 0x100, now / 0x1_0000 % 0x100, 0, junk, now)
  }

  lemma NewIsEmptied(kind: byte, now: u32, junk: seq<Extent>)
    requires |junk| == MAX_EXTENTS
    ensures Emptied(NewInode(kind, now, junk)) == NewInode(kind, now, junk)
    ensures NewInode(kind, now, junk).kind == kind && NewInode(kind, now, junk).mtime == now
  {}

  /** The three bytes behind the type hold the low 24 bits of the time of creation. */
  lemma NewTimes(kind: byte, now: u32, junk: seq<Extent>)
    requires |junk| == MAX_EXTENTS
    ensures var n := NewInode(kind, now, junk); Created(n) == now % 0x100_0000 && n.mtime == now
    ensures var n := FreshInode(kind, now); Created(n) == now % 0x100_0000 && n.mtime == now && n.kind == kind
  {
    ThreeDigits(now);
  }

  function Created(n: Inode): int {
    var c0: int, c1: int, c2: int := n.c0, n.c1, n.c2;
    c0 + 0x100 * c1 + 0x1_0000 * c2
  }

  lemma ThreeDigits(x: u32)
    ensures x % 0x100 + 0x100 * (x / 0x100 % 0x100) + 0x1_0000 * (x / 0x1_0000 % 0x100) == x % 0x100_0000
  {
    var hi, mid: int, lo: int := x / 0x1_0000, x / 0x100 % 0x100, x % 0x100;
    assert x == 0x1_0000 * hi + 0x100 * mid + lo;
    assert x == 0x100_0000 * (hi / 0x100) + 0x1_0000 * (hi % 0x100) + 0x100 * mid + lo;
  }

  /** Storing the contents and writing the inode of a fresh object. */
  method FillObject(dr: Drive, r: nat, kind: byte, data: seq<byte>, now: u32, junk: seq<Extent>, ghost leaked: set<nat>)
    returns (ok: bool)
    requires dr.Valid() && Acct(dr.vol, leaked) && |data| <= MAX_BUFFER && |junk| == MAX_EXTENTS
    requires 0 < r < |dr.vol.inodes| && dr.vol.inodes[r].kind == kind != TYPE_FREE && SeqSet(Owned(dr.vol, r)) == {}
    modifies dr
    ensures old(dr.Logged()) ==> dr.Logged()
    ensures dr.Valid() && old(dr.trail) <= dr.trail
    ensures ok <==> data == [] || Fits(old(dr.vol), SectorsFor(|data|))
    ensures ok ==> Acct(dr.vol, leaked) && Objects(dr.vol) == Objects(old(dr.vol))[r := Holding(kind, data)]
    ensures !ok ==> Acct(dr.vol, leaked) && Objects(dr.vol) == Objects(old(dr.vol))
    ensures ok ==> Room(dr.vol) + SectorsFor(|data|) == Room(old(dr.vol)) && SpareSame(old(dr.vol), dr.vol)
    ensures Plain(old(dr.vol)) ==> Plain(dr.vol)
    ensures forall i :: 0 <= i < |dr.vol.inodes| && i != r ==>
      i < |old(dr.vol).inodes| && dr.vol.inodes[i] == old(dr.vol).inodes[i]
    ensures |dr.vol.inodes| == |old(dr.vol).inodes| && dr.vol.inodes[r].kind == kind
    ensures ok ==> dr.vol.inodes[r].extentCount <= 1
    ensures !ok ==> dr.vol.inodes == old(dr.vol).inodes
    ensures TrailKeeps(dr.trail, |old(dr.trail)|, r, Objects(old(dr.vol)) - {r})
  {
    hide Drive.Valid, Drive.Logged, Acct, Objects, Prepared, Shadow, Owned, SectorsFor, Consistent, Room, PlainTable;
    ghost var v := dr.vol;
    dr.Sizes();
    ghost var rest := Objects(v) - {r};
    NewIsEmptied(kind, now, junk);
    var n := NewInode(kind, now, junk);
    var m := n;
    ok := true;
    PreparedEmpty(v, n);
    if kind == TYPE_FILE || data != [] {
      ok, m := ExtentWrite(dr, n, data);
    }
    ShadowsKeep(v, leaked, dr.trail, |old(dr.trail)|, r, rest);
    if !ok {
      ShadowKeeps(v, leaked, dr.vol);
      ShadowInodes(v, dr.vol);
      return;
    }
    Commit(v, leaked, dr.vol, r, n, m, data, now);
    PreparedInodes(v, dr.vol, n, m, data);
    PreparedFew(v, dr.vol, n, m, data);
    PreparedSmall(v, dr.vol, n, m, data, now);
    PreparedTakes(v, dr.vol, n, m, data);
    PreparedSpare(v, dr.vol, n, m, data);
    PreparedPlain(v, dr.vol, n, m, data, now);
    PlainPut(v.inodes, Objects(v), r, m, Holding(kind, data));
    SwitchFree(dr.vol, r, m);
    assert leaked + {} == leaked;
    assert Objects(v)[r := Holding(kind, data)] - {r} == rest;
    assert Stamped(m, now) == m;
    ConsistentNow(Switch(dr.vol, r, m), leaked);
    ok := dr.InodeWrite(r, m);
  }

  lemma ConsistentNow(v: Vol, leaked: set<nat>)
    requires Acct(v, leaked)
    ensures Consistent(v)
  {}

  lemma PreparedEmpty(v: Vol, n: Inode)
    requires Emptied(n) == n
    ensures Prepared(v, v, n, n, [])
  {}

  lemma ShadowInodes(v: Vol, w: Vol)
    requires Shadow(v, w)
    ensures w.inodes == v.inodes
  {}

  lemma PreparedInodes(v: Vol, w: Vol, n: Inode, m: Inode, data: seq<byte>)
    requires Prepared(v, w, n, m, data)
    ensures w.inodes == v.inodes && m.kind == n.kind && m.mtime == n.mtime
  {}

  lemma PreparedFew(v: Vol, w: Vol, n: Inode, m: Inode, data: seq<byte>)
    requires Prepared(v, w, n, m, data)
    ensures m.extentCount <= 1
  {}

  /** Apart from inode r every volume on the way shows `before` or `after`. */
  ghost predicate TrailGrafts(trail: seq<Vol>, from: nat, r: nat, before: map<nat, Obj>, after: map<nat, Obj>) {
    forall k :: from <= k < |trail| ==>
      Consistent(trail[k]) && (Objects(trail[k]) - {r} == before || Objects(trail[k]) - {r} == after)
  }

  ghost predicate SameInodesBut(v: Vol, w: Vol, r: nat) {
    |w.inodes| == |v.inodes| && forall i :: 0 <= i < |v.inodes| && i != r ==> w.inodes[i] == v.inodes[i]
  }

  /** inode_alloc and the contents of the new object; a failure releases the inode again. */
  method MakeObject(dr: Drive, kind: byte, data: seq<byte>, t0: u32, t1: u32, junk: seq<Extent>, ghost leaked: set<nat>)
    returns (r: int)
    requires dr.Valid() && Acct(dr.vol, leaked) && |data| <= MAX_BUFFER && |junk| == MAX_EXTENTS
    requires kind != TYPE_FREE && TableSuffices(dr.vol)
    modifies dr
    ensures old(dr.Logged()) ==> dr.Logged()
    ensures dr.Valid() && old(dr.trail) <= dr.trail
    ensures r >= 0 <==> HasFreeInode(old(dr.vol)) && (data == [] || Fits(old(dr.vol), SectorsFor(|data|)))
    ensures r >= 0 ==> r < |old(dr.vol).inodes| && FreeInode(old(dr.vol), r) && SameInodesBut(old(dr.vol), dr.vol, r)
    ensures r >= 0 ==> r !in Objects(old(dr.vol)) && Objects(dr.vol) == Objects(old(dr.vol))[r := Holding(kind, data)]
    ensures r >= 0 ==> TrailKeeps(dr.trail, |old(dr.trail)|, r, Objects(old(dr.vol)))
    ensures r >= 0 ==> Room(dr.vol) + SectorsFor(|data|) == Room(old(dr.vol)) && dr.vol.inodes[r].extentCount <= 1
    ensures r >= 0 ==> SpareSame(old(dr.vol), dr.vol)
    ensures Plain(old(dr.vol)) ==> Plain(dr.vol)
    ensures r < 0 ==> exists q: nat :: TrailKeeps(dr.trail, |old(dr.trail)|, q, Objects(old(dr.vol)))
    ensures r < 0 ==> Objects(dr.vol) == Objects(old(dr.vol))
    ensures r < 0 ==> dr.errno == if HasFreeInode(old(dr.vol)) then ERR_NO_SPACE else ERR_NO_INODE
    ensures Acct(dr.vol, leaked)
  {
    hide Drive.Valid, Drive.Logged, Acct, Objects, Shadow, Owned, SectorsFor, Consistent, Fits, KeepsRest, Room,
      PlainTable;
    ghost var v := dr.vol;
    dr.Sizes();
    var geo;
    r, geo := InodeAlloc(dr, kind, t0);
    if r < 0 {
      NoSuchObject(v);
      ShadowsKeep(v, leaked, dr.trail, |old(dr.trail)|, |v.inodes|, Objects(v));
      return;
    }
    PlainPut(v.inodes, Objects(v), r, FreshInode(kind, t0), Holding(kind, []));
    FreshAcct(v, leaked, r, kind, t0);
    FreshFits(v, r, FreshInode(kind, t0), SectorsFor(|data|));
    SwitchFree(v, r, FreshInode(kind, t0));
    WithoutNew(Objects(v), r, Holding(kind, []));
    KeepsNow(dr.vol, leaked, r, Objects(v));
    ghost var w := dr.vol;
    ghost var early := |dr.trail|;
    var ok := FillObject(dr, r, kind, data, t1, junk, leaked);
    if !ok {
      NothingOwned(dr.vol, r);
      ghost var q := r;
      ok := InodeFree(dr, r, leaked);
      KeepsNow(dr.vol, leaked, q, Objects(v));
      assert TrailKeeps(dr.trail, |old(dr.trail)|, q, Objects(v));
      dr.errno := ERR_NO_SPACE;
      r := -1;
      return;
    }
    assert Objects(w)[r := Holding(kind, data)] == Objects(v)[r := Holding(kind, data)];
  }

  lemma NoSuchObject(v: Vol)
    ensures |v.inodes| !in Objects(v) && Objects(v) - {|v.inodes|} == Objects(v)
  {}

  lemma NothingOwned(v: Vol, i: nat)
    requires i < |v.inodes| && v.inodes[i].extentCount == 0
    ensures Owned(v, i) == []
  {}

  lemma KeepsNow(v: Vol, leaked: set<nat>, r: nat, before: map<nat, Obj>)
    requires Acct(v, leaked) && Objects(v) - {r} == before
    ensures KeepsRest(v, r, before)
  {}

  lemma FreshFits(v: Vol, r: nat, m: Inode, count: nat)
    requires r < |v.inodes|
    ensures Fits(Switch(v, r, m), count) <==> Fits(v, count)
  {
    var w := Switch(v, r, m);
    forall s: nat ensures FreeRun(w, s, count) <==> FreeRun(v, s, count) {}
  }

  /** Apart from inode q every volume on the way shows `before`. */
  ghost predicate TrailRest(trail: seq<Vol>, from: nat, q: nat, before: map<nat, Obj>) {
    forall k :: from <= k < |trail| ==> Objects(trail[k]) - {q} == before
  }

  ghost predicate TrailConsistent(trail: seq<Vol>, from: nat) {
    forall k :: from <= k < |trail| ==> Consistent(trail[k])
  }

  /** The data of a new object is stored before its entry is refused. */
  ghost predicate StoredFirst(v: Vol, data: seq<byte>) {
    HasFreeInode(v) && data != [] && Fits(v, SectorsFor(|data|))
  }

  /** nvfs_write of a new file and nvfs_mkdir, once the parent and the name are known.  On a full
      directory of 14 extents the entry is lost and the new object stays unlisted.  A failure leaves
      every object as it was; on the way to it all volumes are consistent exactly when no data was
      stored, because the release of stored data unmarks it first. */
  method Create(dr: Drive, parent: nat, name: Name, kind: byte, data: seq<byte>, t0: u32, t1: u32, t2: u32,
                junk: seq<Extent>,
                ghost leaked: set<nat>)
    returns (r: int, ghost after: Obj, ghost lost: set<nat>)
    requires dr.Valid() && Acct(dr.vol, leaked) && |data| <= MAX_BUFFER && |junk| == MAX_EXTENTS && ZeroFree(name)
    requires kind != TYPE_FREE && TableSuffices(dr.vol)
    requires IsDir(dr.vol, parent) && TableOk(Table(dr.vol, parent))
    modifies dr
    ensures old(dr.Logged()) ==> dr.Logged()
    ensures dr.Valid() && old(dr.trail) <= dr.trail && Acct(dr.vol, leaked + lost)
    ensures r >= 0 <==> Key(name) !in Entries(Table(old(dr.vol), parent)) && Creatable(old(dr.vol), parent, data)
    ensures r >= 0 ==> r < |old(dr.vol).inodes| && r !in Objects(old(dr.vol)) && r != 0
    ensures r >= 0 && Roomy(old(dr.vol), parent) ==>
      lost == {} && DirHolds(after, Entries(Table(old(dr.vol), parent))[Key(name) := r])
    ensures r >= 0 && !Roomy(old(dr.vol), parent) ==>
      |lost| == 1 && DirHolds(after, Entries(Table(old(dr.vol), parent)))
    ensures r >= 0 ==> Objects(dr.vol) == Objects(old(dr.vol))[r := Holding(kind, data)][parent := after]
    ensures r >= 0 ==>
      TrailGrafts(dr.trail, |old(dr.trail)|, r, Objects(old(dr.vol)), Objects(old(dr.vol))[parent := after])
    ensures r < 0 ==> Objects(dr.vol) == Objects(old(dr.vol)) && lost == {}
    ensures r < 0 ==> exists q: nat :: TrailRest(dr.trail, |old(dr.trail)|, q, Objects(old(dr.vol)))
    ensures r < 0 ==> (TrailConsistent(dr.trail, |old(dr.trail)|) <==> !StoredFirst(old(dr.vol), data))
    ensures r < 0 && HasFreeInode(old(dr.vol)) && (data == [] || StoredFirst(old(dr.vol), data)) ==>
      (dr.errno == ERR_EXISTS <==> Key(name) in Entries(Table(old(dr.vol), parent)))
    ensures r < 0 ==> dr.errno == CreateError(dr.geo, old(dr.vol), parent, Key(name), data)
    ensures Plain(old(dr.vol)) ==> Plain(dr.vol)
  {
    hide Drive.Valid, Drive.Logged, Acct, Objects, Consistent, TableSuffices, Table, TableOk, Entries, Roomy, DirHolds,
      TrailEitherOr, Insertable, Fits, Room, SectorsFor, HasSlot, Growable, Creatable, HasFreeInode, SameInodesBut,
      TrailKeeps, KeepsRest, PlainTable, TrailGrafts, Holding, Key, ZeroFree, TrailRest, TrailConsistent, Owned,
      AddError, FullError, Spare, SpareSame;
    ghost var v := dr.vol;
    dr.Sizes();
    after, lost := Obj(0, 0, []), {};
    assert leaked + {} == leaked;
    CreatableNeeds(v, parent, data);
    r := MakeObject(dr, kind, data, t0, t1, junk, leaked);
    if r < 0 {
      ghost var q: nat :| TrailKeeps(dr.trail, |old(dr.trail)|, q, Objects(v));
      KeptTrail(dr.trail, |old(dr.trail)|, q, Objects(v));
      return;
    }
    ghost var w := dr.vol;
    ghost var early := dr.trail;
    SameDirectory(v, w, parent, r);
    Foretold(v, w, parent, data);
    InsertableIff(w, parent, Key(name));
    ErrorForetold(dr.geo, v, w, parent, Key(name), data);
    hide CreateError;
    var ok;
    ok, after, lost := DirAdd(dr, parent, name, r, t2, leaked);
    InsertableFacts(w, parent, Key(name));
    if !ok {
      LiveStays(dr.vol, Objects(w), r);
      ghost var x, mid, q := dr.vol, dr.trail, r;
      HoldingOwns(x, r, kind, data);
      ok := InodeFree(dr, r, leaked);
      ConsistentNow(dr.vol, leaked);
      WithoutNew(Objects(v), r, Holding(kind, data));
      FailTrail(early, mid, dr.trail, |old(dr.trail)|, q, Objects(v), Holding(kind, data), dr.vol);
      r, lost := -1, {};
      return;
    }
    GraftTrail(early, dr.trail, |old(dr.trail)|, r, parent, Objects(v), Holding(kind, data), after);
  }

  lemma KeptTrail(trail: seq<Vol>, from: nat, q: nat, before: map<nat, Obj>)
    requires TrailKeeps(trail, from, q, before)
    ensures TrailRest(trail, from, q, before) && TrailConsistent(trail, from)
  {
    hide Objects, Consistent;
    forall k | from <= k < |trail| ensures Objects(trail[k]) - {q} == before && Consistent(trail[k]) {
      assert KeepsRest(trail[k], q, before);
    }
  }

  /** A fresh object owns one block for every sector of its data. */
  lemma HoldingOwns(v: Vol, r: nat, kind: byte, data: seq<byte>)
    requires |data| <= MAX_BUFFER && r in Objects(v) && Objects(v)[r] == Holding(kind, data) && r < |v.inodes|
    requires v.inodes[r].extentCount <= 1
    ensures |Owned(v, r)| > 0 <==> data != []
  {
    hide BlockList, ExtentsOf, Chunk, SectorsFor;
    Sectors(|data|);
    assert |Owned(v, r)| == |BlockList(ExtentsOf(v, v.inodes[r]))| == |Objects(v)[r].blocks|;
  }

  /** The trail of a creation whose entry is refused: `early` until the object is made, `mid` until
      dir_add gives up, then the release of the object. */
  lemma FailTrail(early: seq<Vol>, mid: seq<Vol>, trail: seq<Vol>, from: nat, r: nat, before: map<nat, Obj>, o: Obj,
                  end: Vol)
    requires from <= |early| && early <= mid <= trail && |mid| < |trail| && r !in before
    requires TrailKeeps(early, from, r, before) && TrailEitherOr(mid, |early|, before[r := o], before[r := o])
    requires forall k :: |mid| <= k < |trail| - 1 ==> !Consistent(trail[k]) && Objects(trail[k]) == before[r := o]
    requires trail[|trail| - 1] == end && Consistent(end) && Objects(end) == before
    ensures TrailRest(trail, from, r, before)
    ensures TrailConsistent(trail, from) <==> |trail| == |mid| + 1
  {
    hide Objects, Consistent;
    WithoutNew(before, r, o);
    forall k | from <= k < |trail| ensures Objects(trail[k]) - {r} == before {
      if k < |mid| { FailEntry(early, mid, trail, from, r, before, o, k); }
    }
    forall k | from <= k < |mid| ensures Consistent(trail[k]) {
      FailEntry(early, mid, trail, from, r, before, o, k);
    }
    if |trail| > |mid| + 1 { assert !Consistent(trail[|mid|]); }
  }

  lemma FailEntry(early: seq<Vol>, mid: seq<Vol>, trail: seq<Vol>, from: nat, r: nat, before: map<nat, Obj>, o: Obj,
                  k: nat)
    requires from <= |early| && early <= mid <= trail && r !in before && from <= k < |mid|
    requires TrailKeeps(early, from, r, before) && TrailEitherOr(mid, |early|, before[r := o], before[r := o])
    ensures Objects(trail[k]) - {r} == before && Consistent(trail[k])
  {
    hide Objects, Consistent;
    WithoutNew(before, r, o);
    if k < |early| {
      assert KeepsRest(early[k], r, before);
    } else {
      assert EitherOr(mid[k], before[r := o], before[r := o]);
    }
  }

  lemma InsertableIff(v: Vol, dir: nat, key: Name)
    requires IsDir(v, dir)
    ensures Insertable(v, dir, key) <==> key !in Entries(Table(v, dir)) && (HasSlot(v, dir) || Growable(v, dir))
  {}

  lemma InsertableFacts(v: Vol, dir: nat, key: Name)
    ensures Insertable(v, dir, key) ==> IsDir(v, dir) && key !in Entries(Table(v, dir))
  {}

  lemma LiveStays(v: Vol, objs: map<nat, Obj>, r: nat)
    requires Objects(v) == objs && r in objs
    ensures r < |v.inodes| && v.inodes[r].kind != TYPE_FREE
  {}

  /** Adding an object elsewhere changes nothing about a directory. */
  lemma SameDirectory(v: Vol, w: Vol, dir: nat, r: nat)
    requires SameInodesBut(v, w, r) && IsDir(v, dir) && dir != r && r !in Objects(v)
    requires Objects(w) - {r} == Objects(v)
    ensures IsDir(w, dir) && Table(w, dir) == Table(v, dir) && (Roomy(w, dir) <==> Roomy(v, dir))
    ensures w.inodes[dir] == v.inodes[dir] && (HasSlot(w, dir) <==> HasSlot(v, dir))
  {
    assert dir in Objects(v) && Objects(v)[dir] == ObjOf(v, v.inodes[dir]);
    assert (Objects(w) - {r})[dir] == ObjOf(w, w.inodes[dir]);
    hide Objects, ObjOf, Slots;
  }

  lemma GraftTrail(early: seq<Vol>, trail: seq<Vol>, from: nat, r: nat, parent: nat, before: map<nat, Obj>, o: Obj,
                   after: Obj)
    requires from <= |early| && early <= trail && TrailKeeps(early, from, r, before) && r !in before && parent != r
    requires TrailEitherOr(trail, |early|, before[r := o], before[r := o][parent := after])
    ensures TrailGrafts(trail, from, r, before, before[parent := after])
  {
    hide Objects, Consistent;
    assert before[r := o] - {r} == before;
    assert before[r := o][parent := after] - {r} == before[parent := after];
    forall k | from <= k < |trail|
      ensures Consistent(trail[k])
      ensures (Objects(trail[k]) - {r} == before || Objects(trail[k]) - {r} == before[parent := after])
    {
      if k < |early| {
        assert KeepsRest(early[k], r, before);
      } else {
        assert EitherOr(trail[k], before[r := o], before[r := o][parent := after]);
      }
    }
  }
}
