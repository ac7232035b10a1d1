/** The steps of a shadow-paged update as moves of block ownership: new blocks are
    taken from the free ones, the inode is switched over, the old blocks are released. */
module NvfsCommit {
  import opened Bytes
  import opened Collections
  import opened NvfsFormat
  import opened NvfsVolume
  import opened NvfsOwnership
  import opened NvfsContents
  import opened NvfsDriver
  import opened NvfsExtents

  /** Sound up to leaked blocks: no block is referenced twice and no referenced block is marked free. */
  ghost predicate Consistent(v: Vol) {
    exists leaked: set<nat> :: Acct(v, leaked)
  }

  /** The volume is consistent and shows either the objects of before or those of after. */
  ghost predicate EitherOr(v: Vol, before: map<nat, Obj>, after: map<nat, Obj>) {
    Consistent(v) && (Objects(v) == before || Objects(v) == after)
  }

  lemma ShadowRebooks(v: Vol, leaked: set<nat>, w: Vol) returns (left: set<nat>)
    requires Acct(v, leaked) && Shadow(v, w)
    ensures Rebooks(v, leaked, w, left)
    ensures w.used == v.used ==> left == leaked
  {
    left := set b: nat | b in w.used && b < |w.blocks| && (b !in v.used || b in leaked);
  }

  /** Until the inode is switched, the volume is consistent and shows the old contents. */
  lemma ShadowKeeps(v: Vol, leaked: set<nat>, w: Vol)
    requires Acct(v, leaked) && Shadow(v, w) && |v.inodes| > 0
    ensures Consistent(w) && Objects(w) == Objects(v)
    ensures w.used == v.used ==> Acct(w, leaked)
  {
    var left := ShadowRebooks(v, leaked, w);
    RebooksAcct(v, leaked, w, left);
  }

  lemma WroteAcct(v: Vol, leaked: set<nat>, w: Vol, start: nat, data: seq<byte>, n: nat)
    requires Acct(v, leaked) && |v.inodes| > 0
    requires Wrote(v, w, start, data, 0, n) && FreeRun(v, start, n)
    ensures Acct(w, leaked + RunSet(start, n)) && Objects(w) == Objects(v)
  {
    RebooksAcct(v, leaked, w, leaked + RunSet(start, n));
  }

  /** Inode i replaced by m. */
  ghost function Switch(v: Vol, i: nat, m: Inode): Vol
    requires i < |v.inodes|
  {
    v.(inodes := v.inodes[i := m])
  }

  lemma StoredRefs(v: Vol, n: Inode, size: u32, start: u32, count: u32)
    ensures RefsOf(v, Stored(n, size, start, count)) == Run(start, count)
    ensures ObjOf(v, Stored(n, size, start, count)) == Obj(n.kind, size, Load(v, Run(start, count)))
  {
    var m := Stored(n, size, start, count);
    assert ExtentsOf(v, m) == [Extent(start, count)];
    assert BlockList([Extent(start, count)]) == Run(start, count) by {
      assert BlockList([Extent(start, count)][..0]) == [];
    }
    assert RefsOf(v, m) == Run(start, count);
  }

  lemma EmptiedRefs(v: Vol, n: Inode)
    ensures RefsOf(v, Emptied(n)) == []
    ensures ObjOf(v, Emptied(n)) == Obj(n.kind, 0, [])
  {
    assert ExtentsOf(v, Emptied(n)) == [];
  }

  /** The switch to an inode whose blocks `taken` were reserved beforehand or were its own. */
  lemma SwitchMoves(v: Vol, leaked: set<nat>, i: nat, m: Inode, taken: seq<nat>, left: set<nat>)
    requires Acct(v, leaked) && i < |v.inodes| && m.kind != TYPE_FREE
    requires RefsOf(v, m) == taken && NoDup(taken) && SeqSet(taken) <= leaked + SeqSet(Owned(v, i))
    requires left == leaked + SeqSet(Owned(v, i)) - SeqSet(taken)
    ensures Moves(v, leaked, Switch(v, i, m), left, i)
    ensures ObjOf(Switch(v, i, m), m) == ObjOf(v, m)
  {
    var w := Switch(v, i, m);
    Frame(v, w, m);
    assert Owned(w, i) == taken;
    assert SoundInode(v, leaked, i);
    forall b | b in taken ensures b in leaked || b in Owned(v, i) {
      assert b in SeqSet(taken);
    }
    assert SoundInode(w, left, i);
    forall b: nat | b < |v.blocks| && b in w.used
      ensures b in left || b in Owned(w, i) || Foreign(v, leaked, i, b)
    {
      if b in taken { assert b in Owned(w, i); }
    }
  }

  lemma SwitchAcct(v: Vol, leaked: set<nat>, i: nat, m: Inode, taken: seq<nat>, left: set<nat>)
    requires Acct(v, leaked) && i < |v.inodes| && m.kind != TYPE_FREE
    requires RefsOf(v, m) == taken && NoDup(taken) && SeqSet(taken) <= leaked + SeqSet(Owned(v, i))
    requires left == leaked + SeqSet(Owned(v, i)) - SeqSet(taken)
    ensures Acct(Switch(v, i, m), left)
    ensures Objects(Switch(v, i, m)) == Objects(v)[i := ObjOf(v, m)]
  {
    SwitchMoves(v, leaked, i, m, taken, left);
    MovesAcct(v, leaked, Switch(v, i, m), left, i);
    MovesObjects(v, leaked, Switch(v, i, m), left, i);
  }

  lemma FreedRebooks(v: Vol, leaked: set<nat>, w: Vol, bs: seq<nat>)
    requires Acct(v, leaked) && Freed(v, w, bs) && SeqSet(bs) <= leaked
    ensures Rebooks(v, leaked, w, leaked * w.used)
  {
    forall b: nat | b < |v.blocks| && b in v.used && b !in leaked ensures b in w.used {
      assert b !in SeqSet(bs);
    }
  }

  /** Releasing leaked blocks keeps the volume consistent and its contents the same. */
  lemma FreedAcct(v: Vol, leaked: set<nat>, w: Vol, bs: seq<nat>)
    requires Acct(v, leaked) && Freed(v, w, bs) && SeqSet(bs) <= leaked && |v.inodes| > 0
    ensures Acct(w, leaked * w.used) && Objects(w) == Objects(v)
  {
    FreedRebooks(v, leaked, w, bs);
    RebooksAcct(v, leaked, w, leaked * w.used);
  }

  lemma LoadWrote(v: Vol, w: Vol, start: nat, data: seq<byte>, n: nat)
    requires Wrote(v, w, start, data, 0, n) && n > 0
    ensures Load(w, Run(start, n)) == Chunks(data, n)
  {
    hide Load, Chunks, Run, Chunk, RunSet;
    assert start + n <= |v.blocks|;
    forall k: nat | k < n ensures Load(w, Run(start, n))[k] == Chunks(data, n)[k] {
      assert w.blocks[start + k] == Chunk(data, k);
    }
  }

  function Stamped(m: Inode, now: u32): Inode {
    InodeFields(m.size, m.kind, m.c0, m.c1, m.c2, m.extentCount, m.extents, now)
  }

  lemma StampedSame(v: Vol, m: Inode, now: u32)
    ensures RefsOf(v, Stamped(m, now)) == RefsOf(v, m) && ObjOf(v, Stamped(m, now)) == ObjOf(v, m)
  {}

  /** What the object becomes when `data` is stored in it. */
  function Holding(kind: byte, data: seq<byte>): Obj
    requires |data| <= MAX_BUFFER
  {
    Obj(kind, |data|, Chunks(data, SectorsFor(|data|)))
  }

  lemma RebooksOwned(v: Vol, leaked: set<nat>, w: Vol, left: set<nat>, i: nat)
    requires Acct(v, leaked) && Rebooks(v, leaked, w, left) && i < |v.inodes|
    ensures Owned(w, i) == Owned(v, i)
  {
    RebooksMoves(v, leaked, w, left, i);
  }

  lemma CommitStored(v: Vol, leaked: set<nat>, w: Vol, i: nat, n: Inode, m: Inode, data: seq<byte>, start: u32,
                     now: u32)
    requires Acct(v, leaked) && i < |v.inodes| && n.kind != TYPE_FREE
    requires PreparedAt(v, w, n, m, data, start)
    ensures |w.inodes| == |v.inodes|
    ensures Acct(Switch(w, i, Stamped(m, now)), leaked + SeqSet(Owned(v, i)))
    ensures Objects(Switch(w, i, Stamped(m, now))) == Objects(v)[i := Holding(n.kind, data)]
  {
    hide Acct, Wrote, Owned, Objects, RunSet, SeqSet, NoDup, RefsOf, ObjOf;
    var count := SectorsFor(|data|);
    var taken := Run(start, count);
    WroteShadow(v, w, start, data, 0, count);
    WroteAcct(v, leaked, w, start, data, count);
    WroteOwned(v, leaked, w, start, data, count, i);
    StoredRefs(w, n, |data|, start, count);
    StampedSame(w, m, now);
    LoadWrote(v, w, start, data, count);
    ReservedRun(v, leaked, start, count);
    OwnedMarked(v, leaked, i);
    TakenOnly(leaked, RunSet(start, count), SeqSet(Owned(v, i)));
    SwitchAcct(w, leaked + RunSet(start, count), i, Stamped(m, now), taken,
               leaked + SeqSet(Owned(v, i)));
  }

  lemma WroteOwned(v: Vol, leaked: set<nat>, w: Vol, start: nat, data: seq<byte>, n: nat, i: nat)
    requires Acct(v, leaked) && i < |v.inodes|
    requires Wrote(v, w, start, data, 0, n) && FreeRun(v, start, n)
    ensures w.inodes == v.inodes && Owned(w, i) == Owned(v, i)
  {
    RebooksOwned(v, leaked, w, leaked + RunSet(start, n), i);
  }

  lemma ReservedRun(v: Vol, leaked: set<nat>, start: nat, n: nat)
    requires Acct(v, leaked) && FreeRun(v, start, n)
    ensures NoDup(Run(start, n)) && SeqSet(Run(start, n)) == RunSet(start, n)
    ensures RunSet(start, n) !! v.used
  {
    forall b: nat ensures b in Run(start, n) <==> b in RunSet(start, n) {
      RunMember(start, n, b);
    }
  }

  lemma TakenOnly(leaked: set<nat>, run: set<nat>, owned: set<nat>)
    requires run !! leaked && run !! owned
    ensures leaked + run + owned - run == leaked + owned
  {}

  lemma OwnedMarked(v: Vol, leaked: set<nat>, i: nat)
    requires Acct(v, leaked) && i < |v.inodes|
    ensures SeqSet(Owned(v, i)) <= v.used && leaked <= v.used
  {
    assert SoundInode(v, leaked, i);
  }

  lemma CommitEmptied(v: Vol, leaked: set<nat>, i: nat, n: Inode, now: u32)
    requires Acct(v, leaked) && i < |v.inodes| && n.kind != TYPE_FREE
    ensures Acct(Switch(v, i, Stamped(Emptied(n), now)), leaked + SeqSet(Owned(v, i)))
    ensures Objects(Switch(v, i, Stamped(Emptied(n), now))) == Objects(v)[i := Holding(n.kind, [])]
  {
    hide Acct, Owned, Objects;
    var m := Emptied(n);
    EmptiedRefs(v, n);
    StampedSame(v, m, now);
    assert SeqSet([]) == {};
    SwitchAcct(v, leaked, i, Stamped(m, now), [], leaked + SeqSet(Owned(v, i)));
  }

  /** Once the inode points at the stored data, the volume shows the new contents and
      the old blocks are leaked. */
  lemma Commit(v: Vol, leaked: set<nat>, w: Vol, i: nat, n: Inode, m: Inode, data: seq<byte>, now: u32)
    requires Acct(v, leaked) && i < |v.inodes| && n.kind != TYPE_FREE
    requires Prepared(v, w, n, m, data) && |data| <= MAX_BUFFER
    ensures |w.inodes| == |v.inodes|
    ensures Acct(Switch(w, i, Stamped(m, now)), leaked + SeqSet(Owned(v, i)))
    ensures Objects(Switch(w, i, Stamped(m, now))) == Objects(v)[i := Holding(n.kind, data)]
  {
    hide Acct, Owned, Objects, PreparedAt;
    if data == [] {
      CommitEmptied(v, leaked, i, n, now);
    } else {
      var start: u32 :| PreparedAt(v, w, n, m, data, start);
      CommitStored(v, leaked, w, i, n, m, data, start, now);
    }
  }

  // ------------------------------------------------- changes inside one object

  lemma OwnBlocks(v: Vol, leaked: set<nat>, i: nat)
    requires Acct(v, leaked) && i < |v.inodes| && v.inodes[i].kind != TYPE_FREE
    ensures NoDup(BlockList(ExtentsOf(v, v.inodes[i])))
    ensures forall b :: b in BlockList(ExtentsOf(v, v.inodes[i])) ==> b < |v.blocks| && b in Owned(v, i)
    ensures v.inodes[i].extentCount > DIRECT_EXTENTS ==>
      v.inodes[i].extents[DIRECT_EXTENTS].start !in BlockList(ExtentsOf(v, v.inodes[i]))
  {
    hide BlockList, ExtentsOf;
    assert SoundInode(v, leaked, i);
    var bs, refs := BlockList(ExtentsOf(v, v.inodes[i])), Owned(v, i);
    assert forall q :: 0 <= q < |bs| ==> bs[q] == refs[q];
    forall b | b in bs ensures b < |v.blocks| && b in Owned(v, i) {
      var q :| 0 <= q < |bs| && bs[q] == b;
      assert refs[q] in refs;
    }
    if v.inodes[i].extentCount > DIRECT_EXTENTS {
      assert refs[|bs|] == v.inodes[i].extents[DIRECT_EXTENTS].start;
    }
  }

  lemma LoadUpdate(v: Vol, bs: seq<nat>, p: nat, s: Sector)
    requires NoDup(bs) && p < |bs| && bs[p] < |v.blocks|
    ensures Load(v.(blocks := v.blocks[bs[p] := s]), bs) == Load(v, bs)[p := s]
  {
    hide Load;
    var w := v.(blocks := v.blocks[bs[p] := s]);
    forall q | 0 <= q < |bs| ensures Load(w, bs)[q] == Load(v, bs)[p := s][q] {
    }
  }

  lemma RewriteFrame(v: Vol, leaked: set<nat>, i: nat, p: nat, s: Sector)
    requires Acct(v, leaked) && i < |v.inodes| && v.inodes[i].kind != TYPE_FREE
    requires p < |BlockList(ExtentsOf(v, v.inodes[i]))|
    ensures BlockList(ExtentsOf(v, v.inodes[i]))[p] < |v.blocks|
    ensures var w := v.(blocks := v.blocks[BlockList(ExtentsOf(v, v.inodes[i]))[p] := s]);
      && ExtentsOf(w, v.inodes[i]) == ExtentsOf(v, v.inodes[i]) && Owned(w, i) == Owned(v, i)
      && ObjOf(w, v.inodes[i]) ==
         Obj(v.inodes[i].kind, v.inodes[i].size, Load(v, BlockList(ExtentsOf(v, v.inodes[i])))[p := s])
  {
    hide Acct, BlockList, Load, NoDup, ExtentsFrom;
    OwnBlocks(v, leaked, i);
    var bs := BlockList(ExtentsOf(v, v.inodes[i]));
    assert bs[p] in bs;
    LoadUpdate(v, bs, p, s);
    var w := v.(blocks := v.blocks[bs[p] := s]);
    assert ExtentsOf(w, v.inodes[i]) == ExtentsOf(v, v.inodes[i]);
  }

  lemma RewriteMoves(v: Vol, leaked: set<nat>, i: nat, b: nat, s: Sector)
    requires Acct(v, leaked) && i < |v.inodes| && v.inodes[i].kind != TYPE_FREE
    requires b in Owned(v, i) && b < |v.blocks|
    requires Owned(v.(blocks := v.blocks[b := s]), i) == Owned(v, i)
    ensures Moves(v, leaked, v.(blocks := v.blocks[b := s]), leaked, i)
  {
    hide Owned, NoDup;
    assert SoundInode(v, leaked, i);
    assert forall c: nat :: c in leaked ==> c < |v.blocks| && c in v.used;
    hide Acct;
    var w := v.(blocks := v.blocks[b := s]);
    assert SoundInode(w, leaked, i);
    forall c: nat | c < |v.blocks| && c in w.used ensures c in leaked || c in Owned(w, i) || Foreign(v, leaked, i, c) {
    }
  }

  /** A block of an object is rewritten in place: ownership stays, and only that object changes. */
  lemma Rewrite(v: Vol, leaked: set<nat>, i: nat, p: nat, s: Sector)
    requires Acct(v, leaked) && i < |v.inodes| && v.inodes[i].kind != TYPE_FREE
    requires p < |BlockList(ExtentsOf(v, v.inodes[i]))|
    ensures BlockList(ExtentsOf(v, v.inodes[i]))[p] < |v.blocks|
    ensures var w := v.(blocks := v.blocks[BlockList(ExtentsOf(v, v.inodes[i]))[p] := s]);
      Acct(w, leaked) && Objects(w) == Objects(v)[i :=
        Obj(v.inodes[i].kind, v.inodes[i].size, Load(v, BlockList(ExtentsOf(v, v.inodes[i])))[p := s])]
  {
    hide BlockList, ExtentsOf, Acct, Objects, Moves, NoDup;
    OwnBlocks(v, leaked, i);
    RewriteFrame(v, leaked, i, p, s);
    var b := BlockList(ExtentsOf(v, v.inodes[i]))[p];
    RewriteMoves(v, leaked, i, b, s);
    var w := v.(blocks := v.blocks[b := s]);
    MovesAcct(v, leaked, w, leaked, i);
    MovesObjects(v, leaked, w, leaked, i);
  }

  /** Writing back the inode with a new time stamp changes no object. */
  lemma Restamp(v: Vol, leaked: set<nat>, i: nat, now: u32)
    requires Acct(v, leaked) && i < |v.inodes| && v.inodes[i].kind != TYPE_FREE
    ensures Acct(Switch(v, i, Stamped(v.inodes[i], now)), leaked)
    ensures Objects(Switch(v, i, Stamped(v.inodes[i], now))) == Objects(v)
  {
    var n := v.inodes[i];
    assert SoundInode(v, leaked, i);
    StampedSame(v, n, now);
    assert leaked + SeqSet(Owned(v, i)) - SeqSet(Owned(v, i)) == leaked;
    SwitchAcct(v, leaked, i, Stamped(n, now), Owned(v, i), leaked);
    assert Objects(v)[i := ObjOf(v, n)] == Objects(v);
  }

  // ------------------------------------------------- what the driver and the formatter make

  /** Only directories have more than 13 extents: extent_write stores a file in one. */
  ghost predicate PlainInode(n: Inode) {
    n.kind == TYPE_FREE || n.kind == TYPE_DIR || n.extentCount <= DIRECT_EXTENTS
  }

  /** A directory has at least one block for each of its extents. */
  ghost predicate PlainTable(ns: seq<Inode>, objs: map<nat, Obj>) {
    forall i :: 0 <= i < |ns| ==>
      PlainInode(ns[i]) && (ns[i].kind == TYPE_DIR ==> i in objs && ns[i].extentCount <= |objs[i].blocks|)
  }

  /** The volumes that the formatter and the driver make. */
  ghost predicate Plain(v: Vol) { PlainTable(v.inodes, Objects(v)) }

  lemma PlainPut(ns: seq<Inode>, objs: map<nat, Obj>, i: nat, n: Inode, o: Obj)
    requires i < |ns| && PlainInode(n) && (n.kind == TYPE_DIR ==> n.extentCount <= |o.blocks|)
    ensures PlainTable(ns, objs) ==> PlainTable(ns[i := n], objs[i := o])
  {}

  lemma PlainDrop(ns: seq<Inode>, objs: map<nat, Obj>, i: nat, n: Inode)
    requires i < |ns| && n.kind == TYPE_FREE
    ensures PlainTable(ns, objs) ==> PlainTable(ns[i := n], objs - {i})
  {}

  /** A directory gains as many blocks as extents. */
  lemma PlainGrow(ns: seq<Inode>, objs: map<nat, Obj>, i: nat, n: Inode, o: Obj, k: nat)
    requires i < |ns| && ns[i].kind == TYPE_DIR == n.kind && i in objs
    requires n.extentCount <= ns[i].extentCount + k && |objs[i].blocks| + k <= |o.blocks|
    ensures PlainTable(ns, objs) ==> PlainTable(ns[i := n], objs[i := o])
  {}

  lemma PreparedPlain(v: Vol, w: Vol, n: Inode, m: Inode, data: seq<byte>, now: u32)
    requires Prepared(v, w, n, m, data)
    ensures w.inodes == v.inodes && PlainInode(Stamped(m, now)) && PlainInode(m)
    ensures m.extentCount == Stamped(m, now).extentCount <= SectorsFor(|data|)
  {}

  lemma ObjSelf(v: Vol, i: nat)
    requires i < |v.inodes| && v.inodes[i].kind != TYPE_FREE
    ensures i in Objects(v) && Objects(v)[i] == ObjOf(v, v.inodes[i])
  {}

  lemma ShadowTable(v: Vol, w: Vol)
    requires Shadow(v, w)
    ensures w.inodes == v.inodes
  {}
}
