/** What the driver's updates make of the tree: overwriting, creating and removing, seen on whole
    volumes and on every volume a power cut can leave. */
module NvfsUpdates {
  import opened Bytes
  import opened NvfsFormat
  import opened NvfsVolume
  import opened NvfsContents
  import opened NvfsExtents
  import opened NvfsSlots
  import opened NvfsCommit
  import opened NvfsFiles
  import opened NvfsDirs
  import opened NvfsCreate
  import opened NvfsTree
  import opened NvfsNamespace

  function NodeAt(fs: Fs, i: nat): Node { if i in fs then fs[i] else Odd(TYPE_FREE) }

  ghost predicate DirNode(fs: Fs, i: nat) { i in fs && fs[i].Dir? }

  // ------------------------------------------------- objects and nodes

  lemma FsPut(objs: map<nat, Obj>, i: nat, o: Obj)
    ensures FsOf(objs[i := o]) == FsOf(objs)[i := NodeOf(o)]
    ensures AllOk(objs) && ObjOk(o) ==> AllOk(objs[i := o])
    ensures AllOk(objs[i := o]) ==> ObjOk(o)
  {
    hide NodeOf, ObjOk;
    if AllOk(objs[i := o]) { assert ObjOk(objs[i := o][i]); }
  }

  lemma FsDrop(objs: map<nat, Obj>, i: nat)
    ensures FsOf(objs - {i}) == FsOf(objs) - {i}
    ensures AllOk(objs) ==> AllOk(objs - {i})
  {
    hide NodeOf;
  }

  lemma NodeKinds(o: Obj)
    ensures NodeOf(o).File? <==> o.kind == TYPE_FILE
    ensures NodeOf(o).Dir? <==> o.kind == TYPE_DIR
    ensures NodeOf(o).File? ==> NodeOf(o).bytes == FileBytes(o)
  {}

  lemma ObjFields(v: Vol, n: Inode)
    ensures ObjOf(v, n).kind == n.kind && ObjOf(v, n).size == n.size
  {}

  lemma KindOf(v: Vol, i: nat)
    requires i in FsView(v)
    ensures i < |v.inodes| && v.inodes[i].kind != TYPE_FREE && NodeAt(FsView(v), i) == FsView(v)[i]
    ensures FsView(v)[i].File? <==> v.inodes[i].kind == TYPE_FILE
    ensures FsView(v)[i].Dir? <==> v.inodes[i].kind == TYPE_DIR
    ensures i in Objects(v)
  {
    hide ObjOf;
    Linked(v, i);
    ObjFields(v, v.inodes[i]);
    NodeKinds(ObjOf(v, v.inodes[i]));
  }

  lemma DirNodeOf(o: Obj, m: map<Name, nat>)
    requires DirHolds(o, m)
    ensures ObjOk(o) && NodeOf(o) == Dir(m)
  {}

  // ------------------------------------------------- overwriting

  /** The slots a directory reads from raw bytes written into it. */
  function TableIn(data: seq<byte>): seq<Dirent> {
    Slots(Chunks(data, SectorsFor(|data|)))
  }

  /** What a write of raw bytes makes of a node. */
  function Written(node: Node, data: seq<byte>): Node {
    match node
    case File(_) => File(data)
    case Dir(_) => Dir(Entries(TableIn(data)))
    case Odd(_) => node
  }

  /** The tree once the data is in node i. */
  function OverwriteIn(fs: Fs, i: nat, data: seq<byte>): Fs {
    fs[i := Written(NodeAt(fs, i), data)]
  }

  /** nvfs_write does not ask what kind of object it overwrites.  The invariants survive if it is not
      a directory, or if the data is a table without duplicates that lists the same inodes. */
  ghost predicate KeepsTree(fs: Fs, i: nat, data: seq<byte>) {
    DirNode(fs, i) ==> TableOk(TableIn(data)) && Relists(Entries(TableIn(data)), fs[i].entries)
  }

  lemma HoldingNode(kind: byte, data: seq<byte>)
    requires |data| <= MAX_BUFFER
    ensures ObjOk(Holding(kind, data)) <==> kind != TYPE_DIR || TableOk(TableIn(data))
    ensures NodeOf(Holding(kind, data)) ==
      if kind == TYPE_FILE then File(data) else if kind == TYPE_DIR then Dir(Entries(TableIn(data))) else Odd(kind)
  {
    hide Slots, Entries, TableOk, Chunks, SectorsFor;
    StoredReadsBack(kind, data);
    FullSectors(kind, data);
  }

  lemma FullSectors(kind: byte, data: seq<byte>)
    requires |data| <= MAX_BUFFER
    ensures Filled(Holding(kind, data))
  {}

  lemma NodeReplace(fs: Fs, depth: map<nat, nat>, i: nat, node: Node)
    requires TreeOk(fs, depth) && i in fs && !fs[i].Dir? && !node.Dir?
    ensures TreeOk(fs[i := node], depth)
  {
    hide Layered, AllNamed, OneName;
    var gs := fs[i := node];
    assert SameNames(fs, gs);
    hide Names;
    KeepLayers(fs, gs, depth);
    KeepNamed(fs, gs);
    KeepOneName(fs, gs);
  }

  /** The node that inode i stands for once it holds the data. */
  lemma OverwriteNode(v: Vol, i: nat, data: seq<byte>)
    requires |data| <= MAX_BUFFER && i in FsView(v) && i < |v.inodes|
    ensures NodeOf(Holding(v.inodes[i].kind, data)) == Written(FsView(v)[i], data)
    ensures ObjOk(Holding(v.inodes[i].kind, data)) <==> !FsView(v)[i].Dir? || TableOk(TableIn(data))
  {
    hide FsView, TableIn, TableOk, Entries, ObjOk, ObjOf, FileBytes;
    KindOf(v, i);
    Linked(v, i);
    ObjFields(v, v.inodes[i]);
    HoldingNode(v.inodes[i].kind, data);
    hide Holding;
  }

  /** A volume on which inode i now holds the data is sound exactly when the data keeps the tree. */
  lemma SoundOverwrite(v: Vol, leaked: set<nat>, w: Vol, left: set<nat>, depth: map<nat, nat>, i: nat, data: seq<byte>)
    requires Sound(v, leaked, depth) && |data| <= MAX_BUFFER && i in FsView(v) && i < |v.inodes|
    requires Acct(w, left) && Objects(w) == Objects(v)[i := Holding(v.inodes[i].kind, data)]
    ensures FsView(w) == OverwriteIn(FsView(v), i, data)
    ensures KeepsTree(FsView(v), i, data) ==> Sound(w, left, depth)
    ensures !KeepsTree(FsView(v), i, data) ==> forall l: set<nat>, d: map<nat, nat> :: !Sound(w, l, d)
  {
    hide Acct, TreeOk, Objects, FsOf, TableIn, TableOk, Entries, Holding, ObjOk, NodeOf, AllOk, Relists;
    var fs := FsView(v);
    OverwriteNode(v, i, data);
    FsPut(Objects(v), i, Holding(v.inodes[i].kind, data));
    if !fs[i].Dir? {
      NodeReplace(fs, depth, i, Written(fs[i], data));
    } else {
      assert IsTree(fs);
      TreeRelistIff(fs, i, Entries(TableIn(data)));
      if KeepsTree(fs, i, data) { TreeRelist(fs, depth, i, Entries(TableIn(data))); }
      else {
        forall l: set<nat>, d: map<nat, nat> ensures !Sound(w, l, d) {
          assert TreeOk(FsView(w), d) ==> IsTree(FsView(w));
        }
      }
    }
  }

  lemma SoundSame(v: Vol, leaked: set<nat>, w: Vol, left: set<nat>, depth: map<nat, nat>)
    requires Sound(v, leaked, depth) && Acct(w, left) && Objects(w) == Objects(v)
    ensures Sound(w, left, depth) && FsView(w) == FsView(v)
  {
    hide Acct, TreeOk, AllOk, Objects, FsOf;
  }

  /** The volume is consistent and the files and directories are those of before or those of after. */
  ghost predicate ShowsEither(v: Vol, before: Fs, after: Fs) {
    Consistent(v) && (FsView(v) == before || FsView(v) == after)
  }

  ghost predicate TrailShows(trail: seq<Vol>, from: nat, before: Fs, after: Fs) {
    forall k :: from <= k < |trail| ==> ShowsEither(trail[k], before, after)
  }

  /** All invariants of a mounted file system hold, so that the volume can be used after a mount. */
  ghost predicate Mountable(v: Vol) {
    exists leaked: set<nat>, depth: map<nat, nat> :: Sound(v, leaked, depth)
  }

  ghost predicate TrailMounts(trail: seq<Vol>, from: nat) {
    forall k :: from <= k < |trail| ==> Mountable(trail[k])
  }

  lemma NothingShown(trail: seq<Vol>, before: Fs, after: Fs)
    ensures TrailShows(trail, |trail|, before, after) && TrailMounts(trail, |trail|)
  {}

  /** After every sector write of an overwrite the volume shows the old or the new tree, and it can be
      mounted again if the data keeps the tree. */
  lemma OverwriteShows(v: Vol, leaked: set<nat>, depth: map<nat, nat>, i: nat, data: seq<byte>, trail: seq<Vol>,
                       from: nat)
    requires Sound(v, leaked, depth) && |data| <= MAX_BUFFER && i in FsView(v) && i < |v.inodes|
    requires TrailEitherOr(trail, from, Objects(v), Objects(v)[i := Holding(v.inodes[i].kind, data)])
    ensures TrailShows(trail, from, FsView(v), OverwriteIn(FsView(v), i, data))
    ensures KeepsTree(FsView(v), i, data) ==> TrailMounts(trail, from)
  {
    hide Acct, TreeOk, Objects, FsView, Sound, Holding, OverwriteIn, KeepsTree, Mountable;
    forall k | from <= k < |trail|
      ensures ShowsEither(trail[k], FsView(v), OverwriteIn(FsView(v), i, data))
      ensures KeepsTree(FsView(v), i, data) ==> Mountable(trail[k])
    {
      assert EitherOr(trail[k], Objects(v), Objects(v)[i := Holding(v.inodes[i].kind, data)]);
      var left :| Acct(trail[k], left);
      OverwriteEntry(v, leaked, depth, i, data, trail[k], left);
    }
  }

  lemma OverwriteEntry(v: Vol, leaked: set<nat>, depth: map<nat, nat>, i: nat, data: seq<byte>, w: Vol, left: set<nat>)
    requires Sound(v, leaked, depth) && |data| <= MAX_BUFFER && i in FsView(v) && i < |v.inodes| && Acct(w, left)
    requires Objects(w) == Objects(v) || Objects(w) == Objects(v)[i := Holding(v.inodes[i].kind, data)]
    ensures FsView(w) == FsView(v) || FsView(w) == OverwriteIn(FsView(v), i, data)
    ensures KeepsTree(FsView(v), i, data) ==> Mountable(w)
  {
    hide Acct, TreeOk, Objects, FsView, Sound, Holding, OverwriteIn, KeepsTree;
    if Objects(w) == Objects(v) {
      SoundSame(v, leaked, w, left, depth);
    } else {
      SoundOverwrite(v, leaked, w, left, depth, i, data);
    }
  }

  /** Overwriting a plain file strands nothing. */
  lemma PlainStrands(v: Vol, leaked: set<nat>, i: nat)
    requires i < |v.inodes| && v.inodes[i].kind != TYPE_FREE && v.inodes[i].kind != TYPE_DIR
    ensures Plain(v) ==> leaked + Stranded(v.inodes[i]) == leaked
  {
    assert Plain(v) ==> PlainInode(v.inodes[i]);
  }

  ghost function StrandedAt(v: Vol, i: nat): set<nat> {
    if i < |v.inodes| then Stranded(v.inodes[i]) else {}
  }

  // ------------------------------------------------- creating

  /** What a new object of kind FILE or DIR is. */
  function Leaf(kind: byte, data: seq<byte>): Node {
    if kind == TYPE_FILE then File(data) else Dir(map[])
  }

  predicate Creates(kind: byte, data: seq<byte>) {
    kind == TYPE_FILE || (kind == TYPE_DIR && data == [])
  }

  lemma LeafOf(kind: byte, data: seq<byte>)
    requires |data| <= MAX_BUFFER && Creates(kind, data)
    ensures ObjOk(Holding(kind, data)) && NodeOf(Holding(kind, data)) == Leaf(kind, data)
    ensures Leaf(kind, data).Dir? ==> Leaf(kind, data).entries == map[]
  {
    hide ObjOk, NodeOf, Holding;
    HoldingNode(kind, data);
    EmptyTable();
  }

  lemma EmptyTable()
    ensures TableOk(TableIn([])) && Entries(TableIn([])) == map[]
  {
    assert TableIn([]) == [];
  }

  lemma SoundGraft(v: Vol, leaked: set<nat>, w: Vol, depth: map<nat, nat>, p: nat, name: Name, r: nat, o: Obj,
                   after: Obj)
    requires Sound(v, leaked, depth) && DirNode(FsView(v), p) && GoodName(name) && Acct(w, leaked)
    requires r !in Objects(v) && name !in FsView(v)[p].entries && ObjOk(o)
    requires (NodeOf(o).Dir? ==> NodeOf(o).entries == map[])
    requires DirHolds(after, FsView(v)[p].entries[name := r]) && Objects(w) == Objects(v)[r := o][p := after]
    ensures r !in FsView(v) && FsView(w) == Grafted(FsView(v), p, name, r, NodeOf(o))
    ensures p in depth && Sound(w, leaked, depth[r := depth[p] + 1])
  {
    hide Acct, TreeOk, Objects, GoodName, NodeOf, ObjOk, DirHolds, AllOk;
    FsPut(Objects(v), r, o);
    FsPut(Objects(v)[r := o], p, after);
    DirNodeOf(after, FsView(v)[p].entries[name := r]);
    DepthHas(FsView(v), depth, p);
    TreeGraft(FsView(v), depth, p, name, r, NodeOf(o));
  }

  /** A new object whose entry is lost: the node is there and no directory lists it. */
  lemma SoundOrphan(v: Vol, leaked: set<nat>, w: Vol, depth: map<nat, nat>, p: nat, r: nat, o: Obj, after: Obj)
    requires Sound(v, leaked, depth) && DirNode(FsView(v), p)
    requires r !in Objects(v) && (NodeOf(o).Dir? ==> NodeOf(o).entries == map[])
    requires DirHolds(after, FsView(v)[p].entries) && Objects(w) == Objects(v)[r := o][p := after]
    ensures r !in FsView(v) && FsView(w) == FsView(v)[r := NodeOf(o)]
    ensures forall l: set<nat>, d: map<nat, nat> :: !Sound(w, l, d)
  {
    hide Acct, TreeOk, Objects, NodeOf, ObjOk, DirHolds, AllOk;
    FsPut(Objects(v), r, o);
    FsPut(Objects(v)[r := o], p, after);
    DirNodeOf(after, FsView(v)[p].entries);
    assert FsView(w) == FsView(v)[r := NodeOf(o)];
    TreeOrphan(FsView(v), depth, r, NodeOf(o));
    forall l: set<nat>, d: map<nat, nat> ensures !Sound(w, l, d) {
      assert TreeOk(FsView(w), d) ==> IsTree(FsView(w));
    }
  }

  lemma GraftKeepsDir(fs: Fs, p: nat, n: Name, r: nat, leaf: Node, d: nat)
    requires DirNode(fs, p) && DirNode(fs, d) && r !in fs
    ensures DirNode(Grafted(fs, p, n, r, leaf), d)
  {}

  lemma DepthHas(fs: Fs, depth: map<nat, nat>, p: nat)
    requires TreeOk(fs, depth) && p in fs
    ensures p in depth
  {}

  /** Apart from the new node r, every volume on the way is consistent and shows the old or the new tree. */
  ghost predicate TrailCreates(trail: seq<Vol>, from: nat, r: nat, before: Fs, after: Fs) {
    forall k :: from <= k < |trail| ==>
      Consistent(trail[k]) && (FsView(trail[k]) - {r} == before || FsView(trail[k]) - {r} == after - {r})
  }

  lemma CreateShows(v: Vol, trail: seq<Vol>, from: nat, p: nat, name: Name, r: nat, after: Obj, leaf: Node)
    requires DirNode(FsView(v), p) && r !in Objects(v) && r != p && DirHolds(after, FsView(v)[p].entries[name := r])
    requires TrailGrafts(trail, from, r, Objects(v), Objects(v)[p := after])
    ensures TrailCreates(trail, from, r, FsView(v), Grafted(FsView(v), p, name, r, leaf))
  {
    hide Objects, FsOf, Consistent, DirHolds, NodeOf;
    var gs := Grafted(FsView(v), p, name, r, leaf);
    FsPut(Objects(v), p, after);
    FsDrop(Objects(v), r);
    assert Objects(v) - {r} == Objects(v);
    DirNodeOf(after, FsView(v)[p].entries[name := r]);
    assert gs - {r} == FsView(v)[p := Dir(FsView(v)[p].entries[name := r])];
    forall k | from <= k < |trail|
      ensures Consistent(trail[k]) && (FsView(trail[k]) - {r} == FsView(v) || FsView(trail[k]) - {r} == gs - {r})
    {
      FsDrop(Objects(trail[k]), r);
    }
  }

  /** Apart from at most one node, every volume on the way shows the tree. */
  ghost predicate TrailStays(trail: seq<Vol>, from: nat, fs: Fs) {
    exists q: nat :: TrailWithout(trail, from, q, fs)
  }

  ghost predicate TrailWithout(trail: seq<Vol>, from: nat, q: nat, fs: Fs) {
    forall k :: from <= k < |trail| ==> FsView(trail[k]) - {q} == fs
  }

  lemma FailShows(v: Vol, trail: seq<Vol>, from: nat)
    requires exists q: nat :: TrailRest(trail, from, q, Objects(v))
    ensures TrailStays(trail, from, FsView(v))
  {
    hide Objects, FsOf;
    var q: nat :| TrailRest(trail, from, q, Objects(v));
    forall k | from <= k < |trail| ensures FsView(trail[k]) - {q} == FsView(v) {
      FsDrop(Objects(trail[k]), q);
    }
    assert TrailWithout(trail, from, q, FsView(v));
  }

  // ------------------------------------------------- removing

  lemma PruneKeepsDir(fs: Fs, p: nat, n: Name, i: nat, d: nat)
    requires DirNode(fs, p) && DirNode(fs, d)
    ensures d != i ==> DirNode(Pruned(fs, p, n, i), d)
    ensures d == i && p != i ==> !DirNode(Pruned(fs, p, n, i), d)
  {}

  lemma SoundPrune(v: Vol, leaked: set<nat>, w: Vol, depth: map<nat, nat>, p: nat, name: Name, i: nat, after: Obj)
    requires Sound(v, leaked, depth) && Names(FsView(v), p, name, i) && Acct(w, leaked)
    requires i in FsView(v) && (FsView(v)[i].Dir? ==> FsView(v)[i].entries == map[])
    requires DirHolds(after, FsView(v)[p].entries - {name}) && Objects(w) == (Objects(v) - {i})[p := after]
    ensures FsView(w) == Pruned(FsView(v), p, name, i) && Sound(w, leaked, depth - {i})
  {
    hide Acct, TreeOk, Objects, GoodName, NodeOf, ObjOk, DirHolds, AllOk;
    FsDrop(Objects(v), i);
    FsPut(Objects(v) - {i}, p, after);
    DirNodeOf(after, FsView(v)[p].entries - {name});
    TreePrune(FsView(v), depth, p, name, i);
  }
}
