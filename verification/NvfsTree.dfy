/** The name space: files and directories as nodes of a tree rooted at inode 0, the
    updates that keep it a tree, and path resolution. */
module NvfsTree {
  import opened Bytes
  import opened NvfsFormat
  import opened NvfsVolume
  import opened NvfsContents
  import opened NvfsFiles
  import opened NvfsSlots
  import opened NvfsDirs

  const ROOT := 0
  const SLASH: byte := 47
  const DOT: byte := 46

  datatype Node = File(bytes: seq<byte>) | Dir(entries: map<Name, nat>) | Odd(kind: byte)
  type Fs = map<nat, Node>

  ghost function NodeOf(o: Obj): Node {
    if o.kind == TYPE_FILE then File(FileBytes(o))
    else if o.kind == TYPE_DIR then Dir(Entries(Slots(o.blocks)))
    else Odd(o.kind)
  }

  ghost function FsOf(objs: map<nat, Obj>): Fs {
    map i | i in objs :: NodeOf(objs[i])
  }

  /** What every object keeps: directories without duplicates, files whose blocks hold their size. */
  ghost predicate ObjOk(o: Obj) {
    && (o.kind == TYPE_DIR ==> TableOk(Slots(o.blocks)))
    && (o.kind == TYPE_FILE ==> Filled(o))
  }

  ghost predicate AllOk(objs: map<nat, Obj>) {
    forall i :: i in objs ==> ObjOk(objs[i])
  }

  // ------------------------------------------------- the tree

  function Upper(s: seq<byte>): (r: seq<byte>)
    ensures |r| == |s|
    ensures forall k :: 0 <= k < |s| ==> r[k] == if 97 <= s[k] <= 122 then s[k] - 32 else s[k]
  {
    if s == [] then [] else Upper(s[..|s| - 1]) + [if 97 <= s[|s| - 1] <= 122 then s[|s| - 1] - 32 else s[|s| - 1]]
  }

  /** A name resolve_path can produce as the last component of a path. */
  predicate GoodName(n: Name) {
    0 < |n| <= MAX_NAME && ZeroFree(n) && SLASH !in n && Upper(n) == n && n != [DOT] && n != [DOT, DOT]
  }

  /** Directory p lists inode c under name n. */
  predicate Names(fs: Fs, p: nat, n: Name, c: nat) {
    p in fs && fs[p].Dir? && n in fs[p].entries && fs[p].entries[n] == c
  }

  ghost predicate EntryOk(fs: Fs, depth: map<nat, nat>, p: nat, n: Name, c: nat) {
    GoodName(n) && p in depth && c != ROOT && c in fs && c in depth && depth[c] == depth[p] + 1
  }

  ghost predicate Named(fs: Fs, c: nat) {
    exists p: nat, n: Name :: Names(fs, p, n, c)
  }

  ghost predicate Rooted(fs: Fs, depth: map<nat, nat>) {
    ROOT in fs && fs[ROOT].Dir? && depth.Keys == fs.Keys && depth[ROOT] == 0
  }

  ghost predicate Layered(fs: Fs, depth: map<nat, nat>) {
    forall p: nat, n: Name, c: nat :: Names(fs, p, n, c) ==> EntryOk(fs, depth, p, n, c)
  }

  ghost predicate AllNamed(fs: Fs) {
    forall c: nat :: c in fs && c != ROOT ==> Named(fs, c)
  }

  ghost predicate OneName(fs: Fs) {
    forall p: nat, n: Name, q: nat, m: Name, c: nat :: Names(fs, p, n, c) && Names(fs, q, m, c) ==> p == q && n == m
  }

  /** Every inode but the root is listed exactly once, one level below its directory. */
  ghost predicate TreeOk(fs: Fs, depth: map<nat, nat>) {
    Rooted(fs, depth) && Layered(fs, depth) && AllNamed(fs) && OneName(fs)
  }

  /** gs lists what fs lists. */
  ghost predicate SameNames(fs: Fs, gs: Fs) {
    forall q: nat, m: Name, c: nat :: Names(gs, q, m, c) <==> Names(fs, q, m, c)
  }

  /** A file may change its contents. */
  lemma TreeWrite(fs: Fs, depth: map<nat, nat>, i: nat, bytes: seq<byte>)
    requires TreeOk(fs, depth) && i in fs && fs[i].File?
    ensures TreeOk(fs[i := File(bytes)], depth)
  {
    hide Layered, AllNamed, OneName;
    var gs := fs[i := File(bytes)];
    assert SameNames(fs, gs);
    hide Names;
    KeepLayers(fs, gs, depth);
    KeepNamed(fs, gs);
    KeepOneName(fs, gs);
  }

  lemma KeepLayers(fs: Fs, gs: Fs, depth: map<nat, nat>)
    requires SameNames(fs, gs) && depth.Keys == fs.Keys == gs.Keys && Layered(fs, depth)
    ensures Layered(gs, depth)
  {
    hide Names, GoodName;
    forall p: nat, n: Name, c: nat | Names(gs, p, n, c) ensures EntryOk(gs, depth, p, n, c) {
      assert EntryOk(fs, depth, p, n, c);
    }
  }

  lemma KeepNamed(fs: Fs, gs: Fs)
    requires SameNames(fs, gs) && fs.Keys == gs.Keys && AllNamed(fs)
    ensures AllNamed(gs)
  {
    hide Names;
    forall c: nat | c in gs && c != ROOT ensures Named(gs, c) {
      assert Named(fs, c);
      var p: nat, n: Name :| Names(fs, p, n, c);
      assert Names(gs, p, n, c);
    }
  }

  lemma KeepOneName(fs: Fs, gs: Fs)
    requires SameNames(fs, gs) && OneName(fs)
    ensures OneName(gs)
  {
    hide Names;
  }

  lemma LoneRoot()
    ensures TreeOk(map[ROOT := Dir(map[])], map[ROOT := 0])
  {}

  // ------------------------------------------------- a new leaf

  /** The tree with a new leaf i listed in p under n. */
  function Grafted(fs: Fs, p: nat, n: Name, i: nat, leaf: Node): Fs
    requires p in fs && fs[p].Dir?
  {
    fs[i := leaf][p := Dir(fs[p].entries[n := i])]
  }

  /** gs lists what fs lists, and i in p under n. */
  ghost predicate OneMore(fs: Fs, gs: Fs, p: nat, n: Name, i: nat) {
    forall q: nat, m: Name, c: nat :: Names(gs, q, m, c) <==> Names(fs, q, m, c) || (q == p && m == n && c == i)
  }

  lemma GraftShape(fs: Fs, p: nat, n: Name, i: nat, leaf: Node)
    requires p in fs && fs[p].Dir? && n !in fs[p].entries
    requires i !in fs && (leaf.Dir? ==> leaf.entries == map[])
    ensures OneMore(fs, Grafted(fs, p, n, i, leaf), p, n, i)
    ensures Grafted(fs, p, n, i, leaf).Keys == fs.Keys + {i}
    ensures ROOT in fs && fs[ROOT].Dir? ==> Grafted(fs, p, n, i, leaf)[ROOT].Dir?
  {}

  /** Creating a file or an empty directory keeps the tree. */
  lemma TreeGraft(fs: Fs, depth: map<nat, nat>, p: nat, n: Name, i: nat, leaf: Node)
    requires TreeOk(fs, depth) && p in fs && fs[p].Dir? && n !in fs[p].entries && GoodName(n)
    requires i !in fs && (leaf.Dir? ==> leaf.entries == map[])
    ensures TreeOk(Grafted(fs, p, n, i, leaf), depth[i := depth[p] + 1])
  {
    hide Layered, AllNamed, OneName, GoodName, Names, OneMore;
    var gs := Grafted(fs, p, n, i, leaf);
    GraftShape(fs, p, n, i, leaf);
    hide Grafted;
    NotListed(fs, depth, i);
    GraftLayers(fs, gs, depth, p, n, i);
    GraftNamed(fs, gs, p, n, i);
    GraftOneName(fs, gs, p, n, i);
  }

  lemma NotListed(fs: Fs, depth: map<nat, nat>, i: nat)
    requires depth.Keys == fs.Keys && Layered(fs, depth) && i !in fs
    ensures forall q: nat, m: Name :: !Names(fs, q, m, i)
  {}

  lemma GraftLayers(fs: Fs, gs: Fs, depth: map<nat, nat>, p: nat, n: Name, i: nat)
    requires depth.Keys == fs.Keys && Layered(fs, depth) && OneMore(fs, gs, p, n, i)
    requires p in fs && i !in fs && i != ROOT && gs.Keys == fs.Keys + {i} && GoodName(n)
    ensures Layered(gs, depth[i := depth[p] + 1])
  {
    hide GoodName, Names;
    var d := depth[i := depth[p] + 1];
    forall q: nat, m: Name, c: nat | Names(gs, q, m, c) ensures EntryOk(gs, d, q, m, c) {
      if Names(fs, q, m, c) {
        assert EntryOk(fs, depth, q, m, c);
        ListedIn(fs, q, m, c);
      }
    }
  }

  lemma ListedIn(fs: Fs, q: nat, m: Name, c: nat)
    requires Names(fs, q, m, c)
    ensures q in fs
  {}

  lemma GraftNamed(fs: Fs, gs: Fs, p: nat, n: Name, i: nat)
    requires AllNamed(fs) && OneMore(fs, gs, p, n, i) && gs.Keys == fs.Keys + {i}
    ensures AllNamed(gs)
  {
    hide Names;
    forall c: nat | c in gs && c != ROOT ensures Named(gs, c) {
      if c == i {
        assert Names(gs, p, n, i);
      } else {
        assert Named(fs, c);
        var q: nat, m: Name :| Names(fs, q, m, c);
        assert Names(gs, q, m, c);
      }
    }
  }

  lemma GraftOneName(fs: Fs, gs: Fs, p: nat, n: Name, i: nat)
    requires OneName(fs) && OneMore(fs, gs, p, n, i) && forall q: nat, m: Name :: !Names(fs, q, m, i)
    ensures OneName(gs)
  {
    hide Names;
  }

  // ------------------------------------------------- one leaf less

  /** The tree without leaf i, which p lists under n. */
  function Pruned(fs: Fs, p: nat, n: Name, i: nat): Fs
    requires p in fs && fs[p].Dir?
  {
    (fs - {i})[p := Dir(fs[p].entries - {n})]
  }

  /** gs lists what fs lists, except i. */
  ghost predicate OneLess(fs: Fs, gs: Fs, i: nat) {
    forall q: nat, m: Name, c: nat :: Names(gs, q, m, c) <==> Names(fs, q, m, c) && c != i
  }

  lemma PruneShape(fs: Fs, p: nat, n: Name, i: nat)
    requires Names(fs, p, n, i) && i in fs && (fs[i].Dir? ==> fs[i].entries == map[])
    requires forall q: nat, m: Name :: Names(fs, q, m, i) ==> q == p && m == n
    ensures p != i && OneLess(fs, Pruned(fs, p, n, i), i) && Pruned(fs, p, n, i).Keys == fs.Keys - {i}
    ensures ROOT in fs && ROOT != i && fs[ROOT].Dir? ==> Pruned(fs, p, n, i)[ROOT].Dir?
  {
    var gs := Pruned(fs, p, n, i);
    forall q: nat, m: Name, c: nat ensures Names(gs, q, m, c) <==> Names(fs, q, m, c) && c != i {
      assert Names(fs, q, m, i) ==> q == p && m == n;
    }
  }

  /** Removing a file or an empty directory keeps the tree. */
  lemma TreePrune(fs: Fs, depth: map<nat, nat>, p: nat, n: Name, i: nat)
    requires TreeOk(fs, depth) && Names(fs, p, n, i) && i in fs && (fs[i].Dir? ==> fs[i].entries == map[])
    ensures TreeOk(Pruned(fs, p, n, i), depth - {i})
  {
    hide Layered, AllNamed, OneName, GoodName, Names, OneLess, Pruned;
    EntryFacts(fs, depth, p, n, i);
    var gs := Pruned(fs, p, n, i);
    PruneShape(fs, p, n, i);
    PruneLayers(fs, gs, depth, i);
    PruneNamed(fs, gs, i);
    PruneOneName(fs, gs, i);
  }

  lemma EntryFacts(fs: Fs, depth: map<nat, nat>, p: nat, n: Name, i: nat)
    requires TreeOk(fs, depth) && Names(fs, p, n, i)
    ensures p in fs && fs[p].Dir? && n in fs[p].entries && fs[p].entries[n] == i && GoodName(n)
    ensures i in fs && i != ROOT && i in depth && p in depth && depth[i] == depth[p] + 1
    ensures forall q: nat, m: Name :: Names(fs, q, m, i) ==> q == p && m == n
  {
    hide GoodName;
    assert EntryOk(fs, depth, p, n, i);
  }

  lemma PruneLayers(fs: Fs, gs: Fs, depth: map<nat, nat>, i: nat)
    requires depth.Keys == fs.Keys && Layered(fs, depth) && OneLess(fs, gs, i) && gs.Keys == fs.Keys - {i}
    ensures Layered(gs, depth - {i})
  {
    hide GoodName, Names;
    forall q: nat, m: Name, c: nat | Names(gs, q, m, c) ensures EntryOk(gs, depth - {i}, q, m, c) {
      assert EntryOk(fs, depth, q, m, c);
      ListedIn(gs, q, m, c);
    }
  }

  lemma PruneNamed(fs: Fs, gs: Fs, i: nat)
    requires AllNamed(fs) && OneLess(fs, gs, i) && gs.Keys == fs.Keys - {i}
    ensures AllNamed(gs)
  {
    hide Names;
    forall c: nat | c in gs && c != ROOT ensures Named(gs, c) {
      assert Named(fs, c);
      var q: nat, m: Name :| Names(fs, q, m, c);
      assert Names(gs, q, m, c);
    }
  }

  lemma PruneOneName(fs: Fs, gs: Fs, i: nat)
    requires OneName(fs) && OneLess(fs, gs, i)
    ensures OneName(gs)
  {
    hide Names;
  }

  // ------------------------------------------------- a directory with other entries

  ghost predicate IsTree(fs: Fs) {
    exists depth: map<nat, nat> :: TreeOk(fs, depth)
  }

  /** The entries m have good names and list, once each, the inodes that the entries `old'` list. */
  ghost predicate Relists(m: map<Name, nat>, old': map<Name, nat>) {
    && (forall n :: n in m ==> GoodName(n))
    && (forall j, k :: j in m && k in m && m[j] == m[k] ==> j == k)
    && m.Values == old'.Values
  }

  /** Inode c is listed in directory p, whatever the name. */
  ghost predicate ListedBy(fs: Fs, p: nat, c: nat) {
    exists n: Name :: Names(fs, p, n, c)
  }

  lemma ListedValues(fs: Fs, p: nat, c: nat)
    requires p in fs && fs[p].Dir?
    ensures ListedBy(fs, p, c) <==> c in fs[p].entries.Values
  {
    if c in fs[p].entries.Values {
      var n :| n in fs[p].entries && fs[p].entries[n] == c;
      assert Names(fs, p, n, c);
    }
  }

  /** A directory that lists the same inodes under other names: the lists of all directories stay. */
  lemma RelistLists(fs: Fs, i: nat, m: map<Name, nat>)
    requires i in fs && fs[i].Dir? && m.Values == fs[i].entries.Values
    ensures forall p: nat, c: nat :: ListedBy(fs[i := Dir(m)], p, c) <==> ListedBy(fs, p, c)
  {
    var gs := fs[i := Dir(m)];
    forall p: nat, c: nat ensures ListedBy(gs, p, c) <==> ListedBy(fs, p, c) {
      if p == i {
        ListedValues(fs, i, c);
        ListedValues(gs, i, c);
      } else {
        assert forall n: Name :: Names(gs, p, n, c) <==> Names(fs, p, n, c);
      }
    }
  }

  ghost predicate GoodNames(fs: Fs) {
    forall p: nat, n: Name, c: nat :: Names(fs, p, n, c) ==> GoodName(n)
  }

  lemma RelistLayers(fs: Fs, gs: Fs, depth: map<nat, nat>)
    requires depth.Keys == fs.Keys == gs.Keys && Layered(fs, depth)
    requires forall p: nat, c: nat :: ListedBy(gs, p, c) <==> ListedBy(fs, p, c)
    requires GoodNames(gs)
    ensures Layered(gs, depth)
  {
    hide Names, GoodName;
    forall p: nat, n: Name, c: nat | Names(gs, p, n, c) ensures EntryOk(gs, depth, p, n, c) {
      assert ListedBy(gs, p, c);
      assert ListedBy(fs, p, c);
      var k: Name :| Names(fs, p, k, c);
      assert EntryOk(fs, depth, p, k, c);
    }
  }

  lemma RelistNamed(fs: Fs, gs: Fs)
    requires fs.Keys == gs.Keys && AllNamed(fs)
    requires forall p: nat, c: nat :: ListedBy(gs, p, c) <==> ListedBy(fs, p, c)
    ensures AllNamed(gs)
  {
    hide Names;
    forall c: nat | c in gs && c != ROOT ensures Named(gs, c) {
      assert Named(fs, c);
      var p: nat, n: Name :| Names(fs, p, n, c);
      assert ListedBy(fs, p, c);
      assert ListedBy(gs, p, c);
      var k: Name :| Names(gs, p, k, c);
    }
  }

  lemma RelistOneName(fs: Fs, i: nat, m: map<Name, nat>)
    requires OneName(fs) && i in fs && fs[i].Dir? && Relists(m, fs[i].entries)
    ensures OneName(fs[i := Dir(m)])
  {
    hide GoodName;
    var gs := fs[i := Dir(m)];
    RelistLists(fs, i, m);
    forall p: nat, n: Name, q: nat, k: Name, c: nat | Names(gs, p, n, c) && Names(gs, q, k, c)
      ensures p == q && n == k
    {
      assert ListedBy(gs, p, c) && ListedBy(gs, q, c);
      assert ListedBy(fs, p, c) && ListedBy(fs, q, c);
      var n': Name :| Names(fs, p, n', c);
      var k': Name :| Names(fs, q, k', c);
      assert p == q;
      if p != i { assert Names(fs, p, n, c) && Names(fs, q, k, c); }
    }
  }

  /** Listing the same inodes once each under good names keeps the tree. */
  lemma TreeRelist(fs: Fs, depth: map<nat, nat>, i: nat, m: map<Name, nat>)
    requires TreeOk(fs, depth) && i in fs && fs[i].Dir? && Relists(m, fs[i].entries)
    ensures TreeOk(fs[i := Dir(m)], depth)
  {
    hide Layered, AllNamed, OneName, GoodName;
    var gs := fs[i := Dir(m)];
    RelistLists(fs, i, m);
    RelistGood(fs, depth, i, m);
    RelistOneName(fs, i, m);
    hide Names, Relists;
    RelistLayers(fs, gs, depth);
    RelistNamed(fs, gs);
  }

  lemma RelistGood(fs: Fs, depth: map<nat, nat>, i: nat, m: map<Name, nat>)
    requires TreeOk(fs, depth) && i in fs && fs[i].Dir? && Relists(m, fs[i].entries)
    ensures GoodNames(fs[i := Dir(m)])
  {
    hide GoodName;
    var gs := fs[i := Dir(m)];
    forall p: nat, n: Name, c: nat | Names(gs, p, n, c) ensures GoodName(n) {
      if p != i { assert Names(fs, p, n, c); assert EntryOk(fs, depth, p, n, c); }
    }
  }

  /** What one directory alone may change: between two trees that differ in directory i, it lists
      the same inodes. */
  lemma SameChildren(fs: Fs, depth: map<nat, nat>, gs: Fs, d: map<nat, nat>, i: nat, n: Name, c: nat)
    requires TreeOk(fs, depth) && TreeOk(gs, d) && fs.Keys == gs.Keys
    requires forall p: nat, k: Name :: p != i ==> (Names(gs, p, k, c) <==> Names(fs, p, k, c))
    requires Names(fs, i, n, c)
    ensures ListedBy(gs, i, c)
  {
    hide GoodName, Names;
    EntryFacts(fs, depth, i, n, c);
    assert Named(gs, c);
    var p: nat, k: Name :| Names(gs, p, k, c);
  }

  lemma RelistNeeded(fs: Fs, depth: map<nat, nat>, i: nat, m: map<Name, nat>, d: map<nat, nat>)
    requires TreeOk(fs, depth) && i in fs && fs[i].Dir? && TreeOk(fs[i := Dir(m)], d)
    ensures Relists(m, fs[i].entries)
  {
    hide GoodName, TreeOk;
    var gs := fs[i := Dir(m)];
    forall n | n in m ensures GoodName(n) && Names(gs, i, n, m[n]) { EntryFacts(gs, d, i, n, m[n]); }
    forall j, k | j in m && k in m && m[j] == m[k] ensures j == k { EntryFacts(gs, d, i, j, m[j]); }
    forall c: nat ensures c in m.Values <==> c in fs[i].entries.Values {
      ListedValues(fs, i, c);
      ListedValues(gs, i, c);
      assert forall p: nat, k: Name :: p != i ==> (Names(gs, p, k, c) <==> Names(fs, p, k, c));
      if ListedBy(fs, i, c) {
        var n: Name :| Names(fs, i, n, c);
        SameChildren(fs, depth, gs, d, i, n, c);
      }
      if ListedBy(gs, i, c) {
        var n: Name :| Names(gs, i, n, c);
        SameChildren(gs, d, fs, depth, i, n, c);
      }
    }
  }

  /** Other entries in one directory leave a tree exactly when they list the same inodes, once each
      and under good names. */
  lemma TreeRelistIff(fs: Fs, i: nat, m: map<Name, nat>)
    requires IsTree(fs) && i in fs && fs[i].Dir?
    ensures IsTree(fs[i := Dir(m)]) <==> Relists(m, fs[i].entries)
  {
    hide TreeOk, Relists;
    var depth: map<nat, nat> :| TreeOk(fs, depth);
    if Relists(m, fs[i].entries) { TreeRelist(fs, depth, i, m); }
    if IsTree(fs[i := Dir(m)]) {
      var d: map<nat, nat> :| TreeOk(fs[i := Dir(m)], d);
      RelistNeeded(fs, depth, i, m, d);
    }
  }

  /** A new node that no directory lists is not part of the tree. */
  lemma TreeOrphan(fs: Fs, depth: map<nat, nat>, i: nat, leaf: Node)
    requires TreeOk(fs, depth) && i !in fs && (leaf.Dir? ==> leaf.entries == map[])
    ensures !IsTree(fs[i := leaf])
  {
    hide GoodName;
    var gs := fs[i := leaf];
    NotListed(fs, depth, i);
    forall q: nat, m: Name ensures !Names(gs, q, m, i) { assert !Names(fs, q, m, i); }
    assert !Named(gs, i);
  }
}
