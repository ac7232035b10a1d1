/** Paths: how resolve_path walks the tree, how nvfs_path_string renders a directory, and
    that the second undoes the first. */
module NvfsPaths {
  import opened Bytes
  import opened NvfsFormat
  import opened NvfsDriver
  import opened NvfsTree

  const PATH_MAX := 255
  const MAX_DEPTH := 16

  // ------------------------------------------------- parents

  predicate Lists(fs: Fs, p: nat, i: nat) {
    p in fs && fs[p].Dir? && i in fs[p].entries.Values
  }

  /** find_parent: the lowest directory among inodes k..n that lists i, or -1. */
  function ParentFrom(fs: Fs, i: nat, k: nat, n: nat): (p: int)
    ensures p == -1 || (k <= p < n && Lists(fs, p, i))
    ensures p == -1 ==> forall q: nat :: k <= q < n ==> !Lists(fs, q, i)
    decreases n - k
  {
    if k >= n then -1 else if Lists(fs, k, i) then k else ParentFrom(fs, i, k + 1, n)
  }

  function ParentOf(fs: Fs, i: nat, n: nat): int {
    if i == ROOT then -1 else ParentFrom(fs, i, 0, n)
  }

  lemma ListsNames(fs: Fs, p: nat, i: nat)
    ensures Lists(fs, p, i) <==> exists n: Name :: Names(fs, p, n, i)
  {
    if Lists(fs, p, i) {
      var n :| n in fs[p].entries && fs[p].entries[n] == i;
      assert Names(fs, p, n, i);
    }
  }

  /** In a tree find_parent finds the one directory that lists the inode. */
  lemma ParentIsParent(fs: Fs, depth: map<nat, nat>, p: nat, m: Name, i: nat, n: nat)
    requires TreeOk(fs, depth) && Names(fs, p, m, i) && (forall j :: j in fs ==> j < n)
    ensures ParentOf(fs, i, n) == p
  {
    hide GoodName;
    EntryFacts(fs, depth, p, m, i);
    ListsNames(fs, p, i);
    var q := ParentOf(fs, i, n);
    if q >= 0 {
      ListsNames(fs, q, i);
    }
  }

  // ------------------------------------------------- walking

  datatype Cursor = Lost(error: int) | At(inode: nat)
  datatype Resolved = NoPath(error: int) | Resolved(parent: nat, name: Name)

  /** Index of the first slash, or the length. */
  function FirstSlash(s: seq<byte>): (k: nat)
    ensures k <= |s| && SLASH !in s[..k] && (k < |s| ==> s[k] == SLASH)
  {
    if s == [] || s[0] == SLASH then 0 else
      var k := FirstSlash(s[1..]);
      assert s[..k + 1] == [s[0]] + s[1..][..k];
      k + 1
  }

  /** One component that is followed by a slash. */
  function Step(fs: Fs, n: nat, cur: nat, comp: seq<byte>): Cursor {
    if comp == [] || comp == [DOT] then At(cur)
    else if comp == [DOT, DOT] then
      if ParentOf(fs, cur, n) < 0 then Lost(ERR_PATH) else At(ParentOf(fs, cur, n))
    else if cur in fs && fs[cur].Dir? && Key(Upper(comp)) in fs[cur].entries then
      var c := fs[cur].entries[Key(Upper(comp))];
      if c !in fs then Lost(ERR_IO) else if fs[c].Dir? then At(c) else Lost(ERR_NOT_DIR)
    else Lost(ERR_NOT_FOUND)
  }

  /** The component after the last slash. */
  function Final(fs: Fs, n: nat, cur: nat, name: seq<byte>): Resolved {
    if name == [DOT, DOT] then
      if ParentOf(fs, cur, n) < 0 then NoPath(ERR_PATH) else Resolved(ParentOf(fs, cur, n), [])
    else if name == [DOT] then Resolved(cur, [])
    else Resolved(cur, Upper(name))
  }

  function WalkPath(fs: Fs, n: nat, cur: nat, s: seq<byte>): Resolved
    decreases |s|
  {
    var k := FirstSlash(s);
    if k == |s| then Final(fs, n, cur, s)
    else match Step(fs, n, cur, s[..k])
      case Lost(e) => NoPath(e)
      case At(c) => WalkPath(fs, n, c, s[k + 1..])
  }

  function Cut(path: seq<byte>): seq<byte> {
    if |path| > PATH_MAX then path[..PATH_MAX] else path
  }

  /** resolve_path. */
  function Resolve(fs: Fs, n: nat, cwd: nat, path: seq<byte>): Resolved {
    var p := Cut(path);
    if p == [] then Resolved(cwd, [])
    else if p[0] == SLASH then WalkPath(fs, n, ROOT, p[1..])
    else WalkPath(fs, n, cwd, p)
  }

  /** nvfs_chdir: the directory a path leads to. */
  function Target(fs: Fs, n: nat, cwd: nat, path: seq<byte>): Cursor {
    if path == [] then At(ROOT)
    else match Resolve(fs, n, cwd, path)
      case NoPath(e) => Lost(e)
      case Resolved(parent, name) =>
        if name == [] then At(parent)
        else if parent in fs && fs[parent].Dir? && Key(name) in fs[parent].entries then
          var c := fs[parent].entries[Key(name)];
          if c !in fs then Lost(ERR_IO) else if fs[c].Dir? then At(c) else Lost(ERR_NOT_DIR)
        else Lost(ERR_NOT_FOUND)
  }

  // ------------------------------------------------- rendering

  function Join(ns: seq<Name>): seq<byte> {
    if ns == [] then [] else if |ns| == 1 then ns[0] else ns[0] + [SLASH] + Join(ns[1..])
  }

  function Render(ns: seq<Name>): seq<byte> { [SLASH] + Join(ns) }

  /** The names on the way from directory `from` down to inode i. */
  ghost predicate Chain(fs: Fs, from: nat, ns: seq<Name>, i: nat)
    decreases |ns|
  {
    if ns == [] then from == i
    else exists c: nat :: Names(fs, from, ns[0], c) && Chain(fs, c, ns[1..], i)
  }

  /** The names from the root down to inode i. */
  ghost function NamesTo(fs: Fs, depth: map<nat, nat>, i: nat): (ns: seq<Name>)
    requires TreeOk(fs, depth) && i in fs
    ensures |ns| == depth[i]
    decreases depth[i]
  {
    if i == ROOT then []
    else
      assert Named(fs, i);
      var p: nat, m: Name :| Names(fs, p, m, i);
      assert EntryOk(fs, depth, p, m, i);
      NamesTo(fs, depth, p) + [m]
  }

  lemma {:induction false} ChainSnoc(fs: Fs, from: nat, ns: seq<Name>, p: nat, m: Name, i: nat)
    requires Chain(fs, from, ns, p) && Names(fs, p, m, i)
    ensures Chain(fs, from, ns + [m], i)
    decreases |ns|
  {
    if ns == [] {
      assert Chain(fs, i, [], i);
      assert ([] + [m])[1..] == [];
    } else {
      var c: nat :| Names(fs, from, ns[0], c) && Chain(fs, c, ns[1..], p);
      ChainSnoc(fs, c, ns[1..], p, m, i);
      assert (ns + [m])[1..] == ns[1..] + [m];
    }
  }

  lemma {:induction false} NamesToChain(fs: Fs, depth: map<nat, nat>, i: nat)
    requires TreeOk(fs, depth) && i in fs
    ensures Chain(fs, ROOT, NamesTo(fs, depth, i), i)
    decreases depth[i]
  {
    hide GoodName;
    if i != ROOT {
      assert Named(fs, i);
      var p: nat, m: Name :| Names(fs, p, m, i) && NamesTo(fs, depth, i) == NamesTo(fs, depth, p) + [m];
      EntryFacts(fs, depth, p, m, i);
      NamesToChain(fs, depth, p);
      ChainSnoc(fs, ROOT, NamesTo(fs, depth, p), p, m, i);
    }
  }

  lemma {:induction false} SlashAfter(a: Name, rest: seq<byte>)
    requires SLASH !in a
    ensures FirstSlash(a + [SLASH] + rest) == |a|
    ensures (a + [SLASH] + rest)[..|a|] == a && (a + [SLASH] + rest)[|a| + 1..] == rest
  {
    if a != [] {
      SlashAfter(a[1..], rest);
      assert (a + [SLASH] + rest)[1..] == a[1..] + [SLASH] + rest;
    }
  }

  lemma NoSlash(a: Name)
    requires SLASH !in a
    ensures FirstSlash(a) == |a|
  {}

  /** Walking down a chain of good names ends at its last entry. */
  lemma {:induction false} WalkChain(fs: Fs, depth: map<nat, nat>, n: nat, from: nat, ns: seq<Name>, i: nat)
    requires TreeOk(fs, depth) && Chain(fs, from, ns, i) && ns != []
    ensures exists p: nat, m: Name :: Names(fs, p, m, i) && WalkPath(fs, n, from, Join(ns)) == Resolved(p, m)
    decreases |ns|
  {
    var c: nat :| Names(fs, from, ns[0], c) && Chain(fs, c, ns[1..], i);
    EntryFacts(fs, depth, from, ns[0], c);
    if |ns| == 1 {
      NoSlash(ns[0]);
      assert Names(fs, from, ns[0], i);
    } else {
      SlashAfter(ns[0], Join(ns[1..]));
      assert ns[1..] != [];
      var d: nat :| Names(fs, c, ns[1..][0], d) && Chain(fs, d, ns[1..][1..], i);
      assert Step(fs, n, from, ns[0]) == At(c);
      WalkChain(fs, depth, n, c, ns[1..], i);
    }
  }

  /** nvfs_chdir on the rendered path of a directory leads back to it. */
  lemma RenderResolves(fs: Fs, depth: map<nat, nat>, n: nat, cwd: nat, i: nat)
    requires TreeOk(fs, depth) && i in fs && fs[i].Dir?
    requires |Render(NamesTo(fs, depth, i))| <= PATH_MAX
    ensures Target(fs, n, cwd, Render(NamesTo(fs, depth, i))) == At(i)
  {
    hide GoodName;
    var ns := NamesTo(fs, depth, i);
    var path := Render(ns);
    assert path[1..] == Join(ns);
    if i != ROOT {
      DeepNames(fs, depth, i);
      NamesToChain(fs, depth, i);
      WalkChain(fs, depth, n, ROOT, ns, i);
      var p: nat, m: Name :| Names(fs, p, m, i) && WalkPath(fs, n, ROOT, Join(ns)) == Resolved(p, m);
      EntryFacts(fs, depth, p, m, i);
      KeyOfGood(m);
    } else {
      assert WalkPath(fs, n, ROOT, []) == Final(fs, n, ROOT, []);
    }
  }

  lemma KeyOfGood(m: Name)
    requires GoodName(m)
    ensures Key(m) == m && m != []
  {}

  lemma DeepNames(fs: Fs, depth: map<nat, nat>, i: nat)
    requires TreeOk(fs, depth) && i in fs && i != ROOT
    ensures NamesTo(fs, depth, i) != []
  {}
}
