/** What a path means, read off the directory tree component by component, and that resolve_path and
    nvfs_chdir compute it for every path, with every error. */
module NvfsWalks {
  import opened Bytes
  import opened NvfsFormat
  import opened NvfsDriver
  import opened NvfsTree
  import opened NvfsPaths

  // ------------------------------------------------- the meaning of a path

  /** The name a component stands for: in capitals, and at most 27 bytes of it. */
  function Short(comp: seq<byte>): Name {
    if |comp| > 27 then Upper(comp)[..27] else Upper(comp)
  }

  /** One component leads from a directory to itself, to the directory that lists it, or to a
      directory it lists. */
  ghost predicate Moves(fs: Fs, from: nat, comp: seq<byte>, to: nat) {
    if comp == [] || comp == [DOT] then to == from
    else if comp == [DOT, DOT] then ListedBy(fs, to, from)
    else Names(fs, from, Short(comp), to) && to in fs && fs[to].Dir?
  }

  ghost predicate Unlisted(fs: Fs, from: nat, m: Name) {
    forall c: nat :: !Names(fs, from, m, c)
  }

  ghost predicate ListsLeaf(fs: Fs, from: nat, m: Name) {
    exists c: nat :: Names(fs, from, m, c) && c in fs && !fs[c].Dir?
  }

  /** One component cannot be followed: the root has no parent, the name is not listed, or what it
      names is no directory. */
  ghost predicate Blocks(fs: Fs, from: nat, comp: seq<byte>, e: int) {
    if comp == [] || comp == [DOT] then false
    else if comp == [DOT, DOT] then from == ROOT && e == ERR_PATH
    else
      || (Unlisted(fs, from, Short(comp)) && e == ERR_NOT_FOUND)
      || (ListsLeaf(fs, from, Short(comp)) && e == ERR_NOT_DIR)
  }

  ghost predicate Leads(fs: Fs, from: nat, comps: seq<seq<byte>>, to: nat)
    decreases |comps|
  {
    if comps == [] then to == from
    else exists c: nat :: Moves(fs, from, comps[0], c) && Leads(fs, c, comps[1..], to)
  }

  /** The first component that cannot be followed gives error e. */
  ghost predicate Stops(fs: Fs, from: nat, comps: seq<seq<byte>>, e: int)
    decreases |comps|
  {
    && comps != []
    && (Blocks(fs, from, comps[0], e) || exists c: nat :: Moves(fs, from, comps[0], c) && Stops(fs, c, comps[1..], e))
  }

  ghost predicate SlashFree(comps: seq<seq<byte>>) {
    forall k :: 0 <= k < |comps| ==> SLASH !in comps[k]
  }

  /** A path is its components with slashes between them, after a leading slash if it is absolute;
      bytes beyond the 255th do not count. */
  ghost predicate Spells(path: seq<byte>, comps: seq<seq<byte>>) {
    && comps != [] && SlashFree(comps)
    && var p := if |path| > 255 then path[..255] else path;
       p == if p != [] && p[0] == SLASH then [SLASH] + Join(comps) else Join(comps)
  }

  /** Where a path starts. */
  function Start(cwd: nat, path: seq<byte>): nat {
    if path != [] && path[0] == SLASH then ROOT else cwd
  }

  ghost predicate Dots(comp: seq<byte>) {
    comp == [DOT] || comp == [DOT, DOT]
  }

  /** The components that resolve_path follows: the last one only if it is a dot or two. */
  ghost function Followed(comps: seq<seq<byte>>): seq<seq<byte>>
    requires comps != []
  {
    if Dots(comps[|comps| - 1]) then comps else comps[..|comps| - 1]
  }

  /** The name it leaves to the caller. */
  ghost function Remaining(comps: seq<seq<byte>>): Name
    requires comps != []
  {
    if Dots(comps[|comps| - 1]) then [] else Upper(comps[|comps| - 1])
  }

  /** Every string is spelt by some components. */
  lemma {:induction false} Split(s: seq<byte>) returns (comps: seq<seq<byte>>)
    ensures comps != [] && SlashFree(comps) && Join(comps) == s
    decreases |s|
  {
    var k := FirstSlash(s);
    if k == |s| {
      assert s[..k] == s;
      comps := [s];
    } else {
      var rest := Split(s[k + 1..]);
      comps := [s[..k]] + rest;
      assert comps[1..] == rest;
      assert s == s[..k] + [SLASH] + s[k + 1..];
    }
  }

  // ------------------------------------------------- one component

  /** n bounds the inodes that find_parent looks at. */
  ghost predicate Walkable(fs: Fs, depth: map<nat, nat>, n: nat, cur: nat) {
    TreeOk(fs, depth) && cur in fs && fs[cur].Dir? && forall j :: j in fs ==> j < n
  }

  lemma UpMoves(fs: Fs, depth: map<nat, nat>, n: nat, cur: nat)
    requires Walkable(fs, depth, n, cur)
    ensures forall to: nat :: ListedBy(fs, to, cur) <==> ParentOf(fs, cur, n) == to
    ensures ParentOf(fs, cur, n) < 0 <==> cur == ROOT
  {
    hide GoodName;
    forall to: nat ensures ListedBy(fs, to, cur) <==> ParentOf(fs, cur, n) == to {
      if ListedBy(fs, to, cur) {
        var m: Name :| Names(fs, to, m, cur);
        ParentIsParent(fs, depth, to, m, cur, n);
      }
      ListsNames(fs, to, cur);
    }
    if cur != ROOT {
      assert Named(fs, cur);
      var q: nat, m: Name :| Names(fs, q, m, cur);
      ParentIsParent(fs, depth, q, m, cur, n);
    }
  }

  lemma ShortKey(comp: seq<byte>)
    ensures Short(comp) == Key(Upper(comp))
  {
    hide Upper;
  }

  /** A name that is no dot: the step to a child. */
  lemma DownMoves(fs: Fs, depth: map<nat, nat>, n: nat, cur: nat, comp: seq<byte>)
    requires Walkable(fs, depth, n, cur) && comp != [] && !Dots(comp)
    ensures forall to: nat :: Step(fs, n, cur, comp) == At(to) <==> Moves(fs, cur, comp, to)
    ensures forall e: int :: Step(fs, n, cur, comp) == Lost(e) <==> Blocks(fs, cur, comp, e)
  {
    hide GoodName, Upper, Key, Short, TreeOk;
    ShortKey(comp);
    var m := Short(comp);
    if m in fs[cur].entries {
      EntryFacts(fs, depth, cur, m, fs[cur].entries[m]);
    }
    OneChild(fs, cur, m);
  }

  /** At most one object is listed under a name. */
  lemma OneChild(fs: Fs, cur: nat, m: Name)
    requires cur in fs && fs[cur].Dir? && (m in fs[cur].entries ==> fs[cur].entries[m] in fs)
    ensures Unlisted(fs, cur, m) <==> m !in fs[cur].entries
    ensures ListsLeaf(fs, cur, m) <==> m in fs[cur].entries && !fs[fs[cur].entries[m]].Dir?
    ensures forall c: nat :: Names(fs, cur, m, c) <==> m in fs[cur].entries && c == fs[cur].entries[m]
  {
    if m in fs[cur].entries { assert Names(fs, cur, m, fs[cur].entries[m]); }
  }

  /** A step goes where the component leads, or fails as it is blocked. */
  lemma StepMoves(fs: Fs, depth: map<nat, nat>, n: nat, cur: nat, comp: seq<byte>)
    requires Walkable(fs, depth, n, cur)
    ensures forall to: nat :: Step(fs, n, cur, comp) == At(to) <==> Moves(fs, cur, comp, to)
    ensures forall e: int :: Step(fs, n, cur, comp) == Lost(e) <==> Blocks(fs, cur, comp, e)
    ensures Step(fs, n, cur, comp).At? ==> Walkable(fs, depth, n, Step(fs, n, cur, comp).inode)
  {
    hide GoodName, ParentOf, Upper, Key, TreeOk;
    if comp != [] && !Dots(comp) {
      DownMoves(fs, depth, n, cur, comp);
    } else {
      UpMoves(fs, depth, n, cur);
    }
  }

  // ------------------------------------------------- all components

  lemma JoinSteps(fs: Fs, n: nat, cur: nat, comps: seq<seq<byte>>)
    requires comps != [] && SlashFree(comps)
    ensures |comps| == 1 ==> WalkPath(fs, n, cur, Join(comps)) == Final(fs, n, cur, comps[0])
    ensures |comps| > 1 ==>
      WalkPath(fs, n, cur, Join(comps)) == match Step(fs, n, cur, comps[0])
                                           case Lost(e) => NoPath(e)
                                           case At(c) => WalkPath(fs, n, c, Join(comps[1..]))
  {
    assert SLASH !in comps[0];
    if |comps| == 1 { NoSlash(comps[0]); } else { SlashAfter(comps[0], Join(comps[1..])); }
  }

  lemma FollowedRest(comps: seq<seq<byte>>)
    requires |comps| > 1
    ensures Followed(comps) != [] && Followed(comps)[0] == comps[0] && Followed(comps)[1..] == Followed(comps[1..])
    ensures Remaining(comps) == Remaining(comps[1..])
  {}

  lemma LeadsOne(fs: Fs, cur: nat, comps: seq<seq<byte>>, c: nat)
    requires comps != [] && forall d: nat :: Moves(fs, cur, comps[0], d) <==> d == c
    ensures forall to: nat :: Leads(fs, cur, comps, to) <==> Leads(fs, c, comps[1..], to)
    ensures (forall e: int :: !Blocks(fs, cur, comps[0], e)) ==>
      forall e: int :: Stops(fs, cur, comps, e) <==> Stops(fs, c, comps[1..], e)
  {}

  lemma LeadsNowhere(fs: Fs, cur: nat, comps: seq<seq<byte>>)
    requires comps != [] && forall d: nat :: !Moves(fs, cur, comps[0], d)
    ensures forall to: nat :: !Leads(fs, cur, comps, to)
    ensures forall e: int :: Stops(fs, cur, comps, e) <==> Blocks(fs, cur, comps[0], e)
  {}

  /** The walk ends at the directory that the followed components lead to, with the last name. */
  lemma {:induction false} WalkLeads(fs: Fs, depth: map<nat, nat>, n: nat, cur: nat, comps: seq<seq<byte>>)
    requires Walkable(fs, depth, n, cur) && comps != [] && SlashFree(comps)
    ensures forall p: nat, m: Name :: WalkPath(fs, n, cur, Join(comps)) == Resolved(p, m) <==>
      Leads(fs, cur, Followed(comps), p) && m == Remaining(comps)
    ensures forall e: int :: WalkPath(fs, n, cur, Join(comps)) == NoPath(e) <==> Stops(fs, cur, Followed(comps), e)
    decreases |comps|
  {
    StepMoves(fs, depth, n, cur, comps[0]);
    JoinSteps(fs, n, cur, comps);
    var f := Followed(comps);
    if |comps| == 1 {
      FinalLeads(fs, depth, n, cur, comps);
    } else {
      FollowedRest(comps);
      hide Walkable, Step, WalkPath, Moves, Blocks, Leads, Stops, Followed, Remaining, Join;
      if Step(fs, n, cur, comps[0]).At? {
        var c := Step(fs, n, cur, comps[0]).inode;
        LeadsOne(fs, cur, f, c);
        WalkLeads(fs, depth, n, c, comps[1..]);
      } else {
        LeadsNowhere(fs, cur, f);
      }
    }
  }

  lemma FinalLeads(fs: Fs, depth: map<nat, nat>, n: nat, cur: nat, comps: seq<seq<byte>>)
    requires Walkable(fs, depth, n, cur) && |comps| == 1
    ensures forall p: nat, m: Name :: Final(fs, n, cur, comps[0]) == Resolved(p, m) <==>
      Leads(fs, cur, Followed(comps), p) && m == Remaining(comps)
    ensures forall e: int :: Final(fs, n, cur, comps[0]) == NoPath(e) <==> Stops(fs, cur, Followed(comps), e)
  {
    var last := comps[0];
    if Dots(last) {
      DotsLead(fs, depth, n, cur, last);
      assert Followed(comps) == [last];
    } else {
      assert Followed(comps) == [];
    }
    hide Walkable, Leads, Followed;
    NothingLeft(fs, cur);
  }

  lemma NothingLeft(fs: Fs, cur: nat)
    ensures forall to: nat :: Leads(fs, cur, [], to) <==> to == cur
    ensures forall e: int :: !Stops(fs, cur, [], e)
  {}

  lemma DotsLead(fs: Fs, depth: map<nat, nat>, n: nat, cur: nat, last: seq<byte>)
    requires Walkable(fs, depth, n, cur) && Dots(last)
    ensures forall p: nat, m: Name :: Final(fs, n, cur, last) == Resolved(p, m) <==>
      Leads(fs, cur, [last], p) && m == []
    ensures forall e: int :: Final(fs, n, cur, last) == NoPath(e) <==> Stops(fs, cur, [last], e)
  {
    StepMoves(fs, depth, n, cur, last);
    FinalSteps(fs, n, cur, last);
    hide Walkable, Step, Final, Moves, Blocks, Leads, Stops, Dots;
    assert [last][1..] == [];
    if Step(fs, n, cur, last).At? {
      LeadsOne(fs, cur, [last], Step(fs, n, cur, last).inode);
      NothingLeft(fs, Step(fs, n, cur, last).inode);
    } else {
      LeadsNowhere(fs, cur, [last]);
    }
  }

  lemma FinalSteps(fs: Fs, n: nat, cur: nat, last: seq<byte>)
    requires Dots(last)
    ensures Final(fs, n, cur, last) ==
      if Step(fs, n, cur, last).At? then Resolved(Step(fs, n, cur, last).inode, [])
      else NoPath(Step(fs, n, cur, last).error)
  {
    hide ParentOf;
  }

  // ------------------------------------------------- whole paths

  /** What nvfs_chdir makes of a resolved path. */
  function Enter(fs: Fs, r: Resolved): Cursor {
    match r
    case NoPath(e) => Lost(e)
    case Resolved(parent, name) =>
      if name == [] then At(parent)
      else if parent in fs && fs[parent].Dir? && Key(name) in fs[parent].entries then
        var c := fs[parent].entries[Key(name)];
        if c !in fs then Lost(ERR_IO) else if fs[c].Dir? then At(c) else Lost(ERR_NOT_DIR)
      else Lost(ERR_NOT_FOUND)
  }

  /** Entering the last name is one more step. */
  lemma EnterFinal(fs: Fs, n: nat, cur: nat, comp: seq<byte>)
    ensures Enter(fs, Final(fs, n, cur, comp)) == Step(fs, n, cur, comp)
  {}

  lemma {:induction false} EnterLeads(fs: Fs, depth: map<nat, nat>, n: nat, cur: nat, comps: seq<seq<byte>>)
    requires Walkable(fs, depth, n, cur) && comps != [] && SlashFree(comps)
    ensures forall i: nat :: Enter(fs, WalkPath(fs, n, cur, Join(comps))) == At(i) <==> Leads(fs, cur, comps, i)
    ensures forall e: int :: Enter(fs, WalkPath(fs, n, cur, Join(comps))) == Lost(e) <==> Stops(fs, cur, comps, e)
    decreases |comps|
  {
    StepMoves(fs, depth, n, cur, comps[0]);
    JoinSteps(fs, n, cur, comps);
    EnterFinal(fs, n, cur, comps[0]);
    assert |comps| == 1 ==> comps[1..] == [];
    hide Walkable, Step, Final, WalkPath, Moves, Blocks, Leads, Stops, Join;
    if Step(fs, n, cur, comps[0]).At? {
      var c := Step(fs, n, cur, comps[0]).inode;
      LeadsOne(fs, cur, comps, c);
      if |comps| == 1 { NothingLeft(fs, c); } else { EnterLeads(fs, depth, n, c, comps[1..]); }
    } else {
      LeadsNowhere(fs, cur, comps);
    }
  }

  /** resolve_path on every path: the directory that the components lead to and the name left over,
      or the error of the first component that cannot be followed. */
  lemma ResolveLeads(fs: Fs, depth: map<nat, nat>, n: nat, cwd: nat, path: seq<byte>, comps: seq<seq<byte>>)
    requires Walkable(fs, depth, n, cwd) && Spells(path, comps)
    ensures forall p: nat, m: Name :: Resolve(fs, n, cwd, path) == Resolved(p, m) <==>
      Leads(fs, Start(cwd, path), Followed(comps), p) && m == Remaining(comps)
    ensures forall e: int :: Resolve(fs, n, cwd, path) == NoPath(e) <==>
      Stops(fs, Start(cwd, path), Followed(comps), e)
  {
    assert comps != [] && SlashFree(comps);
    hide Resolve, WalkPath, Leads, Stops, Walkable, Spells, SlashFree, Join, Followed, Remaining;
    RootWalkable(fs, depth, n, cwd);
    SpeltWalk(fs, n, cwd, path, comps);
    WalkLeads(fs, depth, n, Start(cwd, path), comps);
  }

  /** nvfs_chdir on every path but the empty one. */
  lemma TargetLeads(fs: Fs, depth: map<nat, nat>, n: nat, cwd: nat, path: seq<byte>, comps: seq<seq<byte>>)
    requires Walkable(fs, depth, n, cwd) && path != [] && Spells(path, comps)
    ensures forall i: nat :: Target(fs, n, cwd, path) == At(i) <==> Leads(fs, Start(cwd, path), comps, i)
    ensures forall e: int :: Target(fs, n, cwd, path) == Lost(e) <==> Stops(fs, Start(cwd, path), comps, e)
  {
    assert comps != [] && SlashFree(comps);
    hide Resolve, Target, Enter, WalkPath, Leads, Stops, Walkable, Spells, SlashFree, Join;
    RootWalkable(fs, depth, n, cwd);
    SpeltWalk(fs, n, cwd, path, comps);
    EnterLeads(fs, depth, n, Start(cwd, path), comps);
    TargetEnters(fs, n, cwd, path);
  }

  lemma TargetEnters(fs: Fs, n: nat, cwd: nat, path: seq<byte>)
    requires path != []
    ensures Target(fs, n, cwd, path) == Enter(fs, Resolve(fs, n, cwd, path))
  {
    hide Resolve;
  }

  /** However a path is taken apart, nvfs_chdir goes where it leads or fails where it stops. */
  lemma TargetMeans(fs: Fs, depth: map<nat, nat>, n: nat, cwd: nat, path: seq<byte>)
    requires Walkable(fs, depth, n, cwd) && path != []
    ensures forall comps :: Spells(path, comps) ==>
      && (Target(fs, n, cwd, path).At? ==> Leads(fs, Start(cwd, path), comps, Target(fs, n, cwd, path).inode))
      && (Target(fs, n, cwd, path).Lost? ==> Stops(fs, Start(cwd, path), comps, Target(fs, n, cwd, path).error))
  {
    forall comps | Spells(path, comps)
      ensures Target(fs, n, cwd, path).At? ==> Leads(fs, Start(cwd, path), comps, Target(fs, n, cwd, path).inode)
      ensures Target(fs, n, cwd, path).Lost? ==> Stops(fs, Start(cwd, path), comps, Target(fs, n, cwd, path).error)
    {
      TargetLeads(fs, depth, n, cwd, path, comps);
    }
  }

  lemma RootWalkable(fs: Fs, depth: map<nat, nat>, n: nat, cwd: nat)
    requires Walkable(fs, depth, n, cwd)
    ensures Walkable(fs, depth, n, ROOT)
  {}

  lemma SpeltWalk(fs: Fs, n: nat, cwd: nat, path: seq<byte>, comps: seq<seq<byte>>)
    requires Spells(path, comps)
    ensures Resolve(fs, n, cwd, path) == WalkPath(fs, n, Start(cwd, path), Join(comps))
  {
    var p := Cut(path);
    if p != [] && p[0] == SLASH {
      assert p[1..] == Join(comps);
    } else if p == [] {
      assert WalkPath(fs, n, cwd, []) == Final(fs, n, cwd, []);
    }
  }

  // ------------------------------------------------- dots and names

  lemma SpellsOne(s: seq<byte>)
    requires SLASH !in s && 0 < |s| <= 255
    ensures Spells(s, [s]) && Start(0, s) == 0
  {
    assert s[0] != SLASH;
  }

  lemma SpellsTwo(a: seq<byte>, s: seq<byte>)
    requires SLASH !in a && SLASH !in s && a != [] && |a| + 1 + |s| <= 255
    ensures Spells(a + [SLASH] + s, [a, s]) && (a + [SLASH] + s)[0] != SLASH
    ensures !Dots(s) ==> Followed([a, s]) == [a] && Remaining([a, s]) == Upper(s)
  {
    assert a[0] != SLASH && [a, s][1..] == [s];
    assert [a, s][..1] == [a];
  }

  lemma LeadsBy(fs: Fs, from: nat, comp: seq<byte>, mid: nat, comps: seq<seq<byte>>, to: nat)
    requires Moves(fs, from, comp, mid) && Leads(fs, mid, comps, to)
    ensures Leads(fs, from, [comp] + comps, to)
  {
    assert ([comp] + comps)[1..] == comps;
  }

  lemma LeadsTo(fs: Fs, from: nat, comp: seq<byte>, to: nat)
    requires Moves(fs, from, comp, to)
    ensures Leads(fs, from, [comp], to)
  {
    NothingLeft(fs, to);
    LeadsBy(fs, from, comp, to, [], to);
    assert [comp] + [] == [comp];
  }

  lemma StopsAt(fs: Fs, from: nat, comp: seq<byte>, e: int)
    requires Blocks(fs, from, comp, e)
    ensures Stops(fs, from, [comp], e)
  {}

  /** Two dots lead to the directory that lists the current one. */
  lemma UpLeads(fs: Fs, depth: map<nat, nat>, n: nat, cur: nat, p: nat, m: Name)
    requires Walkable(fs, depth, n, cur) && Names(fs, p, m, cur)
    ensures Target(fs, n, cur, [DOT, DOT]) == At(p)
  {
    hide Walkable, Target, Spells, Leads, Stops, Names;
    SpellsOne([DOT, DOT]);
    TargetLeads(fs, depth, n, cur, [DOT, DOT], [[DOT, DOT]]);
    LeadsTo(fs, cur, [DOT, DOT], p);
  }

  /** There is no way up from the root. */
  lemma RootStops(fs: Fs, depth: map<nat, nat>, n: nat)
    requires Walkable(fs, depth, n, ROOT)
    ensures Target(fs, n, ROOT, [DOT, DOT]) == Lost(ERR_PATH)
  {
    hide Walkable, Target, Spells, Leads, Stops;
    SpellsOne([DOT, DOT]);
    TargetLeads(fs, depth, n, ROOT, [DOT, DOT], [[DOT, DOT]]);
    StopsAt(fs, ROOT, [DOT, DOT], ERR_PATH);
  }

  lemma UpperDots()
    ensures Upper([DOT]) == [DOT] && Upper([DOT, DOT]) == [DOT, DOT]
  {
    assert |Upper([DOT])| == 1 && |Upper([DOT, DOT])| == 2;
  }

  lemma ListedName(fs: Fs, depth: map<nat, nat>, n: nat, cur: nat, s: seq<byte>, c: nat)
    requires Walkable(fs, depth, n, cur) && Names(fs, cur, Upper(s), c)
    ensures 0 < |s| <= MAX_NAME && !Dots(s) && c in fs
    ensures fs[c].Dir? ==> Moves(fs, cur, s, c)
  {
    hide TreeOk, GoodName, Upper;
    EntryFacts(fs, depth, cur, Upper(s), c);
    KeyOfGood(Upper(s));
    NoDots(Upper(s));
    UpperDots();
  }

  lemma NoDots(m: Name)
    requires GoodName(m)
    ensures !Dots(m) && |m| <= MAX_NAME
  {}

  /** A listed name in either case: the caller gets the current directory and the name, and a
      directory of that name is entered. */
  lemma NameLeads(fs: Fs, depth: map<nat, nat>, n: nat, cur: nat, s: seq<byte>, c: nat)
    requires Walkable(fs, depth, n, cur) && SLASH !in s && Names(fs, cur, Upper(s), c)
    ensures Resolve(fs, n, cur, s) == Resolved(cur, Upper(s))
    ensures c in fs && (fs[c].Dir? ==> Target(fs, n, cur, s) == At(c))
  {
    ListedName(fs, depth, n, cur, s, c);
    SpellsOne(s);
    assert Start(cur, s) == cur && Followed([s]) == [] && Remaining([s]) == Upper(s);
    hide Walkable, Target, Resolve, Leads, Stops, Moves, Spells, Names, Start, Followed, Remaining, Upper;
    ResolveLeads(fs, depth, n, cur, s, [s]);
    TargetLeads(fs, depth, n, cur, s, [s]);
    NothingLeft(fs, cur);
    if fs[c].Dir? { LeadsTo(fs, cur, s, c); }
  }

  /** The same after any component that leads to the directory listing it: "./" or "../", say. */
  lemma NameAfter(fs: Fs, depth: map<nat, nat>, n: nat, cur: nat, comp: seq<byte>, d: nat, s: seq<byte>, c: nat)
    requires Walkable(fs, depth, n, cur) && comp != [] && SLASH !in comp && Moves(fs, cur, comp, d)
    requires d in fs && fs[d].Dir? && SLASH !in s && Names(fs, d, Upper(s), c) && |comp| + 1 + |s| <= 255
    ensures Resolve(fs, n, cur, comp + [SLASH] + s) == Resolved(d, Upper(s))
    ensures c in fs && (fs[c].Dir? ==> Target(fs, n, cur, comp + [SLASH] + s) == At(c))
  {
    hide TreeOk, GoodName, Upper, Target, Resolve, Leads, Stops, Moves, Spells, Names, Followed, Remaining;
    ListedName(fs, depth, n, d, s, c);
    SpellsTwo(comp, s);
    var path := comp + [SLASH] + s;
    assert Start(cur, path) == cur;
    hide Walkable, Start;
    ResolveLeads(fs, depth, n, cur, path, [comp, s]);
    TargetLeads(fs, depth, n, cur, path, [comp, s]);
    LeadsTo(fs, cur, comp, d);
    assert Resolve(fs, n, cur, path) == Resolved(d, Upper(s));
    if fs[c].Dir? {
      LeadsTo(fs, d, s, c);
      LeadsBy(fs, cur, comp, d, [s], c);
      assert [comp] + [s] == [comp, s];
    }
  }

  /** "./" before a name changes nothing. */
  lemma HereThenName(fs: Fs, depth: map<nat, nat>, n: nat, cur: nat, s: seq<byte>, c: nat)
    requires Walkable(fs, depth, n, cur) && SLASH !in s && Names(fs, cur, Upper(s), c)
    ensures Resolve(fs, n, cur, [DOT, SLASH] + s) == Resolved(cur, Upper(s))
    ensures c in fs && (fs[c].Dir? ==> Target(fs, n, cur, [DOT, SLASH] + s) == At(c))
  {
    hide TreeOk, GoodName, Upper, Target, Resolve;
    assert [DOT] + [SLASH] + s == [DOT, SLASH] + s;
    ListedName(fs, depth, n, cur, s, c);
    NameAfter(fs, depth, n, cur, [DOT], cur, s, c);
  }

  /** "../" before a name looks for it in the parent. */
  lemma UpThenName(fs: Fs, depth: map<nat, nat>, n: nat, cur: nat, p: nat, k: Name, s: seq<byte>, c: nat)
    requires Walkable(fs, depth, n, cur) && Names(fs, p, k, cur) && SLASH !in s && Names(fs, p, Upper(s), c)
    ensures Resolve(fs, n, cur, [DOT, DOT, SLASH] + s) == Resolved(p, Upper(s))
    ensures c in fs && (fs[c].Dir? ==> Target(fs, n, cur, [DOT, DOT, SLASH] + s) == At(c))
  {
    hide TreeOk, GoodName, Upper, Target, Resolve;
    assert [DOT, DOT] + [SLASH] + s == [DOT, DOT, SLASH] + s;
    ListedName(fs, depth, n, p, s, c);
    NameAfter(fs, depth, n, cur, [DOT, DOT], p, s, c);
  }
}
