/** The mounted file system: a drive whose objects form a tree, with a current directory. */
module NvfsNamespace {
  import opened Bytes
  import opened NvfsFormat
  import opened NvfsVolume
  import opened NvfsDriver
  import opened NvfsSlots
  import opened NvfsFiles
  import opened NvfsDirs
  import opened NvfsDirScan
  import opened NvfsTree
  import opened NvfsPaths

  ghost function FsView(v: Vol): Fs { FsOf(Objects(v)) }

  /** An inode of the volume and the node it stands for. */
  lemma Linked(v: Vol, i: nat)
    ensures i in FsView(v) <==> i < |v.inodes| && v.inodes[i].kind != TYPE_FREE
    ensures i in FsView(v) ==> FsView(v)[i] == NodeOf(ObjOf(v, v.inodes[i])) && Objects(v)[i] == ObjOf(v, v.inodes[i])
    ensures IsDir(v, i) <==> i in FsView(v) && FsView(v)[i].Dir?
    ensures IsDir(v, i) ==> FsView(v)[i].entries == Entries(Table(v, i))
    ensures AllOk(Objects(v)) && IsDir(v, i) ==> TableOk(Table(v, i))
  {}

  /** The slots of a directory hold exactly the inodes its map lists. */
  lemma TableLists(slots: seq<Dirent>, i: u32)
    requires TableOk(slots) && i != 0
    ensures (exists k :: 0 <= k < |slots| && slots[k].inode == i) <==> i in Entries(slots).Values
  {
    forall k | 0 <= k < |slots| && slots[k].inode == i ensures i in Entries(slots).Values {
      EntryOf(slots, k);
    }
    if i in Entries(slots).Values {
      var n :| n in Entries(slots) && Entries(slots)[n] == i;
      var k := EntriesSound(slots, n);
    }
  }

  lemma ScanLists(v: Vol, dir: nat, bs: seq<nat>, want: u32, e: int, block: nat, tmp: Sector, p: nat)
    requires IsDir(v, dir) && TableOk(Table(v, dir)) && Table(v, dir) == Slots(Load(v, bs)) && want != 0
    requires SpotOk(v, bs, e, block, tmp, p)
    requires e >= 0 ==> Hit(Row(tmp)[e], want, true)
    requires e < 0 ==> NoHitBefore(Slots(Load(v, bs)), want, true, |Slots(Load(v, bs))|)
    ensures e >= 0 <==> Lists(FsView(v), dir, want)
  {
    hide Slots, Row, Table, Entries, TableOk, FsView;
    Linked(v, dir);
    TableLists(Table(v, dir), want);
    if e >= 0 { SpotSlot(v, bs, e, block, tmp, p); }
  }

  /** find_parent: the lowest directory inode that lists inum. */
  method FindParent(dr: Drive, inum: u32, ghost leaked: set<nat>) returns (r: int)
    requires dr.Valid() && Acct(dr.vol, leaked) && AllOk(Objects(dr.vol))
    modifies dr`errno
    ensures r == ParentOf(FsView(dr.vol), inum, |dr.vol.inodes|)
  {
    hide Drive.Valid, Acct, BlockList, ExtentsOf, Slots, Table, TableOk, AllOk, Objects, FsView, Row, Lists,
      NoHitBefore, Hit, Load;
    dr.Sizes();
    if inum == ROOT { return -1; }
    ghost var n := |dr.vol.inodes|;
    ghost var fs := FsView(dr.vol);
    var i := 0;
    while i < dr.geo.inodeCount
      invariant dr.Valid() && 0 <= i <= n
      invariant ParentFrom(fs, inum, 0, n) == ParentFrom(fs, inum, i, n)
    {
      Linked(dr.vol, i);
      var got, node := dr.InodeRead(i);
      if got && node.kind == TYPE_DIR {
        TableBlocks(dr.vol, leaked, i);
        CountClamped(dr, i);
        var loaded, es := dr.ExtentLoadAll(node);
        if loaded {
          var e, block, tmp, p := LocateInode(dr, es, inum, true);
          ScanLists(dr.vol, i, BlockList(es), inum, e, block, tmp, p);
          if e >= 0 { return i; }
        }
      } else {
        NotListing(fs, i, inum);
      }
      i := i + 1;
    }
    r := -1;
  }

  lemma NotListing(fs: Fs, i: nat, inum: nat)
    requires !(i in fs && fs[i].Dir?)
    ensures !Lists(fs, i, inum)
  {}

  // ------------------------------------------------- resolving paths

  /** What has to hold of the volume for paths to make sense. */
  ghost predicate Sound(v: Vol, leaked: set<nat>, depth: map<nat, nat>) {
    Acct(v, leaked) && AllOk(Objects(v)) && TreeOk(FsView(v), depth)
  }

  lemma ChildInRange(v: Vol, leaked: set<nat>, depth: map<nat, nat>, dir: nat, k: Name)
    requires Sound(v, leaked, depth) && dir in FsView(v) && FsView(v)[dir].Dir? && k in FsView(v)[dir].entries
    ensures FsView(v)[dir].entries[k] in FsView(v) && FsView(v)[dir].entries[k] < |v.inodes|
  {
    hide GoodName, Acct, AllOk;
    assert Names(FsView(v), dir, k, FsView(v)[dir].entries[k]);
    EntryFacts(FsView(v), depth, dir, k, FsView(v)[dir].entries[k]);
    Linked(v, FsView(v)[dir].entries[k]);
  }

  lemma SoundParts(v: Vol, leaked: set<nat>, depth: map<nat, nat>, dir: nat)
    requires Sound(v, leaked, depth)
    ensures Acct(v, leaked) && AllOk(Objects(v)) && TreeOk(FsView(v), depth)
    ensures IsDir(v, dir) <==> dir in FsView(v) && FsView(v)[dir].Dir?
    ensures IsDir(v, dir) ==> TableOk(Table(v, dir)) && FsView(v)[dir].entries == Entries(Table(v, dir))
    ensures dir in FsView(v) <==> dir < |v.inodes| && v.inodes[dir].kind != TYPE_FREE
  {
    Linked(v, dir);
  }

  method ToUpper(s: seq<byte>) returns (r: seq<byte>)
    ensures r == Upper(s)
  {
    r := s;
    for k := 0 to |s|
      invariant |r| == |s| && forall j :: 0 <= j < |s| ==> r[j] == if j < k then Upper(s)[j] else s[j]
    {
      if 97 <= r[k] <= 122 { r := r[k := r[k] - 32]; }
    }
  }

  lemma UpperZeroFree(s: seq<byte>)
    requires ZeroFree(s)
    ensures ZeroFree(Upper(s)) && ZeroFree(Key(Upper(s)))
  {}

  /** One component of a path before the last slash. */
  method StepInto(dr: Drive, cur: nat, comp: seq<byte>, ghost leaked: set<nat>, ghost depth: map<nat, nat>)
    returns (ok: bool, next: nat)
    requires dr.Valid() && Sound(dr.vol, leaked, depth) && ZeroFree(comp)
    requires cur in FsView(dr.vol)
    modifies dr`errno
    ensures Step(FsView(dr.vol), |dr.vol.inodes|, cur, comp) == if ok then At(next) else Lost(dr.errno)
    ensures ok ==> next in FsView(dr.vol)
  {
    hide Drive.Valid, Acct, AllOk, Objects, FsView, TreeOk, Sound, Table, TableOk, Entries, Upper, ParentOf;
    ghost var v, fs := dr.vol, FsView(dr.vol);
    SoundParts(v, leaked, depth, cur);
    dr.Sizes();
    if comp == [] { return true, cur; }
    if comp == [DOT, DOT] {
      var p := FindParent(dr, cur, leaked);
      if p < 0 { dr.errno := ERR_PATH; return false, cur; }
      ParentInFs(fs, cur, |v.inodes|);
      return true, p;
    }
    if comp == [DOT] { return true, cur; }
    var up := ToUpper(comp);
    UpperZeroFree(comp);
    var inum := DirFind(dr, cur, up, leaked);
    if inum < 0 { dr.errno := ERR_NOT_FOUND; return false, cur; }
    ChildInRange(v, leaked, depth, cur, Key(up));
    SoundParts(v, leaked, depth, inum);
    var got, node := dr.InodeRead(inum);
    if !got { return false, cur; }
    if node.kind != TYPE_DIR { dr.errno := ERR_NOT_DIR; return false, cur; }
    return true, inum;
  }

  lemma ParentInFs(fs: Fs, i: nat, n: nat)
    ensures ParentOf(fs, i, n) >= 0 ==> ParentOf(fs, i, n) in fs
  {}

  /** The last component, shared by both branches of resolve_path. */
  method FinalName(dr: Drive, cur: nat, last: seq<byte>, ghost leaked: set<nat>, ghost depth: map<nat, nat>)
    returns (ok: bool, parent: nat, name: Name)
    requires dr.Valid() && Sound(dr.vol, leaked, depth) && cur in FsView(dr.vol)
    modifies dr`errno
    ensures Final(FsView(dr.vol), |dr.vol.inodes|, cur, last) == if ok then Resolved(parent, name) else NoPath(dr.errno)
  {
    hide Drive.Valid, Acct, AllOk, Objects, FsView, TreeOk, Sound, Upper, ParentOf;
    SoundParts(dr.vol, leaked, depth, cur);
    dr.Sizes();
    if last == [DOT, DOT] {
      var p := FindParent(dr, cur, leaked);
      if p < 0 { dr.errno := ERR_PATH; return false, cur, []; }
      return true, p, [];
    }
    if last == [DOT] { return true, cur, []; }
    name := ToUpper(last);
    return true, cur, name;
  }

  lemma SlashHere(s: seq<byte>, k: nat)
    requires k < |s| && s[k] == SLASH && SLASH !in s[..k]
    ensures FirstSlash(s) == k
  {
    SlashAfter(s[..k], s[k + 1..]);
    assert s == s[..k] + [SLASH] + s[k + 1..];
  }

  /** The first loop of resolve_path. */
  method LastSlash(buf: seq<byte>, start: nat) returns (last: int)
    requires start <= |buf|
    ensures last == -1 || (start <= last < |buf| && buf[last] == SLASH)
    ensures NoSlashIn(buf, if last >= 0 then last + 1 else start, |buf|)
  {
    last := -1;
    for i := start to |buf|
      invariant last == -1 || (start <= last < i && buf[last] == SLASH)
      invariant forall k :: start <= k < i && k > last ==> buf[k] != SLASH
    {
      if buf[i] == SLASH { last := i; }
    }
  }

  ghost predicate NoSlashIn(buf: seq<byte>, lo: nat, hi: nat) {
    forall k :: lo <= k < hi && k < |buf| ==> buf[k] != SLASH
  }

  /** The second loop of resolve_path: into the component before every slash. */
  method WalkParts(dr: Drive, from: nat, buf: seq<byte>, start: nat, last: int, ghost leaked: set<nat>,
                   ghost depth: map<nat, nat>)
    returns (ok: bool, cur: nat, seg: nat)
    requires dr.Valid() && Sound(dr.vol, leaked, depth) && ZeroFree(buf) && from in FsView(dr.vol) && start <= |buf|
    requires last == -1 || (start <= last < |buf| && buf[last] == SLASH)
    modifies dr`errno
    ensures ok ==> seg == if last >= 0 then last + 1 else start
    ensures ok ==> cur in FsView(dr.vol) && seg <= |buf|
    ensures ok ==>
      var fs, n := FsView(dr.vol), |dr.vol.inodes|;
      WalkPath(fs, n, from, buf[start..]) == WalkPath(fs, n, cur, buf[seg..])
    ensures !ok ==> WalkPath(FsView(dr.vol), |dr.vol.inodes|, from, buf[start..]) == NoPath(dr.errno)
  {
    hide Drive.Valid, FsView, Sound, Step, Final, WalkPath, FirstSlash, ZeroFree;
    ghost var fs, n := FsView(dr.vol), |dr.vol.inodes|;
    ok, cur, seg := true, from, start;
    var i := start;
    while i <= last
      invariant start <= seg <= i <= |buf| && (last >= 0 ==> i <= last + 1) && ok
      invariant i > last >= 0 ==> seg == last + 1
      invariant last < 0 ==> seg == start
      invariant cur in fs && NoSlashIn(buf, seg, i)
      invariant WalkPath(fs, n, from, buf[start..]) == WalkPath(fs, n, cur, buf[seg..])
      decreases last - i
    {
      if buf[i] == SLASH {
        StepOfWalk(fs, n, cur, buf, seg, i);
        SliceZeroFree(buf, seg, i);
        var next;
        ok, next := StepInto(dr, cur, buf[seg..i], leaked, depth);
        if !ok { return; }
        cur := next;
        seg := i + 1;
      }
      i := i + 1;
    }
  }

  /** resolve_path. */
  method ResolvePath(dr: Drive, cwd: nat, path: seq<byte>, ghost leaked: set<nat>, ghost depth: map<nat, nat>)
    returns (ok: bool, parent: nat, name: Name)
    requires dr.Valid() && Sound(dr.vol, leaked, depth) && ZeroFree(path) && cwd in FsView(dr.vol)
    modifies dr`errno
    ensures Resolve(FsView(dr.vol), |dr.vol.inodes|, cwd, path) ==
      if ok then Resolved(parent, name) else NoPath(dr.errno)
  {
    hide Drive.Valid, FsView, Sound, Step, Final, WalkPath, FirstSlash, Resolve, ZeroFree, NoSlashIn;
    ghost var fs, n := FsView(dr.vol), |dr.vol.inodes|;
    RootInFs(dr.vol, leaked, depth);
    ResolveWalks(fs, n, cwd, path);
    var len := if |path| < PATH_MAX then |path| else PATH_MAX;
    var buf := path[..len];
    if len == 0 { return true, cwd, []; }
    var cur := if buf[0] == SLASH then ROOT else cwd;
    var start := if buf[0] == SLASH then 1 else 0;
    var lastSlash := LastSlash(buf, start);
    SliceZeroFree(path, 0, len);
    assert path[0..len] == buf;
    var seg;
    ok, cur, seg := WalkParts(dr, cur, buf, start, lastSlash, leaked, depth);
    if !ok { return false, cur, []; }
    NoSlashLeft(buf, seg);
    EndOfWalk(fs, n, cur, buf[seg..]);
    ok, parent, name := FinalName(dr, cur, buf[seg..], leaked, depth);
  }

  lemma ResolveWalks(fs: Fs, n: nat, cwd: nat, path: seq<byte>)
    ensures var buf := path[..if |path| < PATH_MAX then |path| else PATH_MAX];
      Resolve(fs, n, cwd, path) ==
        if buf == [] then Resolved(cwd, [])
        else if buf[0] == SLASH then WalkPath(fs, n, ROOT, buf[1..]) else WalkPath(fs, n, cwd, buf[0..])
  {
    hide WalkPath;
    var buf := path[..if |path| < PATH_MAX then |path| else PATH_MAX];
    assert buf == Cut(path) && buf[0..] == buf;
  }

  lemma NoSlashLeft(buf: seq<byte>, seg: nat)
    requires seg <= |buf| && NoSlashIn(buf, seg, |buf|)
    ensures SLASH !in buf[seg..]
  {}

  lemma SliceZeroFree(buf: seq<byte>, lo: nat, hi: nat)
    requires ZeroFree(buf) && lo <= hi <= |buf|
    ensures ZeroFree(buf[lo..hi])
  {}

  lemma StepOfWalk(fs: Fs, n: nat, cur: nat, buf: seq<byte>, seg: nat, i: nat)
    requires seg <= i < |buf| && buf[i] == SLASH && NoSlashIn(buf, seg, i)
    ensures WalkPath(fs, n, cur, buf[seg..]) ==
      match Step(fs, n, cur, buf[seg..i])
        case Lost(e) => NoPath(e)
        case At(c) => WalkPath(fs, n, c, buf[i + 1..])
  {
    hide Step;
    assert buf[seg..][..i - seg] == buf[seg..i];
    SlashHere(buf[seg..], i - seg);
    assert buf[seg..][i - seg + 1..] == buf[i + 1..];
  }

  lemma EndOfWalk(fs: Fs, n: nat, cur: nat, s: seq<byte>)
    requires SLASH !in s
    ensures WalkPath(fs, n, cur, s) == Final(fs, n, cur, s)
  {
    NoSlash(s);
  }

  lemma RootInFs(v: Vol, leaked: set<nat>, depth: map<nat, nat>)
    requires Sound(v, leaked, depth)
    ensures ROOT in FsView(v)
  {}
}
