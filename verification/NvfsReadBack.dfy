/** What is written is what is read: a path leads to the same node after the write. */
module NvfsReadBack {
  import opened Bytes
  import opened NvfsFormat
  import opened NvfsVolume
  import opened NvfsDriver
  import opened NvfsExtents
  import opened NvfsFiles
  import opened NvfsTree
  import opened NvfsPaths
  import opened NvfsWalks
  import opened NvfsNamespace
  import opened NvfsUpdates
  import opened NvfsApi
  import opened NvfsSpace
  import opened NvfsLimits

  /** Every node of fs is still there, directories with at least their entries, and under the same parent. */
  ghost predicate Extends(fs: Fs, gs: Fs) {
    && (forall i :: i in fs ==> i in gs && (fs[i].Dir? <==> gs[i].Dir?))
    && (forall i, m :: DirNode(fs, i) && m in fs[i].entries ==>
          m in gs[i].entries && gs[i].entries[m] == fs[i].entries[m])
    && (forall q: nat, i: nat :: i in fs ==> (Lists(gs, q, i) <==> Lists(fs, q, i)))
  }

  lemma {:induction false} ParentKept(fs: Fs, gs: Fs, i: nat, k: nat, n: nat)
    requires Extends(fs, gs) && i in fs
    ensures ParentFrom(gs, i, k, n) == ParentFrom(fs, i, k, n)
    decreases n - k
  {
    if k < n { ParentKept(fs, gs, i, k + 1, n); }
  }

  lemma StepKept(fs: Fs, gs: Fs, n: nat, cur: nat, comp: seq<byte>)
    requires Extends(fs, gs) && cur in fs && Step(fs, n, cur, comp).At?
    ensures Step(gs, n, cur, comp) == Step(fs, n, cur, comp) && Step(fs, n, cur, comp).inode in fs
  {
    ParentKept(fs, gs, cur, 0, n);
    ParentInFs(fs, cur, n);
    hide ParentFrom, Lists, Upper;
    if cur in fs && fs[cur].Dir? { assert DirNode(fs, cur); }
  }

  lemma {:induction false} WalkKept(fs: Fs, gs: Fs, n: nat, cur: nat, s: seq<byte>)
    requires Extends(fs, gs) && cur in fs && WalkPath(fs, n, cur, s).Resolved?
    ensures WalkPath(gs, n, cur, s) == WalkPath(fs, n, cur, s)
    decreases |s|
  {
    hide Extends, Step;
    var k := FirstSlash(s);
    if k == |s| {
      ParentKept(fs, gs, cur, 0, n);
    } else {
      StepKept(fs, gs, n, cur, s[..k]);
      WalkKept(fs, gs, n, Step(fs, n, cur, s[..k]).inode, s[k + 1..]);
    }
  }

  /** A path that leads to an entry or a free name keeps leading to the same directory and name. */
  lemma ResolveKept(fs: Fs, gs: Fs, n: nat, cwd: nat, path: seq<byte>)
    requires Extends(fs, gs) && cwd in fs && ROOT in fs && Resolve(fs, n, cwd, path).Resolved?
    ensures Resolve(gs, n, cwd, path) == Resolve(fs, n, cwd, path)
  {
    hide Extends, WalkPath;
    var p := Cut(path);
    if p != [] {
      if p[0] == SLASH { WalkKept(fs, gs, n, ROOT, p[1..]); } else { WalkKept(fs, gs, n, cwd, p); }
    }
  }

  lemma OverwriteExtends(fs: Fs, i: nat, node: Node)
    requires i in fs && !fs[i].Dir? && !node.Dir?
    ensures Extends(fs, fs[i := node])
  {
    var gs := fs[i := node];
    forall q: nat, j: nat ensures Lists(gs, q, j) <==> Lists(fs, q, j) {}
  }

  lemma GraftExtends(fs: Fs, p: nat, m: Name, r: nat, leaf: Node)
    requires DirNode(fs, p) && m !in fs[p].entries && r !in fs && (leaf.Dir? ==> leaf.entries == map[])
    ensures Extends(fs, Grafted(fs, p, m, r, leaf))
  {
    var gs := Grafted(fs, p, m, r, leaf);
    forall q: nat, i: nat | i in fs ensures Lists(gs, q, i) <==> Lists(fs, q, i) {
      ListsNames(fs, q, i);
      ListsNames(gs, q, i);
      assert forall x: Name :: Names(gs, q, x, i) <==> Names(fs, q, x, i);
    }
  }

  lemma SeekWritten(fs: Fs, n: nat, cwd: nat, path: seq<byte>, data: seq<byte>)
    requires cwd in fs && ROOT in fs && Seek(fs, n, cwd, path).Present?
    requires NodeAt(fs, Seek(fs, n, cwd, path).inode).File?
    ensures Seek(OverwriteIn(fs, Seek(fs, n, cwd, path).inode, data), n, cwd, path) == Seek(fs, n, cwd, path)
  {
    var i := Seek(fs, n, cwd, path).inode;
    OverwriteExtends(fs, i, File(data));
    ResolveKept(fs, OverwriteIn(fs, i, data), n, cwd, path);
    hide Extends, Resolve;
  }

  lemma SeekCreated(fs: Fs, gs: Fs, n: nat, cwd: nat, path: seq<byte>, r: nat, leaf: Node)
    requires DirNode(fs, cwd) && DirNode(fs, ROOT) && ZeroFree(path) && NameFits(path)
    requires CreatedIn(fs, gs, Seek(fs, n, cwd, path), r, leaf) && (leaf.Dir? ==> leaf.entries == map[])
    ensures Seek(gs, n, cwd, path) == Present(Seek(fs, n, cwd, path).parent, Seek(fs, n, cwd, path).name, r)
    ensures NodeAt(gs, r) == leaf
  {
    var at := Seek(fs, n, cwd, path);
    ResolveEnds(fs, n, cwd, path);
    GoodZeroFree(at.name);
    SeekEntries(fs, n, cwd, path);
    GraftExtends(fs, at.parent, at.name, r, leaf);
    ResolveKept(fs, gs, n, cwd, path);
    hide Extends, Resolve, GoodName, NameFits;
  }

  /** After nvfs_write the path leads to a file with exactly these bytes. */
  ghost predicate Landed(fs: Fs, n: nat, cwd: nat, path: seq<byte>, bytes: seq<byte>) {
    Seek(fs, n, cwd, path).Present? && NodeAt(fs, Seek(fs, n, cwd, path).inode) == File(bytes)
  }

  lemma OverwriteLands(fs: Fs, n: nat, cwd: nat, path: seq<byte>, data: seq<byte>)
    requires cwd in fs && ROOT in fs && Seek(fs, n, cwd, path).Present?
    requires NodeAt(fs, Seek(fs, n, cwd, path).inode).File?
    ensures Landed(OverwriteIn(fs, Seek(fs, n, cwd, path).inode, data), n, cwd, path, data)
  {
    SeekWritten(fs, n, cwd, path, data);
    hide Seek;
  }

  lemma CreateLands(fs: Fs, gs: Fs, n: nat, cwd: nat, path: seq<byte>, data: seq<byte>)
    requires DirNode(fs, cwd) && DirNode(fs, ROOT) && ZeroFree(path) && NameFits(path)
    requires exists r: nat :: CreatedIn(fs, gs, Seek(fs, n, cwd, path), r, File(data))
    ensures Landed(gs, n, cwd, path, data)
  {
    var r: nat :| CreatedIn(fs, gs, Seek(fs, n, cwd, path), r, File(data));
    SeekCreated(fs, gs, n, cwd, path, r, File(data));
    hide Seek, CreatedIn;
  }

  /** nvfs_write and then nvfs_read: the first max bytes of what was written, whether the file
      was there or is new. */
  method WriteThenRead(f: FileSystem, path: seq<byte>, data: seq<byte>, max: nat, t0: u32, t1: u32, t2: u32,
                       junk: seq<Extent>)
    returns (done: int, ret: int, out: seq<byte>)
    requires f.Valid() && ZeroFree(path) && NameFits(path) && |data| <= MAX_BUFFER && |junk| == MAX_EXTENTS
    requires f.Find(path).Present? ==> NodeAt(FsView(f.drive.vol), f.Find(path).inode).File?
    requires f.Find(path).Absent? ==> TableSuffices(f.drive.vol) && f.Harmless(path, data)
    modifies f`leaked, f`depth, f.drive
    ensures f.Valid() && (done == 0 ==> ret == |out| && out == Take(data, max))
  {
    hide Seek, FsView, Sound, Drive.Valid, NameFits, TrailShows, TrailMounts, TrailCreates, CreatedIn, Take, Creatable,
      Fits, Landed, OverwriteIn, KeepsTree, Acct, TableSuffices;
    ghost var fs, n, cwd := FsView(f.drive.vol), |f.drive.vol.inodes|, f.cwd;
    f.drive.Sizes();
    SoundRoot(f.drive.vol, f.leaked, f.depth);
    ghost var at := Seek(fs, n, cwd, path);
    if at.Present? {
      OverwriteLands(fs, n, cwd, path, data);
      FileKeeps(fs, at.inode, data, cwd);
    }
    done := f.Write(path, data, t0, t1, t2, junk);
    f.drive.Sizes();
    ghost var gs := FsView(f.drive.vol);
    if done == 0 && at.Absent? { CreateLands(fs, gs, n, cwd, path, data); }
    LandedReads(gs, n, cwd, path, data);
    ret, out := f.Read(path, max);
  }

  /** A volume that a power cut during an overwrite or an append of a file leaves is mounted again,
      and the file is read: it has exactly its old or exactly its new bytes. */
  method ReadAfterCut(cut: Drive, path: seq<byte>, max: nat, ghost fs: Fs, ghost data: seq<byte>, ghost n: nat)
    returns (ret: int, out: seq<byte>)
    requires cut.Valid() && |cut.vol.inodes| == n && ZeroFree(path) && NameFits(path) && ROOT in fs
    requires Seek(fs, n, ROOT, path).Present? && NodeAt(fs, Seek(fs, n, ROOT, path).inode).File?
    requires Mountable(cut.vol) && ShowsEither(cut.vol, fs, OverwriteIn(fs, Seek(fs, n, ROOT, path).inode, data))
    modifies cut`errno
    ensures ret == |out|
    ensures out == Take(NodeAt(fs, Seek(fs, n, ROOT, path).inode).bytes, max) || out == Take(data, max)
  {
    hide Seek, FsView, Sound, Drive.Valid, NameFits, Take, OverwriteIn, Landed;
    ghost var leaked: set<nat>, depth: map<nat, nat> :| Sound(cut.vol, leaked, depth);
    ghost var i := Seek(fs, n, ROOT, path).inode;
    OverwriteLands(fs, n, ROOT, path, data);
    LandedReads(OverwriteIn(fs, i, data), n, ROOT, path, data);
    var f := new FileSystem(cut, leaked, depth);
    ret, out := f.Read(path, max);
  }

  lemma LandedReads(fs: Fs, n: nat, cwd: nat, path: seq<byte>, bytes: seq<byte>)
    ensures Landed(fs, n, cwd, path, bytes) ==>
      Seek(fs, n, cwd, path).Present? && NodeAt(fs, Seek(fs, n, cwd, path).inode) == File(bytes)
  {}

  /** nvfs_append and then nvfs_read: the first max of the first 4096 bytes of old and new. */
  method AppendThenRead(f: FileSystem, path: seq<byte>, data: seq<byte>, max: nat, t0: u32, gotBuffer: bool)
    returns (done: int, ret: int, out: seq<byte>)
    requires f.Valid() && ZeroFree(path) && NameFits(path) && |data| <= MAX_BUFFER
    modifies f`leaked, f.drive
    ensures f.Valid()
    ensures done == 0 ==> old(f.Find(path)).Present? && NodeAt(old(FsView(f.drive.vol)), old(f.Find(path)).inode).File?
    ensures done == 0 ==>
      && ret == |out|
      && out == Take(Take(NodeAt(old(FsView(f.drive.vol)), old(f.Find(path)).inode).bytes + data, 4096), max)
  {
    hide Seek, FsView, Sound, Drive.Valid, NameFits, TrailShows, Take, Fits, Landed, OverwriteIn;
    ghost var fs, n, cwd := FsView(f.drive.vol), |f.drive.vol.inodes|, f.cwd;
    f.drive.Sizes();
    SoundRoot(f.drive.vol, f.leaked, f.depth);
    ghost var at := Seek(fs, n, cwd, path);
    if at.Present? && NodeAt(fs, at.inode).File? {
      OverwriteLands(fs, n, cwd, path, AppendedBytes(fs, at.inode, data));
    }
    done := f.Append(path, data, t0, gotBuffer);
    f.drive.Sizes();
    if at.Present? { LandedReads(FsView(f.drive.vol), n, cwd, path, AppendedBytes(fs, at.inode, data)); }
    ret, out := f.Read(path, max);
  }

  // ------------------------------------------------- paths there and back

  lemma {:induction false} JoinFits(fs: Fs, depth: map<nat, nat>, from: nat, ns: seq<Name>, i: nat)
    requires TreeOk(fs, depth) && Chain(fs, from, ns, i)
    ensures ZeroFree(Join(ns)) && |LastComponent(Join(ns))| <= MAX_NAME
    decreases |ns|
  {
    if ns != [] {
      var c: nat :| Names(fs, from, ns[0], c) && Chain(fs, c, ns[1..], i);
      EntryFacts(fs, depth, from, ns[0], c);
      if |ns| > 1 { JoinFits(fs, depth, c, ns[1..], i); }
      hide TreeOk, Names, Chain;
      JoinOne(ns);
    }
  }

  lemma {:induction false} JoinOne(ns: seq<Name>)
    requires ns != [] && GoodName(ns[0])
    requires |ns| > 1 ==> ZeroFree(Join(ns[1..])) && |LastComponent(Join(ns[1..]))| <= MAX_NAME
    ensures ZeroFree(Join(ns)) && |LastComponent(Join(ns))| <= MAX_NAME
  {
    if |ns| == 1 {
      NoSlash(ns[0]);
    } else {
      SlashAfter(ns[0], Join(ns[1..]));
    }
  }

  /** The rendered path is one that nvfs_chdir accepts. */
  lemma RenderFits(fs: Fs, depth: map<nat, nat>, i: nat)
    requires TreeOk(fs, depth) && i in fs && |Render(NamesTo(fs, depth, i))| <= PATH_MAX
    ensures ZeroFree(Render(NamesTo(fs, depth, i))) && NameFits(Render(NamesTo(fs, depth, i)))
  {
    hide TreeOk, NamesTo, Chain, Join, LastComponent;
    NamesToChain(fs, depth, i);
    JoinFits(fs, depth, ROOT, NamesTo(fs, depth, i), i);
    RenderedFits(NamesTo(fs, depth, i));
  }

  lemma RenderedFits(ns: seq<Name>)
    requires ZeroFree(Join(ns)) && |LastComponent(Join(ns))| <= MAX_NAME && |Render(ns)| <= PATH_MAX
    ensures ZeroFree(Render(ns)) && NameFits(Render(ns))
  {
    hide Join;
    var path := Render(ns);
    assert path[1..] == Join(ns);
    LastAfterSlash(path);
  }

  /** nvfs_path_string of a directory and then nvfs_chdir: the current directory is that directory. */
  method PathThenChdir(f: FileSystem, inum: u32, size: nat) returns (ret: int, out: nat)
    requires f.Valid() && f.mounted && inum in FsView(f.drive.vol) && FsView(f.drive.vol)[inum].Dir?
    requires TreeOk(FsView(f.drive.vol), f.depth) && inum in f.depth && f.depth[inum] <= 16
    requires |Render(NamesTo(FsView(f.drive.vol), f.depth, inum))| <= PATH_MAX
    requires |Render(NamesTo(FsView(f.drive.vol), f.depth, inum))| < size
    modifies f`cwd, f.drive`errno
    ensures f.Valid() && ret == 0 && out == inum && f.cwd == inum
  {
    hide FsView, Sound, Drive.Valid, NameFits, TreeOk, Render, NamesTo, Target;
    ghost var fs := FsView(f.drive.vol);
    ghost var path := Render(NamesTo(fs, f.depth, inum));
    RenderFits(fs, f.depth, inum);
    PathRoundTrip(fs, f.depth, |f.drive.vol.inodes|, f.cwd, inum, size);
    assert path[..|path|] == path;
    var done, buf := f.PathString(inum, size);
    NonEmptyPath(fs, f.depth, inum);
    ret, out := f.Chdir(buf);
  }

  lemma NonEmptyPath(fs: Fs, depth: map<nat, nat>, i: nat)
    requires TreeOk(fs, depth) && i in fs
    ensures |Render(NamesTo(fs, depth, i))| >= 1
  {
    hide TreeOk, NamesTo, Join;
  }

  // ------------------------------------------------- what a path finds

  /** Every operation that takes a path acts on the entry that its components lead to: present or
      absent in the directory before the last name, or nowhere. */
  lemma SeekLeads(fs: Fs, depth: map<nat, nat>, n: nat, cwd: nat, path: seq<byte>, comps: seq<seq<byte>>,
                  p: nat, m: Name, c: nat, e: int)
    requires Walkable(fs, depth, n, cwd) && Spells(path, comps)
    ensures Seek(fs, n, cwd, path) == Present(p, m, c) <==>
      m == Remaining(comps) != [] && Leads(fs, Start(cwd, path), Followed(comps), p) && Names(fs, p, Key(m), c)
    ensures Seek(fs, n, cwd, path) == Absent(p, m) <==>
      m == Remaining(comps) != [] && Leads(fs, Start(cwd, path), Followed(comps), p) && Unlisted(fs, p, Key(m))
    ensures Seek(fs, n, cwd, path) == Nowhere(e) <==>
      || Stops(fs, Start(cwd, path), Followed(comps), e)
      || (e == ERR_PATH && Remaining(comps) == []
          && exists q: nat :: Leads(fs, Start(cwd, path), Followed(comps), q))
  {
    hide Walkable, Leads, Stops, Followed, Remaining, Resolve, Start, Key, Seek, Names, Unlisted, Join;
    ResolveLeads(fs, depth, n, cwd, path, comps);
    SeekIs(fs, n, cwd, path);
    var r := Resolve(fs, n, cwd, path);
    forall q: nat ensures Leads(fs, Start(cwd, path), Followed(comps), q) <==> r == Resolved(q, Remaining(comps)) {}
    assert Stops(fs, Start(cwd, path), Followed(comps), e) <==> r == NoPath(e);
    if r.Resolved? {
      assert r.name == Remaining(comps) && Leads(fs, Start(cwd, path), Followed(comps), r.parent);
      NotBoth(fs, r.parent, Key(r.name));
    }
  }

  lemma SeekIs(fs: Fs, n: nat, cwd: nat, path: seq<byte>)
    ensures match Resolve(fs, n, cwd, path)
      case NoPath(e) => Seek(fs, n, cwd, path) == Nowhere(e)
      case Resolved(p, m) =>
        && (m == [] ==> Seek(fs, n, cwd, path) == Nowhere(ERR_PATH))
        && (m != [] && Unlisted(fs, p, Key(m)) ==> Seek(fs, n, cwd, path) == Absent(p, m))
        && (m != [] && !Unlisted(fs, p, Key(m)) ==>
              Seek(fs, n, cwd, path).Present? && Seek(fs, n, cwd, path).parent == p && Seek(fs, n, cwd, path).name == m)
        && forall c: nat :: m != [] && Names(fs, p, Key(m), c) ==> Seek(fs, n, cwd, path) == Present(p, m, c)
  {
    hide Resolve, Key;
    var r := Resolve(fs, n, cwd, path);
    if r.Resolved? { ListedOnce(fs, r.parent, Key(r.name)); }
  }

  lemma NotBoth(fs: Fs, p: nat, m: Name)
    ensures Unlisted(fs, p, m) <==> forall c: nat :: !Names(fs, p, m, c)
  {}

  lemma ListedOnce(fs: Fs, p: nat, m: Name)
    ensures Unlisted(fs, p, m) <==> !(p in fs && fs[p].Dir? && m in fs[p].entries)
    ensures forall c: nat :: Names(fs, p, m, c) <==>
      p in fs && fs[p].Dir? && m in fs[p].entries && c == fs[p].entries[m]
  {
    if p in fs && fs[p].Dir? && m in fs[p].entries { assert Names(fs, p, m, fs[p].entries[m]); }
  }

  // ------------------------------------------------- removing the current directory

  /** An absolute path does not depend on the current directory. */
  lemma SeekAbsolute(fs: Fs, n: nat, cwd: nat, other: nat, path: seq<byte>)
    requires path != [] && path[0] == SLASH
    ensures Seek(fs, n, cwd, path) == Seek(fs, n, other, path)
  {
    hide WalkPath;
  }

  /** A path to a directory is where nvfs_chdir goes. */
  lemma TargetPresent(fs: Fs, n: nat, cwd: nat, path: seq<byte>)
    requires path != [] && Seek(fs, n, cwd, path).Present? && DirNode(fs, Seek(fs, n, cwd, path).inode)
    ensures Target(fs, n, cwd, path) == At(Seek(fs, n, cwd, path).inode)
  {
    hide Resolve;
  }

  lemma MadeDirectory(fs: Fs, gs: Fs, n: nat, cwd: nat, path: seq<byte>)
    requires DirNode(fs, cwd) && DirNode(fs, ROOT) && ZeroFree(path) && NameFits(path) && path != []
    requires exists r: nat :: CreatedIn(fs, gs, Seek(fs, n, cwd, path), r, Dir(map[]))
    ensures Seek(gs, n, cwd, path).Present? && NodeAt(gs, Seek(gs, n, cwd, path).inode) == Dir(map[])
    ensures Target(gs, n, cwd, path) == At(Seek(gs, n, cwd, path).inode)
  {
    var r: nat :| CreatedIn(fs, gs, Seek(fs, n, cwd, path), r, Dir(map[]));
    SeekCreated(fs, gs, n, cwd, path, r, Dir(map[]));
    hide Seek, CreatedIn, Target, NameFits;
    TargetPresent(gs, n, cwd, path);
  }

  /** nvfs_mkdir, nvfs_chdir and nvfs_rmdir with one absolute path: all three succeed, the volume is
      sound, and the current directory is gone. */
  method RemoveCurrent(f: FileSystem, path: seq<byte>, t0: u32, t1: u32, t2: u32, junk: seq<Extent>)
    returns (made: int, moved: int, gone: int)
    requires f.Valid() && f.mounted && ZeroFree(path) && NameFits(path) && path != [] && path[0] == SLASH
    requires |junk| == MAX_EXTENTS && f.Find(path).Absent? && TableSuffices(f.drive.vol)
    requires f.Harmless(path, []) && Creatable(f.drive.vol, f.Find(path).parent, [])
    modifies f, f.drive
    ensures made == 0 && moved == 0 && gone == 0
    ensures f.drive.Valid() && Sound(f.drive.vol, f.leaked, f.depth) && !f.Valid() && f.cwd !in FsView(f.drive.vol)
  {
    hide Seek, FsView, Sound, Drive.Valid, Drive.Logged, NameFits, TrailCreates, CreatedIn, Creatable, KeepsTree, Acct,
      TableSuffices, Target, TrailStays, PrunedAt;
    ghost var fs, n, cwd := FsView(f.drive.vol), |f.drive.vol.inodes|, f.cwd;
    f.drive.Sizes();
    SoundRoot(f.drive.vol, f.leaked, f.depth);
    made := f.Mkdir(path, t0, t1, t2, junk);
    f.drive.Sizes();
    ghost var gs := FsView(f.drive.vol);
    MadeDirectory(fs, gs, n, cwd, path);
    var out;
    moved, out := f.Chdir(path);
    SeekAbsolute(gs, n, cwd, f.cwd, path);
    PresentLive(f.drive.vol, f.leaked, f.depth, f.cwd, path, f.Find(path));
    gone := f.Rmdir(path, t0);
    PrunedGone(gs, FsView(f.drive.vol), Seek(gs, n, f.cwd, path));
  }

  lemma PrunedGone(fs: Fs, gs: Fs, at: Place)
    requires PrunedAt(fs, gs, at) && at.inode != at.parent
    ensures at.inode !in gs
  {}
}
