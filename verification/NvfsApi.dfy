/** The public operations of kernel/drivers/nvfs.c on a mounted volume, each as an update of
    a tree of files and directories. */
module NvfsApi {
  import opened Bytes
  import opened NvfsFormat
  import opened NvfsVolume
  import opened NvfsDriver
  import opened NvfsContents
  import opened NvfsExtents
  import opened NvfsSlots
  import opened NvfsCommit
  import opened NvfsFiles
  import opened NvfsDirs
  import opened NvfsDirScan
  import opened NvfsDirAdd
  import opened NvfsCreate
  import opened NvfsSpace
  import opened NvfsTree
  import opened NvfsPaths
  import opened NvfsWalks
  import opened NvfsNamespace
  import opened NvfsUpdates

  // ------------------------------------------------- where a path leads

  /** A path leads to an entry, to a free name in a directory, or nowhere. */
  datatype Place = Nowhere(error: int) | Absent(parent: nat, name: Name) | Present(parent: nat, name: Name, inode: nat)

  function Seek(fs: Fs, n: nat, cwd: nat, path: seq<byte>): Place {
    match Resolve(fs, n, cwd, path)
    case NoPath(e) => Nowhere(e)
    case Resolved(p, name) =>
      if name == [] then Nowhere(ERR_PATH)
      else if p in fs && fs[p].Dir? && Key(name) in fs[p].entries then Present(p, name, fs[p].entries[Key(name)])
      else Absent(p, name)
  }

  /** The component behind the last slash fits the 28-byte name buffer of the callers of resolve_path. */
  predicate NameFits(path: seq<byte>) {
    |LastComponent(Cut(path))| <= MAX_NAME
  }

  function LastComponent(s: seq<byte>): seq<byte>
    decreases |s|
  {
    if FirstSlash(s) == |s| then s else LastComponent(s[FirstSlash(s) + 1..])
  }

  lemma {:induction false} UpperFacts(s: seq<byte>)
    ensures Upper(Upper(s)) == Upper(s)
    ensures SLASH !in s ==> SLASH !in Upper(s)
    ensures s != [DOT] ==> Upper(s) != [DOT]
    ensures s != [DOT, DOT] ==> Upper(s) != [DOT, DOT]
  {
    hide Upper;
    assert forall k :: 0 <= k < |s| ==> Upper(Upper(s))[k] == Upper(s)[k];
    assert forall k :: 0 <= k < |s| && Upper(s)[k] == DOT ==> s[k] == DOT;
    assert forall k :: 0 <= k < |s| && Upper(s)[k] == SLASH ==> s[k] == SLASH;
  }

  lemma {:induction false} WalkEnds(fs: Fs, n: nat, cur: nat, s: seq<byte>)
    requires DirNode(fs, cur) && ZeroFree(s) && |LastComponent(s)| <= MAX_NAME
    ensures match WalkPath(fs, n, cur, s)
      case NoPath(_) => true
      case Resolved(p, name) => DirNode(fs, p) && (name != [] ==> GoodName(name))
    decreases |s|
  {
    hide Step, Final, GoodName, FirstSlash;
    var k := FirstSlash(s);
    if k == |s| {
      FinalEnds(fs, n, cur, s);
    } else {
      StepEnds(fs, n, cur, s[..k]);
      match Step(fs, n, cur, s[..k])
      case Lost(_) =>
      case At(c) => WalkEnds(fs, n, c, s[k + 1..]);
    }
  }

  lemma StepEnds(fs: Fs, n: nat, cur: nat, comp: seq<byte>)
    requires DirNode(fs, cur)
    ensures Step(fs, n, cur, comp).At? ==> DirNode(fs, Step(fs, n, cur, comp).inode)
  {}

  lemma FinalEnds(fs: Fs, n: nat, cur: nat, s: seq<byte>)
    requires DirNode(fs, cur) && ZeroFree(s) && |s| <= MAX_NAME && FirstSlash(s) == |s|
    ensures match Final(fs, n, cur, s)
      case NoPath(_) => true
      case Resolved(p, name) => DirNode(fs, p) && (name != [] ==> GoodName(name))
  {
    assert s[..|s|] == s;
    if s != [] && s != [DOT] && s != [DOT, DOT] { UpperGood(s); }
    hide Upper, GoodName, FirstSlash;
  }

  lemma UpperGood(s: seq<byte>)
    requires ZeroFree(s) && 0 < |s| <= MAX_NAME && SLASH !in s && s != [DOT] && s != [DOT, DOT]
    ensures GoodName(Upper(s))
  {
    UpperFacts(s);
    UpperZeroFree(s);
    hide Upper;
  }

  /** resolve_path ends in a directory, with a name that may be created there. */
  lemma ResolveEnds(fs: Fs, n: nat, cwd: nat, path: seq<byte>)
    requires DirNode(fs, cwd) && DirNode(fs, ROOT) && ZeroFree(path) && NameFits(path)
    ensures match Resolve(fs, n, cwd, path)
      case NoPath(_) => true
      case Resolved(p, name) => DirNode(fs, p) && (name != [] ==> GoodName(name))
  {
    hide WalkPath, GoodName, FirstSlash;
    var p := Cut(path);
    if p != [] {
      if p[0] == SLASH {
        LastAfterSlash(p);
        WalkEnds(fs, n, ROOT, p[1..]);
      } else {
        WalkEnds(fs, n, cwd, p);
      }
    }
  }

  lemma LastAfterSlash(p: seq<byte>)
    requires p != [] && p[0] == SLASH
    ensures LastComponent(p) == LastComponent(p[1..])
  {
    assert FirstSlash(p) == 0;
  }

  class FileSystem {
    const drive: Drive
    var cwd: nat
    var mounted: bool
    ghost var leaked: set<nat>
    ghost var depth: map<nat, nat>

    /** The state nvfs_mount leaves on a volume whose layout it accepts. */
    constructor (drive: Drive, ghost leaked: set<nat>, ghost depth: map<nat, nat>)
      requires drive.Valid() && Sound(drive.vol, leaked, depth)
      ensures Valid() && mounted && cwd == ROOT
      ensures this.drive == drive && this.leaked == leaked && this.depth == depth
    {
      hide Sound, FsView, Drive.Valid;
      SoundRoot(drive.vol, leaked, depth);
      this.drive, this.leaked, this.depth := drive, leaked, depth;
      cwd, mounted := ROOT, true;
    }

    /** Block ownership, well-formed objects, a tree of names and a current directory in it. */
    ghost predicate Valid()
      reads this, drive
    {
      && drive.Valid() && Sound(drive.vol, leaked, depth)
      && cwd in FsView(drive.vol) && FsView(drive.vol)[cwd].Dir?
    }

    ghost function Find(path: seq<byte>): Place
      reads this, drive
    {
      Seek(FsView(drive.vol), |drive.vol.inodes|, cwd, path)
    }

    /** resolve_path, the check for an empty name, and dir_find. */
    method Lookup(path: seq<byte>) returns (ok: bool, parent: nat, name: Name, inum: int)
      requires Valid() && ZeroFree(path) && NameFits(path)
      modifies drive`errno
      ensures Valid()
      ensures !ok ==> Find(path) == Nowhere(drive.errno)
      ensures ok ==> DirNode(FsView(drive.vol), parent) && GoodName(name)
      ensures ok && inum < 0 ==> Find(path) == Absent(parent, name) && drive.errno == ERR_NOT_FOUND
      ensures ok && inum >= 0 ==> Find(path) == Present(parent, name, inum) && inum < |drive.vol.inodes|
    {
      hide Drive.Valid, Sound, FsView, Resolve, NameFits, GoodName, Table, Entries, TableOk, Acct, AllOk, TreeOk,
        Objects;
      ghost var v := drive.vol;
      inum := -1;
      SoundRoot(v, leaked, depth);
      ResolveEnds(FsView(v), |v.inodes|, cwd, path);
      ok, parent, name := ResolvePath(drive, cwd, path, leaked, depth);
      if !ok { return; }
      if name == [] { drive.errno := ERR_PATH; return false, parent, name, -1; }
      SoundParts(v, leaked, depth, parent);
      GoodZeroFree(name);
      inum := DirFind(drive, parent, name, leaked);
      if inum >= 0 { ChildInRange(v, leaked, depth, parent, Key(name)); }
    }

    /** nvfs_read returns the first max bytes of the file. */
    method Read(path: seq<byte>, max: nat) returns (ret: int, out: seq<byte>)
      requires Valid() && ZeroFree(path) && NameFits(path)
      modifies drive`errno
      ensures Valid()
      ensures ret >= 0 <==> mounted && Find(path).Present? && NodeAt(FsView(drive.vol), Find(path).inode).File?
      ensures ret >= 0 ==> out == Take(NodeAt(FsView(drive.vol), Find(path).inode).bytes, max) && ret == |out|
      ensures ret < 0 && mounted && Find(path).Nowhere? ==> drive.errno == Find(path).error
      ensures ret < 0 && mounted && Find(path).Absent? ==> drive.errno == ERR_NOT_FOUND
      ensures ret < 0 && mounted && Find(path).Present? ==> drive.errno == ERR_NOT_FILE
      ensures ret < 0 ==> ret == -1 && (!mounted ==> drive.errno == ERR_NO_MOUNT)
    {
      hide Drive.Valid, Sound, FsView, Seek, NameFits, GoodName, Acct, AllOk, TreeOk, Objects, ObjOf, FileBytes, RefsOf;
      out := [];
      if !mounted { drive.errno := ERR_NO_MOUNT; return -1, []; }
      ghost var v := drive.vol;
      var ok, parent, name, inum := Lookup(path);
      if !ok || inum < 0 { return -1, []; }
      PresentLive(v, leaked, depth, cwd, path, Present(parent, name, inum));
      var got, n := drive.InodeRead(inum);
      if !got { return -1, []; }
      Linked(v, inum);
      NodeKinds(ObjOf(v, n));
      ObjFields(v, n);
      if n.kind != TYPE_FILE { drive.errno := ERR_NOT_FILE; return -1, []; }
      SoundParts(v, leaked, depth, inum);
      OwnedInRange(v, leaked, inum);
      CountClamped(drive, inum);
      var read;
      read, out := ExtentRead(drive, n, max);
      if !read { return -1, []; }
      ret := |out|;
    }

    /** nvfs_write onto an existing object: new blocks, then the inode, then the old blocks go.  The
        tree survives exactly if the object is no directory or the data lists the same inodes. */
    method Replace(inum: nat, data: seq<byte>, t0: u32) returns (ok: bool)
      requires Valid() && |data| <= MAX_BUFFER && inum in FsView(drive.vol)
      modifies this`leaked, drive
      ensures old(drive.Logged()) ==> drive.Logged()
      ensures drive.Valid() && Acct(drive.vol, leaked) && old(drive.trail) <= drive.trail
      ensures ok <==> data == [] || Fits(old(drive.vol), SectorsFor(|data|))
      ensures !ok ==>
        FsView(drive.vol) == old(FsView(drive.vol)) && leaked == old(leaked) && drive.errno == ERR_NO_SPACE
      ensures ok ==> FsView(drive.vol) == OverwriteIn(old(FsView(drive.vol)), inum, data)
      ensures ok ==> leaked == old(leaked) + StrandedAt(old(drive.vol), inum)
      ensures Valid() <==> !ok || KeepsTree(old(FsView(drive.vol)), inum, data)
      ensures Plain(old(drive.vol)) ==> Plain(drive.vol)
      ensures TrailShows(drive.trail, |old(drive.trail)|, old(FsView(drive.vol)),
                         OverwriteIn(old(FsView(drive.vol)), inum, data))
      ensures KeepsTree(old(FsView(drive.vol)), inum, data) ==> TrailMounts(drive.trail, |old(drive.trail)|)
    {
      hide Plain, Drive.Valid, Drive.Logged, Sound, FsView, Acct, Objects, Holding, TrailEitherOr, TrailShows,
        TrailMounts, Fits, SectorsFor, OverwriteIn, KeepsTree;
      ghost var v, fs := drive.vol, FsView(drive.vol);
      SoundParts(v, leaked, depth, inum);
      ok := Overwrite(drive, inum, data, t0, leaked);
      OverwriteShows(v, leaked, depth, inum, data, drive.trail, |old(drive.trail)|);
      if !ok { SoundSame(v, leaked, drive.vol, leaked, depth); return; }
      SoundOverwrite(v, leaked, drive.vol, leaked + Stranded(v.inodes[inum]), depth, inum, data);
      leaked := leaked + Stranded(v.inodes[inum]);
      OverwriteKeepsDir(fs, inum, data, cwd);
    }

    /** A new object under a name in a directory, as nvfs_write and nvfs_mkdir make it.  The tree
        survives exactly if the directory can list one more entry. */
    method MakeEntry(parent: nat, name: Name, kind: byte, data: seq<byte>, t0: u32, t1: u32, t2: u32, junk: seq<Extent>)
      returns (ok: bool)
      requires Valid() && |data| <= MAX_BUFFER && |junk| == MAX_EXTENTS && Creates(kind, data)
      requires DirNode(FsView(drive.vol), parent) && GoodName(name)
      requires TableSuffices(drive.vol) && parent < |drive.vol.inodes|
      modifies this`leaked, this`depth, drive
      ensures old(drive.Logged()) ==> drive.Logged()
      ensures drive.Valid() && Acct(drive.vol, leaked) && old(drive.trail) <= drive.trail
      ensures ok <==> name !in old(FsView(drive.vol))[parent].entries && Creatable(old(drive.vol), parent, data)
      ensures Valid() <==> !ok || Roomy(old(drive.vol), parent)
      ensures !ok ==>
        && FsView(drive.vol) == old(FsView(drive.vol))
        && TrailStays(drive.trail, |old(drive.trail)|, old(FsView(drive.vol)))
      ensures !ok ==> (TrailConsistent(drive.trail, |old(drive.trail)|) <==> !StoredFirst(old(drive.vol), data))
      ensures !ok && HasFreeInode(old(drive.vol)) && (data == [] || StoredFirst(old(drive.vol), data)) ==>
        (drive.errno == ERR_EXISTS <==> name in old(FsView(drive.vol))[parent].entries)
      ensures !ok ==> drive.errno == CreateError(drive.geo, old(drive.vol), parent, name, data)
      ensures !ok || Roomy(old(drive.vol), parent) ==> leaked == old(leaked)
      ensures ok && Roomy(old(drive.vol), parent) ==>
        exists r: nat :: r !in old(FsView(drive.vol))
                      && FsView(drive.vol) == Grafted(old(FsView(drive.vol)), parent, name, r, Leaf(kind, data))
                      && TrailCreates(drive.trail, |old(drive.trail)|, r, old(FsView(drive.vol)), FsView(drive.vol))
      ensures ok && !Roomy(old(drive.vol), parent) ==>
        exists r: nat :: r !in old(FsView(drive.vol))
                      && FsView(drive.vol) == old(FsView(drive.vol))[r := Leaf(kind, data)]
      ensures ok && !Roomy(old(drive.vol), parent) ==> exists b: nat :: leaked == old(leaked) + {b}
      ensures Plain(old(drive.vol)) ==> Plain(drive.vol)
    {
      hide Plain, Drive.Valid, Drive.Logged, Sound, FsView, GoodName, Acct, AllOk, TreeOk, Objects, TableSuffices,
        Roomy, Table, TableOk, Entries, Holding, DirHolds, TrailGrafts, TrailCreates, Grafted, Creatable, Leaf,
        TrailRest, TrailConsistent, StoredFirst, TrailStays, HasFreeInode, NodeOf, ObjOk;
      ghost var v, fs := drive.vol, FsView(drive.vol);
      SoundParts(v, leaked, depth, parent);
      GoodZeroFree(name);
      LeafOf(kind, data);
      var r; ghost var after, lost;
      r, after, lost := Create(drive, parent, name, kind, data, t0, t1, t2, junk, leaked);
      assert leaked + {} == leaked;
      if r < 0 {
        SoundSame(v, leaked, drive.vol, leaked, depth);
        FailShows(v, drive.trail, |old(drive.trail)|);
        return false;
      }
      ok := true;
      if Roomy(v, parent) {
        SoundGraft(v, leaked, drive.vol, depth, parent, name, r, Holding(kind, data), after);
        depth := depth[r as nat := depth[parent] + 1];
        CreateShows(v, drive.trail, |old(drive.trail)|, parent, name, r, after, Leaf(kind, data));
        GraftKeepsDir(fs, parent, name, r, Leaf(kind, data), cwd);
      } else {
        SoundOrphan(v, leaked, drive.vol, depth, parent, r, Holding(kind, data), after);
        leaked := leaked + lost;
        OneLost(lost);
      }
    }

    /** An existing file is to be overwritten, or a file created where it can be listed. */
    ghost predicate Harmless(path: seq<byte>, data: seq<byte>)
      reads this, drive
    {
      match Find(path)
      case Nowhere(_) => true
      case Absent(parent, _) => parent < |drive.vol.inodes| && Roomy(drive.vol, parent)
      case Present(_, _, inode) => KeepsTree(FsView(drive.vol), inode, data)
    }

    /** nvfs_write: an existing file holds exactly the data afterwards, a missing one is created
        with it, and nothing else changes.  Every sector write of an overwrite leaves a consistent
        volume that shows the old or the new tree.  A creation that succeeds leaves consistent
        volumes that show it apart from the new node; so does one that fails, unless its data was
        stored before its entry was refused.  The invariants survive exactly if the target is no
        directory with other entries, and the directory can list a new file. */
    method Write(path: seq<byte>, data: seq<byte>, t0: u32, t1: u32, t2: u32, junk: seq<Extent>) returns (ret: int)
      requires Valid() && ZeroFree(path) && NameFits(path) && |data| <= MAX_BUFFER && |junk| == MAX_EXTENTS
      requires Find(path).Absent? ==> TableSuffices(drive.vol)
      modifies this`leaked, this`depth, drive
      ensures old(drive.Logged()) ==> drive.Logged()
      ensures drive.Valid() && Acct(drive.vol, leaked) && old(drive.trail) <= drive.trail && ret in {0, -1}
      ensures Valid() <==> ret == -1 || old(Harmless(path, data))
      ensures ret == -1 ==> FsView(drive.vol) == old(FsView(drive.vol)) && leaked == old(leaked)
      ensures Plain(old(drive.vol)) ==> Plain(drive.vol)
      ensures ret == 0 ==> mounted && !old(Find(path)).Nowhere?
      ensures ret == 0 && old(Find(path)).Present? ==>
        FsView(drive.vol) == OverwriteIn(old(FsView(drive.vol)), old(Find(path)).inode, data)
      ensures ret == 0 && old(Find(path)).Present? ==>
        leaked == old(leaked) + StrandedAt(old(drive.vol), old(Find(path)).inode)
      ensures old(Find(path)).Present? ==>
        (ret == 0 <==> mounted && (data == [] || Fits(old(drive.vol), SectorsFor(|data|))))
      ensures old(Find(path)).Present? ==>
        TrailShows(drive.trail, |old(drive.trail)|, old(FsView(drive.vol)),
                   OverwriteIn(old(FsView(drive.vol)), old(Find(path)).inode, data))
      ensures old(Find(path)).Present? && old(Harmless(path, data)) ==> TrailMounts(drive.trail, |old(drive.trail)|)
      ensures old(Find(path)).Absent? ==>
        (ret == 0 <==> mounted && Creatable(old(drive.vol), old(Find(path)).parent, data))
      ensures ret == 0 && old(Find(path)).Absent? && old(Harmless(path, data)) ==> leaked == old(leaked)
      ensures ret == 0 && old(Find(path)).Absent? && old(Harmless(path, data)) ==>
        exists r: nat :: CreatedIn(old(FsView(drive.vol)), FsView(drive.vol), old(Find(path)), r, File(data))
                      && TrailCreates(drive.trail, |old(drive.trail)|, r, old(FsView(drive.vol)), FsView(drive.vol))
      ensures ret == 0 && old(Find(path)).Absent? && !old(Harmless(path, data)) ==>
        Orphaned(old(FsView(drive.vol)), FsView(drive.vol), File(data)) && exists b: nat :: leaked == old(leaked) + {b}
      ensures ret == -1 && old(Find(path)).Absent? ==>
        TrailStays(drive.trail, |old(drive.trail)|, old(FsView(drive.vol)))
      ensures ret == -1 && old(Find(path)).Absent? ==>
        (TrailConsistent(drive.trail, |old(drive.trail)|) <==> !(mounted && StoredFirst(old(drive.vol), data)))
      ensures ret == -1 && !mounted ==> drive.errno == ERR_NO_MOUNT
      ensures ret == -1 && mounted && old(Find(path)).Nowhere? ==> drive.errno == old(Find(path)).error
      ensures ret == -1 && mounted && old(Find(path)).Present? ==> drive.errno == ERR_NO_SPACE
      ensures ret == -1 && mounted && old(Find(path)).Absent? ==>
        drive.errno == CreateError(drive.geo, old(drive.vol), old(Find(path)).parent, old(Find(path)).name, data)
    {
      hide Plain, Drive.Valid, Drive.Logged, Sound, FsView, Seek, NameFits, GoodName, Acct, AllOk, TreeOk, Objects,
        TableSuffices, Roomy, Table, TableOk, Entries, TrailShows, TrailMounts, TrailCreates, TrailStays,
        TrailConsistent, Grafted, Fits, SectorsFor, Creatable, KeepsTree, StoredFirst;
      ghost var v, fs, at := drive.vol, FsView(drive.vol), Find(path);
      ret := -1;
      SoundParts(v, leaked, depth, cwd);
      NothingShown(drive.trail, fs, OverwriteIn(fs, if at.Present? then at.inode else 0, data));
      NothingStays(drive.trail, fs);
      if !mounted { drive.errno := ERR_NO_MOUNT; return; }
      var ok, parent, name, inum := Lookup(path);
      if !ok { return; }
      if inum >= 0 {
        PresentLive(v, leaked, depth, cwd, path, at);
        ok := Replace(inum, data, t0);
        return if ok then 0 else -1;
      }
      GoodZeroFree(name);
      SeekEntries(fs, |v.inodes|, cwd, path);
      SoundParts(v, leaked, depth, parent);
      ok := MakeEntry(parent, name, TYPE_FILE, data, t0, t1, t2, junk);
      if ok && Roomy(v, parent) {
        ghost var r: nat :| r !in fs && FsView(drive.vol) == Grafted(fs, parent, name, r, File(data))
                         && TrailCreates(drive.trail, |old(drive.trail)|, r, fs, FsView(drive.vol));
        assert CreatedIn(fs, FsView(drive.vol), at, r, File(data));
      }
      return if ok then 0 else -1;
    }

    /** nvfs_append: the file holds the first 4096 bytes of its contents followed by the data. */
    method Append(path: seq<byte>, data: seq<byte>, t0: u32, gotBuffer: bool) returns (ret: int)
      requires Valid() && ZeroFree(path) && NameFits(path) && |data| <= MAX_BUFFER
      modifies this`leaked, drive
      ensures old(drive.Logged()) ==> drive.Logged()
      ensures Valid() && old(drive.trail) <= drive.trail && ret in {0, -1}
      ensures ret == -1 ==> FsView(drive.vol) == old(FsView(drive.vol)) && leaked == old(leaked)
      ensures Plain(old(drive.vol)) ==> Plain(drive.vol) && leaked == old(leaked)
      ensures ret == 0 ==> mounted && gotBuffer && old(Find(path)).Present?
      ensures old(Find(path)).Present? ==>
        (ret == 0 <==> mounted && gotBuffer
                       && Appendable(old(drive.vol), old(FsView(drive.vol)), old(Find(path)).inode, data))
      ensures ret == 0 ==> FsView(drive.vol) == AppendIn(old(FsView(drive.vol)), old(Find(path)).inode, data)
      ensures ret == 0 ==> leaked == old(leaked) + StrandedAt(old(drive.vol), old(Find(path)).inode)
      ensures old(Find(path)).Present? ==>
        TrailShows(drive.trail, |old(drive.trail)|, old(FsView(drive.vol)),
                   AppendIn(old(FsView(drive.vol)), old(Find(path)).inode, data))
      ensures TrailMounts(drive.trail, |old(drive.trail)|)
      ensures ret == -1 && !mounted ==> drive.errno == ERR_NO_MOUNT
      ensures ret == -1 && mounted && old(Find(path)).Nowhere? ==> drive.errno == old(Find(path)).error
      ensures ret == -1 && mounted && old(Find(path)).Absent? ==> drive.errno == ERR_NOT_FOUND
      ensures ret == -1 && mounted && old(Find(path)).Present? ==>
        drive.errno == (if !NodeAt(old(FsView(drive.vol)), old(Find(path)).inode).File? then ERR_NOT_FILE
                        else if !gotBuffer then ERR_IO else ERR_NO_SPACE)
    {
      hide Plain, Drive.Valid, Drive.Logged, Sound, FsView, Seek, NameFits, GoodName, Acct, AllOk, TreeOk, Objects,
        ObjOf, Appended, TrailEitherOr, TrailShows, TrailMounts, FileBytes, Take, Fits, SectorsFor, KeepsTree,
        OverwriteIn;
      ghost var v, fs, at := drive.vol, FsView(drive.vol), Find(path);
      ret := -1;
      NothingShown(drive.trail, fs, AppendIn(fs, if at.Present? then at.inode else 0, data));
      if !mounted { drive.errno := ERR_NO_MOUNT; return; }
      var ok, parent, name, inum := Lookup(path);
      if !ok || inum < 0 { return; }
      PresentLive(v, leaked, depth, cwd, path, at);
      var got, n := drive.InodeRead(inum);
      if !got { return; }
      KindOf(v, inum);
      if n.kind != TYPE_FILE { drive.errno := ERR_NOT_FILE; return; }
      AppendFacts(v, leaked, depth, inum, data);
      PlainStrands(v, leaked, inum);
      FileKeeps(fs, inum, AppendedBytes(fs, inum, data), cwd);
      ok := AppendTo(drive, inum, data, t0, gotBuffer, leaked);
      OverwriteShows(v, leaked, depth, inum, AppendedBytes(fs, inum, data), drive.trail, |old(drive.trail)|);
      if !ok { SoundSame(v, leaked, drive.vol, leaked, depth); return; }
      SoundOverwrite(v, leaked, drive.vol, leaked + Stranded(v.inodes[inum]), depth, inum,
                     AppendedBytes(fs, inum, data));
      leaked := leaked + Stranded(v.inodes[inum]);
      return 0;
    }

    /** nvfs_delete: the file and its entry are gone, everything else stays. */
    method Delete(path: seq<byte>, t0: u32) returns (ret: int)
      requires Valid() && ZeroFree(path) && NameFits(path)
      modifies this`depth, drive
      ensures old(drive.Logged()) ==> drive.Logged()
      ensures Valid() && ret in {0, -1}
      ensures ret == 0 <==>
        mounted && old(Find(path)).Present? && NodeAt(old(FsView(drive.vol)), old(Find(path)).inode).File?
      ensures Plain(old(drive.vol)) ==> Plain(drive.vol)
      ensures ret == -1 ==> FsView(drive.vol) == old(FsView(drive.vol))
      ensures ret == 0 ==> PrunedAt(old(FsView(drive.vol)), FsView(drive.vol), old(Find(path)))
      ensures ret == -1 && !mounted ==> drive.errno == ERR_NO_MOUNT
      ensures ret == -1 && mounted && old(Find(path)).Nowhere? ==> drive.errno == old(Find(path)).error
      ensures ret == -1 && mounted && old(Find(path)).Absent? ==> drive.errno == ERR_NOT_FOUND
      ensures ret == -1 && mounted && old(Find(path)).Present? ==> drive.errno == ERR_NOT_FILE
    {
      hide Plain, Drive.Valid, Drive.Logged, Sound, FsView, Seek, NameFits, GoodName, Acct, AllOk, TreeOk, Objects,
        ObjOf, PrunedAt;
      ghost var v, fs, at := drive.vol, FsView(drive.vol), Find(path);
      ret := -1;
      if !mounted { drive.errno := ERR_NO_MOUNT; return; }
      var ok, parent, name, inum := Lookup(path);
      if !ok || inum < 0 { return; }
      PresentLive(v, leaked, depth, cwd, path, at);
      KindOf(v, inum);
      var got, n := drive.InodeRead(inum);
      if !got { return; }
      if n.kind != TYPE_FILE { drive.errno := ERR_NOT_FILE; return; }
      GoodZeroFree(name);
      ok := RemoveObject(drive, parent, name, inum, t0, leaked, depth);
      RemovedAt(fs, FsView(drive.vol), at);
      depth := depth - {inum as nat};
      PruneKeepsDir(fs, parent, Key(name), inum, cwd);
      return 0;
    }

    /** nvfs_mkdir: a new empty directory under the name, unless the name is taken.  The inode is
        allocated before the name is looked up.  The invariants survive exactly if the parent can
        list one more entry. */
    method Mkdir(path: seq<byte>, t0: u32, t1: u32, t2: u32, junk: seq<Extent>) returns (ret: int)
      requires Valid() && ZeroFree(path) && NameFits(path) && |junk| == MAX_EXTENTS
      requires !Find(path).Nowhere? ==> TableSuffices(drive.vol)
      modifies this`leaked, this`depth, drive
      ensures old(drive.Logged()) ==> drive.Logged()
      ensures drive.Valid() && Acct(drive.vol, leaked) && old(drive.trail) <= drive.trail && ret in {0, -1}
      ensures Valid() <==> ret == -1 || old(Harmless(path, []))
      ensures Plain(old(drive.vol)) ==> Plain(drive.vol)
      ensures ret == -1 ==> FsView(drive.vol) == old(FsView(drive.vol)) && leaked == old(leaked)
      ensures ret == 0 <==> mounted && old(Find(path)).Absent? && Creatable(old(drive.vol), old(Find(path)).parent, [])
      ensures ret == 0 && old(Harmless(path, [])) ==> leaked == old(leaked)
      ensures ret == 0 && old(Harmless(path, [])) ==>
        exists r: nat :: CreatedIn(old(FsView(drive.vol)), FsView(drive.vol), old(Find(path)), r, Dir(map[]))
                      && TrailCreates(drive.trail, |old(drive.trail)|, r, old(FsView(drive.vol)), FsView(drive.vol))
      ensures ret == 0 && !old(Harmless(path, [])) ==>
        Orphaned(old(FsView(drive.vol)), FsView(drive.vol), Dir(map[])) && exists b: nat :: leaked == old(leaked) + {b}
      ensures ret == -1 ==> TrailStays(drive.trail, |old(drive.trail)|, old(FsView(drive.vol)))
      ensures ret == -1 ==> TrailConsistent(drive.trail, |old(drive.trail)|)
      ensures ret == -1 && mounted && HasFreeInode(old(drive.vol)) && !old(Find(path)).Nowhere? ==>
        (drive.errno == ERR_EXISTS <==> old(Find(path)).Present?)
      ensures ret == -1 && !mounted ==> drive.errno == ERR_NO_MOUNT
      ensures ret == -1 && mounted && old(Find(path)).Nowhere? ==> drive.errno == old(Find(path)).error
      ensures ret == -1 && mounted && !old(Find(path)).Nowhere? ==>
        drive.errno == CreateError(drive.geo, old(drive.vol), old(Find(path)).parent, old(Find(path)).name, [])
    {
      hide Plain, Drive.Valid, Drive.Logged, Sound, FsView, Seek, NameFits, GoodName, Acct, AllOk, TreeOk, Objects,
        TableSuffices, Roomy, Table, TableOk, Entries, TrailCreates, TrailStays, TrailConsistent, Grafted, Creatable,
        KeepsTree, HasFreeInode;
      ghost var v, fs, at := drive.vol, FsView(drive.vol), Find(path);
      ret := -1;
      SoundParts(v, leaked, depth, cwd);
      NothingStays(drive.trail, fs);
      if !mounted { drive.errno := ERR_NO_MOUNT; return; }
      var ok, parent, name, inum := Lookup(path);
      if !ok { return; }
      GoodZeroFree(name);
      SeekEntries(fs, |v.inodes|, cwd, path);
      SoundParts(v, leaked, depth, parent);
      ok := MakeEntry(parent, name, TYPE_DIR, [], t0, t1, t2, junk);
      if ok && Roomy(v, parent) {
        ghost var r: nat :| r !in fs && FsView(drive.vol) == Grafted(fs, parent, name, r, Dir(map[]))
                         && TrailCreates(drive.trail, |old(drive.trail)|, r, fs, FsView(drive.vol));
        assert CreatedIn(fs, FsView(drive.vol), at, r, Dir(map[]));
      }
      return if ok then 0 else -1;
    }

    /** nvfs_rmdir: an empty directory and its entry are gone.  The current directory stays one
        exactly when it was not the directory removed. */
    method Rmdir(path: seq<byte>, t0: u32) returns (ret: int)
      requires Valid() && ZeroFree(path) && NameFits(path)
      modifies this`depth, drive
      ensures old(drive.Logged()) ==> drive.Logged()
      ensures drive.Valid() && Sound(drive.vol, leaked, depth) && ret in {0, -1}
      ensures ret == 0 <==>
        mounted && old(Find(path)).Present? && NodeAt(old(FsView(drive.vol)), old(Find(path)).inode) == Dir(map[])
      ensures Plain(old(drive.vol)) ==> Plain(drive.vol)
      ensures ret == -1 ==> FsView(drive.vol) == old(FsView(drive.vol))
      ensures ret == 0 ==> PrunedAt(old(FsView(drive.vol)), FsView(drive.vol), old(Find(path)))
      ensures Valid() <==> ret == -1 || old(Find(path)).inode != cwd
      ensures ret == -1 && !mounted ==> drive.errno == ERR_NO_MOUNT
      ensures ret == -1 && mounted && old(Find(path)).Nowhere? ==> drive.errno == old(Find(path)).error
      ensures ret == -1 && mounted && old(Find(path)).Absent? ==> drive.errno == ERR_NOT_FOUND
      ensures ret == -1 && mounted && old(Find(path)).Present? ==>
        drive.errno == if NodeAt(old(FsView(drive.vol)), old(Find(path)).inode).Dir? then ERR_DIR_BUSY else ERR_NOT_DIR
    {
      hide Plain, Drive.Valid, Drive.Logged, Sound, FsView, Seek, NameFits, GoodName, Acct, AllOk, TreeOk, Objects,
        ObjOf, PrunedAt, Table, Entries;
      ghost var v, fs, at := drive.vol, FsView(drive.vol), Find(path);
      ret := -1;
      if !mounted { drive.errno := ERR_NO_MOUNT; return; }
      var ok, parent, name, inum := Lookup(path);
      if !ok || inum < 0 { return; }
      PresentLive(v, leaked, depth, cwd, path, at);
      KindOf(v, inum);
      var got, n := drive.InodeRead(inum);
      if !got { return; }
      if n.kind != TYPE_DIR { drive.errno := ERR_NOT_DIR; return; }
      SoundParts(v, leaked, depth, inum);
      var empty := DirEmpty(drive, inum, leaked);
      if !empty { drive.errno := ERR_DIR_BUSY; return; }
      GoodZeroFree(name);
      ok := RemoveObject(drive, parent, name, inum, t0, leaked, depth);
      RemovedAt(fs, FsView(drive.vol), at);
      depth := depth - {inum as nat};
      PruneKeepsDir(fs, parent, Key(name), inum, cwd);
      return 0;
    }

    /** nvfs_chdir: the current directory becomes the directory the path leads to. */
    method Chdir(path: seq<byte>) returns (ret: int, out: nat)
      requires Valid() && ZeroFree(path) && NameFits(path)
      modifies this`cwd, drive`errno
      ensures Valid()
      ensures ret == 0 <==> mounted && Target(FsView(drive.vol), |drive.vol.inodes|, old(cwd), path).At?
      ensures ret == 0 ==> Target(FsView(drive.vol), |drive.vol.inodes|, old(cwd), path) == At(cwd) && out == cwd
      ensures ret != 0 ==> ret == -1 && cwd == old(cwd) && (!mounted ==> drive.errno == ERR_NO_MOUNT)
      ensures ret != 0 && mounted ==> Target(FsView(drive.vol), |drive.vol.inodes|, old(cwd), path) == Lost(drive.errno)
      ensures ret == 0 && path == [] ==> cwd == ROOT
      ensures ret == 0 && path != [] ==> forall comps :: Spells(path, comps) ==>
        Leads(FsView(drive.vol), Start(old(cwd), path), comps, cwd)
      ensures ret != 0 && mounted ==> forall comps :: Spells(path, comps) ==>
        Stops(FsView(drive.vol), Start(old(cwd), path), comps, drive.errno)
    {
      hide Drive.Valid, Sound, FsView, NameFits, GoodName, Acct, AllOk, TreeOk, Objects, ObjOf, Resolve, Table,
        TableOk, Entries, Spells, Leads, Stops;
      ghost var v, fs := drive.vol, FsView(drive.vol);
      out := cwd;
      if !mounted { drive.errno := ERR_NO_MOUNT; return -1, cwd; }
      SoundRoot(v, leaked, depth);
      if path == [] { cwd := ROOT; return 0, ROOT; }
      SoundWalks(v, leaked, depth, cwd);
      TargetMeans(fs, depth, |v.inodes|, cwd, path);
      ResolveEnds(fs, |v.inodes|, cwd, path);
      var ok, parent, name := ResolvePath(drive, cwd, path, leaked, depth);
      if !ok { return -1, cwd; }
      if name == [] { cwd := parent; return 0, parent; }
      SoundParts(v, leaked, depth, parent);
      GoodZeroFree(name);
      var inum := DirFind(drive, parent, name, leaked);
      if inum < 0 { return -1, cwd; }
      ChildInRange(v, leaked, depth, parent, Key(name));
      SoundParts(v, leaked, depth, inum);
      var got, n := drive.InodeRead(inum);
      if !got { return -1, cwd; }
      if n.kind != TYPE_DIR { drive.errno := ERR_NOT_DIR; return -1, cwd; }
      cwd := inum;
      return 0, inum;
    }

    /** The name under which the parent of cur lists it. */
    method EntryName(parent: nat, cur: u32) returns (found: bool, name: Name)
      requires Valid() && Lists(FsView(drive.vol), parent, cur) && cur != ROOT
      modifies drive`errno
      ensures Valid() && found && Names(FsView(drive.vol), parent, name, cur)
    {
      hide Drive.Valid, Sound, FsView, Acct, AllOk, TreeOk, Objects, ObjOf, Table, TableOk, Entries, BlockList,
        ExtentsOf, Slots, Row, Load, NoHitBefore, CString, Unique, GoodName;
      ghost var v, fs := drive.vol, FsView(drive.vol);
      SoundParts(v, leaked, depth, parent);
      name := [];
      var n;
      found, n := drive.InodeRead(parent);
      if !found { return; }
      TableBlocks(v, leaked, parent);
      CountClamped(drive, parent);
      var es;
      found, es := drive.ExtentLoadAll(n);
      if !found { return; }
      var e, block, tmp, p := LocateInode(drive, es, cur, true);
      ScanLists(v, parent, BlockList(es), cur, e, block, tmp, p);
      if e < 0 { return false, []; }
      SpotNames(v, parent, BlockList(es), cur, e, block, tmp, p);
      NamedGood(fs, depth, parent, CString(Row(tmp)[e].name), cur);
      name := CStringOf(tmp[DIRENT_SIZE * e..DIRENT_SIZE * e + 28]);
      RowName(tmp, e);
    }

    /** nvfs_path_string: the names from the root to the inode, the deepest sixteen of them,
        cut to the size of the buffer. */
    method PathString(inum: u32, size: nat) returns (ret: int, buf: seq<byte>)
      requires Valid()
      modifies drive`errno
      ensures Valid() && (ret == 0 <==> size >= 2) && ret in {0, -1}
      ensures ret == 0 && inum in FsView(drive.vol) ==>
        buf == Take(Render(Deepest(NamesTo(FsView(drive.vol), depth, inum))), size - 1)
      ensures ret == 0 && inum !in FsView(drive.vol) ==> buf == [SLASH]
    {
      hide Drive.Valid, Sound, FsView, Acct, AllOk, Objects, ObjOf, NamesTo, GoodName, TreeOk, Render, Join, Lists,
        ParentOf, Names;
      ghost var v, fs := drive.vol, FsView(drive.vol);
      buf := [];
      SoundParts(v, leaked, depth, inum);
      drive.Sizes();
      if size < 2 { return -1, buf; }
      RootNames(fs, depth);
      if inum == ROOT { return 0, [SLASH]; }
      var cur: u32 := inum;
      var comps: seq<Name> := [];
      while cur != ROOT && |comps| < MAX_DEPTH
        invariant Valid() && |comps| <= MAX_DEPTH
        invariant inum in fs ==> cur in fs && NamesTo(fs, depth, inum) == NamesTo(fs, depth, cur) + comps
        invariant inum !in fs ==> cur == inum && comps == []
        decreases MAX_DEPTH - |comps|
      {
        var parent := FindParent(drive, cur, leaked);
        InodesBounded(v, fs);
        ParentFacts(fs, depth, cur, |v.inodes|);
        if parent < 0 { break; }
        var found, name := EntryName(parent, cur);
        if !found { return -1, []; }
        NamesToStep(fs, depth, parent, name, cur);
        comps := [name] + comps;
        cur := parent;
      }
      if inum in fs { DeepestIs(fs, depth, inum, cur, comps); }
      buf := RenderInto(comps, size);
      if inum !in fs { EmptyRender(size); }
      return 0, buf;
    }
  }

  lemma OverwriteKeepsDir(fs: Fs, i: nat, data: seq<byte>, d: nat)
    requires i in fs && DirNode(fs, d)
    ensures DirNode(OverwriteIn(fs, i, data), d)
  {
    hide Entries, TableIn;
  }

  lemma FileKeeps(fs: Fs, i: nat, data: seq<byte>, d: nat)
    requires i in fs && fs[i].File? && DirNode(fs, d)
    ensures KeepsTree(fs, i, data) && DirNode(OverwriteIn(fs, i, data), d)
  {}

  lemma OneLost(lost: set<nat>)
    requires |lost| == 1
    ensures exists b: nat :: lost == {b}
  {
    var b :| b in lost;
    assert |lost - {b}| == 0;
    assert lost == {b};
  }

  lemma NothingStays(trail: seq<Vol>, fs: Fs)
    ensures TrailStays(trail, |trail|, fs) && TrailConsistent(trail, |trail|)
  {
    assert TrailWithout(trail, |trail|, 0, fs);
  }

  lemma SoundRoot(v: Vol, leaked: set<nat>, depth: map<nat, nat>)
    requires Sound(v, leaked, depth)
    ensures DirNode(FsView(v), ROOT)
  {}

  /** The directories of a sound volume can be walked. */
  lemma SoundWalks(v: Vol, leaked: set<nat>, depth: map<nat, nat>, cur: nat)
    requires Sound(v, leaked, depth) && DirNode(FsView(v), cur)
    ensures Walkable(FsView(v), depth, |v.inodes|, cur)
  {
    hide Acct, AllOk, TreeOk, Objects, FsView;
    InodesBounded(v, FsView(v));
  }

  lemma GoodZeroFree(n: Name)
    requires GoodName(n)
    ensures ZeroFree(n) && Key(n) == n && n != []
  {}

  /** An entry leads to a live inode. */
  lemma PresentLive(v: Vol, leaked: set<nat>, depth: map<nat, nat>, cwd: nat, path: seq<byte>, at: Place)
    requires Sound(v, leaked, depth) && at == Seek(FsView(v), |v.inodes|, cwd, path) && at.Present?
    ensures Names(FsView(v), at.parent, Key(at.name), at.inode)
    ensures at.inode in FsView(v) && at.inode != ROOT && at.inode != at.parent
    ensures at.inode < |v.inodes| && v.inodes[at.inode].kind != TYPE_FREE
  {
    hide GoodName, Acct, AllOk, Resolve, TreeOk, FsView;
    EntryFacts(FsView(v), depth, at.parent, Key(at.name), at.inode);
    Linked(v, at.inode);
  }

  /** gs is fs with the new leaf r at the place a path led to. */
  predicate CreatedIn(fs: Fs, gs: Fs, at: Place, r: nat, leaf: Node) {
    at.Absent? && r !in fs && at.parent in fs && fs[at.parent].Dir? && gs == Grafted(fs, at.parent, at.name, r, leaf)
  }

  /** gs is fs with a new leaf that no directory lists. */
  ghost predicate Orphaned(fs: Fs, gs: Fs, leaf: Node) {
    exists r: nat :: r !in fs && gs == fs[r := leaf]
  }

  // ------------------------------------------------- facts the operations use

  ghost function AppendedBytes(fs: Fs, i: nat, data: seq<byte>): seq<byte> {
    Take((if NodeAt(fs, i).File? then NodeAt(fs, i).bytes else []) + data, 4096)
  }

  /** Inode i is a file, and there is a free run for its contents with the data appended. */
  ghost predicate Appendable(v: Vol, fs: Fs, i: nat, data: seq<byte>) {
    NodeAt(fs, i).File? && (AppendedBytes(fs, i, data) == [] || Fits(v, SectorsFor(|AppendedBytes(fs, i, data)|)))
  }

  ghost function AppendIn(fs: Fs, i: nat, data: seq<byte>): Fs {
    OverwriteIn(fs, i, AppendedBytes(fs, i, data))
  }

  lemma AppendFacts(v: Vol, leaked: set<nat>, depth: map<nat, nat>, i: nat, data: seq<byte>)
    requires Sound(v, leaked, depth) && i in FsView(v) && i < |v.inodes| && v.inodes[i].kind == TYPE_FILE
    ensures Acct(v, leaked) && Filled(ObjOf(v, v.inodes[i])) && FsView(v)[i].File?
    ensures |AppendedBytes(FsView(v), i, data)| <= MAX_BUFFER
    ensures Appended(v, i, data) == Holding(v.inodes[i].kind, AppendedBytes(FsView(v), i, data))
  {
    hide Acct, TreeOk, FileBytes, ObjOf;
    Linked(v, i);
    NodeKinds(ObjOf(v, v.inodes[i]));
    ObjFields(v, v.inodes[i]);
  }

  predicate PrunedAt(fs: Fs, gs: Fs, at: Place) {
    at.Present? && at.parent in fs && fs[at.parent].Dir? && gs == Pruned(fs, at.parent, Key(at.name), at.inode)
  }

  lemma RemovedAt(fs: Fs, gs: Fs, at: Place)
    requires at.Present? && DirNode(fs, at.parent) && gs == Pruned(fs, at.parent, Key(at.name), at.inode)
    ensures PrunedAt(fs, gs, at)
  {}

  lemma SeekEntries(fs: Fs, n: nat, cwd: nat, path: seq<byte>)
    ensures Seek(fs, n, cwd, path).Absent? && DirNode(fs, Seek(fs, n, cwd, path).parent) ==>
      Key(Seek(fs, n, cwd, path).name) !in fs[Seek(fs, n, cwd, path).parent].entries
    ensures Seek(fs, n, cwd, path).Present? ==> DirNode(fs, Seek(fs, n, cwd, path).parent)
    ensures Seek(fs, n, cwd, path).Present? ==>
      Key(Seek(fs, n, cwd, path).name) in fs[Seek(fs, n, cwd, path).parent].entries
  {
    hide Resolve;
  }

  /** inode_free and dir_remove, as nvfs_delete and nvfs_rmdir end. */
  method RemoveObject(dr: Drive, p: nat, name: Name, i: nat, t0: u32, ghost leaked: set<nat>, ghost depth: map<nat,
                      nat>)
    returns (ok: bool)
    requires dr.Valid() && Sound(dr.vol, leaked, depth) && ZeroFree(name) && Names(FsView(dr.vol), p, Key(name), i)
    requires i in FsView(dr.vol) && (FsView(dr.vol)[i].Dir? ==> FsView(dr.vol)[i].entries == map[])
    modifies dr
    ensures old(dr.Logged()) ==> dr.Logged()
    ensures dr.Valid() && ok && Sound(dr.vol, leaked, depth - {i})
    ensures DirNode(old(FsView(dr.vol)), p) && FsView(dr.vol) == Pruned(old(FsView(dr.vol)), p, Key(name), i)
    ensures Plain(old(dr.vol)) ==> Plain(dr.vol)
  {
    hide Plain, Drive.Valid, Drive.Logged, Sound, FsView, Acct, AllOk, TreeOk, Objects, ObjOf, Table, TableOk, Entries,
      DirHolds, GoodName, Consistent;
    ghost var v := dr.vol;
    SoundParts(v, leaked, depth, p);
    EntryFacts(FsView(v), depth, p, Key(name), i);
    KindOf(v, i);
    ok := InodeFree(dr, i, leaked);
    ghost var w := dr.vol;
    OtherDirectory(v, w, p, i);
    ghost var after;
    ok, after := DirRemove(dr, p, name, t0, leaked);
    SoundPrune(v, leaked, dr.vol, depth, p, Key(name), i, after);
  }

  /** Releasing another inode leaves a directory as it was. */
  lemma OtherDirectory(v: Vol, w: Vol, dir: nat, i: nat)
    requires IsDir(v, dir) && dir != i && Objects(w) == Objects(v) - {i}
    ensures IsDir(w, dir) && Table(w, dir) == Table(v, dir)
  {
    assert dir in Objects(v) && Objects(v)[dir] == ObjOf(v, v.inodes[dir]);
    assert dir in Objects(w) && Objects(w)[dir] == ObjOf(w, w.inodes[dir]);
    ObjFields(v, v.inodes[dir]);
    ObjFields(w, w.inodes[dir]);
    hide Objects, ObjOf, Slots;
  }

  // ------------------------------------------------- facts nvfs_path_string uses

  function Deepest(ns: seq<Name>): seq<Name> {
    if |ns| > MAX_DEPTH then ns[|ns| - MAX_DEPTH..] else ns
  }

  method CStringOf(s: seq<byte>) returns (r: Name)
    requires |s| == 28
    ensures r == Key(CString(s))
  {
    r := [];
    while |r| < MAX_NAME && s[|r|] != 0
      invariant |r| <= MAX_NAME && r == s[..|r|] && ZeroFree(r) && |r| <= |CString(s)|
    {
      r := r + [s[|r|]];
    }
    assert s[..|CString(s)|] == CString(s);
  }

  lemma RowName(tmp: Sector, e: nat)
    requires e < ENTRIES_PER_SECTOR
    ensures Row(tmp)[e].name == tmp[DIRENT_SIZE * e..DIRENT_SIZE * e + 28]
  {}

  lemma SpotNames(v: Vol, dir: nat, bs: seq<nat>, want: u32, e: int, block: nat, tmp: Sector, p: nat)
    requires IsDir(v, dir) && TableOk(Table(v, dir)) && Table(v, dir) == Slots(Load(v, bs)) && want != 0
    requires SpotOk(v, bs, e, block, tmp, p) && e >= 0 && Hit(Row(tmp)[e], want, true)
    ensures Names(FsView(v), dir, CString(Row(tmp)[e].name), want)
  {
    hide Slots, Row, Table, Entries, FsView, CString, Unique, Load, Names;
    SpotSlot(v, bs, e, block, tmp, p);
    TableNames(v, dir, ENTRIES_PER_SECTOR * p + e);
  }

  /** A live slot of a directory names its inode. */
  lemma TableNames(v: Vol, dir: nat, k: nat)
    requires IsDir(v, dir) && TableOk(Table(v, dir)) && k < |Table(v, dir)| && Live(Table(v, dir)[k])
    ensures Names(FsView(v), dir, CString(Table(v, dir)[k].name), Table(v, dir)[k].inode)
  {
    hide Table, Entries, FsView, CString, Unique;
    Linked(v, dir);
    EntryOf(Table(v, dir), k);
  }

  lemma NamedGood(fs: Fs, depth: map<nat, nat>, p: nat, n: Name, i: nat)
    requires TreeOk(fs, depth) && Names(fs, p, n, i)
    ensures Key(n) == n
  {
    EntryFacts(fs, depth, p, n, i);
  }

  lemma RootNames(fs: Fs, depth: map<nat, nat>)
    requires TreeOk(fs, depth)
    ensures ROOT in fs && NamesTo(fs, depth, ROOT) == [] && Deepest([]) == [] && Render([]) == [SLASH]
  {}

  lemma ParentFacts(fs: Fs, depth: map<nat, nat>, i: nat, n: nat)
    requires TreeOk(fs, depth) && i != ROOT && (forall j :: j in fs ==> j < n)
    ensures i in fs <==> ParentOf(fs, i, n) >= 0
    ensures ParentOf(fs, i, n) >= 0 ==> Lists(fs, ParentOf(fs, i, n), i) && ParentOf(fs, i, n) < n
  {
    hide GoodName;
    if i in fs {
      assert Named(fs, i);
      var p: nat, m: Name :| Names(fs, p, m, i);
      ParentIsParent(fs, depth, p, m, i, n);
    }
    var q := ParentOf(fs, i, n);
    if q >= 0 {
      ListsNames(fs, q, i);
      var m: Name :| Names(fs, q, m, i);
      EntryFacts(fs, depth, q, m, i);
    }
  }

  lemma InodesBounded(v: Vol, fs: Fs)
    requires fs == FsView(v)
    ensures forall j :: j in fs ==> j < |v.inodes|
  {
    forall j | j in fs ensures j < |v.inodes| { Linked(v, j); }
  }

  lemma NamesToStep(fs: Fs, depth: map<nat, nat>, p: nat, m: Name, i: nat)
    requires TreeOk(fs, depth) && Names(fs, p, m, i)
    ensures p in fs && i in fs && NamesTo(fs, depth, i) == NamesTo(fs, depth, p) + [m]
  {
    hide GoodName;
    EntryFacts(fs, depth, p, m, i);
    assert Named(fs, i);
    var q: nat, k: Name :| Names(fs, q, k, i) && NamesTo(fs, depth, i) == NamesTo(fs, depth, q) + [k];
    assert q == p && k == m;
  }

  lemma DeepestIs(fs: Fs, depth: map<nat, nat>, i: nat, cur: nat, comps: seq<Name>)
    requires TreeOk(fs, depth) && i in fs && cur in fs && NamesTo(fs, depth, i) == NamesTo(fs, depth, cur) + comps
    requires |comps| <= MAX_DEPTH && (cur == ROOT || |comps| == MAX_DEPTH)
    ensures Deepest(NamesTo(fs, depth, i)) == comps
  {
    hide TreeOk;
    if cur == ROOT { RootNames(fs, depth); }
  }

  lemma EmptyRender(size: nat)
    requires size >= 2
    ensures Take(Render([]), size - 1) == [SLASH]
  {}

  /** The loops that fill the buffer of nvfs_path_string. */
  method RenderInto(comps: seq<Name>, size: nat) returns (buf: seq<byte>)
    requires size >= 2
    ensures buf == Take(Render(comps), size - 1)
  {
    ghost var full := Render(comps);
    buf := [SLASH];
    var i := 0;
    assert comps[0..] == comps;
    while i < |comps| && |buf| < size - 1
      invariant 0 <= i <= |comps| && |buf| <= size - 1 && buf <= full
      invariant |buf| < size - 1 ==> full == buf + Join(comps[i..])
    {
      JoinStep(comps, i);
      hide Join, Render;
      ghost var was := buf;
      var copy := if |comps[i]| < size - 1 - |buf| then |comps[i]| else size - 1 - |buf|;
      buf := buf + comps[i][..copy];
      if i + 1 < |comps| && |buf| < size - 1 { buf := buf + [SLASH]; }
      CopiedName(full, was, comps[i], if i + 1 < |comps| then [SLASH] + Join(comps[i + 1..]) else [], copy);
      i := i + 1;
    }
  }

  /** Part of a name, or all of it and the slash behind it, appended to what is rendered so far. */
  lemma CopiedName(full: seq<byte>, was: seq<byte>, name: Name, rest: seq<byte>, copy: nat)
    requires full == was + (name + rest) && copy <= |name|
    ensures was + name[..copy] <= full
    ensures copy == |name| ==> full == was + name[..copy] + rest
    ensures copy == |name| && rest != [] ==> full == was + name[..copy] + [rest[0]] + rest[1..]
  {
    assert name == name[..copy] + name[copy..];
  }

  lemma JoinStep(comps: seq<Name>, i: nat)
    requires i < |comps|
    ensures Join(comps[i..]) == if i + 1 < |comps| then comps[i] + [SLASH] + Join(comps[i + 1..]) else comps[i]
  {
    assert comps[i..][1..] == comps[i + 1..];
  }
}
