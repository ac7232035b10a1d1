/** Any sequence of calls on a mounted volume: the tree follows the calls, and on a volume of the
    formatter and the driver the marked blocks are always exactly the referenced ones. */
module NvfsSession {
  import opened Bytes
  import opened NvfsFormat
  import opened NvfsVolume
  import opened NvfsDriver
  import opened NvfsExtents
  import opened NvfsCommit
  import opened NvfsFiles
  import opened NvfsTable
  import opened NvfsSlots
  import opened NvfsDirs
  import opened NvfsDirScan
  import opened NvfsDirAdd
  import opened NvfsSpace
  import opened NvfsTree
  import opened NvfsPaths
  import opened NvfsNamespace
  import opened NvfsUpdates
  import opened NvfsApi
  import opened NvfsLoss
  import opened NvfsMount
  import opened NvfsPowerCut
  import opened Mknvfs

  /** The clock readings of a call and what its uninitialised inode holds. */
  datatype Stamp = Stamp(t0: u32, t1: u32, t2: u32, junk: seq<Extent>)

  datatype Call =
    | Write(path: seq<byte>, data: seq<byte>, now: Stamp)
    | Append(path: seq<byte>, data: seq<byte>, now: Stamp, gotBuffer: bool)
    | Delete(path: seq<byte>, now: Stamp)
    | Mkdir(path: seq<byte>, now: Stamp)
    | Rmdir(path: seq<byte>, now: Stamp)
    | Chdir(path: seq<byte>)
    | Read(path: seq<byte>, max: nat)

  /** What every call demands of its arguments. */
  ghost predicate WellFormed(c: Call) {
    && ZeroFree(c.path) && NameFits(c.path)
    && (c.Write? || c.Append? ==> |c.data| <= MAX_BUFFER)
    && (c.Write? || c.Mkdir? ==> |c.now.junk| == MAX_EXTENTS)
  }

  /** The call does not have to grow the inode table, does not write onto a directory and does not
      remove the current one. */
  ghost predicate Lean(v: Vol, cwd: nat, c: Call) {
    var at := Seek(FsView(v), |v.inodes|, cwd, c.path);
    match c
    case Write(_, _, _) =>
      (at.Absent? ==> TableSuffices(v)) && (at.Present? ==> !NodeAt(FsView(v), at.inode).Dir?)
    case Mkdir(_, _) => !at.Nowhere? ==> TableSuffices(v)
    case Rmdir(_, _) => at.Present? ==> at.inode != cwd
    case _ => true
  }

  /** And if it makes an entry, then not in a directory of 14 extents without a free slot. */
  ghost predicate Ready(v: Vol, cwd: nat, c: Call) {
    var at := Seek(FsView(v), |v.inodes|, cwd, c.path);
    Lean(v, cwd, c) && ((c.Write? || c.Mkdir?) && at.Absent? ==> at.parent < |v.inodes| && Roomy(v, at.parent))
  }

  // ------------------------------------------------- what a call does to the tree

  datatype Look = Look(fs: Fs, cwd: nat)

  /** A call that fails leaves the tree alone; one that succeeds does to it what its name says.
      n is the number of inodes. */
  ghost predicate Next(n: nat, a: Look, c: Call, ret: int, b: Look) {
    if ret < 0 || c.Read? then b == a
    else if c.Chdir? then b.fs == a.fs && Target(a.fs, n, a.cwd, c.path) == At(b.cwd)
    else b.cwd == a.cwd && Does(a.fs, Seek(a.fs, n, a.cwd, c.path), c, b.fs)
  }

  ghost predicate Does(fs: Fs, at: Place, c: Call, gs: Fs) {
    match c
    case Write(_, data, _) =>
      || (at.Present? && gs == OverwriteIn(fs, at.inode, data))
      || exists r: nat :: CreatedIn(fs, gs, at, r, File(data))
    case Append(_, data, _, _) => at.Present? && NodeAt(fs, at.inode).File? && gs == AppendIn(fs, at.inode, data)
    case Delete(_, _) => PrunedAt(fs, gs, at) && NodeAt(fs, at.inode).File?
    case Mkdir(_, _) => exists r: nat :: CreatedIn(fs, gs, at, r, Dir(map[]))
    case Rmdir(_, _) => PrunedAt(fs, gs, at) && NodeAt(fs, at.inode) == Dir(map[])
    case _ => false
  }

  // ------------------------------------------------- one call

  /** inode_alloc's search. */
  method AnyFreeInode(dr: Drive) returns (any: bool)
    requires dr.Valid()
    modifies dr`errno
    ensures any <==> HasFreeInode(dr.vol)
  {
    hide Drive.Valid;
    dr.Sizes();
    for i := 1 to dr.geo.inodeCount
      invariant forall j: nat :: 0 < j < i ==> !FreeInode(dr.vol, j)
    {
      var got, n := dr.InodeRead(i);
      if got && n.kind == TYPE_FREE {
        assert FreeInode(dr.vol, i);
        return true;
      }
    }
    return false;
  }

  /** Whether inode_alloc can do without a larger table. */
  method Suffices(dr: Drive) returns (yes: bool)
    requires dr.Valid()
    modifies dr`errno
    ensures yes <==> TableSuffices(dr.vol)
  {
    hide Drive.Valid, HasFreeBlock, FreeInode;
    dr.Sizes();
    yes := AnyFreeInode(dr);
    var blk := dr.BitmapFind(1);
    FoundLowest(dr.geo, dr.vol, blk);
    var onDrive := 0 <= blk && dr.geo.offset + dr.geo.dataStart + blk < |dr.disk|;
    yes := yes || !onDrive;
  }

  /** Whether dir_add can list one more entry: its scan for a cleared slot, or fewer than 14 extents. */
  method HasRoom(dr: Drive, dir: nat, ghost leaked: set<nat>) returns (room: bool)
    requires dr.Valid() && Acct(dr.vol, leaked) && IsDir(dr.vol, dir)
    modifies dr`errno
    ensures room <==> Roomy(dr.vol, dir)
  {
    hide Drive.Valid, Acct, BlockList, ExtentsOf, Slots, Table, Row, HasSlot, Load;
    var got, n := dr.InodeRead(dir);
    if !got { return false; }
    TableBlocks(dr.vol, leaked, dir);
    CountClamped(dr, dir);
    var loaded, es := dr.ExtentLoadAll(n);
    if !loaded { return false; }
    var e, block, tmp, p := LocateInode(dr, es, 0, true);
    FreeSlotMeans(dr.vol, dir, BlockList(es), e, block, tmp, p);
    room := e >= 0 || n.extentCount < MAX_EXTENTS;
  }

  /** Whether the call is ready. */
  method Admit(f: FileSystem, c: Call) returns (ok: bool)
    requires f.Valid() && WellFormed(c)
    modifies f.drive`errno
    ensures f.Valid() && (ok <==> Ready(f.drive.vol, f.cwd, c))
  {
    hide Drive.Valid, Sound, FsView, Seek, NameFits, GoodName, TableSuffices, Roomy, Acct, AllOk, TreeOk, Objects,
      Table, TableOk, Entries;
    if !c.Write? && !c.Mkdir? && !c.Rmdir? { return true; }
    var found, parent, name, inum := f.Lookup(c.path);
    if !found { return true; }
    if c.Rmdir? { return inum != f.cwd; }
    if c.Write? && inum >= 0 {
      PresentLive(f.drive.vol, f.leaked, f.depth, f.cwd, c.path, f.Find(c.path));
      KindOf(f.drive.vol, inum);
      var got, n := f.drive.InodeRead(inum);
      return got && n.kind != TYPE_DIR;
    }
    ok := Suffices(f.drive);
    if inum < 0 {
      SoundParts(f.drive.vol, f.leaked, f.depth, parent);
      var room := HasRoom(f.drive, parent, f.leaked);
      ok := ok && room;
    }
  }

  /** Block ownership without a leak, on a volume as the formatter and the driver make it. */
  ghost predicate Tidy(f: FileSystem)
    reads f, f.drive
  {
    f.Valid() && Plain(f.drive.vol) && f.leaked == {}
  }

  ghost function LookOf(f: FileSystem): Look
    reads f, f.drive
  {
    Look(FsView(f.drive.vol), f.cwd)
  }

  lemma ReadyKeeps(fs: Fs, i: nat, data: seq<byte>)
    requires !NodeAt(fs, i).Dir?
    ensures KeepsTree(fs, i, data)
  {}

  lemma PlainAt(v: Vol, i: nat)
    requires i in FsView(v) && Plain(v) && !FsView(v)[i].Dir?
    ensures StrandedAt(v, i) == {}
  {
    hide FsView;
    KindOf(v, i);
    PlainStrands(v, {}, i);
  }

  /** A write of a ready call. */
  method DoWrite(f: FileSystem, c: Call) returns (ret: int)
    requires Tidy(f) && WellFormed(c) && c.Write? && Ready(f.drive.vol, f.cwd, c)
    modifies f`leaked, f`depth, f.drive
    ensures Tidy(f) && Next(|old(f.drive.vol).inodes|, old(LookOf(f)), c, ret, LookOf(f))
    ensures old(f.drive.Logged()) ==> f.drive.Logged()
    ensures |f.drive.vol.inodes| == |old(f.drive.vol).inodes|
  {
    hide Drive.Valid, Drive.Logged, Sound, FsView, Seek, NameFits, Plain, Acct, TrailShows, TrailMounts, TrailCreates,
      Creatable, Fits, OverwriteIn, KeepsTree, TableSuffices, Roomy, CreatedIn, Target;
    ghost var v, fs, at := f.drive.vol, FsView(f.drive.vol), f.Find(c.path);
    f.drive.Sizes();
    if at.Present? {
      PresentLive(v, f.leaked, f.depth, f.cwd, c.path, at);
      ReadyKeeps(fs, at.inode, c.data);
      PlainAt(v, at.inode);
    }
    ret := f.Write(c.path, c.data, c.now.t0, c.now.t1, c.now.t2, c.now.junk);
    f.drive.Sizes();
  }

  method DoMkdir(f: FileSystem, c: Call) returns (ret: int)
    requires Tidy(f) && WellFormed(c) && c.Mkdir? && Ready(f.drive.vol, f.cwd, c)
    modifies f`leaked, f`depth, f.drive
    ensures Tidy(f) && Next(|old(f.drive.vol).inodes|, old(LookOf(f)), c, ret, LookOf(f))
    ensures old(f.drive.Logged()) ==> f.drive.Logged()
    ensures |f.drive.vol.inodes| == |old(f.drive.vol).inodes|
  {
    hide Drive.Valid, Drive.Logged, Sound, FsView, Seek, NameFits, Plain, Acct, TrailCreates, Creatable, KeepsTree,
      TableSuffices, Roomy, CreatedIn, Target, TrailStays;
    f.drive.Sizes();
    ret := f.Mkdir(c.path, c.now.t0, c.now.t1, c.now.t2, c.now.junk);
    f.drive.Sizes();
  }

  method DoAppend(f: FileSystem, c: Call) returns (ret: int)
    requires Tidy(f) && WellFormed(c) && c.Append?
    modifies f`leaked, f.drive
    ensures Tidy(f) && Next(|old(f.drive.vol).inodes|, old(LookOf(f)), c, ret, LookOf(f))
    ensures old(f.drive.Logged()) ==> f.drive.Logged()
    ensures |f.drive.vol.inodes| == |old(f.drive.vol).inodes|
  {
    hide Drive.Valid, Drive.Logged, Sound, FsView, Seek, NameFits, Plain, Acct, TrailShows, TrailMounts, AppendIn,
      Target, Fits;
    f.drive.Sizes();
    ret := f.Append(c.path, c.data, c.now.t0, c.gotBuffer);
    f.drive.Sizes();
  }

  /** nvfs_delete or nvfs_rmdir. */
  method DoRemove(f: FileSystem, c: Call) returns (ret: int)
    requires Tidy(f) && WellFormed(c) && (c.Delete? || c.Rmdir?) && Ready(f.drive.vol, f.cwd, c)
    modifies f`depth, f.drive
    ensures Tidy(f) && Next(|old(f.drive.vol).inodes|, old(LookOf(f)), c, ret, LookOf(f))
    ensures old(f.drive.Logged()) ==> f.drive.Logged()
    ensures |f.drive.vol.inodes| == |old(f.drive.vol).inodes|
  {
    hide Drive.Valid, Drive.Logged, Sound, FsView, Seek, NameFits, Plain, Acct, PrunedAt, Target;
    f.drive.Sizes();
    if c.Delete? { ret := f.Delete(c.path, c.now.t0); } else { ret := f.Rmdir(c.path, c.now.t0); }
    f.drive.Sizes();
  }

  /** Nothing on the volume changes. */
  method DoQuiet(f: FileSystem, c: Call) returns (ret: int)
    requires Tidy(f) && WellFormed(c) && (c.Chdir? || c.Read?)
    modifies f`cwd, f.drive`errno
    ensures Tidy(f) && Next(|f.drive.vol.inodes|, old(LookOf(f)), c, ret, LookOf(f))
    ensures old(f.drive.Logged()) ==> f.drive.Logged()
  {
    hide Drive.Valid, Drive.Logged, Sound, FsView, Seek, NameFits, Plain, Target;
    if c.Chdir? {
      var out;
      ret, out := f.Chdir(c.path);
    } else {
      var out;
      ret, out := f.Read(c.path, c.max);
    }
  }

  /** Any call that is ready. */
  method Do(f: FileSystem, c: Call) returns (ret: int)
    requires Tidy(f) && WellFormed(c) && Ready(f.drive.vol, f.cwd, c)
    modifies f, f.drive
    ensures Tidy(f) && Next(|old(f.drive.vol).inodes|, old(LookOf(f)), c, ret, LookOf(f))
    ensures old(f.drive.Logged()) ==> f.drive.Logged()
    ensures |f.drive.vol.inodes| == |old(f.drive.vol).inodes|
  {
    hide Drive.Valid, Drive.Logged, Sound, FsView, Seek, NameFits, Plain, Ready, Next, Tidy, WellFormed;
    match c
    case Write(_, _, _) => ret := DoWrite(f, c);
    case Append(_, _, _, _) => ret := DoAppend(f, c);
    case Delete(_, _) => ret := DoRemove(f, c);
    case Mkdir(_, _) => ret := DoMkdir(f, c);
    case Rmdir(_, _) => ret := DoRemove(f, c);
    case Chdir(_) => ret := DoQuiet(f, c);
    case Read(_, _) => ret := DoQuiet(f, c);
  }

  // ------------------------------------------------- any number of calls

  /** The states before, between and after the calls that returned. */
  ghost predicate Follows(n: nat, calls: seq<Call>, rets: seq<int>, trace: seq<Look>) {
    && |trace| == |rets| + 1 && |rets| <= |calls|
    && forall k :: 0 <= k < |rets| ==> Next(n, trace[k], calls[k], rets[k], trace[k + 1])
  }

  /** The bitmap marks exactly the blocks that inodes reference. */
  ghost predicate Exact(v: Vol) {
    forall b: nat :: b < |v.blocks| ==> (b in v.used <==> Referenced(v, b))
  }

  lemma TidyExact(v: Vol, depth: map<nat, nat>)
    requires Sound(v, {}, depth)
    ensures Exact(v)
  {
    hide AllOk, TreeOk, FsView, Owned;
    forall b: nat | b < |v.blocks| && Referenced(v, b) ensures b in v.used {
      var i: nat :| i < |v.inodes| && b in Owned(v, i);
      assert SoundInode(v, {}, i);
    }
  }

  /** The calls are made in order up to the first that is not ready.  The tree goes through the states
      the calls prescribe, all invariants hold at the end, and no block is marked without an owner. */
  method Run(f: FileSystem, calls: seq<Call>) returns (rets: seq<int>, ghost trace: seq<Look>)
    requires Tidy(f) && forall k :: 0 <= k < |calls| ==> WellFormed(calls[k])
    modifies f, f.drive
    ensures Tidy(f) && Exact(f.drive.vol) && |f.drive.vol.inodes| == |old(f.drive.vol).inodes|
    ensures old(f.drive.Logged()) ==> f.drive.Logged()
    ensures Follows(|f.drive.vol.inodes|, calls, rets, trace)
    ensures |rets| < |calls| ==> !Ready(f.drive.vol, f.cwd, calls[|rets|])
    ensures trace[0] == old(LookOf(f)) && trace[|rets|] == LookOf(f)
  {
    hide Drive.Valid, Drive.Logged, Sound, FsView, Plain, Ready, Next, WellFormed;
    rets, trace := [], [LookOf(f)];
    while |rets| < |calls|
      invariant Tidy(f) && (old(f.drive.Logged()) ==> f.drive.Logged())
      invariant |f.drive.vol.inodes| == |old(f.drive.vol).inodes|
      invariant Follows(|f.drive.vol.inodes|, calls, rets, trace)
      invariant trace[0] == old(LookOf(f)) && trace[|rets|] == LookOf(f)
    {
      var ok := Admit(f, calls[|rets|]);
      if !ok { break; }
      var ret := Do(f, calls[|rets|]);
      rets, trace := rets + [ret], trace + [LookOf(f)];
    }
    TidyExact(f.drive.vol, f.depth);
  }

  /** With at most 224 inodes the room in directories never runs out. */
  lemma LeanReady(v: Vol, leaked: set<nat>, depth: map<nat, nat>, cwd: nat, c: Call)
    requires Sound(v, leaked, depth) && DirNode(FsView(v), cwd) && Plain(v) && |v.inodes| <= 224 && WellFormed(c)
    ensures Lean(v, cwd, c) <==> Ready(v, cwd, c)
  {
    hide Sound, FsView, Plain, Lean, NameFits, GoodName, Roomy, Resolve, IsDir;
    var at := Seek(FsView(v), |v.inodes|, cwd, c.path);
    SoundRoot(v, leaked, depth);
    ResolveEnds(FsView(v), |v.inodes|, cwd, c.path);
    if at.Absent? {
      KindOf(v, at.parent);
      SoundParts(v, leaked, depth, at.parent);
      LossNeedsInodes(v, leaked, depth, at.parent);
    }
  }

  /** mknvfs.py, a mount, and any calls. */
  method FormatAndRun(files: seq<Packed>, calls: seq<Call>)
    returns (f: FileSystem, rets: seq<int>, ghost trace: seq<Look>)
    requires Packable(files) && Small(files) && forall k :: 0 <= k < |calls| ==> WellFormed(calls[k])
    ensures fresh(f) && fresh(f.drive) && f.Valid() && Exact(f.drive.vol)
    ensures Probe(Some(f.drive.disk), 0) == Some(Layout())
    ensures forall k :: 0 <= k < |f.drive.history| ==> Probe(Some(f.drive.history[k]), 0) == Some(Layout())
    ensures Follows(|f.drive.vol.inodes|, calls, rets, trace)
    ensures |rets| < |calls| ==> !Lean(f.drive.vol, f.cwd, calls[|rets|])
    ensures trace[0] == Look(PackedFs(files, |files|), ROOT) && trace[|rets|] == LookOf(f)
  {
    hide Drive.Valid, Drive.Logged, Sound, FsView, Plain, Ready, Next, WellFormed, Packable, Small, PackedFs, View,
      Exact, Superblock, Probe;
    var d := Mknvfs.Create(files);
    MountsFormatted(d);
    var at, geo := MountAt([Some(d), None, None, None], 0, Layout());
    var dr := new Drive(geo, d);
    dr.Mirrors();
    ViewSizes(d);
    f := new FileSystem(dr, {}, PackedDepth(|files|));
    rets, trace := Run(f, calls);
    ProbeKept(dr);
    if |rets| < |calls| { LeanReady(f.drive.vol, f.leaked, f.depth, f.cwd, calls[|rets|]); }
  }
}
