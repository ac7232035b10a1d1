/** Where the driver's promises end: what shields them, and what breaks without the shield. */
module NvfsLimits {
  import opened Bytes
  import opened NvfsFormat
  import opened NvfsVolume
  import opened NvfsDriver
  import opened NvfsContents
  import opened NvfsExtents
  import opened NvfsFiles
  import opened NvfsSlots
  import opened NvfsDirs
  import opened NvfsDirAdd
  import opened NvfsTree
  import opened NvfsPaths
  import opened NvfsNamespace
  import opened NvfsUpdates
  import opened NvfsApi

  /** A rendered path that was not cut leads nvfs_chdir back to the directory. */
  lemma PathRoundTrip(fs: Fs, depth: map<nat, nat>, n: nat, cwd: nat, i: nat, size: nat)
    requires TreeOk(fs, depth) && i in fs && fs[i].Dir? && depth[i] <= 16
    requires |Render(NamesTo(fs, depth, i))| <= PATH_MAX && |Render(NamesTo(fs, depth, i))| < size
    ensures Target(fs, n, cwd, Take(Render(Deepest(NamesTo(fs, depth, i))), size - 1)) == At(i)
  {
    hide TreeOk, Target, Render;
    var path := Render(NamesTo(fs, depth, i));
    assert path[..|path|] == path;
    RenderResolves(fs, depth, n, cwd, i);
  }

  // ------------------------------------------------- writing onto a directory

  /** nvfs_write onto a directory leaves a tree exactly when the bytes, read as slots, list the inodes
      the directory listed, once each and under good names. */
  lemma DirectoryOverwrite(fs: Fs, i: nat, data: seq<byte>)
    requires IsTree(fs) && DirNode(fs, i)
    ensures IsTree(OverwriteIn(fs, i, data)) <==> Relists(Entries(TableIn(data)), fs[i].entries)
  {
    hide Relists, IsTree;
    TreeRelistIff(fs, i, Entries(TableIn(data)));
  }

  /** Without bytes that is when the directory was empty. */
  lemma EmptyOverwrite(fs: Fs, i: nat)
    requires IsTree(fs) && DirNode(fs, i)
    ensures IsTree(OverwriteIn(fs, i, [])) <==> fs[i].entries == map[]
  {
    hide IsTree, TreeOk;
    EmptyTable();
    DirectoryOverwrite(fs, i, []);
    var m: map<Name, nat> := map[];
    assert m.Values == {};
    if fs[i].entries != map[] {
      var n :| n in fs[i].entries;
      assert fs[i].entries[n] in fs[i].entries.Values;
    }
  }

  /** The 32 bytes of one entry, written as a whole file, are a directory with that entry. */
  lemma OneEntryTable(name: Name, child: u32)
    requires ZeroFree(name) && 0 < child < 0x8000_0000
    ensures TableOk(TableIn(DirentBytes(name, child)))
    ensures Entries(TableIn(DirentBytes(name, child))) == map[Key(name) := child]
  {
    hide DirentBytes, TableOk, Entries, Key, ZeroFree, TableIn;
    OneBlockIs(name, child);
    EmptyTable();
    GrownTable([], name, child);
    assert [] + [FirstBlock(name, child)] == [FirstBlock(name, child)];
    assert TableIn([]) == Slots([]);
  }

  lemma OneBlockIs(name: Name, child: u32)
    ensures TableIn([]) == Slots([])
    ensures TableIn(DirentBytes(name, child)) == Slots([FirstBlock(name, child)])
  {
    hide Slots;
    var data := DirentBytes(name, child);
    assert SectorsFor(|data|) == 1;
    assert Chunk(data, 0) == FirstBlock(name, child);
    assert Chunks(data, 1) == [Chunk(data, 0)];
  }

  /** One entry written onto a directory keeps the tree exactly when the directory listed that inode
      and no other. */
  lemma OneEntryOverwrite(fs: Fs, i: nat, name: Name, child: u32)
    requires IsTree(fs) && DirNode(fs, i) && ZeroFree(name) && 0 < child < 0x8000_0000
    ensures IsTree(OverwriteIn(fs, i, DirentBytes(name, child))) <==>
      GoodName(Key(name)) && fs[i].entries.Values == {child}
  {
    hide IsTree, TreeOk, GoodName, Key, ZeroFree, DirentBytes, Entries, TableIn, OverwriteIn;
    OneEntryTable(name, child);
    DirectoryOverwrite(fs, i, DirentBytes(name, child));
    var m := map[Key(name) := child as nat];
    assert Key(name) in m;
    assert m.Values == {child as nat};
  }

  /** nvfs_write of one entry, B for inode 1, onto an empty directory succeeds and leaves no tree, although the
      driver reports no error. */
  method WriteOntoEmpty(f: FileSystem, path: seq<byte>, t0: u32, t1: u32, t2: u32, junk: seq<Extent>) returns (ret: int)
    requires f.Valid() && f.mounted && ZeroFree(path) && NameFits(path) && |junk| == MAX_EXTENTS
    requires f.Find(path).Present? && NodeAt(FsView(f.drive.vol), f.Find(path).inode) == Dir(map[])
    requires Fits(f.drive.vol, 1)
    modifies f`leaked, f`depth, f.drive
    ensures ret == 0 && f.drive.Valid() && !f.Valid() && !IsTree(FsView(f.drive.vol))
  {
    hide Seek, FsView, Sound, Drive.Valid, NameFits, TrailShows, TrailMounts, TrailCreates, CreatedIn, Fits,
      OverwriteIn, IsTree, GoodName, DirentBytes, KeepsTree, TableSuffices, Acct;
    ghost var v, fs, i := f.drive.vol, FsView(f.drive.vol), f.Find(path).inode;
    PresentLive(v, f.leaked, f.depth, f.cwd, path, f.Find(path));
    SoundTree(v, f.leaked, f.depth);
    OneSector();
    OneEntryOverwrite(fs, i, [66], 1);
    NoEntries(fs, i);
    ret := f.Write(path, DirentBytes([66], 1), t0, t1, t2, junk);
    if f.Valid() { SoundTree(f.drive.vol, f.leaked, f.depth); }
  }

  /** Such a volume can be: a root that lists an empty directory. */
  lemma EmptyDirectoryBroken()
    ensures var fs: Fs := map[ROOT := Dir(map[[65] := 1]), 1 := Dir(map[])];
      IsTree(fs) && !IsTree(OverwriteIn(fs, 1, DirentBytes([66], 1)))
  {
    hide GoodName, OverwriteIn, DirentBytes, TreeOk;
    var root: Fs := map[ROOT := Dir(map[])];
    var fs := Grafted(root, ROOT, [65], 1, Dir(map[]));
    assert fs == map[ROOT := Dir(map[[65] := 1]), 1 := Dir(map[])];
    LoneRoot();
    LetterA();
    TreeGraft(root, map[ROOT := 0], ROOT, [65], 1, Dir(map[]));
    NoEntries(fs, 1);
    OneEntryOverwrite(fs, 1, [66], 1);
  }

  lemma LetterA()
    ensures GoodName([65])
  {
    assert [65][..0] == [];
  }

  /** A directory overwritten with bytes that read as its own slots keeps the tree. */
  lemma OwnTableKeeps(v: Vol, leaked: set<nat>, depth: map<nat, nat>, i: nat, data: seq<byte>)
    requires Sound(v, leaked, depth) && IsDir(v, i) && TableIn(data) == Table(v, i)
    ensures KeepsTree(FsView(v), i, data)
  {
    hide Acct, AllOk, TreeOk, FsView, TableOk, Entries, Table, TableIn, GoodName;
    var fs := FsView(v);
    SoundParts(v, leaked, depth, i);
    assert fs[i := Dir(fs[i].entries)] == fs;
    RelistNeeded(fs, depth, i, fs[i].entries, depth);
  }

  lemma OneSector()
    ensures |DirentBytes([66], 1)| == DIRENT_SIZE && SectorsFor(DIRENT_SIZE) == 1 && ZeroFree([66])
  {}

  lemma NoEntries(fs: Fs, i: nat)
    requires DirNode(fs, i) && fs[i].entries == map[]
    ensures 1 !in fs[i].entries.Values
  {}

  lemma SoundTree(v: Vol, leaked: set<nat>, depth: map<nat, nat>)
    requires Sound(v, leaked, depth)
    ensures IsTree(FsView(v))
  {}
}
