/** tools/mknvfs.py: the image it builds is a volume the driver accepts, with one tree of
    packed files and no leaked block. */
module Mknvfs {
  import opened Bytes
  import opened Collections
  import opened NvfsFormat
  import opened NvfsImage
  import opened NvfsVolume
  import opened NvfsDriver
  import opened NvfsContents
  import opened NvfsExtents
  import opened NvfsSlots
  import opened NvfsOwnership
  import opened NvfsCommit
  import opened NvfsDirs
  import opened NvfsDirAdd
  import opened NvfsTree
  import opened NvfsPaths
  import opened NvfsNamespace
  import opened NvfsUpdates
  import opened NvfsApi
  import opened NvfsMount
  import opened NvfsTable

  const DISK_SECTORS := 32768
  const DATA_BLOCKS := 32726

  function Layout(): Geo { Geo(0, 2, 8, 10, 128, 32, 42) }

  // ------------------------------------------------- the blank image

  function Blank(n: nat): (d: Image)
    ensures |d| == n
    ensures forall l :: 0 <= l < n ==> d[l] == ZeroSector()
  {
    if n == 0 then [] else Blank(n - 1) + [ZeroSector()]
  }

  /** The packed superblock: the signature and nine little-endian words. */
  function Superblock(): Sector {
    Words() + Zeros(472)
  }

  function Words(): (s: seq<byte>)
    ensures |s| == 40
  {
    [78, 86, 70, 83, 1, 0, 0, 0, 0, 128, 0, 0, 1, 0, 0, 0, 2, 0, 0, 0, 8, 0, 0, 0,
     10, 0, 0, 0, 128, 0, 0, 0, 42, 0, 0, 0, 32, 0, 0, 0]
  }

  function Formatted(): Image { Blank(DISK_SECTORS)[1 := Superblock()] }

  lemma {:induction false} ZeroBits(k: nat)
    ensures !Bit(0, k)
  {
    if k > 0 { ZeroBits(k - 1); }
  }

  lemma ZeroInode(off: nat)
    requires off + INODE_SIZE <= SECTOR_SIZE
    ensures Clamp(RawInode(ZeroSector(), off)).kind == TYPE_FREE
  {}

  lemma BlankBits(b: nat)
    requires b < Bits(Layout())
    ensures !Used(Layout(), Formatted(), b)
  {
    hide Superblock, Blank;
    ZeroBits(b % BITS_PER_SECTOR % 8);
    assert Sec(Formatted(), BitmapLba(Layout(), b)) == ZeroSector();
  }

  lemma BlankInode(i: nat)
    requires i < 128
    ensures InodeAt(Layout(), Formatted(), i).kind == TYPE_FREE
  {
    hide Superblock, Blank, Clamp, RawInode;
    ZeroInode(INODE_SIZE * (i % 4));
    assert Sec(Formatted(), InodeLba(Layout(), i)) == ZeroSector();
  }

  /** Before anything is packed, the volume is empty. */
  lemma BlankView()
    ensures GeoOk(Layout(), |Formatted()|)
    ensures View(Layout(), Formatted()).used == {} && |View(Layout(), Formatted()).blocks| == DATA_BLOCKS
    ensures |View(Layout(), Formatted()).inodes| == 128
    ensures forall i :: 0 <= i < 128 ==> View(Layout(), Formatted()).inodes[i].kind == TYPE_FREE
  {
    hide Superblock, Blank, Formatted, InodeAt, Used, BlockAt;
    FormattedLength();
    forall b: nat | b < Bits(Layout()) ensures !Used(Layout(), Formatted(), b) { BlankBits(b); }
    assert UsedSet(Layout(), Formatted()) == {};
    forall i: nat | i < 128 ensures InodeAt(Layout(), Formatted(), i).kind == TYPE_FREE { BlankInode(i); }
  }

  lemma FormattedLength()
    ensures |Formatted()| == DISK_SECTORS
  {}

  lemma BlankAcct(v: Vol)
    requires v.used == {} && forall i :: 0 <= i < |v.inodes| ==> v.inodes[i].kind == TYPE_FREE
    ensures Acct(v, {}) && Objects(v) == map[]
  {
    forall i: nat | i < |v.inodes| ensures SoundInode(v, {}, i) {}
  }

  /** The superblock mount reads back. */
  lemma SuperblockParses()
    ensures Signed(Superblock()) && ParseGeo(Superblock(), 0) == Layout() && LayoutOk(Layout())
  {
    hide Superblock, GetU32, Signed;
    SuperblockSigned();
    BitmapWords();
    InodeWords();
    DataWords();
  }

  lemma SuperblockSigned()
    ensures Signed(Superblock())
  {
    hide Zeros;
  }

  lemma BitmapWords()
    ensures GetU32(Superblock(), 16) == 2 && GetU32(Superblock(), 20) == 8
  {
    hide Zeros;
  }

  lemma InodeWords()
    ensures GetU32(Superblock(), 24) == 10 && GetU32(Superblock(), 28) == 128
  {
    hide Zeros;
  }

  lemma DataWords()
    ensures GetU32(Superblock(), 32) == 42 && GetU32(Superblock(), 36) == 32
  {
    hide Zeros;
  }

  lemma LayoutFits()
    ensures Layout().offset == 0 && GeoOk(Layout(), DISK_SECTORS) && !HasGap(Layout())
  {}

  /** The data follows the inode table without a gap: once the table has grown, the next mount
      refuses the drive. */
  lemma GrowthUnmounts(d: Image)
    requires |d| == DISK_SECTORS && d[1] == GrownSuper(Superblock(), Layout().inodeBlocks)
    ensures Probe(Some(d), 0) == None
  {
    hide Superblock, ParseGeo, Signed, GrownSuper, Probe, Layout, GeoOk;
    SuperblockParses();
    LayoutFits();
    NextMount(d, Layout(), Superblock());
  }

  // ------------------------------------------------- packing files

  datatype Packed = Packed(name: seq<byte>, data: seq<byte>)

  /** The first block after the root block and the first k files. */
  function NextBlock(files: seq<Packed>, k: nat): nat
    requires k <= |files|
  {
    if k == 0 then 1 else NextBlock(files, k - 1) + SectorsFor(|files[k - 1].data|)
  }

  lemma {:induction false} NextBlockGrows(files: seq<Packed>, k: nat, n: nat)
    requires k <= n <= |files|
    ensures NextBlock(files, k) <= NextBlock(files, n)
    decreases n - k
  {
    if k < n { NextBlockGrows(files, k + 1, n); }
  }

  function Stem(f: Packed): Name { Key(Upper(f.name)) }

  /** At most sixteen files that fit, under distinct names the driver can look up. */
  ghost predicate Packable(files: seq<Packed>) {
    && 0 < |files| <= ENTRIES_PER_SECTOR && NextBlock(files, |files|) <= DATA_BLOCKS
    && (forall k :: 0 <= k < |files| ==> GoodName(Stem(files[k])) && ZeroFree(Upper(files[k].name)))
    && (forall j, k :: 0 <= j < k < |files| ==> Stem(files[j]) != Stem(files[k]))
  }

  ghost predicate Small(files: seq<Packed>) {
    forall i :: 0 <= i < |files| ==> |files[i].data| <= MAX_BUFFER
  }

  /** The objects of the first k files. */
  ghost function FileObjects(files: seq<Packed>, k: nat): map<nat, Obj>
    requires k <= |files| && Small(files)
  {
    if k == 0 then map[] else FileObjects(files, k - 1)[k := Holding(TYPE_FILE, files[k - 1].data)]
  }

  /** The tree of the first k files. */
  ghost function PackedFs(files: seq<Packed>, k: nat): Fs
    requires k <= |files|
    ensures ROOT in PackedFs(files, k) && PackedFs(files, k)[ROOT].Dir?
  {
    if k == 0 then map[ROOT := Dir(map[])]
    else Grafted(PackedFs(files, k - 1), ROOT, Stem(files[k - 1]), k, File(files[k - 1].data))
  }

  function PackedDepth(k: nat): map<nat, nat> {
    if k == 0 then map[ROOT := 0] else PackedDepth(k - 1)[k := 1]
  }

  /** The bits and the data blocks of one file. */
  method PackData(d0: Image, start: nat, data: seq<byte>, ghost v: Vol) returns (d: Image)
    requires GeoOk(Layout(), |d0|) && View(Layout(), d0) == v && |v.blocks| == DATA_BLOCKS
    requires start + SectorsFor(|data|) <= DATA_BLOCKS && FreeRun(v, start, SectorsFor(|data|))
    ensures |d| == |d0| && Wrote(v, View(Layout(), d), start, data, 0, SectorsFor(|data|)) && d[1] == d0[1]
    ensures data == [] ==> d == d0
  {
    hide View, Wrote, SectorsFor, Chunk, ChunkLen, SetUsed, PutBlock;
    WroteNone(v, start, data);
    ViewSizes(d0);
    NoSectors();
    d := d0;
    for j := 0 to SectorsFor(|data|)
      invariant |d| == |d0| && Wrote(v, View(Layout(), d), start, data, 0, j) && d[1] == d0[1]
      invariant j == 0 ==> d == d0
    {
      WroteNext(v, View(Layout(), d), start, data, j);
      ChunkCopied(data, j);
      var copy := ChunkLen(data, j);
      var block := data[SECTOR_SIZE * j..SECTOR_SIZE * j + copy] + Zeros(SECTOR_SIZE - copy);
      ViewPutBlock(Layout(), d, start + j, block);
      FarFromSuperblock(d, start + j, block);
      d := PutBlock(Layout(), d, start + j, block);
      ViewSetUsed(Layout(), d, start + j, true);
      MarkFarFromSuperblock(d, start + j);
      d := SetUsed(Layout(), d, start + j, true);
    }
  }

  lemma FarFromSuperblock(d: Image, b: nat, s: Sector)
    requires |d| > 1
    ensures |PutBlock(Layout(), d, b, s)| == |d| && PutBlock(Layout(), d, b, s)[1] == d[1]
  {}

  lemma MarkFarFromSuperblock(d: Image, b: nat)
    requires |d| > 1
    ensures |SetUsed(Layout(), d, b, true)| == |d| && SetUsed(Layout(), d, b, true)[1] == d[1]
  {}

  lemma InodeFarFromSuperblock(d: Image, i: nat, m: Inode)
    requires |d| > 1
    ensures |PutNode(Layout(), d, i, m)| == |d| && PutNode(Layout(), d, i, m)[1] == d[1]
  {}

  function EmptyRecord(kind: byte): Inode { InodeFields(0, kind, 0, 0, 0, 0, NoExtents(), 0) }

  /** The inode record mknvfs packs for a file. */
  function FileRecord(data: seq<byte>, start: u32): Inode
    requires |data| <= MAX_BUFFER
  {
    if data == [] then EmptyRecord(1) else Stored(EmptyRecord(1), |data|, start, SectorsFor(|data|))
  }

  lemma RecordPlain(data: seq<byte>, start: u32)
    requires |data| <= MAX_BUFFER
    ensures PlainInode(FileRecord(data, start)) && FileRecord(data, start).kind == TYPE_FILE
  {}

  lemma RecordPrepared(v: Vol, w: Vol, data: seq<byte>, start: u32)
    requires Wrote(v, w, start, data, 0, SectorsFor(|data|))
    requires FreeRun(v, start, SectorsFor(|data|)) && |data| <= MAX_BUFFER
    requires data == [] ==> w == v
    ensures Prepared(v, w, EmptyRecord(TYPE_FILE), FileRecord(data, start), data)
    ensures Stamped(FileRecord(data, start), 0) == FileRecord(data, start) == Clamp(FileRecord(data, start))
  {
    if data != [] { assert PreparedAt(v, w, EmptyRecord(TYPE_FILE), FileRecord(data, start), data, start); }
  }

  lemma NoSectors()
    ensures SectorsFor(0) == 0
  {}

  lemma ViewSizes(d: Image)
    requires GeoOk(Layout(), |d|)
    ensures |View(Layout(), d).blocks| == DataBlocks(Layout(), |d|) && |View(Layout(), d).inodes| == 128
  {}

  /** What holds of the volume once k files are packed: only the root block is not yet referenced. */
  ghost predicate VolSoFar(files: seq<Packed>, k: nat, v: Vol, next: nat)
    requires k <= |files| && Small(files)
  {
    && |v.blocks| == DATA_BLOCKS && |v.inodes| == 128 && v.inodes[0].kind == TYPE_FREE
    && next == NextBlock(files, k) && v.used == RunSet(0, next)
    && Acct(v, {0}) && Objects(v) == FileObjects(files, k) && Plain(v)
  }

  /** What holds of the root block once k entries are packed. */
  ghost predicate RootSoFar(files: seq<Packed>, k: nat, root: Sector)
    requires k <= |files| <= ENTRIES_PER_SECTOR
  {
    && DirHolds(Obj(TYPE_DIR, SECTOR_SIZE, [root]), PackedFs(files, k)[ROOT].entries)
    && (forall e :: k <= e < ENTRIES_PER_SECTOR ==> Row(root)[e].inode == 0)
  }

  lemma RunAfter(v: Vol, next: nat, n: nat)
    requires v.used == RunSet(0, next)
    ensures FreeRun(v, next, n)
    ensures RunSet(0, next) + RunSet(next, n) == RunSet(0, next + n)
  {}

  lemma WroteUsed(v: Vol, w: Vol, start: nat, data: seq<byte>, n: nat)
    requires Wrote(v, w, start, data, 0, n)
    ensures w.used == v.used + RunSet(start, n) && w.inodes == v.inodes && |w.blocks| == |v.blocks|
  {}

  lemma {:induction false} FileKeys(files: seq<Packed>, k: nat, i: nat)
    requires k <= |files| && Small(files)
    ensures i in FileObjects(files, k) <==> 1 <= i <= k
  {
    if k > 0 { FileKeys(files, k - 1, i); }
  }

  lemma {:induction false} StemsOnly(files: seq<Packed>, k: nat, n: Name)
    requires k <= |files|
    ensures n in PackedFs(files, k)[ROOT].entries ==> exists j :: 0 <= j < k && Stem(files[j]) == n
  {
    if k > 0 {
      StemsOnly(files, k - 1, n);
      if n == Stem(files[k - 1]) { assert Stem(files[k - 1]) == n; }
    }
  }

  /** The volume after one more file. */
  lemma PackOne(v: Vol, w: Vol, i: nat, data: seq<byte>, start: u32)
    requires Acct(v, {0}) && i < |v.inodes| && v.inodes[i].kind == TYPE_FREE && |data| <= MAX_BUFFER
    requires Wrote(v, w, start, data, 0, SectorsFor(|data|))
    requires FreeRun(v, start, SectorsFor(|data|)) && (data == [] ==> w == v)
    ensures |w.inodes| == |v.inodes| && Acct(Switch(w, i, FileRecord(data, start)), {0})
    ensures Objects(Switch(w, i, FileRecord(data, start))) == Objects(v)[i := Holding(TYPE_FILE, data)]
  {
    hide Acct, Objects, Prepared, Wrote, FileRecord, Owned, Holding, FreeRun, SectorsFor;
    FreeOwnsNothing(v, i);
    RecordPrepared(v, w, data, start);
    Commit(v, {0}, w, i, EmptyRecord(TYPE_FILE), FileRecord(data, start), data, 0);
    assert {0 as nat} + {} == {0 as nat};
  }

  /** The volume after one more file, in terms of the packing loop. */
  lemma VolStep(files: seq<Packed>, k: nat, v: Vol, w: Vol, next: nat)
    requires Packable(files) && Small(files) && k < |files| && VolSoFar(files, k, v, next) && next < DATA_BLOCKS + 1
    requires Wrote(v, w, next, files[k].data, 0, SectorsFor(|files[k].data|)) && (files[k].data == [] ==> w == v)
    ensures |w.inodes| == 128
    ensures VolSoFar(files, k + 1, Switch(w, k + 1, FileRecord(files[k].data, next)),
                     next + SectorsFor(|files[k].data|))
  {
    hide Acct, Objects, Wrote, Packable, RunSet, SectorsFor, FileRecord, FreeRun, PlainTable;
    PackRoom(files, k);
    FileKeys(files, k, k + 1);
    FreeThere(v, k + 1);
    RunAfter(v, next, SectorsFor(|files[k].data|));
    WroteUsed(v, w, next, files[k].data, SectorsFor(|files[k].data|));
    PackOne(v, w, k + 1, files[k].data, next);
    RecordPlain(files[k].data, next);
    PlainPut(v.inodes, Objects(v), k + 1, FileRecord(files[k].data, next), Holding(TYPE_FILE, files[k].data));
  }

  /** One turn of the packing loop: bits, data and inode of file k. */
  method PackFile(files: seq<Packed>, k: nat, d0: Image, next: nat) returns (d: Image)
    requires Packable(files) && k < |files| && Small(files) && GeoOk(Layout(), |d0|)
    requires VolSoFar(files, k, View(Layout(), d0), next)
    ensures |d| == |d0| && d[1] == d0[1]
    ensures VolSoFar(files, k + 1, View(Layout(), d), next + SectorsFor(|files[k].data|))
  {
    hide View, Wrote, Packable, SectorsFor, FileRecord, VolSoFar, FreeRun;
    var f := files[k];
    ghost var v := View(Layout(), d0);
    PackPlace(files, k, v, next);
    d := PackData(d0, next, f.data, v);
    VolStep(files, k, v, View(Layout(), d), next);
    RecordFits(f.data, next);
    ViewPutNode(Layout(), d, k + 1, FileRecord(f.data, next));
    InodeFarFromSuperblock(d, k + 1, FileRecord(f.data, next));
    d := PutNode(Layout(), d, k + 1, FileRecord(f.data, next));
  }

  lemma PackPlace(files: seq<Packed>, k: nat, v: Vol, next: nat)
    requires Packable(files) && k < |files| && Small(files) && VolSoFar(files, k, v, next)
    ensures |v.blocks| == DATA_BLOCKS && next + SectorsFor(|files[k].data|) <= DATA_BLOCKS && k + 1 < 128
    ensures FreeRun(v, next, SectorsFor(|files[k].data|))
  {
    hide Acct, Objects, Packable, SectorsFor, RunSet, FreeRun;
    PackRoom(files, k);
    RunAfter(v, next, SectorsFor(|files[k].data|));
  }

  lemma RecordFits(data: seq<byte>, start: u32)
    requires |data| <= MAX_BUFFER
    ensures Clamp(FileRecord(data, start)) == FileRecord(data, start)
  {}

  lemma FreeThere(v: Vol, i: nat)
    requires i !in Objects(v) && i < |v.inodes|
    ensures v.inodes[i].kind == TYPE_FREE
  {}

  lemma PackRoom(files: seq<Packed>, k: nat)
    requires Packable(files) && k < |files|
    ensures NextBlock(files, k + 1) == NextBlock(files, k) + SectorsFor(|files[k].data|) <= DATA_BLOCKS
    ensures |files| <= ENTRIES_PER_SECTOR
  {
    hide SectorsFor, GoodName;
    NextBlockGrows(files, k + 1, |files|);
  }

  lemma NewStem(files: seq<Packed>, k: nat)
    requires Packable(files) && k < |files|
    ensures Stem(files[k]) !in PackedFs(files, k)[ROOT].entries && ZeroFree(Upper(files[k].name))
    ensures PackedFs(files, k + 1)[ROOT].entries == PackedFs(files, k)[ROOT].entries[Stem(files[k]) := k + 1]
  {
    hide GoodName;
    StemsOnly(files, k, Stem(files[k]));
  }

  /** The root block after the entry of file k. */
  lemma RootStep(files: seq<Packed>, k: nat, root: Sector)
    requires Packable(files) && k < |files| <= ENTRIES_PER_SECTOR && RootSoFar(files, k, root)
    ensures RootSoFar(files, k + 1, PutDirent(root, k, DirentBytes(Upper(files[k].name), k + 1)))
  {
    hide Packable, PackedFs, Row, Slots, Entries, TableOk, PutDirent, DirentBytes;
    var nd := DirentBytes(Upper(files[k].name), k + 1);
    var r := PutDirent(root, k, nd);
    NewStem(files, k);
    FilledTable([root], 0, k, Upper(files[k].name), k + 1);
    assert [root][0 := r] == [r];
    forall e | k + 1 <= e < ENTRIES_PER_SECTOR ensures Row(r)[e].inode == 0 {
      DirentOther(root, k, nd, e);
    }
  }

  // ------------------------------------------------- the finished image

  lemma {:induction false} PackedKeys(files: seq<Packed>, k: nat, i: nat)
    requires k <= |files|
    ensures i in PackedFs(files, k) <==> i <= k
    ensures i in PackedDepth(k) <==> i <= k
    ensures ROOT in PackedDepth(k) && PackedDepth(k)[ROOT] == 0
  {
    if k > 0 { PackedKeys(files, k - 1, i); }
  }

  lemma {:induction false} PackedTree(files: seq<Packed>, k: nat)
    requires Packable(files) && k <= |files|
    ensures TreeOk(PackedFs(files, k), PackedDepth(k))
  {
    hide GoodName, TreeOk, Packable, Stem;
    if k == 0 {
      LoneRoot();
    } else {
      PackedTree(files, k - 1);
      GoodStem(files, k - 1);
      NewStem(files, k - 1);
      PackedKeys(files, k - 1, k);
      TreeGraft(PackedFs(files, k - 1), PackedDepth(k - 1), ROOT, Stem(files[k - 1]), k, File(files[k - 1].data));
    }
  }

  lemma GoodStem(files: seq<Packed>, k: nat)
    requires Packable(files) && k < |files|
    ensures GoodName(Stem(files[k]))
  {}

  lemma {:induction false} PackedNodes(files: seq<Packed>, k: nat)
    requires k <= |files| && Small(files)
    ensures FsOf(FileObjects(files, k))[ROOT := Dir(PackedFs(files, k)[ROOT].entries)] == PackedFs(files, k)
    ensures AllOk(FileObjects(files, k))
  {
    hide NodeOf, ObjOk, FsOf, AllOk, Holding;
    if k > 0 {
      PackedNodes(files, k - 1);
      HoldingNode(TYPE_FILE, files[k - 1].data);
      FsPut(FileObjects(files, k - 1), k, Holding(TYPE_FILE, files[k - 1].data));
    } else {
      NoObjects();
    }
  }

  lemma NoObjects()
    ensures FsOf(map[]) == map[] && AllOk(map[])
  {}

  lemma EmptyRoot(files: seq<Packed>)
    requires |files| <= ENTRIES_PER_SECTOR
    ensures RootSoFar(files, 0, ZeroSector())
  {
    hide Row, Slots, Entries, CString, ZeroSector, Zeros;
    ZeroRows();
    OneBlock(ZeroSector());
    EmptyMeansNoEntries(Slots([ZeroSector()]));
  }

  lemma OneBlock(s: Sector)
    ensures Slots([s]) == Row(s)
  {
    assert [s][..0] == [];
  }

  lemma ZeroRows()
    ensures forall e: nat :: e < ENTRIES_PER_SECTOR ==> Row(ZeroSector())[e].inode == 0
  {
    hide Zeros;
  }

  /** The root directory and all files. */
  ghost function PackedObjects(files: seq<Packed>, root: Sector): map<nat, Obj>
    requires Small(files)
  {
    FileObjects(files, |files|)[ROOT := Obj(TYPE_DIR, SECTOR_SIZE, [root])]
  }

  function RootRecord(): Inode { Stored(EmptyRecord(2), SECTOR_SIZE, 0, 1) }

  /** The root block and the root inode complete the volume. */
  lemma RootVol(files: seq<Packed>, v: Vol, next: nat, root: Sector)
    requires Small(files) && |files| <= ENTRIES_PER_SECTOR
    requires VolSoFar(files, |files|, v, next) && RootSoFar(files, |files|, root)
    ensures Acct(Switch(v.(blocks := v.blocks[0 := root]), 0, RootRecord()), {})
    ensures Objects(Switch(v.(blocks := v.blocks[0 := root]), 0, RootRecord())) == PackedObjects(files, root)
    ensures Plain(Switch(v.(blocks := v.blocks[0 := root]), 0, RootRecord()))
  {
    hide Acct, Objects, Rebooks, RootSoFar, FileObjects, NextBlock, RunSet, ObjOf, RefsOf, PlainTable;
    hide RootRecord, Switch, Owned;
    RootPlain();
    PlainPut(v.inodes, Objects(v), 0, RootRecord(), Obj(TYPE_DIR, SECTOR_SIZE, [root]));
    var w := v.(blocks := v.blocks[0 := root]);
    RootBlock(v, root);
    RebooksAcct(v, {0}, w, {0});
    RootHolds(w, root);
    assert SeqSet([0 as nat]) == {0 as nat} && SeqSet([]) == {};
    SwitchAcct(w, {0}, 0, RootRecord(), [0], {});
    SwitchInodes(w, 0, RootRecord());
  }

  lemma SwitchInodes(v: Vol, i: nat, m: Inode)
    requires i < |v.inodes|
    ensures Switch(v, i, m).inodes == v.inodes[i := m]
  {}

  lemma RootPlain()
    ensures PlainInode(RootRecord()) && RootRecord().kind != TYPE_FREE && RootRecord().extentCount == 1
  {}

  lemma RootHolds(w: Vol, root: Sector)
    requires |w.blocks| > 0 && w.blocks[0] == root
    ensures RefsOf(w, RootRecord()) == [0] && ObjOf(w, RootRecord()) == Obj(TYPE_DIR, SECTOR_SIZE, [root])
  {
    hide RefsOf, ObjOf;
    StoredRefs(w, EmptyRecord(TYPE_DIR), SECTOR_SIZE, 0, 1);
    assert Run(0, 1) == [0];
    assert Load(w, [0]) == [root];
  }

  lemma RootBlock(v: Vol, root: Sector)
    requires Acct(v, {0}) && |v.blocks| > 0 && |v.inodes| > 0 && v.inodes[0].kind == TYPE_FREE
    ensures Rebooks(v, {0}, v.(blocks := v.blocks[0 := root]), {0}) && Owned(v.(blocks := v.blocks[0 := root]), 0) == []
  {}

  /** The image of mknvfs: a layout mount accepts, block ownership without a leak, a tree of
      names, and every packed file with its bytes. */
  method Create(files: seq<Packed>) returns (d: Image)
    requires Packable(files) && Small(files)
    ensures |d| == DISK_SECTORS && GeoOk(Layout(), |d|) && d[1] == Superblock()
    ensures Sound(View(Layout(), d), {}, PackedDepth(|files|))
    ensures FsView(View(Layout(), d)) == PackedFs(files, |files|) && Plain(View(Layout(), d))
  {
    hide View, Packable, VolSoFar, RootSoFar, Sound, FsView, Superblock, Formatted, SectorsFor, PackedFs, Acct,
      Objects, DirentBytes, PutDirent, PlainTable;
    FormattedHas();
    FormattedLength();
    BlankView();
    d := Formatted();
    ViewSetUsed(Layout(), d, 0, true);
    MarkFarFromSuperblock(d, 0);
    FirstVol(files, View(Layout(), d));
    PackLimit(files);
    EmptyRoot(files);
    d := SetUsed(Layout(), d, 0, true);
    var next: nat, root := 1, ZeroSector();
    for k := 0 to |files|
      invariant |d| == DISK_SECTORS && d[1] == Superblock()
      invariant VolSoFar(files, k, View(Layout(), d), next) && RootSoFar(files, k, root)
    {
      d := PackFile(files, k, d, next);
      RootStep(files, k, root);
      root := PutDirent(root, k, DirentBytes(Upper(files[k].name), k + 1));
      next := next + SectorsFor(|files[k].data|);
    }
    ghost var v := View(Layout(), d);
    ViewSizes(d);
    RootVol(files, v, next, root);
    RootTree(files, Switch(v.(blocks := v.blocks[0 := root]), 0, RootRecord()), root);
    ViewPutBlock(Layout(), d, 0, root);
    FarFromSuperblock(d, 0, root);
    d := PutBlock(Layout(), d, 0, root);
    ViewPutNode(Layout(), d, 0, RootRecord());
    InodeFarFromSuperblock(d, 0, RootRecord());
    assert Clamp(RootRecord()) == RootRecord();
    d := PutNode(Layout(), d, 0, RootRecord());
  }

  lemma PackLimit(files: seq<Packed>)
    requires Packable(files)
    ensures 0 < |files| <= ENTRIES_PER_SECTOR
  {}

  lemma FormattedHas()
    ensures |Formatted()| == DISK_SECTORS && Formatted()[1] == Superblock()
  {}

  lemma FirstVol(files: seq<Packed>, v: Vol)
    requires Small(files) && v.used == {} && |v.blocks| == DATA_BLOCKS && |v.inodes| == 128
    requires forall i :: 0 <= i < 128 ==> v.inodes[i].kind == TYPE_FREE
    ensures VolSoFar(files, 0, v.(used := v.used + {0}), 1)
  {
    BlankAcct(v);
    hide Acct, Objects;
    var w := v.(used := v.used + {0});
    assert RunSet(0, 1) == {0};
    RebooksAcct(v, {}, w, {0});
  }

  lemma RootTree(files: seq<Packed>, v: Vol, root: Sector)
    requires Packable(files) && Small(files) && |files| <= ENTRIES_PER_SECTOR
    requires RootSoFar(files, |files|, root) && Acct(v, {})
    requires Objects(v) == PackedObjects(files, root)
    ensures Sound(v, {}, PackedDepth(|files|)) && FsView(v) == PackedFs(files, |files|)
  {
    hide Acct, Objects, TreeOk, PackedFs, NodeOf, ObjOk, Packable, DirHolds, FsOf, AllOk;
    PackedTree(files, |files|);
    PackedNodes(files, |files|);
    FsPut(FileObjects(files, |files|), 0, Obj(TYPE_DIR, SECTOR_SIZE, [root]));
    DirNodeOf(Obj(TYPE_DIR, SECTOR_SIZE, [root]), PackedFs(files, |files|)[ROOT].entries);
  }

  /** Every packed file is listed in the root directory and holds its bytes. */
  lemma {:induction false} PackedFile(files: seq<Packed>, n: nat, k: nat)
    requires Packable(files) && k < n <= |files|
    ensures Names(PackedFs(files, n), ROOT, Stem(files[k]), k + 1)
    ensures k + 1 in PackedFs(files, n) && PackedFs(files, n)[k + 1] == File(files[k].data)
    decreases n
  {
    hide Packable, Stem;
    if k < n - 1 {
      PackedFile(files, n - 1, k);
      NewStem(files, n - 1);
    }
  }

  /** nvfs_mount takes a formatted first drive. */
  lemma MountsFormatted(d: Image)
    requires |d| == DISK_SECTORS && d[1] == Superblock()
    ensures Probe(Some(d), 0) == Some(Layout()) && FirstPlace([Some(d), None, None, None], 0, Layout())
  {
    hide Superblock, ParseGeo;
    SuperblockParses();
    assert NvfsMount.Place([Some(d), None, None, None], 0) == Probe(Some(d), 0);
  }

  /** Without files mknvfs packs an empty root directory. */
  method CreateEmpty() returns (d: Image)
    ensures |d| == DISK_SECTORS && GeoOk(Layout(), |d|) && d[1] == Superblock()
    ensures Sound(View(Layout(), d), {}, PackedDepth(0)) && FsView(View(Layout(), d)) == map[ROOT := Dir(map[])]
    ensures Plain(View(Layout(), d))
  {
    hide View, Sound, FsView, Superblock, Formatted, PutNode;
    FormattedHas();
    BlankView();
    d := Formatted();
    EmptyVol(View(Layout(), d));
    ViewPutNode(Layout(), d, 0, EmptyRecord(TYPE_DIR));
    InodeFarFromSuperblock(d, 0, EmptyRecord(TYPE_DIR));
    d := PutNode(Layout(), d, 0, EmptyRecord(2));
  }

  lemma EmptyVol(v: Vol)
    requires v.used == {} && |v.inodes| == 128 && forall i :: 0 <= i < 128 ==> v.inodes[i].kind == TYPE_FREE
    ensures Sound(Switch(v, 0, EmptyRecord(TYPE_DIR)), {}, PackedDepth(0))
    ensures FsView(Switch(v, 0, EmptyRecord(TYPE_DIR))) == map[ROOT := Dir(map[])]
    ensures Plain(Switch(v, 0, EmptyRecord(TYPE_DIR)))
  {
    hide Acct, Objects, TreeOk, FsOf, AllOk, NodeOf, ObjOk, Holding;
    BlankAcct(v);
    PlainPut(v.inodes, Objects(v), 0, EmptyRecord(TYPE_DIR), Holding(TYPE_DIR, []));
    FreeOwnsNothing(v, 0);
    CommitEmptied(v, {}, 0, EmptyRecord(TYPE_DIR), 0);
    assert Stamped(Emptied(EmptyRecord(TYPE_DIR)), 0) == EmptyRecord(TYPE_DIR);
    var none: set<nat> := {};
    assert none + none == none;
    NoObjects();
    LeafOf(TYPE_DIR, []);
    FsPut(map[], 0, Holding(TYPE_DIR, []));
    LoneRoot();
  }

  lemma FreeOwnsNothing(v: Vol, i: nat)
    requires i < |v.inodes| && v.inodes[i].kind == TYPE_FREE
    ensures SeqSet(Owned(v, i)) == {}
  {}

  /** A good name in the root directory, as a path. */
  lemma RootPath(fs: Fs, n: nat, cwd: nat, name: Name)
    requires GoodName(name)
    ensures Resolve(fs, n, cwd, [SLASH] + name) == Resolved(ROOT, name)
    ensures ZeroFree([SLASH] + name) && NameFits([SLASH] + name) && Key(name) == name && name != []
  {
    var path := [SLASH] + name;
    assert path[1..] == name;
    NoSlash(name);
    LastAfterSlash(path);
  }

  /** The path of a packed file leads to it. */
  lemma PackedSeek(files: seq<Packed>, k: nat, cwd: nat)
    requires Packable(files) && k < |files|
    ensures Seek(PackedFs(files, |files|), 128, cwd, [SLASH] + Stem(files[k])) == Present(ROOT, Stem(files[k]), k + 1)
    ensures ZeroFree([SLASH] + Stem(files[k])) && NameFits([SLASH] + Stem(files[k]))
  {
    hide Packable, Stem, PackedFs, Resolve, GoodName;
    GoodStem(files, k);
    PackedFile(files, |files|, k);
    RootPath(PackedFs(files, |files|), 128, cwd, Stem(files[k]));
  }

  /** Format, mount and read: a packed file reads back as its first max bytes. */
  method FormatMountRead(files: seq<Packed>, k: nat, max: nat) returns (ret: int, out: seq<byte>)
    requires Packable(files) && Small(files) && k < |files|
    ensures ret >= 0 && out == Take(files[k].data, max)
  {
    hide Packable, View, Sound, FsView, PackedFs, Superblock, Seek, NameFits, Stem, FirstPlace, Probe;
    var d := Create(files);
    MountsFormatted(d);
    var at, geo := MountAt([Some(d), None, None, None], 0, Layout());
    var drive := new Drive(geo, d);
    ViewSizes(d);
    var fs := new FileSystem(drive, {}, PackedDepth(|files|));
    PackedSeek(files, k, ROOT);
    PackedFile(files, |files|, k);
    ret, out := fs.Read([SLASH] + Stem(files[k]), max);
  }

  // ------------------------------------------------- the boot image

  /** 1474560 bytes of boot code: as many sectors as nvfs_mount skips at its second place. */
  const BOOT_SECTORS := 2880

  /** A formatted volume behind boot sectors that carry none is mounted with their number as offset. */
  lemma MountsBehind(before: Image, d: Image)
    requires |before| == BOOT_SECTORS && Probe(Some(before), 0) == None
    requires |d| == DISK_SECTORS && d[1] == Superblock()
    ensures FirstPlace([Some(before + d), None, None, None], 1, Layout().(offset := BOOT_SECTORS))
  {
    hide Superblock, ParseGeo;
    SuperblockParses();
    ParseOffset(Superblock(), BOOT_SECTORS);
    var drives := [Some(before + d), None, None, None];
    assert (before + d)[1] == before[1] && (before + d)[BOOT_SECTORS + 1] == d[1];
    assert NvfsMount.Place(drives, 0) == None;
    assert NvfsMount.Place(drives, 1) == Some(Layout().(offset := BOOT_SECTORS));
  }

  lemma ParseOffset(s: Sector, offset: nat)
    ensures ParseGeo(s, offset) == ParseGeo(s, 0).(offset := offset)
  {}

  /** The image for a USB stick, boot code and volume in one: mounted there, the packed files read back. */
  method BootMountRead(before: Image, files: seq<Packed>, k: nat, max: nat) returns (ret: int, out: seq<byte>)
    requires |before| == BOOT_SECTORS && Probe(Some(before), 0) == None
    requires Packable(files) && Small(files) && k < |files|
    ensures ret >= 0 && out == Take(files[k].data, max)
  {
    hide Packable, View, Sound, FsView, PackedFs, Superblock, Seek, NameFits, Stem, FirstPlace, Probe;
    var d := Create(files);
    MountsBehind(before, d);
    ViewBehind(Layout(), before, d);
    var at, geo := MountAt([Some(before + d), None, None, None], 1, Layout().(offset := BOOT_SECTORS));
    var drive := new Drive(geo, before + d);
    ViewSizes(d);
    var fs := new FileSystem(drive, {}, PackedDepth(|files|));
    PackedSeek(files, k, ROOT);
    PackedFile(files, |files|, k);
    ret, out := fs.Read([SLASH] + Stem(files[k]), max);
  }
}
