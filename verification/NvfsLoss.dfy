/** Directories of 14 extents without a free slot, where dir_add loses an entry: how many inodes that
    takes, and a volume on which it happens. */
module NvfsLoss {
  import opened Bytes
  import opened Collections
  import opened NvfsFormat
  import opened NvfsVolume
  import opened NvfsDriver
  import opened NvfsCommit
  import opened NvfsFiles
  import opened NvfsSlots
  import opened NvfsDirs
  import opened NvfsDirAdd
  import opened NvfsSpace
  import opened NvfsTree
  import opened NvfsNamespace
  import opened NvfsUpdates

  // ------------------------------------------------- full directories

  ghost function Inodes(slots: seq<Dirent>, n: nat): set<nat>
    requires n <= |slots|
    ensures forall i :: i in Inodes(slots, n) <==> exists k :: 0 <= k < n && slots[k].inode == i
  {
    if n == 0 then {} else Inodes(slots, n - 1) + {slots[n - 1].inode}
  }

  /** Two live slots of a directory hold different inodes. */
  lemma DistinctSlots(fs: Fs, depth: map<nat, nat>, dir: nat, slots: seq<Dirent>, j: nat, k: nat)
    requires TreeOk(fs, depth) && DirNode(fs, dir) && fs[dir].entries == Entries(slots) && Unique(slots)
    requires j < k < |slots| && Live(slots[j]) && Live(slots[k])
    ensures slots[j].inode != slots[k].inode
  {
    hide GoodName, TreeOk, Entries, CString;
    EntryOf(slots, j);
    EntryOf(slots, k);
    assert Names(fs, dir, CString(slots[j].name), slots[j].inode);
    assert Names(fs, dir, CString(slots[k].name), slots[k].inode);
    EntryFacts(fs, depth, dir, CString(slots[j].name), slots[j].inode);
  }

  lemma {:induction false} DistinctInodes(fs: Fs, depth: map<nat, nat>, dir: nat, slots: seq<Dirent>, n: nat)
    requires TreeOk(fs, depth) && DirNode(fs, dir) && fs[dir].entries == Entries(slots) && Unique(slots) && n <= |slots|
    requires forall k :: 0 <= k < |slots| ==> Live(slots[k])
    ensures |Inodes(slots, n)| == n
  {
    hide TreeOk, Entries, Unique, Live, Inodes, DirNode;
    if n == 0 {
      NoInodes(slots);
    } else {
      DistinctInodes(fs, depth, dir, slots, n - 1);
      forall k | 0 <= k < n - 1 ensures slots[k].inode != slots[n - 1].inode {
        DistinctSlots(fs, depth, dir, slots, k, n - 1);
      }
      OneInodeMore(slots, n - 1);
    }
  }

  lemma NoInodes(slots: seq<Dirent>)
    ensures Inodes(slots, 0) == {}
  {}

  lemma OneInodeMore(slots: seq<Dirent>, n: nat)
    requires n < |slots| && forall k :: 0 <= k < n ==> slots[k].inode != slots[n].inode
    ensures |Inodes(slots, n + 1)| == |Inodes(slots, n)| + 1
  {
    var last: nat := slots[n].inode;
    assert last !in Inodes(slots, n);
    assert Inodes(slots, n + 1) == Inodes(slots, n) + {last};
    hide Inodes;
  }

  lemma FewerThan(s: set<nat>, n: nat)
    requires n > 0 && forall i :: i in s ==> 1 <= i < n
    ensures |s| < n
  {
    hide RunSet;
    RunSize(1, n - 1);
    SubsetSize(s, RunSet(1, n - 1));
  }

  /** A directory without a free slot has fewer slots than the table has inodes, and one less if an
      inode is free. */
  lemma FullDirectoryNeedsInodes(v: Vol, leaked: set<nat>, depth: map<nat, nat>, dir: nat)
    requires Sound(v, leaked, depth) && IsDir(v, dir) && !HasSlot(v, dir)
    ensures |Table(v, dir)| < |v.inodes| && (HasFreeInode(v) ==> |Table(v, dir)| + 1 < |v.inodes|)
  {
    hide Sound, HasSlot, FsView, Table, FreeInode;
    var live := ListedInodes(v, leaked, depth, dir);
    FewerThan(live, |v.inodes|);
    if HasFreeInode(v) {
      var r: nat :| FreeInode(v, r);
      FreeRange(v, r);
      FewerThan(live + {r}, |v.inodes|);
    }
  }

  lemma FreeRange(v: Vol, r: nat)
    requires FreeInode(v, r)
    ensures 1 <= r < |v.inodes|
  {}

  /** The inodes that a directory without a free slot lists, one for each slot. */
  lemma ListedInodes(v: Vol, leaked: set<nat>, depth: map<nat, nat>, dir: nat) returns (live: set<nat>)
    requires Sound(v, leaked, depth) && IsDir(v, dir) && !HasSlot(v, dir)
    ensures |live| == |Table(v, dir)| && forall i :: i in live ==> 1 <= i < |v.inodes| && !FreeInode(v, i)
  {
    hide GoodName, Acct, FsView, Table, Entries, TreeOk;
    var fs, slots := FsView(v), Table(v, dir);
    SoundParts(v, leaked, depth, dir);
    forall k | 0 <= k < |slots| ensures Live(slots[k]) {}
    DistinctInodes(fs, depth, dir, slots, |slots|);
    live := Inodes(slots, |slots|);
    forall i | i in live ensures 1 <= i < |v.inodes| && !FreeInode(v, i) {
      var k :| 0 <= k < |slots| && slots[k].inode == i;
      EntryOf(slots, k);
      assert Names(fs, dir, CString(slots[k].name), i);
      EntryFacts(fs, depth, dir, CString(slots[k].name), i);
      Linked(v, i);
    }
  }

  /** On the volumes that the formatter and the driver make, a directory of 14 extents without a free
      slot needs more than 224 inodes, and a call that loses an entry there more than 225. */
  lemma LossNeedsInodes(v: Vol, leaked: set<nat>, depth: map<nat, nat>, dir: nat)
    requires Sound(v, leaked, depth) && Plain(v) && IsDir(v, dir)
    ensures !Roomy(v, dir) ==> |v.inodes| > ENTRIES_PER_SECTOR * MAX_EXTENTS == 224
    ensures !Roomy(v, dir) && HasFreeInode(v) ==> |v.inodes| > 225
  {
    hide Sound, HasSlot, ObjOf, Objects, HasFreeInode;
    if !Roomy(v, dir) {
      FullDirectoryNeedsInodes(v, leaked, depth, dir);
      ObjSelf(v, dir);
    }
  }

  // ------------------------------------------------- a volume that is full in this way

  const FULL := 224

  /** 224 names of two letters. */
  function NameOf(k: nat): Name
    requires k < FULL
  {
    [65 + k / 16, 65 + k % 16]
  }

  lemma NameGood(k: nat)
    requires k < FULL
    ensures GoodName(NameOf(k)) && ZeroFree(NameOf(k)) && Key(NameOf(k)) == NameOf(k)
  {
    hide Upper;
    var n := NameOf(k);
    assert Upper(n) == n;
  }

  lemma NamesDiffer(j: nat, k: nat)
    requires j < FULL && k < FULL && NameOf(j) == NameOf(k)
    ensures j == k
  {
    assert NameOf(j)[0] == NameOf(k)[0] && NameOf(j)[1] == NameOf(k)[1];
  }

  /** Block p of the directory with its first n slots filled: name k is inode k + 1. */
  function Page(p: nat, n: nat): Sector
    requires p < MAX_EXTENTS && n <= ENTRIES_PER_SECTOR
  {
    if n == 0 then ZeroSector()
    else
      var k := ENTRIES_PER_SECTOR * p + n - 1;
      PutDirent(Page(p, n - 1), n - 1, DirentBytes(NameOf(k), k + 1))
  }

  lemma {:induction false} PageSlot(p: nat, n: nat, e: nat)
    requires p < MAX_EXTENTS && e < n <= ENTRIES_PER_SECTOR
    ensures Row(Page(p, n))[e].inode == ENTRIES_PER_SECTOR * p + e + 1
    ensures CString(Row(Page(p, n))[e].name) == NameOf(ENTRIES_PER_SECTOR * p + e)
  {
    hide Row, PutDirent, DirentBytes, CString, NameOf;
    var k := ENTRIES_PER_SECTOR * p + n - 1;
    var nd := DirentBytes(NameOf(k), k + 1);
    if e == n - 1 {
      NameGood(k);
      DirentRead(Page(p, n - 1), e, nd);
      DirentHolds(NameOf(k), k + 1);
    } else {
      DirentOther(Page(p, n - 1), n - 1, nd, e);
      PageSlot(p, n - 1, e);
    }
  }

  /** The indirect block: the fourteenth extent is block 13. */
  function Fourteenth(): Sector { PutU32(PutU32(ZeroSector(), 0, 13), 4, 1) }

  lemma FourteenthHolds()
    ensures ExtentsFrom(Fourteenth(), 0, 1) == [Extent(13, 1)]
  {
    hide GetU32, PutU32;
    var s := PutU32(ZeroSector(), 0, 13);
    GetPutU32(ZeroSector(), 0, 13, 0);
    GetPutU32(s, 4, 1, 0);
    GetPutU32(s, 4, 1, 4);
  }

  function FullRoot(): Inode {
    InodeFields(SECTOR_SIZE * MAX_EXTENTS, TYPE_DIR, 0, 0, 0, MAX_EXTENTS,
                seq(13, i requires 0 <= i < 13 => Extent(i, 1)) + [Extent(14, 0)], 0)
  }

  function EmptyFile(kind: byte): Inode { InodeFields(0, kind, 0, 0, 0, 0, NoExtents(), 0) }

  /** A root directory of 14 blocks that lists 224 empty files, and one free inode and block. */
  ghost predicate IsFull(v: Vol) {
    && v.used == RunSet(0, 15) && |v.inodes| == FULL + 2 && |v.blocks| == 16
    && v.inodes[0] == FullRoot() && v.inodes[FULL + 1] == EmptyFile(TYPE_FREE)
    && (forall i :: 1 <= i <= FULL ==> v.inodes[i] == EmptyFile(TYPE_FILE))
    && (forall p: nat :: p < MAX_EXTENTS ==> v.blocks[p] == Page(p, ENTRIES_PER_SECTOR))
    && v.blocks[14] == Fourteenth()
  }

  // ------------------------------------------------- its blocks

  lemma {:induction false} UnitExtents(es: seq<Extent>)
    requires forall i :: 0 <= i < |es| ==> es[i].start == i && es[i].count == 1
    ensures BlockList(es) == Run(0, |es|)
  {
    if es != [] {
      UnitExtents(es[..|es| - 1]);
      assert Run(|es| - 1, 1) == [|es| - 1];
    }
  }

  lemma RootBlocks(v: Vol, n: nat)
    requires IsFull(v) && n == 14
    ensures BlockList(ExtentsOf(v, FullRoot())) == Run(0, n) && IndirectBlock(FullRoot()) == [n]
  {
    hide Page, Fourteenth, BlockList, Run, ExtentsFrom;
    FourteenthHolds();
    var es := ExtentsOf(v, FullRoot());
    assert |es| == 14 && forall i :: 0 <= i < 14 ==> es[i].start == i && es[i].count == 1;
    UnitExtents(es);
  }

  lemma FullOwned(v: Vol, n: nat)
    requires IsFull(v) && n == 14
    ensures Owned(v, 0) == Run(0, n) + [n]
    ensures forall i :: 1 <= i < |v.inodes| ==> Owned(v, i) == []
  {
    hide IsFull, FullRoot, BlockList, Run, ExtentsOf, IndirectBlock;
    RootBlocks(v, n);
    RootIs(v);
    forall i | 1 <= i < |v.inodes| ensures Owned(v, i) == [] {
      Counts(v, i);
      NoBlocksOf(v, i);
    }
  }

  lemma RootIs(v: Vol)
    requires IsFull(v)
    ensures |v.inodes| > 0 && v.inodes[0] == FullRoot() && FullRoot().kind == TYPE_DIR
  {
    hide Page, Fourteenth, RunSet;
  }

  lemma Counts(v: Vol, i: nat)
    requires IsFull(v) && 1 <= i < |v.inodes|
    ensures v.inodes[i].extentCount == 0
  {
    hide Page, Fourteenth, RunSet, FullRoot;
  }

  lemma NoBlocksOf(v: Vol, i: nat)
    requires i < |v.inodes| && v.inodes[i].extentCount == 0
    ensures Owned(v, i) == []
  {}

  /** One inode owns all marked blocks. */
  lemma OneOwner(v: Vol, n: nat)
    requires |v.inodes| > 0 && n < |v.blocks| && v.used == RunSet(0, n + 1)
    requires Owned(v, 0) == Run(0, n) + [n] && forall i :: 1 <= i < |v.inodes| ==> Owned(v, i) == []
    ensures Acct(v, {})
  {
    hide Owned, Run, RunSet;
    forall b: nat ensures b in Owned(v, 0) <==> b <= n {
      if b < n { assert Owned(v, 0)[b] == b; }
      if b == n { assert Owned(v, 0)[n] == n; }
    }
    forall b: nat | b < |v.blocks| && b in v.used ensures Referenced(v, b) { assert b in Owned(v, 0); }
    assert NoDup(Owned(v, 0));
    forall i: nat | i < |v.inodes| ensures SoundInode(v, {}, i) {
      if i > 0 { assert Owned(v, i) == []; }
    }
    forall i: nat, j: nat | i < j < |v.inodes| ensures Apart(Owned(v, i), Owned(v, j)) { assert Owned(v, j) == []; }
  }

  lemma FullAcct(v: Vol)
    requires IsFull(v)
    ensures Acct(v, {})
  {
    hide Acct, Owned, Run, RunSet, Page, Fourteenth;
    var n := 14;
    FullOwned(v, n);
    OneOwner(v, n);
  }

  // ------------------------------------------------- its tree

  /** The directory's slots: name k is inode k + 1. */
  ghost predicate FullSlots(slots: seq<Dirent>) {
    |slots| == FULL && forall k :: 0 <= k < FULL ==> slots[k].inode == k + 1 && CString(slots[k].name) == NameOf(k)
  }

  lemma RootTable(v: Vol)
    requires IsFull(v)
    ensures IsDir(v, 0) && FullSlots(Table(v, 0)) && |ObjOf(v, v.inodes[0]).blocks| == 14
  {
    hide Slots, Row, Run, RunSet, BlockList, ExtentsOf, Fourteenth, CString, NameOf, Page;
    var n := 14;
    RootBlocks(v, n);
    var secs := Load(v, Run(0, n));
    forall k | 0 <= k < FULL ensures Slots(secs)[k].inode == k + 1 && CString(Slots(secs)[k].name) == NameOf(k) {
      var p, e := k / ENTRIES_PER_SECTOR, k % ENTRIES_PER_SECTOR;
      SlotAt(secs, p, e);
      PageSlot(p, ENTRIES_PER_SECTOR, e);
    }
  }

  lemma SlotsOk(slots: seq<Dirent>)
    requires FullSlots(slots)
    ensures TableOk(slots) && forall k :: 0 <= k < |slots| ==> slots[k].inode != 0
  {
    hide CString, NameOf;
    forall j, k | 0 <= j < k < |slots| ensures CString(slots[j].name) != CString(slots[k].name) {
      if NameOf(j) == NameOf(k) { NamesDiffer(j, k); }
    }
  }

  /** The map lists exactly the 224 names. */
  ghost predicate FullMap(m: map<Name, nat>) {
    && (forall k: nat :: k < FULL ==> NameOf(k) in m && m[NameOf(k)] == k + 1)
    && (forall n :: n in m ==> 1 <= m[n] <= FULL && n == NameOf(m[n] - 1))
  }

  lemma SlotsMap(slots: seq<Dirent>)
    requires FullSlots(slots)
    ensures FullMap(Entries(slots))
  {
    hide CString, NameOf, Entries;
    SlotsOk(slots);
    forall k: nat | k < FULL ensures NameOf(k) in Entries(slots) && Entries(slots)[NameOf(k)] == k + 1 {
      EntryOf(slots, k);
    }
    forall n | n in Entries(slots) ensures 1 <= Entries(slots)[n] <= FULL && n == NameOf(Entries(slots)[n] - 1) {
      var k := EntriesSound(slots, n);
    }
  }

  /** A root that lists 224 files. */
  ghost predicate FullTree(fs: Fs) {
    && (forall i: nat :: i in fs <==> i <= FULL)
    && fs[ROOT].Dir? && FullMap(fs[ROOT].entries)
    && forall i :: 1 <= i <= FULL ==> fs[i] == File([])
  }

  lemma FullTreeOk(fs: Fs) returns (depth: map<nat, nat>)
    requires FullTree(fs)
    ensures TreeOk(fs, depth)
  {
    hide NameOf, GoodName;
    depth := map i | i in fs :: if i == ROOT then 0 else 1;
    forall p: nat, n: Name, c: nat | Names(fs, p, n, c) ensures p == ROOT && 1 <= c <= FULL && n == NameOf(c - 1) {}
    forall p: nat, n: Name, c: nat | Names(fs, p, n, c) ensures EntryOk(fs, depth, p, n, c) { NameGood(c - 1); }
    forall c: nat | c in fs && c != ROOT ensures Named(fs, c) { assert Names(fs, ROOT, NameOf(c - 1), c); }
  }

  lemma EmptyObject(v: Vol, kind: byte)
    ensures ObjOf(v, EmptyFile(kind)) == Obj(kind, 0, [])
    ensures NodeOf(Obj(TYPE_FILE, 0, [])) == File([]) && ObjOk(Obj(TYPE_FILE, 0, []))
  {}

  lemma FileNode(v: Vol, i: nat)
    requires IsFull(v) && i > 0
    ensures i in FsView(v) <==> i <= FULL
    ensures i <= FULL ==> i in Objects(v) && ObjOk(Objects(v)[i]) && FsView(v)[i] == File([])
  {
    hide ObjOf, Page, Fourteenth, RunSet, FsView, Objects, NodeOf, ObjOk, FullRoot;
    Linked(v, i);
    EmptyObject(v, TYPE_FILE);
    if i <= FULL { ObjSelf(v, i); }
  }

  lemma RootNode(v: Vol)
    requires IsFull(v)
    ensures 0 in Objects(v) && ObjOk(Objects(v)[0]) && 0 in FsView(v)
    ensures FsView(v)[0].Dir? && FullMap(FsView(v)[0].entries)
  {
    RootTable(v);
    hide ObjOf, Page, Fourteenth, RunSet, FsView, Objects, Entries, TableOk, FullMap, FullSlots, IsFull;
    SlotsMap(Table(v, 0));
    SlotsOk(Table(v, 0));
    Linked(v, 0);
    ObjSelf(v, 0);
    ObjFields(v, v.inodes[0]);
  }

  lemma FullView(v: Vol)
    requires IsFull(v)
    ensures FullTree(FsView(v)) && AllOk(Objects(v))
  {
    hide IsFull, FsView, Objects, ObjOk, FullMap;
    RootNode(v);
    forall i: nat | i > 0
      ensures i in FsView(v) <==> i <= FULL
      ensures i <= FULL ==> i in Objects(v) && ObjOk(Objects(v)[i]) && FsView(v)[i] == File([])
    {
      FileNode(v, i);
    }
    forall i | i in Objects(v) ensures ObjOk(Objects(v)[i]) {
      ObjectsOnly(v, i);
    }
  }

  lemma ObjectsOnly(v: Vol, i: nat)
    requires IsFull(v) && i in Objects(v)
    ensures i <= FULL
  {
    hide ObjOf, Page, Fourteenth, RunSet, FullRoot;
  }

  lemma Kinds(v: Vol, i: nat)
    requires IsFull(v) && i < |v.inodes|
    ensures i > 0 ==> v.inodes[i].kind != TYPE_DIR && PlainInode(v.inodes[i])
    ensures i == 0 ==> PlainInode(v.inodes[i]) && v.inodes[i].kind == TYPE_DIR && v.inodes[i].extentCount == 14
  {
    hide Page, Fourteenth, RunSet;
  }

  lemma FullPlain(v: Vol)
    requires IsFull(v)
    ensures Plain(v)
  {
    hide ObjOf, Objects, Table, FullSlots, IsFull, PlainInode;
    RootTable(v);
    ObjSelf(v, 0);
    forall i | 0 <= i < |v.inodes|
      ensures PlainInode(v.inodes[i])
      ensures v.inodes[i].kind == TYPE_DIR ==> i in Objects(v) && v.inodes[i].extentCount <= |Objects(v)[i].blocks|
    {
      Kinds(v, i);
    }
  }

  /** There is room for one more object, but its entry would be lost. */
  lemma FullLoses(v: Vol)
    requires IsFull(v)
    ensures IsDir(v, 0) && !Roomy(v, 0) && Creatable(v, 0, []) && TableSuffices(v) && |v.inodes| == 226
  {
    RootTable(v);
    SlotsOk(Table(v, 0));
    assert FreeInode(v, FULL + 1);
    assert 15 < |v.blocks| && 15 !in v.used;
    hide IsFull, Table, RunSet;
    OneFree(v);
    Sectors(0);
  }

  lemma FullExists() returns (v: Vol)
    ensures IsFull(v)
  {
    hide Page, Fourteenth, RunSet, FullRoot, EmptyFile, ZeroSector;
    var pages := seq(MAX_EXTENTS, p requires 0 <= p < MAX_EXTENTS => Page(p, ENTRIES_PER_SECTOR));
    var files := seq(FULL, i => EmptyFile(TYPE_FILE));
    v := Vol(RunSet(0, 15), [FullRoot()] + files + [EmptyFile(TYPE_FREE)], pages + [Fourteenth(), ZeroSector()]);
  }

  /** Such a volume exists, so both bounds are met: with 226 inodes, creating a file in a directory of
      14 extents can succeed and lose the entry. */
  lemma LossHappens() returns (v: Vol, depth: map<nat, nat>)
    ensures Sound(v, {}, depth) && Plain(v)
    ensures IsDir(v, 0) && !Roomy(v, 0) && Creatable(v, 0, []) && TableSuffices(v) && |v.inodes| == 226
  {
    hide IsFull, Acct, AllOk, TreeOk, FsView, Objects, Plain, Creatable, Roomy, TableSuffices;
    v := FullExists();
    FullAcct(v);
    FullView(v);
    depth := FullTreeOk(FsView(v));
    FullPlain(v);
    FullLoses(v);
  }
}
