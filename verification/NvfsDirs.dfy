/** Directory operations of kernel/drivers/nvfs.c on the drive. */
module NvfsDirs {
  import opened Bytes
  import opened NvfsFormat
  import opened NvfsVolume
  import opened NvfsDriver
  import opened NvfsContents
  import opened NvfsExtents
  import opened NvfsSlots
  import opened NvfsCommit
  import opened NvfsFiles

  /** The byte-by-byte comparison of dir_find and dir_remove. */
  method NameMatches(stored: seq<byte>, key: Name) returns (m: bool)
    requires |stored| == 28 && |key| <= MAX_NAME && ZeroFree(key)
    ensures m <==> CString(stored) == key
  {
    m := true;
    var k := 0;
    while k < |key|
      invariant 0 <= k <= |key| && stored[..k] == key[..k]
    {
      if stored[k] != key[k] {
        assert stored[..|key|][k] != key[k];
        return false;
      }
      k := k + 1;
    }
    if stored[|key|] != 0 { return false; }
    CStringUnique(stored, key);
  }

  method MatchInSector(tmp: Sector, key: Name) returns (e: int)
    requires |key| <= MAX_NAME && ZeroFree(key)
    ensures -1 <= e < ENTRIES_PER_SECTOR
    ensures e >= 0 ==> Matches(Row(tmp)[e], key)
    ensures forall f: nat :: f < ENTRIES_PER_SECTOR && (f < e || e < 0) ==> !Matches(Row(tmp)[f], key)
  {
    hide CString;
    e := 0;
    while e < ENTRIES_PER_SECTOR
      invariant 0 <= e <= ENTRIES_PER_SECTOR
      invariant forall f: nat :: f < e ==> !Matches(Row(tmp)[f], key)
    {
      var off := e * DIRENT_SIZE;
      if GetU32(tmp, off + 28) != 0 {
        var m := NameMatches(tmp[off..off + 28], key);
        if m { return; }
      }
      e := e + 1;
    }
    e := -1;
  }

  /** Slot e of block number p of the directory, or e == -1. */
  ghost predicate SpotOk(v: Vol, bs: seq<nat>, e: int, block: nat, tmp: Sector, p: nat) {
    -1 <= e < ENTRIES_PER_SECTOR && (e >= 0 ==> p < |bs| && block == bs[p] && tmp == Blk(v, block))
  }

  ghost predicate NoneBefore(slots: seq<Dirent>, key: Name, n: int) {
    forall k :: 0 <= k < n && k < |slots| ==> !Matches(slots[k], key)
  }

  lemma NoneInSector(bs: seq<Sector>, p: nat, key: Name)
    requires p < |bs| && NoneBefore(Slots(bs), key, ENTRIES_PER_SECTOR * p)
    requires forall f: nat :: f < ENTRIES_PER_SECTOR ==> !Matches(Row(bs[p])[f], key)
    ensures NoneBefore(Slots(bs), key, ENTRIES_PER_SECTOR * (p + 1))
  {
    hide Slots, Row, Matches;
    var base := ENTRIES_PER_SECTOR * p;
    forall k | base <= k < base + ENTRIES_PER_SECTOR ensures k < |Slots(bs)| && !Matches(Slots(bs)[k], key) {
      SlotIn(bs, p, base, k);
    }
  }

  /** The scan of dir_find and dir_remove over extents, blocks and slots. */
  method Locate(dr: Drive, es: seq<Extent>, key: Name) returns (e: int, block: nat, tmp: Sector, ghost p: nat)
    requires dr.Valid() && |key| <= MAX_NAME && ZeroFree(key)
    requires forall b :: b in BlockList(es) ==> b < |dr.vol.blocks|
    ensures SpotOk(dr.vol, BlockList(es), e, block, tmp, p)
    ensures e >= 0 ==> Matches(Row(tmp)[e], key)
    ensures e < 0 ==> NoneBefore(Slots(Load(dr.vol, BlockList(es))), key, |Slots(Load(dr.vol, BlockList(es)))|)
  {
    hide Drive.Valid, Drive.Logged, BlockList, Slots, Matches;
    e, block, tmp, p := -1, 0, ZeroSector(), 0;
    ghost var bs := BlockList(es);
    ghost var secs := Load(dr.vol, bs);
    NoBlocks(es);
    for i := 0 to |es|
      invariant |BlockList(es[..i])| <= |bs| && e == -1
      invariant NoneBefore(Slots(secs), key, ENTRIES_PER_SECTOR * |BlockList(es[..i])|)
    {
      BlockListGrows(es, i);
      for j := 0 to es[i].count
        invariant e == -1 && NoneBefore(Slots(secs), key, ENTRIES_PER_SECTOR * (|BlockList(es[..i])| + j))
      {
        BlockListAt(es, i, j);
        p := |BlockList(es[..i])| + j;
        assert bs[p] in bs;
        var ok;
        ok, tmp := dr.ReadBlock(es[i].start + j);
        if !ok { return; }
        e := MatchInSector(tmp, key);
        if e >= 0 {
          block := es[i].start + j;
          return;
        }
        NoneInSector(secs, p, key);
      }
    }
    assert es[..|es|] == es;
  }

  /** The slot table of directory i. */
  ghost function Table(v: Vol, i: nat): seq<Dirent>
    requires i < |v.inodes|
  {
    Slots(ObjOf(v, v.inodes[i]).blocks)
  }

  /** A slot table without duplicates whose inode numbers fit a C int. */
  ghost predicate TableOk(slots: seq<Dirent>) {
    Unique(slots) && forall k :: 0 <= k < |slots| ==> slots[k].inode < 0x8000_0000
  }

  ghost predicate IsDir(v: Vol, i: nat) {
    i < |v.inodes| && v.inodes[i].kind == TYPE_DIR
  }

  lemma TableBlocks(v: Vol, leaked: set<nat>, i: nat)
    requires Acct(v, leaked) && IsDir(v, i)
    ensures forall b :: b in BlockList(ExtentsOf(v, v.inodes[i])) ==> b < |v.blocks|
    ensures v.inodes[i].extentCount > DIRECT_EXTENTS ==> v.inodes[i].extents[DIRECT_EXTENTS].start < |v.blocks|
    ensures Table(v, i) == Slots(Load(v, BlockList(ExtentsOf(v, v.inodes[i]))))
  {
    OwnedInRange(v, leaked, i);
  }

  /** The slot found by Locate, in the table. */
  lemma SpotSlot(v: Vol, bs: seq<nat>, e: int, block: nat, tmp: Sector, p: nat)
    requires SpotOk(v, bs, e, block, tmp, p) && e >= 0
    ensures ENTRIES_PER_SECTOR * p + e < |Slots(Load(v, bs))|
    ensures Slots(Load(v, bs))[ENTRIES_PER_SECTOR * p + e] == Row(tmp)[e]
  {
    SlotAt(Load(v, bs), p, e);
  }

  /** What the scan tells about the map. */
  lemma LocateMeans(v: Vol, bs: seq<nat>, key: Name, e: int, block: nat, tmp: Sector, p: nat)
    requires TableOk(Slots(Load(v, bs))) && SpotOk(v, bs, e, block, tmp, p)
    requires e >= 0 ==> Matches(Row(tmp)[e], key)
    requires e < 0 ==> NoneBefore(Slots(Load(v, bs)), key, |Slots(Load(v, bs))|)
    ensures e >= 0 <==> key in Entries(Slots(Load(v, bs)))
    ensures e >= 0 ==> Live(Row(tmp)[e]) && CString(Row(tmp)[e].name) == key
    ensures e >= 0 ==> Entries(Slots(Load(v, bs)))[key] == GetU32(tmp, DIRENT_SIZE * e + 28) < 0x8000_0000
  {
    hide Slots, Row, Unique, Entries, CString, Load;
    NoMatch(Slots(Load(v, bs)), key);
    if e >= 0 {
      SpotSlot(v, bs, e, block, tmp, p);
      EntryOf(Slots(Load(v, bs)), ENTRIES_PER_SECTOR * p + e);
      RowInode(tmp, e);
    }
  }

  ghost function FindError(v: Vol, dir: nat): int {
    if dir >= |v.inodes| then ERR_IO else if !IsDir(v, dir) then ERR_NOT_DIR else ERR_NOT_FOUND
  }

  /** dir_find: look-up in the map of the directory. */
  method DirFind(dr: Drive, dir: nat, name: seq<byte>, ghost leaked: set<nat>) returns (r: int)
    requires dr.Valid() && Acct(dr.vol, leaked) && ZeroFree(name)
    requires IsDir(dr.vol, dir) ==> TableOk(Table(dr.vol, dir))
    modifies dr`errno
    ensures r >= 0 <==> IsDir(dr.vol, dir) && Key(name) in Entries(Table(dr.vol, dir))
    ensures r >= 0 ==> r == Entries(Table(dr.vol, dir))[Key(name)] && dr.errno == old(dr.errno)
    ensures r < 0 ==> r == -1 && dr.errno == FindError(dr.vol, dir)
  {
    hide Drive.Valid, Drive.Logged, Acct, BlockList, ExtentsOf, Slots, TableOk, Entries, Row, CString, Table,
      NoneBefore, Matches, Load, PlainTable;
    r := -1;
    var got, n := dr.InodeRead(dir);
    if !got { dr.errno := ERR_IO; return; }
    if n.kind != TYPE_DIR { dr.errno := ERR_NOT_DIR; return; }
    TableBlocks(dr.vol, leaked, dir);
    CountClamped(dr, dir);
    var loaded, es := dr.ExtentLoadAll(n);
    if !loaded { return; }
    var e, block, tmp, p := Locate(dr, es, Key(name));
    LocateMeans(dr.vol, BlockList(es), Key(name), e, block, tmp, p);
    if e >= 0 {
      return GetU32(tmp, DIRENT_SIZE * e + 28);
    }
    dr.errno := ERR_NOT_FOUND;
  }

  lemma RowInode(tmp: Sector, e: nat)
    requires e < ENTRIES_PER_SECTOR
    ensures Row(tmp)[e].inode == GetU32(tmp, DIRENT_SIZE * e + 28)
  {}

  /** `o` is a directory standing for the map m. */
  ghost predicate DirHolds(o: Obj, m: map<Name, nat>) {
    o.kind == TYPE_DIR && TableOk(Slots(o.blocks)) && Entries(Slots(o.blocks)) == m
  }

  lemma ClearRow(tmp: Sector, e: nat)
    requires e < ENTRIES_PER_SECTOR
    ensures |PutU32(tmp, DIRENT_SIZE * e + 28, 0)| == SECTOR_SIZE
    ensures Row(PutU32(tmp, DIRENT_SIZE * e + 28, 0))[e].inode == 0
    ensures forall f: nat :: f < ENTRIES_PER_SECTOR && f != e ==>
      Row(PutU32(tmp, DIRENT_SIZE * e + 28, 0))[f] == Row(tmp)[f]
  {
    var t: Sector := PutU32(tmp, DIRENT_SIZE * e + 28, 0);
    GetPutU32(tmp, DIRENT_SIZE * e + 28, 0, DIRENT_SIZE * e + 28);
    forall f: nat | f < ENTRIES_PER_SECTOR && f != e ensures Row(t)[f] == Row(tmp)[f] {
      GetPutU32(tmp, DIRENT_SIZE * e + 28, 0, DIRENT_SIZE * f + 28);
      assert t[DIRENT_SIZE * f..DIRENT_SIZE * f + 28] == tmp[DIRENT_SIZE * f..DIRENT_SIZE * f + 28];
    }
  }

  /** The slot table with one slot cleared. */
  lemma ClearedTable(secs: seq<Sector>, p: nat, e: nat, t: Sector)
    requires p < |secs| && e < ENTRIES_PER_SECTOR && TableOk(Slots(secs)) && Live(Row(secs[p])[e])
    requires Row(t)[e].inode == 0
    requires forall f: nat :: f < ENTRIES_PER_SECTOR && f != e ==> Row(t)[f] == Row(secs[p])[f]
    ensures TableOk(Slots(secs[p := t]))
    ensures Entries(Slots(secs[p := t])) == Entries(Slots(secs)) - {CString(Row(secs[p])[e].name)}
  {
    hide Slots, Row, Unique, Entries, CString;
    SlotAt(secs, p, e);
    SlotsPut(secs, p, e, t);
    ClearSlot(Slots(secs), ENTRIES_PER_SECTOR * p + e, Row(t)[e]);
  }

  /** The two writes that end dir_remove and the reuse of a slot in dir_add: the block, then the inode. */
  method StoreSlots(dr: Drive, dir: nat, n: Inode, block: nat, t: Sector, now: u32, ghost p: nat,
                    ghost leaked: set<nat>)
    returns (ok: bool, ghost after: Obj)
    requires dr.Valid() && Acct(dr.vol, leaked) && IsDir(dr.vol, dir) && n == dr.vol.inodes[dir]
    requires p < |BlockList(ExtentsOf(dr.vol, n))| && block == BlockList(ExtentsOf(dr.vol, n))[p]
    modifies dr
    ensures old(dr.Logged()) ==> dr.Logged()
    ensures dr.Valid() && ok && old(dr.trail) <= dr.trail && dr.errno == old(dr.errno)
    ensures after == Obj(n.kind, n.size, Load(old(dr.vol), BlockList(ExtentsOf(old(dr.vol), n)))[p := t])
    ensures dir < |dr.vol.inodes| && dr.vol.inodes[dir].mtime == now
    ensures Acct(dr.vol, leaked) && Objects(dr.vol) == Objects(old(dr.vol))[dir := after]
    ensures Plain(old(dr.vol)) ==> Plain(dr.vol)
    ensures TrailEitherOr(dr.trail, |old(dr.trail)|, Objects(old(dr.vol)), Objects(dr.vol))
  {
    hide Drive.Valid, Drive.Logged, Acct, BlockList, ExtentsOf, Objects, PlainTable;
    ghost var v := dr.vol;
    CountClamped(dr, dir);
    Rewrite(v, leaked, dir, p, t);
    after := Obj(n.kind, n.size, Load(v, BlockList(ExtentsOf(v, n)))[p := t]);
    ok := dr.WriteBlock(block, t);
    if !ok { return; }
    Restamp(dr.vol, leaked, dir, now);
    ClampStamped(n, now);
    ObjSelf(v, dir);
    PlainGrow(v.inodes, Objects(v), dir, Stamped(n, now), after, 0);
    ok := dr.InodeWrite(dir, Stamped(n, now));
  }

  /** dir_remove: deletion from the map of the directory. */
  method DirRemove(dr: Drive, dir: nat, name: seq<byte>, now: u32, ghost leaked: set<nat>)
    returns (ok: bool, ghost after: Obj)
    requires dr.Valid() && Acct(dr.vol, leaked) && ZeroFree(name)
    requires IsDir(dr.vol, dir) ==> TableOk(Table(dr.vol, dir))
    modifies dr
    ensures old(dr.Logged()) ==> dr.Logged()
    ensures dr.Valid() && old(dr.trail) <= dr.trail
    ensures ok <==> IsDir(old(dr.vol), dir) && Key(name) in Entries(Table(old(dr.vol), dir))
    ensures ok ==> DirHolds(after, Entries(Table(old(dr.vol), dir)) - {Key(name)})
    ensures ok ==> dir < |dr.vol.inodes| && dr.vol.inodes[dir].mtime == now
    ensures ok ==> Acct(dr.vol, leaked) && Objects(dr.vol) == Objects(old(dr.vol))[dir := after]
    ensures !ok ==> dr.vol == old(dr.vol) && dr.trail == old(dr.trail) && dr.errno == FindError(dr.vol, dir)
    ensures ok ==> TrailEitherOr(dr.trail, |old(dr.trail)|, Objects(old(dr.vol)), Objects(dr.vol))
    ensures Plain(old(dr.vol)) ==> Plain(dr.vol)
  {
    hide Drive.Valid, Drive.Logged, Acct, BlockList, ExtentsOf, Slots, TableOk, Entries, Row, Objects, CString, Table,
      NoneBefore, Matches, Load;
    ok, after := false, Obj(0, 0, []);
    ghost var v := dr.vol;
    var got, n := dr.InodeRead(dir);
    if !got { dr.errno := ERR_IO; return; }
    if n.kind != TYPE_DIR { dr.errno := ERR_NOT_DIR; return; }
    TableBlocks(v, leaked, dir);
    CountClamped(dr, dir);
    var loaded, es := dr.ExtentLoadAll(n);
    if !loaded { return; }
    var e, block, tmp, p := Locate(dr, es, Key(name));
    LocateMeans(v, BlockList(es), Key(name), e, block, tmp, p);
    if e < 0 { dr.errno := ERR_NOT_FOUND; return; }
    ClearRow(tmp, e);
    ClearedTable(Load(v, BlockList(es)), p, e, PutU32(tmp, DIRENT_SIZE * e + 28, 0));
    ok, after := StoreSlots(dr, dir, n, block, PutU32(tmp, DIRENT_SIZE * e + 28, 0), now, p, leaked);
  }

  lemma ClampStamped(n: Inode, now: u32)
    requires n.extentCount <= MAX_EXTENTS
    ensures Clamp(Stamped(n, now)) == Stamped(n, now)
  {}
}
