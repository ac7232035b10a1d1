/** Scans for a slot by its inode number: the free slot of dir_add, the live slot of
    dir_empty, and the entry find_parent and nvfs_path_string look for. */
module NvfsDirScan {
  import opened Bytes
  import opened NvfsFormat
  import opened NvfsVolume
  import opened NvfsDriver
  import opened NvfsContents
  import opened NvfsExtents
  import opened NvfsSlots
  import opened NvfsDirs
  import opened NvfsFiles

  /** The slot holds inode `want`, or, with `same` false, any other inode. */
  predicate Hit(s: Dirent, want: u32, same: bool) {
    (s.inode == want) == same
  }

  ghost predicate NoHitBefore(slots: seq<Dirent>, want: u32, same: bool, n: int) {
    forall k :: 0 <= k < n && k < |slots| ==> !Hit(slots[k], want, same)
  }

  method HitInSector(tmp: Sector, want: u32, same: bool) returns (e: int)
    ensures -1 <= e < ENTRIES_PER_SECTOR
    ensures e >= 0 ==> Hit(Row(tmp)[e], want, same)
    ensures forall f: nat :: f < ENTRIES_PER_SECTOR && (f < e || e < 0) ==> !Hit(Row(tmp)[f], want, same)
  {
    e := 0;
    while e < ENTRIES_PER_SECTOR
      invariant 0 <= e <= ENTRIES_PER_SECTOR
      invariant forall f: nat :: f < e ==> !Hit(Row(tmp)[f], want, same)
    {
      if (GetU32(tmp, e * DIRENT_SIZE + 28) == want) == same { return; }
      e := e + 1;
    }
    e := -1;
  }

  lemma NoHitInSector(bs: seq<Sector>, p: nat, want: u32, same: bool)
    requires p < |bs| && NoHitBefore(Slots(bs), want, same, ENTRIES_PER_SECTOR * p)
    requires forall f: nat :: f < ENTRIES_PER_SECTOR ==> !Hit(Row(bs[p])[f], want, same)
    ensures NoHitBefore(Slots(bs), want, same, ENTRIES_PER_SECTOR * (p + 1))
  {
    hide Slots, Row, Hit;
    var base := ENTRIES_PER_SECTOR * p;
    forall k | base <= k < base + ENTRIES_PER_SECTOR ensures k < |Slots(bs)| && !Hit(Slots(bs)[k], want, same) {
      SlotIn(bs, p, base, k);
    }
  }

  method LocateInode(dr: Drive, es: seq<Extent>, want: u32, same: bool)
    returns (e: int, block: nat, tmp: Sector, ghost p: nat)
    requires dr.Valid()
    requires forall b :: b in BlockList(es) ==> b < |dr.vol.blocks|
    ensures SpotOk(dr.vol, BlockList(es), e, block, tmp, p)
    ensures e >= 0 ==> Hit(Row(tmp)[e], want, same)
    ensures e < 0 ==> NoHitBefore(Slots(Load(dr.vol, BlockList(es))), want, same, |Slots(Load(dr.vol, BlockList(es)))|)
  {
    hide Drive.Valid, BlockList, Slots, Hit;
    e, block, tmp, p := -1, 0, ZeroSector(), 0;
    ghost var bs := BlockList(es);
    ghost var secs := Load(dr.vol, bs);
    NoBlocks(es);
    for i := 0 to |es|
      invariant |BlockList(es[..i])| <= |bs| && e == -1
      invariant NoHitBefore(Slots(secs), want, same, ENTRIES_PER_SECTOR * |BlockList(es[..i])|)
    {
      BlockListGrows(es, i);
      for j := 0 to es[i].count
        invariant e == -1 && NoHitBefore(Slots(secs), want, same, ENTRIES_PER_SECTOR * (|BlockList(es[..i])| + j))
      {
        BlockListAt(es, i, j);
        p := |BlockList(es[..i])| + j;
        assert bs[p] in bs;
        var ok;
        ok, tmp := dr.ReadBlock(es[i].start + j);
        if !ok { return; }
        e := HitInSector(tmp, want, same);
        if e >= 0 {
          block := es[i].start + j;
          return;
        }
        NoHitInSector(secs, p, want, same);
      }
    }
    assert es[..|es|] == es;
  }

  /** dir_empty: does the directory have no entry? */
  method DirEmpty(dr: Drive, dir: nat, ghost leaked: set<nat>) returns (empty: bool)
    requires dr.Valid() && Acct(dr.vol, leaked) && IsDir(dr.vol, dir)
    modifies dr`errno
    ensures empty <==> Entries(Table(dr.vol, dir)) == map[]
  {
    hide Drive.Valid, Acct, BlockList, ExtentsOf, Slots, Entries, Table, Row;
    var got, n := dr.InodeRead(dir);
    if !got { return false; }
    TableBlocks(dr.vol, leaked, dir);
    CountClamped(dr, dir);
    var loaded, es := dr.ExtentLoadAll(n);
    if !loaded { return false; }
    var e, block, tmp, p := LocateInode(dr, es, 0, false);
    EmptyMeansNoEntries(Table(dr.vol, dir));
    if e >= 0 { SpotSlot(dr.vol, BlockList(es), e, block, tmp, p); }
    empty := e < 0;
  }
}
