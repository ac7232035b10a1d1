/** Growing a directory by one block, first through the direct extents, then through
    the indirect block. */
module NvfsGrow {
  import opened Bytes
  import opened Collections
  import opened NvfsFormat
  import opened NvfsVolume
  import opened NvfsDriver
  import opened NvfsExtents
  import opened NvfsOwnership
  import opened NvfsCommit
  import opened NvfsTable

  /** w keeps everything v has allocated and marks the free blocks `taken` besides. */
  ghost predicate Reserved(v: Vol, w: Vol, taken: set<nat>) {
    Shadow(v, w) && w.used == v.used + taken && taken !! v.used && forall b :: b in taken ==> b < |v.blocks|
  }

  lemma ReservedAcct(v: Vol, leaked: set<nat>, w: Vol, taken: set<nat>)
    requires Acct(v, leaked) && Reserved(v, w, taken) && |v.inodes| > 0
    ensures Acct(w, leaked + taken) && Objects(w) == Objects(v)
  {
    RebooksAcct(v, leaked, w, leaked + taken);
  }

  /** The block that expand_inode_table takes is marked, and no inode refers to it: each growth costs
      one block for good. */
  lemma GrowthLeaks(v: Vol, leaked: set<nat>, w: Vol)
    requires Acct(v, leaked) && |v.inodes| > 0 && TookLowest(v, w)
    ensures exists b: nat :: b in w.used && b !in v.used && b !in leaked && Acct(w, leaked + {b})
    ensures Objects(w) == Objects(v) && w.inodes == v.inodes
  {
    hide Objects, Acct;
    var b: nat :| LowestFree(v, b) && w == Taken(v, b);
    assert Reserved(v, w, {b});
    FreeNotLeaked(v, leaked, b);
    ReservedAcct(v, leaked, w, {b});
  }

  lemma FreeNotLeaked(v: Vol, leaked: set<nat>, b: nat)
    requires Acct(v, leaked) && b !in v.used
    ensures b !in leaked
  {}

  lemma ReservedOwned(v: Vol, leaked: set<nat>, w: Vol, taken: set<nat>, i: nat)
    requires Acct(v, leaked) && Reserved(v, w, taken) && i < |v.inodes|
    ensures w.inodes == v.inodes && Owned(w, i) == Owned(v, i)
    ensures v.inodes[i].kind != TYPE_FREE ==>
      Load(w, BlockList(ExtentsOf(v, v.inodes[i]))) == Load(v, BlockList(ExtentsOf(v, v.inodes[i])))
  {
    hide BlockList, ExtentsOf, Load, Acct, Owned, Rebooks, SoundInode;
    ReservedRebooks(v, leaked, w, taken);
    RebooksMoves(v, leaked, w, leaked + taken, i);
    if v.inodes[i].kind != TYPE_FREE {
      OwnBlocks(v, leaked, i);
      OwnMarked(v, leaked, i);
      LoadKept(v, w, taken, BlockList(ExtentsOf(v, v.inodes[i])));
    }
  }

  lemma ReservedRebooks(v: Vol, leaked: set<nat>, w: Vol, taken: set<nat>)
    requires Acct(v, leaked) && Reserved(v, w, taken)
    ensures Rebooks(v, leaked, w, leaked + taken)
  {}

  lemma OwnMarked(v: Vol, leaked: set<nat>, i: nat)
    requires Acct(v, leaked) && i < |v.inodes|
    ensures forall b :: b in Owned(v, i) ==> b < |v.blocks| && b in v.used
  {
    assert SoundInode(v, leaked, i);
  }

  /** Marked blocks keep their contents while others are reserved. */
  lemma LoadKept(v: Vol, w: Vol, taken: set<nat>, bs: seq<nat>)
    requires Reserved(v, w, taken) && forall b :: b in bs ==> b < |v.blocks| && b in v.used
    ensures Load(w, bs) == Load(v, bs)
  {
    hide Load;
    forall k | 0 <= k < |bs| ensures Load(w, bs)[k] == Load(v, bs)[k] { assert bs[k] in bs; }
  }

  /** Inode m lists the blocks of n and then `block`; `ind` is its indirect block, if any. */
  ghost predicate Extended(v: Vol, w: Vol, n: Inode, m: Inode, block: u32, ind: seq<nat>) {
    && m.kind == n.kind && m.extentCount <= MAX_EXTENTS && n.extentCount <= DIRECT_EXTENTS
    && ExtentsOf(w, m) == ExtentsOf(v, n) + [Extent(block, 1)]
    && IndirectBlock(m) == ind && block !in ind && m.size == (n.size + 512) % 0x1_0000_0000
  }

  lemma ExtendedRefs(v: Vol, w: Vol, n: Inode, m: Inode, block: u32, ind: seq<nat>)
    requires Extended(v, w, n, m, block, ind)
    ensures RefsOf(w, m) == BlockList(ExtentsOf(v, n)) + [block] + ind
    ensures RefsOf(v, n) == BlockList(ExtentsOf(v, n))
    ensures BlockList(ExtentsOf(w, m)) == BlockList(ExtentsOf(v, n)) + [block]
  {
    var es := ExtentsOf(w, m);
    assert es[..|es| - 1] == ExtentsOf(v, n);
    assert Run(block, 1) == [block];
  }

  lemma ExtendedTaken(owned: seq<nat>, block: nat, ind: seq<nat>, leaked: set<nat>, taken: set<nat>, used: set<nat>)
    requires NoDup(owned) && block !in ind && |ind| <= 1 && taken == {block} + SeqSet(ind)
    requires SeqSet(owned) <= used && taken !! used && leaked <= used && SeqSet(owned) !! leaked
    ensures NoDup(owned + [block] + ind)
    ensures SeqSet(owned + [block] + ind) == SeqSet(owned) + taken
    ensures leaked + taken + SeqSet(owned) - (SeqSet(owned) + taken) == leaked
  {
    var s := owned + [block] + ind;
    forall p, q | 0 <= p < q < |s| ensures s[p] != s[q] {
      if p < |owned| {
        assert s[p] in SeqSet(owned);
        assert q == |owned| + 1 ==> s[q] in SeqSet(ind);
      }
    }
  }

  /** The inode write that makes the new block part of the directory. */
  lemma ExtendedCommit(v: Vol, leaked: set<nat>, w: Vol, i: nat, m: Inode, block: u32, ind: seq<nat>, now: u32)
    requires Acct(v, leaked) && i < |v.inodes| && v.inodes[i].kind != TYPE_FREE
    requires Extended(v, w, v.inodes[i], m, block, ind) && Reserved(v, w, {block as nat} + SeqSet(ind))
    ensures |w.inodes| == |v.inodes|
    ensures Acct(Switch(w, i, Stamped(m, now)), leaked)
    ensures Objects(Switch(w, i, Stamped(m, now))) ==
      Objects(v)[i := Obj(m.kind, m.size, Load(v, BlockList(ExtentsOf(v, v.inodes[i]))) + [Blk(w, block)])]
  {
    var n := v.inodes[i];
    var taken := {block as nat} + SeqSet(ind);
    var bs := BlockList(ExtentsOf(v, n));
    assert |ind| <= 1 && m.kind == n.kind;
    assert Owned(v, i) == RefsOf(v, n);
    OwnedMarked(v, leaked, i);
    assert SoundInode(v, leaked, i);
    hide Acct, Owned, Objects, BlockList, ExtentsOf, Reserved, Extended, RefsOf;
    ReservedAcct(v, leaked, w, taken);
    ReservedOwned(v, leaked, w, taken, i);
    ExtendedRefs(v, w, n, m, block, ind);
    ReservedApart(v, w, taken);
    ExtendedTaken(bs, block, ind, leaked, taken, v.used);
    StampedSame(w, m, now);
    ObjBlocks(w, m);
    LoadSnoc(w, bs, block);
    SwitchAcct(w, leaked + taken, i, Stamped(m, now), bs + [block] + ind, leaked);
  }

  lemma ReservedApart(v: Vol, w: Vol, taken: set<nat>)
    requires Reserved(v, w, taken)
    ensures taken !! v.used && w.used == v.used + taken && w.inodes == v.inodes && |w.blocks| == |v.blocks|
  {}

  lemma ObjBlocks(v: Vol, n: Inode)
    ensures ObjOf(v, n) == Obj(n.kind, n.size, Load(v, BlockList(ExtentsOf(v, n))))
  {}

  lemma LoadSnoc(v: Vol, bs: seq<nat>, b: nat)
    ensures Load(v, bs + [b]) == Load(v, bs) + [Blk(v, b)]
  {
    assert (bs + [b])[..|bs|] == bs;
  }

  // ------------------------------------------------- the code

  function WithExtent(n: Inode, slot: nat, e: Extent, count: u32): Inode
    requires slot < MAX_EXTENTS
  {
    InodeFields((n.size + SECTOR_SIZE) % 0x1_0000_0000, n.kind, n.c0, n.c1, n.c2, count, n.extents[slot := e], n.mtime)
  }

  method IndirectWriteExtents(dr: Drive, lba: nat, es: seq<Extent>) returns (ok: bool)
    requires dr.Valid() && |es| <= INDIRECT_ENTS
    modifies dr
    ensures old(dr.Logged()) ==> dr.Logged()
    ensures dr.Valid() && dr.errno == old(dr.errno)
    ensures ok <==> lba < |old(dr.vol).blocks|
    ensures |dr.vol.blocks| == |old(dr.vol).blocks|
    ensures ok ==> dr.vol == old(dr.vol).(blocks := old(dr.vol).blocks[lba := dr.vol.blocks[lba]])
    ensures ok ==> ExtentsFrom(dr.vol.blocks[lba], 0, |es|) == es && dr.trail == old(dr.trail) + [dr.vol]
    ensures !ok ==> dr.vol == old(dr.vol) && dr.trail == old(dr.trail)
  {
    hide Drive.Valid, Drive.Logged;
    var buf := ZeroSector();
    for i := 0 to |es|
      invariant |buf| == SECTOR_SIZE
      invariant forall k: nat :: k < i ==> ExtentAt(buf, 8 * k) == es[k]
    {
      ghost var before := buf;
      buf := PutU32(PutU32(buf, i * 8, es[i].start), i * 8 + 4, es[i].count);
      forall k: nat | k <= i ensures ExtentAt(buf, 8 * k) == es[k] {
        PutExtent(before, 8 * i, es[i], 8 * k);
      }
    }
    ok := dr.WriteBlock(lba, buf);
    assert ExtentsFrom(buf, 0, |es|) == es;
  }

  lemma PutExtent(s: seq<byte>, o: nat, e: Extent, p: nat)
    requires |s| == SECTOR_SIZE && o + 8 <= SECTOR_SIZE && p + 8 <= SECTOR_SIZE && (p == o || p + 8 <= o || o + 8 <= p)
    ensures ExtentAt(PutU32(PutU32(s, o, e.start), o + 4, e.count), p) == if p == o then e else ExtentAt(s, p)
  {
    var t := PutU32(s, o, e.start);
    GetPutU32(s, o, e.start, p);
    GetPutU32(s, o, e.start, p + 4);
    GetPutU32(t, o + 4, e.count, p);
    GetPutU32(t, o + 4, e.count, p + 4);
  }

  /** One more free block is filled and marked, in either order. */
  lemma ReserveStep(v: Vol, w: Vol, taken: set<nat>, blk: nat, s: Sector)
    requires Reserved(v, w, taken) && blk < |w.blocks| && blk !in w.used
    ensures blk !in taken && Shadow(v, w.(blocks := w.blocks[blk := s])) && Shadow(v, w.(used := w.used + {blk}))
    ensures Reserved(v, w.(blocks := w.blocks[blk := s]).(used := w.used + {blk}), taken + {blk})
    ensures Shadow(v, w.(blocks := w.blocks[blk := s]).(used := w.used + {blk}))
    ensures Reserved(v, w.(used := w.used + {blk}), taken + {blk})
  {}

  lemma FreeBlockRuns(v: Vol)
    ensures HasFreeBlock(v) <==> Fits(v, 1)
  {
    if HasFreeBlock(v) {
      var b: nat :| b < |v.blocks| && b !in v.used;
      assert FreeRun(v, b, 1);
    }
    if Fits(v, 1) {
      var s: nat :| s + 1 <= |v.blocks| && FreeRun(v, s, 1);
      assert s !in v.used;
    }
  }

  /** A free block, zeroed and then marked. */
  method IndirectAlloc(dr: Drive, ghost v: Vol, ghost taken: set<nat>) returns (blk: int)
    requires dr.Valid() && Reserved(v, dr.vol, taken)
    modifies dr
    ensures old(dr.Logged()) ==> dr.Logged()
    ensures dr.Valid() && dr.errno == old(dr.errno)
    ensures old(dr.trail) <= dr.trail && TrailShadows(v, dr.trail, |old(dr.trail)|)
    ensures blk == -1 || blk >= 0
    ensures blk >= 0 <==> HasFreeBlock(old(dr.vol))
    ensures blk >= 0 ==> blk !in taken && Reserved(v, dr.vol, taken + {blk})
    ensures forall b: nat :: b != blk ==> Blk(dr.vol, b) == Blk(old(dr.vol), b)
    ensures blk < 0 ==> dr.vol == old(dr.vol)
  {
    hide Drive.Valid, Drive.Logged, Reserved, Shadow;
    dr.Sizes();
    FreeBlockRuns(dr.vol);
    blk := dr.BitmapFind(1);
    if blk < 0 { return -1; }
    if blk < |dr.vol.blocks| { ReserveStep(v, dr.vol, taken, blk, ZeroSector()); }
    var ok := dr.WriteBlock(blk, ZeroSector());
    if !ok { return -1; }
    var _ := dr.BitmapSet(blk, true);
  }

  lemma ExtendedDirect(v: Vol, w: Vol, n: Inode, block: u32)
    requires n.extentCount < DIRECT_EXTENTS
    ensures Extended(v, w, n, WithExtent(n, n.extentCount, Extent(block, 1), n.extentCount + 1), block, [])
  {
    var m := WithExtent(n, n.extentCount, Extent(block, 1), n.extentCount + 1);
    assert ExtentsOf(w, m) == ExtentsOf(v, n) + [Extent(block, 1)];
  }

  lemma ExtendedIndirect(v: Vol, w: Vol, n: Inode, block: u32, ind: u32)
    requires n.extentCount == DIRECT_EXTENTS && block != ind && ExtentsFrom(Blk(w, ind), 0, 1) == [Extent(block, 1)]
    ensures Extended(v, w, n, WithExtent(n, DIRECT_EXTENTS, Extent(ind, INDIRECT_MARKER), MAX_EXTENTS), block, [ind])
  {
    var m := WithExtent(n, DIRECT_EXTENTS, Extent(ind, INDIRECT_MARKER), MAX_EXTENTS);
    assert ExtentsOf(w, m) == ExtentsOf(v, n) + [Extent(block, 1)];
  }

  /** dir_add_extent for a directory with at most 13 extents. */
  method DirAddExtent(dr: Drive, n: Inode, block: u32, ghost v: Vol) returns (ok: bool, m: Inode, ghost ind: seq<nat>)
    requires dr.Valid() && Reserved(v, dr.vol, {block as nat}) && n.extentCount <= DIRECT_EXTENTS
    modifies dr
    ensures old(dr.Logged()) ==> dr.Logged()
    ensures dr.Valid() && old(dr.trail) <= dr.trail && TrailShadows(v, dr.trail, |old(dr.trail)|)
    ensures ok <==> n.extentCount < DIRECT_EXTENTS || HasFreeBlock(old(dr.vol))
    ensures ok ==> Extended(v, dr.vol, n, m, block, ind) && Reserved(v, dr.vol, {block as nat} + SeqSet(ind))
    ensures ok ==> Blk(dr.vol, block) == Blk(old(dr.vol), block) && dr.errno == old(dr.errno)
    ensures !ok ==> dr.vol == old(dr.vol) && dr.errno == ERR_NO_SPACE
  {
    hide Drive.Valid, Drive.Logged, Reserved, Shadow, Extended, HasFreeBlock, ExtentsOf;
    m, ind := n, [];
    if n.extentCount < DIRECT_EXTENTS {
      ExtendedDirect(v, dr.vol, n, block);
      assert {block as nat} + SeqSet([]) == {block as nat};
      return true, WithExtent(n, n.extentCount, Extent(block, 1), n.extentCount + 1), [];
    }
    var blk := IndirectAlloc(dr, v, {block as nat});
    if blk < 0 { dr.errno := ERR_NO_SPACE; return false, n, []; }
    ghost var w := dr.vol;
    IndirectInRange(v, w, {block as nat} + {blk as nat}, blk);
    dr.Sizes();
    ok := IndirectWriteExtents(dr, blk, [Extent(block, 1)]);
    if !ok { return; }
    ind := [blk];
    RewriteReserved(v, w, {block as nat} + {blk as nat}, blk, dr.vol.blocks[blk]);
    ExtendedIndirect(v, dr.vol, n, block, blk);
    assert SeqSet(ind) == {blk as nat};
    m := WithExtent(n, DIRECT_EXTENTS, Extent(blk, INDIRECT_MARKER), MAX_EXTENTS);
  }

  lemma IndirectInRange(v: Vol, w: Vol, taken: set<nat>, b: nat)
    requires Reserved(v, w, taken) && b in taken
    ensures b < |v.blocks| && |w.blocks| == |v.blocks|
  {}

  lemma RewriteReserved(v: Vol, w: Vol, taken: set<nat>, b: nat, s: Sector)
    requires Reserved(v, w, taken) && b in taken && b < |w.blocks|
    ensures Reserved(v, w.(blocks := w.blocks[b := s]), taken) && Shadow(v, w.(blocks := w.blocks[b := s]))
  {}
}
