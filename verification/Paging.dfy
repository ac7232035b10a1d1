/** paging.c: directories and tables changed in place. */
module Paging {
  import opened Bytes
  import opened Collections
  import opened Frames
  import opened PageTables

  const PAGE_PRESENT := 1
  const PAGE_WRITE := 2
  const PAGE_USER := 4
  const MAX_FRAMES := 0x4_0000

  /** `table | PAGE_PRESENT | PAGE_WRITE | (flags & PAGE_USER)` */
  function DirEntry(frame: nat, flags: nat): u32
    requires frame < MAX_FRAMES
  {
    4096 * frame + PAGE_PRESENT + PAGE_WRITE + flags / 4 % 2 * PAGE_USER
  }

  /** `(phys & 0xFFFFF000) | PAGE_PRESENT | (flags & (PAGE_WRITE | PAGE_USER | PAGE_PRESENT))` */
  function TableEntry(phys: u32, flags: nat): u32 {
    phys / 4096 * 4096 + flags % 8 / 2 * 2 + PAGE_PRESENT
  }

  /** PDE_IDX and PTE_IDX take a page number apart. */
  lemma PageIndex(virt: u32)
    ensures virt / 0x40_0000 < ENTRIES && virt / 4096 == ENTRIES * (virt / 0x40_0000) + virt / 4096 % 1024
  {}

  /** Frame number and flag bits share a word without touching. */
  lemma Packed(frame: nat, bits: nat)
    requires bits < 8
    ensures (4096 * frame + bits) / 4096 == frame && (4096 * frame + bits) % 4096 == bits
    ensures (4096 * frame + bits) % 2 == bits % 2
    ensures (4096 * frame + bits) / 2 % 2 == bits / 2 % 2 && (4096 * frame + bits) / 4 % 2 == bits / 4 % 2
  {
    LowBit(2048 * frame, bits);
    LowBit(1024 * frame, bits / 2);
    LowBit(512 * frame, bits / 4);
    assert (4096 * frame + bits) / 2 == 2 * (1024 * frame) + bits / 2;
    assert (4096 * frame + bits) / 4 == 2 * (512 * frame) + bits / 4;
  }

  lemma LowBit(half: nat, bits: nat)
    ensures (2 * half + bits) % 2 == bits % 2
  {}

  lemma EntryParts(frame: nat, phys: u32, flags: nat)
    requires frame < MAX_FRAMES
    ensures Present(DirEntry(frame, flags)) && FrameOf(DirEntry(frame, flags)) == frame
    ensures Present(TableEntry(phys, flags)) && FrameOf(TableEntry(phys, flags)) == phys / 4096
    ensures Writable(DirEntry(frame, flags)) && (Open(DirEntry(frame, flags)) <==> flags / 4 % 2 == 1)
    ensures Writable(TableEntry(phys, flags)) <==> flags / 2 % 2 == 1
    ensures Open(TableEntry(phys, flags)) <==> flags / 4 % 2 == 1
  {
    UserBit(flags / 4 % 2);
    FlagBits(flags);
    Packed(frame, 3 + 4 * (flags / 4 % 2));
    Packed(phys / 4096, flags % 8 / 2 * 2 + 1);
  }

  lemma UserBit(user: nat)
    requires user < 2
    ensures (3 + 4 * user) % 2 == 1 && (3 + 4 * user) / 2 % 2 == 1 && (3 + 4 * user) / 4 % 2 == user
  {}

  lemma FlagBits(flags: nat)
    ensures var bits := flags % 8 / 2 * 2 + 1;
      bits < 8 && bits % 2 == 1 && bits / 2 % 2 == flags / 2 % 2 && bits / 4 % 2 == flags / 4 % 2
  {
    var n := flags % 8;
    assert flags == 8 * (flags / 8) + n;
    LowBit(2 * (flags / 8), n / 2);
    LowBit(flags / 8, n / 4);
    assert flags / 2 == 2 * (2 * (flags / 8)) + n / 2 && flags / 4 == 2 * (flags / 8) + n / 4;
  }

  /** The one new frame is a table that entry k names. */
  ghost predicate Grown(was: set<nat>, used: set<nat>, m: Memory, dir: nat, k: nat, flags: nat) {
    exists f: nat :: f < MAX_FRAMES && f !in was && used == was + {f} && Entry(m, dir, k) == DirEntry(f, flags)
  }

  class AddressSpaces {
    const frames: FrameTable
    var mem: Memory
    const kernelDir: nat

    ghost predicate Valid()
      reads this, frames, frames.bitmap
    {
      frames.Valid() && Formed(mem) && |mem| == frames.total <= MAX_FRAMES
    }

    constructor (frames: FrameTable, mem: Memory, kernelDir: nat)
      requires frames.Valid() && Formed(mem) && |mem| == frames.total <= MAX_FRAMES
      ensures Valid() && this.frames == frames && this.mem == mem && this.kernelDir == kernelDir
    {
      this.frames := frames;
      this.mem := mem;
      this.kernelDir := kernelDir;
    }

    /** Zeroing a new table. */
    method ZeroTable(f: nat)
      requires Formed(mem) && f < |mem|
      modifies this`mem
      ensures Formed(mem) && SameBut(old(mem), mem, f) && forall j: nat :: j < ENTRIES ==> Entry(mem, f, j) == 0
    {
      var i := 0;
      while i < ENTRIES
        invariant 0 <= i <= ENTRIES && Formed(mem) && SameBut(old(mem), mem, f)
        invariant forall j: nat :: j < i ==> Entry(mem, f, j) == 0
      {
        ghost var was := mem;
        mem := Store(mem, f, i, 0);
        forall j: nat | j < i + 1 ensures Entry(mem, f, j) == 0 { StoreLaw(was, f, i, 0, f, j); }
        i := i + 1;
      }
    }

    /** create_table_in_dir: a new empty table, named in the directory; 0 without a free frame. */
    method CreateTable(dir: nat, k: nat, flags: nat) returns (table: nat)
      requires Valid() && k < ENTRIES && Sane(mem, frames.used, dir) && !Present(Entry(mem, dir, k))
      modifies this`mem, frames`used, frames.bitmap
      ensures Valid()
      ensures table == 0 <==> old(frames.used) == RunSet(0, frames.total)
      ensures table == 0 ==> mem == old(mem) && frames.used == old(frames.used)
      ensures table != 0 ==> table !in old(frames.used) && table < |mem| && frames.used == old(frames.used) + {table}
      ensures table != 0 ==> Entry(mem, dir, k) == DirEntry(table, flags) && Sane(mem, frames.used, dir)
      ensures table != 0 ==> var e := Entry(mem, dir, k);
        Present(e) && FrameOf(e) == table && Writable(e) && (Open(e) <==> flags / 4 % 2 == 1)
      ensures SameMap(old(mem), mem, dir) && SameDirBut(old(mem), mem, dir, k) && OnlyTwo(old(mem), mem, dir, table)
      ensures forall d: nat :: Apart(old(mem), old(frames.used), dir, k, d) ==>
        SameMap(old(mem), mem, d) && Apart(mem, frames.used, dir, k, d)
    {
      ghost var used0, m0 := frames.used, mem;
      var addr := frames.AllocFrame();
      if addr == 0 { return 0; }
      table := addr / FRAME_SIZE;
      ZeroTable(table);
      ghost var m1 := mem;
      mem := Store(mem, dir, k, DirEntry(table, flags));
      EntryParts(table, 0, flags);
      TableMade(m0, m1, used0, dir, k, table, DirEntry(table, flags));
      StoreLaw(m1, dir, k, DirEntry(table, flags), dir, k);
      forall i: nat | i != k
        ensures Entry(mem, dir, i) == Entry(m0, dir, i)
      { StoreLaw(m1, dir, k, DirEntry(table, flags), dir, i); }
      hide Sane, SameMap, Clear, Store, Entry, DirEntry, SameDirBut;
      forall d: nat | Apart(m0, used0, dir, k, d) ensures SameMap(m0, mem, d) && Apart(mem, frames.used, dir, k, d) {
        MadeApart(m0, m1, used0, dir, k, table, DirEntry(table, flags), d);
      }
    }

    /** Writing entry i of the table that entry k of the directory names. */
    method SetEntry(dir: nat, k: nat, i: nat, e: u32)
      requires Valid() && Sane(mem, frames.used, dir) && k < ENTRIES && i < ENTRIES && Present(Entry(mem, dir, k))
      modifies this`mem
      ensures Valid() && Sane(mem, frames.used, dir) && SameDir(old(mem), mem, dir)
      ensures SameBut(old(mem), mem, FrameOf(Entry(mem, dir, k)))
      ensures ChangedAt(old(mem), mem, dir, ENTRIES * k + i, PageOf(Entry(old(mem), dir, k), e))
      ensures forall d: nat :: Apart(old(mem), frames.used, dir, k, d) ==>
        SameMap(old(mem), mem, d) && Apart(mem, frames.used, dir, k, d)
    {
      ghost var m := mem;
      assert Names(mem, dir, k, FrameOf(Entry(mem, dir, k)));
      TableStored(m, frames.used, dir, k, i, e);
      var f := FrameOf(Entry(mem, dir, k));
      mem := Store(mem, f, i, e);
      forall j: nat ensures Entry(mem, dir, j) == Entry(m, dir, j) { StoreLaw(m, f, i, e, dir, j); }
      hide Sane, SameMap, Store, Apart, ChangedAt;
      forall d: nat | Apart(m, frames.used, dir, k, d)
        ensures SameMap(m, mem, d) && Apart(mem, frames.used, dir, k, d)
      {
        TableStoredApart(m, frames.used, dir, k, i, e, d);
      }
    }

    /** map_page_to_dir: one page of the flat map, even when a table has to be made. */
    method MapPage(dir: nat, virt: u32, phys: u32, flags: nat) returns (r: int)
      requires Valid() && Sane(mem, frames.used, dir)
      modifies this`mem, frames`used, frames.bitmap
      ensures Valid() && Sane(mem, frames.used, dir)
      ensures r == 0 || r == -1
      ensures r == -1 <==>
        !Present(Entry(old(mem), dir, virt / 0x40_0000)) && old(frames.used) == RunSet(0, frames.total)
      ensures r == -1 ==> mem == old(mem) && frames.used == old(frames.used)
      ensures r == 0 && !Present(Entry(old(mem), dir, virt / 0x40_0000)) ==>
        ChangedAt(old(mem), mem, dir, virt / 4096, Mapped(phys / 4096, flags / 2 % 2 == 1, flags / 4 % 2 == 1))
      ensures r == 0 && Present(Entry(old(mem), dir, virt / 0x40_0000)) ==>
        var pde := Entry(old(mem), dir, virt / 0x40_0000);
        ChangedAt(old(mem), mem, dir, virt / 4096,
          Mapped(phys / 4096, Writable(pde) && flags / 2 % 2 == 1, Open(pde) && flags / 4 % 2 == 1))
      ensures forall d: nat :: Apart(old(mem), old(frames.used), dir, virt / 0x40_0000, d) ==>
        SameMap(old(mem), mem, d) && Apart(mem, frames.used, dir, virt / 0x40_0000, d)
      ensures SameDirBut(old(mem), mem, dir, virt / 0x40_0000)
      ensures r == 0 ==>
        && Present(Entry(mem, dir, virt / 0x40_0000))
        && OnlyTwo(old(mem), mem, dir, FrameOf(Entry(mem, dir, virt / 0x40_0000)))
      ensures r == 0 && Present(Entry(old(mem), dir, virt / 0x40_0000)) ==>
        frames.used == old(frames.used) && SameDir(old(mem), mem, dir)
      ensures r == 0 && !Present(Entry(old(mem), dir, virt / 0x40_0000)) ==>
        Grown(old(frames.used), frames.used, mem, dir, virt / 0x40_0000, flags)
    {
      ghost var m0, used0 := mem, frames.used;
      var k := virt / 0x40_0000;
      var i := virt / 4096 % 1024;
      PageIndex(virt);
      hide Sane, SameMap, ChangedAt, Apart, Entry, DirEntry, Present, FrameOf, TableEntry, RunSet, Writable, Open;
      if !Present(Entry(mem, dir, k)) {
        var table := CreateTable(dir, k, flags);
        if table == 0 { return -1; }
        EntryParts(table, 0, flags);
      } else {
        SameMapSelf(mem, dir);
      }
      ghost var m1 := mem;
      EntryParts(0, phys, flags);
      SetEntry(dir, k, i, TableEntry(phys, flags));
      SameThenChanged(m0, m1, mem, dir, virt / 4096, PageOf(Entry(m1, dir, k), TableEntry(phys, flags)));
      forall d: nat | Apart(m0, used0, dir, k, d) ensures SameMap(m0, mem, d) && Apart(mem, frames.used, dir, k, d) {
        if m1 == m0 { SameMapSelf(m0, d); }
        SameMapTwice(m0, m1, mem, d);
      }
      r := 0;
    }

    /** unmap_page_from_dir. */
    method UnmapPage(dir: nat, virt: u32) returns (r: int)
      requires Valid() && Sane(mem, frames.used, dir)
      modifies this`mem
      ensures Valid() && Sane(mem, frames.used, dir) && SameDir(old(mem), mem, dir)
      ensures r == -1 <==> Translate(old(mem), dir, virt / 4096) == Unmapped
      ensures r == -1 ==> mem == old(mem)
      ensures r != -1 ==> r == 0 && ChangedAt(old(mem), mem, dir, virt / 4096, Unmapped)
      ensures forall d: nat :: Apart(old(mem), frames.used, dir, virt / 0x40_0000, d) ==> SameMap(old(mem), mem, d)
    {
      var k := virt / 0x40_0000;
      var i := virt / 4096 % 1024;
      if !Present(Entry(mem, dir, k)) { return -1; }
      var table := FrameOf(Entry(mem, dir, k));
      assert Names(mem, dir, k, table);
      if !Present(Entry(mem, table, i)) { return -1; }
      hide Sane, SameMap, ChangedAt, Apart, SameDir;
      SetEntry(dir, k, i, 0);
      r := 0;
    }

    /** get_page_mapping: the lookup of the flat map of the kernel directory. */
    method GetMapping(virt: u32) returns (r: int, phys: nat)
      requires Valid() && Sane(mem, frames.used, kernelDir)
      ensures r == -1 <==> Translate(mem, kernelDir, virt / 4096) == Unmapped
      ensures r != -1 ==> r == 0 && phys == 4096 * Translate(mem, kernelDir, virt / 4096).frame
    {
      var k := virt / 0x40_0000;
      phys := 0;
      if !Present(Entry(mem, kernelDir, k)) { return -1, phys; }
      var table := FrameOf(Entry(mem, kernelDir, k));
      var pte := Entry(mem, table, virt / 4096 % 1024);
      if !Present(pte) { return -1, phys; }
      return 0, pte / 4096 * 4096;
    }

    /** Copying the entries of the kernel directory. */
    method CopyKernel(dir: nat)
      requires Formed(mem) && dir < |mem| && dir != kernelDir
      modifies this`mem
      ensures Formed(mem) && SameBut(old(mem), mem, dir)
      ensures forall j: nat :: j < ENTRIES ==> Entry(mem, dir, j) == Entry(old(mem), kernelDir, j)
    {
      var i := 0;
      while i < ENTRIES
        invariant 0 <= i <= ENTRIES && Formed(mem) && SameBut(old(mem), mem, dir)
        invariant forall j: nat :: j < i ==> Entry(mem, dir, j) == Entry(old(mem), kernelDir, j)
      {
        ghost var was := mem;
        mem := Store(mem, dir, i, Entry(mem, kernelDir, i));
        forall j: nat | j < i + 1 ensures Entry(mem, dir, j) == Entry(old(mem), kernelDir, j) {
          StoreLaw(was, dir, i, Entry(was, kernelDir, i), dir, j);
        }
        i := i + 1;
      }
    }

    /** page_dir_create: a directory that shares all tables of the kernel. */
    method DirCreate() returns (dir: nat)
      requires Valid() && Sane(mem, frames.used, kernelDir)
      modifies this`mem, frames`used, frames.bitmap
      ensures Valid()
      ensures dir == 0 <==> old(frames.used) == RunSet(0, frames.total)
      ensures dir == 0 ==> mem == old(mem) && frames.used == old(frames.used)
      ensures dir != 0 ==>
        && dir !in old(frames.used) && dir < |mem| && frames.used == old(frames.used) + {dir}
        && SameBut(old(mem), mem, dir)
      ensures dir != 0 ==>
        Sane(mem, frames.used, dir) && forall i: nat :: i < ENTRIES ==>
          Entry(mem, dir, i) == Entry(old(mem), kernelDir, i)
      ensures dir != 0 ==> forall p: nat :: p < PAGES ==> Translate(mem, dir, p) == Translate(old(mem), kernelDir, p)
      ensures forall d: nat :: Sane(old(mem), old(frames.used), d) ==>
        SameMap(old(mem), mem, d) && Sane(mem, frames.used, d)
    {
      ghost var m0, used0 := mem, frames.used;
      var addr := frames.AllocFrame();
      if addr == 0 { return 0; }
      dir := addr / FRAME_SIZE;
      CopyKernel(dir);
      CopiedDir(m0, mem, used0, kernelDir, dir);
      hide Sane, SameMap, SameBut, Entry, Translate;
      forall d: nat | Sane(m0, used0, d)
        ensures SameMap(m0, mem, d) && Sane(mem, frames.used, d)
      { FreshMap(m0, mem, used0, dir, d); }
    }

    /** Filling table k with the identity. */
    method FillTable(k: nat)
      requires Valid() && Sane(mem, frames.used, kernelDir) && k < ENTRIES
      requires Present(Entry(mem, kernelDir, k)) && Writable(Entry(mem, kernelDir, k))
      requires IdentityTo(mem, kernelDir, ENTRIES * k)
      modifies this`mem
      ensures Valid() && Sane(mem, frames.used, kernelDir) && SameDir(old(mem), mem, kernelDir)
      ensures IdentityTo(mem, kernelDir, ENTRIES * k + ENTRIES)
    {
      var i := 0;
      while i < ENTRIES
        invariant 0 <= i <= ENTRIES && Valid() && Sane(mem, frames.used, kernelDir) && SameDir(old(mem), mem, kernelDir)
        invariant IdentityTo(mem, kernelDir, ENTRIES * k + i)
      {
        var page: int := ENTRIES * k + i;
        Packed(page, 3);
        ghost var was := mem;
        hide Sane, SameMap, Apart, ChangedAt, IdentityTo, SameDir, Entry;
        SetEntry(kernelDir, k, i, 4096 * page + 3);
        IdentityMore(was, mem, kernelDir, page);
        SameDirTwice(old(mem), was, mem, kernelDir);
        i := i + 1;
      }
    }

    /** The kernel directory without any table. */
    method ClearKernel()
      requires Valid() && kernelDir in frames.used
      modifies this`mem
      ensures Valid() && Sane(mem, frames.used, kernelDir) && IdentityTo(mem, kernelDir, 0)
      ensures forall j: nat :: j < ENTRIES ==> !Present(Entry(mem, kernelDir, j))
    {
      ZeroTable(kernelDir);
      EmptySane(mem, frames.used, kernelDir);
    }

    /** One table more for the identity; false when there is no frame for it. */
    method AddTable(k: nat) returns (ok: bool)
      requires Valid() && Sane(mem, frames.used, kernelDir) && k < ENTRIES && IdentityTo(mem, kernelDir, ENTRIES * k)
      requires forall j: nat :: k <= j < ENTRIES ==> !Present(Entry(mem, kernelDir, j))
      modifies this`mem, frames`used, frames.bitmap
      ensures Valid() && Sane(mem, frames.used, kernelDir)
      ensures ok <==> old(frames.used) != RunSet(0, frames.total)
      ensures !ok ==> mem == old(mem) && frames.used == old(frames.used)
      ensures ok ==> old(frames.used) <= frames.used && |frames.used| == |old(frames.used)| + 1
      ensures ok ==> IdentityTo(mem, kernelDir, ENTRIES * (k + 1))
      ensures ok ==> forall j: nat :: k + 1 <= j < ENTRIES ==> !Present(Entry(mem, kernelDir, j))
    {
      ghost var m0 := mem;
      hide Sane, SameMap, Apart, IdentityTo, Entry, DirEntry, Present, Writable, Open, FrameOf, RunSet;
      var table := CreateTable(kernelDir, k, 0);
      if table == 0 { return false; }
      IdentitySame(m0, mem, kernelDir, ENTRIES * k);
      FillTable(k);
      assert forall j: nat :: k + 1 <= j < ENTRIES ==> Entry(mem, kernelDir, j) == Entry(m0, kernelDir, j);
      ok := true;
    }

    /** The table contents of init_paging: memory below `ram`, in steps of 4 MB and at least 4 MB,
        mapped to itself; false when the frames ran out before that. */
    method MapIdentity(ram: u32) returns (ok: bool)
      requires Valid() && kernelDir in frames.used && ram <= 0xFFC0_0000
      modifies this`mem, frames`used, frames.bitmap
      ensures Valid()
      ensures Sane(mem, frames.used, kernelDir) && old(frames.used) <= frames.used
      ensures ok <==> |old(frames.used)| + Tables(ram) <= frames.total
      ensures ok ==>
        IdentityTo(mem, kernelDir, ENTRIES * Tables(ram)) && |frames.used| == |old(frames.used)| + Tables(ram)
      ensures !ok ==> frames.used == RunSet(0, frames.total) && |old(frames.used)| <= frames.total
      ensures !ok ==> IdentityTo(mem, kernelDir, ENTRIES * (frames.total - |old(frames.used)|))
    {
      hide Sane, SameMap, Apart, IdentityTo, Tables, RunSet, Entry, Present;
      ClearKernel();
      UsedBound(frames);
      var k := 0;
      TablesIff(ram, 0);
      while k == 0 || 0x40_0000 * k < ram
        invariant 0 <= k <= Tables(ram) <= ENTRIES && Valid() && (k < Tables(ram) <==> k == 0 || 0x40_0000 * k < ram)
        invariant Sane(mem, frames.used, kernelDir) && IdentityTo(mem, kernelDir, ENTRIES * k)
        invariant forall j: nat :: k <= j < ENTRIES ==> !Present(Entry(mem, kernelDir, j))
        invariant old(frames.used) <= frames.used && |frames.used| == |old(frames.used)| + k <= frames.total
        decreases ENTRIES - k
      {
        var more := AddTable(k);
        if !more {
          RunSize(0, frames.total);
          return false;
        }
        UsedBound(frames);
        k := k + 1;
        TablesIff(ram, k);
      }
      ok := true;
    }
  }

  /** How many tables init_paging makes: one for every 4 MB begun, and at least one. */
  function Tables(ram: u32): nat {
    if ram <= 0x40_0000 then 1 else (ram + 0x3F_FFFF) / 0x40_0000
  }

  lemma TablesIff(ram: u32, k: nat)
    requires ram <= 0xFFC0_0000
    ensures k < Tables(ram) <==> k == 0 || 0x40_0000 * k < ram
    ensures 1 <= Tables(ram) <= ENTRIES
  {}

  lemma UsedBound(frames: FrameTable)
    requires frames.Valid()
    ensures |frames.used| <= frames.total
  {
    frames.Bounded();
    RunSize(0, frames.total);
    SubsetSize(frames.used, RunSet(0, frames.total));
  }

  lemma MadeApart(m: Memory, z: Memory, used: set<nat>, dir: nat, k: nat, f: nat, e: u32, d: nat)
    requires Formed(z) && dir < |m| && k < ENTRIES && f !in used && SameBut(m, z, f) && FrameOf(e) == f
    requires Apart(m, used, dir, k, d)
    ensures SameMap(m, Store(z, dir, k, e), d) && Apart(Store(z, dir, k, e), used + {f}, dir, k, d)
  {
    TableMadeApart(m, z, used, dir, k, f, e, d);
    StoreSameBut(z, dir, k, e);
    ClearKept(m, z, f, d, dir);
    ClearKept(z, Store(z, dir, k, e), dir, d, dir);
    StoreLaw(z, dir, k, e, dir, k);
    SaneMore(Store(z, dir, k, e), used, d, f);
  }
}
