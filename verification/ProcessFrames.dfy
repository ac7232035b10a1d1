/** Which frames a process owns, and what giving its address space back frees. */
module ProcessFrames {
  import opened Collections
  import opened PageTables
  import opened Paging

  const USER_PDE := 2
  const USER_PAGE := 0x800
  const USER_PAGES := 512
  const USER_FLAGS := 6
  const STACK_FRAMES := 4

  /** A user process with its directory, its one table, its pages and its kernel stack, or a
      kernel task with only a stack. */
  datatype Proc = User(dir: nat, table: nat, pages: seq<nat>, stack: nat) | Kern(stack: nat)

  /** task_t.page_dir and task_t.kernel_stack_base, as frame numbers. */
  datatype Resources = Resources(dir: nat, stack: nat)

  ghost function Own(p: Proc): set<nat> {
    match p
    case User(dir, table, pages, stack) => {dir, table} + SeqSet(pages) + RunSet(stack, STACK_FRAMES)
    case Kern(stack) => RunSet(stack, STACK_FRAMES)
  }

  /** The address space that elf_exec builds: 512 user pages under directory entry 2, and elsewhere
      nothing but entries shared with the kernel. */
  ghost predicate Built(m: Memory, k: nat, dir: nat, table: nat, pages: seq<nat>) {
    && table < MAX_FRAMES && Entry(m, dir, USER_PDE) == DirEntry(table, USER_FLAGS) && |pages| == USER_PAGES
    && (forall i: nat :: i < ENTRIES && i != USER_PDE ==>
          Entry(m, dir, i) == Entry(m, k, i) || !Present(Entry(m, dir, i)))
    && Entry(m, dir, 0) == 0 && Entry(m, dir, 1) == 0 && UserMap(m, dir, pages)
  }

  /** Under directory entry 2, the first |pages| user pages are mapped, in order, and no others. */
  ghost predicate UserMap(m: Memory, dir: nat, pages: seq<nat>) {
    && |pages| <= USER_PAGES
    && forall p: nat :: USER_PAGE <= p < USER_PAGE + ENTRIES ==>
      Translate(m, dir, p) == if p < USER_PAGE + |pages| then Mapped(pages[p - USER_PAGE], true, true) else Unmapped
  }

  /** What a process sees: its own pages in their range, nothing in the 8 MB below it, and
      elsewhere what the kernel directory maps or nothing. */
  lemma ProcessSees(m: Memory, k: nat, dir: nat, table: nat, pages: seq<nat>, p: nat)
    requires Built(m, k, dir, table, pages) && p < PAGES
    ensures p < USER_PAGE ==> Translate(m, dir, p) == Unmapped
    ensures USER_PAGE <= p < USER_PAGE + USER_PAGES ==>
      Translate(m, dir, p) == Mapped(pages[p - USER_PAGE], true, true)
    ensures USER_PAGE + USER_PAGES <= p < USER_PAGE + ENTRIES ==> Translate(m, dir, p) == Unmapped
    ensures USER_PAGE + ENTRIES <= p ==> Translate(m, dir, p) == Unmapped || Translate(m, dir, p) == Translate(m, k, p)
  {
    var i := p / ENTRIES;
    if i != USER_PDE { assert Entry(m, dir, i) == Entry(m, k, i) || !Present(Entry(m, dir, i)); }
  }

  /** Under a kernel directory closed to user mode, the 512 user pages are what the process can use:
      each is its own frame, and it can be written. */
  lemma ProcessReaches(m: Memory, k: nat, dir: nat, table: nat, pages: seq<nat>, p: nat)
    requires Built(m, k, dir, table, pages) && Closed(m, k) && p < PAGES
    ensures Reachable(m, dir, p) <==> 0x800 <= p < 0xA00
    ensures Reachable(m, dir, p) ==> Translate(m, dir, p).write && Translate(m, dir, p).frame == pages[p - 0x800]
  {
    ProcessSees(m, k, dir, table, pages, p);
    assert !Reachable(m, k, p);
    hide Built, Translate, Closed;
  }

  // ------------------------------------------------- what the loops of free_task_resources free

  /** Frames behind the present entries below n of a table. */
  ghost function PagesOf(m: Memory, table: nat, n: nat): set<nat> {
    if n == 0 then {}
    else
      var e := Entry(m, table, n - 1);
      if Present(e) && FrameOf(e) != 0 then PagesOf(m, table, n - 1) + {FrameOf(e)} else PagesOf(m, table, n - 1)
  }

  /** Tables and pages behind the first n directory entries that are present and not the kernel's. */
  ghost function Reclaimed(m: Memory, k: nat, dir: nat, n: nat): set<nat> {
    if n == 0 then {}
    else
      var e := Entry(m, dir, n - 1);
      if e != Entry(m, k, n - 1) && Present(e) then
        Reclaimed(m, k, dir, n - 1) + PagesOf(m, FrameOf(e), ENTRIES) + ({FrameOf(e)} - {0})
      else Reclaimed(m, k, dir, n - 1)
  }

  lemma {:induction false} PagesAre(m: Memory, table: nat, pages: seq<nat>, n: nat)
    requires |pages| == USER_PAGES && 0 !in pages && n <= ENTRIES
    requires forall j: nat :: j < USER_PAGES ==> Present(Entry(m, table, j)) && FrameOf(Entry(m, table, j)) == pages[j]
    requires forall j: nat :: USER_PAGES <= j < ENTRIES ==> !Present(Entry(m, table, j))
    ensures PagesOf(m, table, n) == SeqSet(if n <= USER_PAGES then pages[..n] else pages)
  {
    if n > 0 {
      PagesAre(m, table, pages, n - 1);
      if n <= USER_PAGES { assert pages[..n] == pages[..n - 1] + [pages[n - 1]]; }
      assert n == USER_PAGES ==> pages[..n] == pages;
      assert n - 1 == USER_PAGES ==> pages[..n - 1] == pages;
    } else {
      assert pages[..0] == [];
    }
  }

  lemma {:induction false} ReclaimedOne(m: Memory, k: nat, dir: nat, at: nat, n: nat)
    requires at < ENTRIES && n <= ENTRIES && Present(Entry(m, dir, at)) && Entry(m, dir, at) != Entry(m, k, at)
    requires forall i: nat :: i < ENTRIES && i != at ==>
      Entry(m, dir, i) == Entry(m, k, i) || !Present(Entry(m, dir, i))
    ensures Reclaimed(m, k, dir, n) ==
      if n <= at then {} else PagesOf(m, FrameOf(Entry(m, dir, at)), ENTRIES) + ({FrameOf(Entry(m, dir, at))} - {0})
  {
    if n > 0 { ReclaimedOne(m, k, dir, at, n - 1); }
  }

  /** The entries of the user table, read off the flat map. */
  lemma BuiltEntries(m: Memory, k: nat, dir: nat, table: nat, pages: seq<nat>, j: nat)
    requires Built(m, k, dir, table, pages) && j < ENTRIES
    ensures j < USER_PAGES ==> Present(Entry(m, table, j)) && FrameOf(Entry(m, table, j)) == pages[j]
    ensures USER_PAGES <= j ==> !Present(Entry(m, table, j))
  {
    EntryParts(table, 0, USER_FLAGS);
    assert (USER_PAGE + j) / ENTRIES == USER_PDE && (USER_PAGE + j) % ENTRIES == j;
    assert Translate(m, dir, USER_PAGE + j) == if j < |pages| then Mapped(pages[j], true, true) else Unmapped;
  }

  /** The frees reach exactly the process's table and pages, none of the kernel's. */
  lemma BuiltReclaimed(m: Memory, k: nat, dir: nat, table: nat, pages: seq<nat>)
    requires Built(m, k, dir, table, pages) && 0 !in pages && table != 0
    requires Present(Entry(m, k, USER_PDE)) ==> FrameOf(Entry(m, k, USER_PDE)) != table
    ensures Reclaimed(m, k, dir, ENTRIES) == {table} + SeqSet(pages)
  {
    forall j: nat | j < ENTRIES
      ensures j < USER_PAGES ==> Present(Entry(m, table, j)) && FrameOf(Entry(m, table, j)) == pages[j]
      ensures USER_PAGES <= j ==> !Present(Entry(m, table, j))
    {
      BuiltEntries(m, k, dir, table, pages, j);
    }
    EntryParts(table, 0, USER_FLAGS);
    hide Entry, Translate, DirEntry, SeqSet;
    PagesAre(m, table, pages, ENTRIES);
    ReclaimedOne(m, k, dir, USER_PDE, ENTRIES);
  }

  // ------------------------------------------------- building an address space

  /** Directory `dir` under construction since memory was m0 and the frames in use were used0. */
  ghost predicate Mapping(m0: Memory, used0: set<nat>, m: Memory, used: set<nat>, k: nat, dir: nat, table: nat,
                          pages: seq<nat>) {
    && Untouched(m0, m, used0) && Sane(m, used, dir) && dir !in used0
    && (forall i: nat :: i < ENTRIES && i != USER_PDE ==> Entry(m, dir, i) == Entry(m0, k, i))
    && UserMap(m, dir, pages) && SeqSet(pages) !! used0
    && (pages == [] ==> !Present(Entry(m, dir, USER_PDE)) && used == used0 + {dir})
    && (pages != [] ==> table < MAX_FRAMES && Entry(m, dir, USER_PDE) == DirEntry(table, USER_FLAGS))
    && (pages != [] ==> table !in used0 && table != dir && used == used0 + {dir, table} + SeqSet(pages))
  }

  /** A table made for a user page lets user mode through. */
  lemma GrownOpen(was: set<nat>, used: set<nat>, m: Memory, dir: nat)
    requires Grown(was, used, m, dir, USER_PDE, USER_FLAGS)
    ensures Writable(Entry(m, dir, USER_PDE)) && Open(Entry(m, dir, USER_PDE))
  {
    hide DirEntry, Entry, Writable, Open;
    var f: nat :| f < MAX_FRAMES && f !in was && used == was + {f}
                  && Entry(m, dir, USER_PDE) == DirEntry(f, USER_FLAGS);
    EntryParts(f, 0, USER_FLAGS);
  }

  /** One more user page. */
  lemma MapsOneMore(m: Memory, w: Memory, dir: nat, pages: seq<nat>, f: nat)
    requires UserMap(m, dir, pages) && |pages| < USER_PAGES
    requires ChangedAt(m, w, dir, USER_PAGE + |pages|, Mapped(f, true, true))
    ensures UserMap(w, dir, pages + [f])
  {}

  lemma SeqSetMore(pages: seq<nat>, f: nat)
    ensures SeqSet(pages + [f]) == SeqSet(pages) + {f}
  {}

  /** The step of the loop in elf_exec: frame f is taken, mapped, and a table made for the first page. */
  lemma MappingStep(m0: Memory, used0: set<nat>, m: Memory, used: set<nat>, k: nat, dir: nat, table: nat,
                    pages: seq<nat>, f: nat, w: Memory, more: set<nat>, made: nat)
    requires Mapping(m0, used0, m, used, k, dir, table, pages) && |pages| < USER_PAGES && f !in used
    requires Sane(w, more, dir) && SameDirBut(m, w, dir, USER_PDE) && OnlyTwo(m, w, dir, made) && made !in used0
    requires ChangedAt(m, w, dir, USER_PAGE + |pages|, Mapped(f, true, true))
    requires made < MAX_FRAMES && made != dir && Entry(w, dir, USER_PDE) == DirEntry(made, USER_FLAGS)
    requires pages != [] ==> made == table && more == used + {f}
    requires pages == [] ==> more == used + {f, made}
    ensures Mapping(m0, used0, w, more, k, dir, made, pages + [f])
  {
    MapsOneMore(m, w, dir, pages, f);
    SeqSetMore(pages, f);
    assert Untouched(m0, w, used0);
    assert forall i: nat :: i < ENTRIES && i != USER_PDE ==> Entry(w, dir, i) == Entry(m0, k, i);
    hide UserMap, Sane, Untouched, Entry, ChangedAt;
    assert pages == [] ==> SeqSet(pages) == {};
  }

  lemma MappingNext(m0: Memory, used0: set<nat>, m: Memory, used: set<nat>, k: nat, dir: nat, table: nat,
                    pages: seq<nat>, f: nat, w: Memory, more: set<nat>)
    returns (made: nat)
    requires Mapping(m0, used0, m, used, k, dir, table, pages) && |pages| < USER_PAGES && f !in used
    requires Sane(w, more, dir) && SameDirBut(m, w, dir, USER_PDE)
    requires OnlyTwo(m, w, dir, FrameOf(Entry(w, dir, USER_PDE)))
    requires var pde := Entry(w, dir, USER_PDE);
      ChangedAt(m, w, dir, USER_PAGE + |pages|, Mapped(f, Writable(pde), Open(pde)))
    requires Present(Entry(m, dir, USER_PDE)) ==> more == used + {f} && SameDir(m, w, dir)
    requires !Present(Entry(m, dir, USER_PDE)) ==> Grown(used + {f}, more, w, dir, USER_PDE, USER_FLAGS)
    ensures Mapping(m0, used0, w, more, k, dir, made, pages + [f])
  {
    hide Sane, UserMap, ChangedAt, Untouched, Entry, DirEntry, Present, FrameOf, SeqSet, Writable, Open;
    made := table;
    if pages == [] {
      made :| made < MAX_FRAMES && made !in used + {f} && more == used + {f} + {made}
              && Entry(w, dir, USER_PDE) == DirEntry(made, USER_FLAGS);
      assert used + {f} + {made} == used + {f, made};
    } else {
      EntryParts(table, 0, USER_FLAGS);
      assert Entry(w, dir, USER_PDE) == Entry(m, dir, USER_PDE);
    }
    EntryParts(made, 0, USER_FLAGS);
    MappingStep(m0, used0, m, used, k, dir, table, pages, f, w, more, made);
  }

  /** A directory with entry 2 cleared is ready to be mapped. */
  lemma MappingStart(m0: Memory, used0: set<nat>, m: Memory, k: nat, dir: nat)
    requires Formed(m) && dir < |m| && dir !in used0 && SameBut(m0, m, dir) && Sane(m, used0 + {dir}, dir)
    requires forall i: nat :: i < ENTRIES ==> Entry(m, dir, i) == Entry(m0, k, i)
    ensures Mapping(m0, used0, Store(m, dir, USER_PDE, 0), used0 + {dir}, k, dir, 0, [])
  {
    var w := Store(m, dir, USER_PDE, 0);
    forall i: nat | i != USER_PDE
      ensures Entry(w, dir, i) == Entry(m, dir, i)
    { StoreLaw(m, dir, USER_PDE, 0, dir, i); }
    StoreLaw(m, dir, USER_PDE, 0, dir, USER_PDE);
    DropSane(m, w, used0 + {dir}, dir, USER_PDE);
    assert Untouched(m0, w, used0);
    assert forall p: nat :: USER_PAGE <= p < USER_PAGE + ENTRIES ==> p / ENTRIES == USER_PDE;
    assert SeqSet([]) == {};
  }

  lemma DropSane(m: Memory, w: Memory, used: set<nat>, dir: nat, k: nat)
    requires Sane(m, used, dir) && SameDirBut(m, w, dir, k) && !Present(Entry(w, dir, k))
    ensures Sane(w, used, dir)
  {
    forall i: nat, f: nat | Names(w, dir, i, f) ensures Names(m, dir, i, f) { assert i != k; }
  }

  /** With the kernel's low entries cleared, the address space is complete. */
  lemma Sealed(m0: Memory, used0: set<nat>, m: Memory, used: set<nat>, k: nat, dir: nat, table: nat, pages: seq<nat>)
    requires Mapping(m0, used0, m, used, k, dir, table, pages)
    requires |pages| == USER_PAGES && Formed(m) && dir < |m| && k in used0
    ensures var w := Store(Store(m, dir, 0, 0), dir, 1, 0); Built(w, k, dir, table, pages) && Untouched(m0, w, used0)
  {
    var z := Store(m, dir, 0, 0);
    var w := Store(z, dir, 1, 0);
    forall i: nat ensures Entry(w, dir, i) == if i <= 1 then 0 else Entry(m, dir, i) {
      StoreLaw(m, dir, 0, 0, dir, i);
      StoreLaw(z, dir, 1, 0, dir, i);
    }
    assert OnlyTwo(m, w, dir, dir);
    assert Untouched(m0, w, used0);
    assert forall i: nat :: Entry(w, k, i) == Entry(m0, k, i);
    SealedMap(m, w, dir, table, pages);
  }

  lemma SealedMap(m: Memory, w: Memory, dir: nat, table: nat, pages: seq<nat>)
    requires UserMap(m, dir, pages) && OnlyTwo(m, w, dir, dir) && table < MAX_FRAMES && table != dir
    requires Entry(m, dir, USER_PDE) == DirEntry(table, USER_FLAGS)
    requires Entry(w, dir, USER_PDE) == Entry(m, dir, USER_PDE)
    ensures UserMap(w, dir, pages)
  {
    EntryParts(table, 0, USER_FLAGS);
    forall p: nat | USER_PAGE <= p < USER_PAGE + ENTRIES ensures Translate(w, dir, p) == Translate(m, dir, p) {
      assert p / ENTRIES == USER_PDE;
      assert Entry(w, table, p % ENTRIES) == Entry(m, table, p % ENTRIES);
    }
  }
}
