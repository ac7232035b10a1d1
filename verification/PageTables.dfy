/** Two-level page tables in frames of 1024 entries, and the flat map from pages to frames
    that they stand for. */
module PageTables {
  import opened Bytes

  const ENTRIES := 1024
  const PAGES := 0x10_0000

  /** The words of every frame, by frame number. */
  type Memory = seq<seq<u32>>

  /** The frame of a page, whether it may be written, and whether user mode may use it. */
  datatype Translation = Unmapped | Mapped(frame: nat, write: bool, user: bool)

  predicate Present(e: u32) {
    e % 2 == 1
  }

  /** Bits 1 and 2 of an entry. */
  predicate Writable(e: u32) {
    e / 2 % 2 == 1
  }

  predicate Open(e: u32) {
    e / 4 % 2 == 1
  }

  function FrameOf(e: u32): nat {
    e / 4096
  }

  ghost predicate Formed(m: Memory) {
    forall f :: 0 <= f < |m| ==> |m[f]| == ENTRIES
  }

  /** Entry i of the table in frame f. */
  function Entry(m: Memory, f: nat, i: nat): u32 {
    if f < |m| && i < |m[f]| then m[f][i] else 0
  }

  /** What the two entries on the way to a page say: it can be written, or used in user mode, only if
      both allow it. */
  function PageOf(pde: u32, pte: u32): Translation {
    if Present(pde) && Present(pte) then
      Mapped(FrameOf(pte), Writable(pde) && Writable(pte), Open(pde) && Open(pte))
    else Unmapped
  }

  /** What the hardware makes of a page number under the directory in frame `dir`. */
  function Translate(m: Memory, dir: nat, page: nat): Translation {
    var pde := Entry(m, dir, page / ENTRIES);
    PageOf(pde, Entry(m, FrameOf(pde), page % ENTRIES))
  }

  /** Entry i of frame f set to e. */
  function Store(m: Memory, f: nat, i: nat, e: u32): (w: Memory)
    requires Formed(m) && f < |m| && i < ENTRIES
    ensures Formed(w) && |w| == |m|
  {
    m[f := SetWord(m[f], i, e)]
  }

  function SetWord(row: seq<u32>, i: nat, e: u32): (r: seq<u32>)
    requires i < |row|
    ensures |r| == |row|
  {
    row[i := e]
  }

  lemma StoreLaw(m: Memory, f: nat, i: nat, e: u32, g: nat, j: nat)
    requires Formed(m) && f < |m| && i < ENTRIES
    ensures Entry(Store(m, f, i, e), g, j) == if g == f && j == i then e else Entry(m, g, j)
  {}

  // ------------------------------------------------- directories

  /** Entry i of `dir` names the table in frame f. */
  ghost predicate Names(m: Memory, dir: nat, i: nat, f: nat) {
    Present(Entry(m, dir, i)) && FrameOf(Entry(m, dir, i)) == f
  }

  /** A directory in use: its tables are frames in use, all different and different from itself. */
  ghost predicate Sane(m: Memory, used: set<nat>, dir: nat) {
    && dir in used
    && (forall i: nat, f: nat :: i < ENTRIES && Names(m, dir, i, f) ==> f in used && f != dir)
    && (forall i: nat, j: nat, f: nat :: i < ENTRIES && j < ENTRIES && Names(m, dir, i, f) && Names(m, dir, j, f) ==>
          i == j)
  }

  /** Nothing in frame f is read when translating through dir. */
  ghost predicate Clear(m: Memory, dir: nat, f: nat) {
    dir != f && forall i: nat :: i < ENTRIES ==> !Names(m, dir, i, f)
  }

  /** Only frame f changed. */
  ghost predicate SameBut(m: Memory, w: Memory, f: nat) {
    |w| == |m| && forall g :: 0 <= g < |m| && g != f ==> w[g] == m[g]
  }

  /** A change of a frame that a directory does not use leaves its translations alone. */
  lemma Elsewhere(m: Memory, w: Memory, f: nat, dir: nat, page: nat)
    requires SameBut(m, w, f) && Clear(m, dir, f) && page < PAGES
    ensures Translate(w, dir, page) == Translate(m, dir, page)
  {
    var pde := Entry(m, dir, page / ENTRIES);
    assert Present(pde) ==> Names(m, dir, page / ENTRIES, FrameOf(pde));
  }

  lemma ElsewhereSane(m: Memory, w: Memory, f: nat, used: set<nat>, dir: nat)
    requires SameBut(m, w, f) && Sane(m, used, dir) && dir != f
    ensures Sane(w, used, dir)
  {
    forall j: nat, g: nat
      ensures Names(w, dir, j, g) <==> Names(m, dir, j, g)
    { assert Entry(w, dir, j) == Entry(m, dir, j); }
  }

  /** A directory in use does not read a free frame. */
  lemma FreeIsClear(m: Memory, used: set<nat>, dir: nat, f: nat)
    requires Sane(m, used, dir) && f !in used
    ensures Clear(m, dir, f)
  {}

  /** A store into one table of a directory changes at most the page of that entry. */
  lemma StoreInTable(m: Memory, used: set<nat>, dir: nat, k: nat, i: nat, e: u32, page: nat)
    requires Formed(m) && Sane(m, used, dir) && k < ENTRIES && i < ENTRIES && page < PAGES
    requires Present(Entry(m, dir, k)) && FrameOf(Entry(m, dir, k)) < |m|
    ensures Translate(Store(m, FrameOf(Entry(m, dir, k)), i, e), dir, page) ==
            if page == ENTRIES * k + i then PageOf(Entry(m, dir, k), e) else Translate(m, dir, page)
  {
    var f := FrameOf(Entry(m, dir, k));
    var pde := Entry(m, dir, page / ENTRIES);
    assert Names(m, dir, k, f);
    assert Present(pde) ==> Names(m, dir, page / ENTRIES, FrameOf(pde));
  }

  /** Naming an empty table in an absent entry changes no translation. */
  lemma EmptyTable(m: Memory, used: set<nat>, dir: nat, k: nat, e: u32, page: nat)
    requires Formed(m) && Sane(m, used, dir) && dir < |m| && k < ENTRIES && page < PAGES && !Present(Entry(m, dir, k))
    requires FrameOf(e) != dir && forall i: nat :: i < ENTRIES ==> Entry(m, FrameOf(e), i) == 0
    ensures Translate(Store(m, dir, k, e), dir, page) == Translate(m, dir, page)
  {
    var pde := Entry(m, dir, page / ENTRIES);
    assert Present(pde) ==> Names(m, dir, page / ENTRIES, FrameOf(pde));
    assert page / ENTRIES == k ==> Entry(m, FrameOf(e), page % ENTRIES) == 0;
  }

  /** It keeps the directory sane when the table is a new frame. */
  lemma TableSane(m: Memory, used: set<nat>, dir: nat, k: nat, e: u32)
    requires Formed(m) && Sane(m, used, dir) && dir < |m| && k < ENTRIES && FrameOf(e) !in used
    ensures Sane(Store(m, dir, k, e), used + {FrameOf(e)}, dir)
  {
    var w := Store(m, dir, k, e);
    forall i: nat, f: nat | i < ENTRIES && i != k && Names(w, dir, i, f)
      ensures Names(m, dir, i, f)
    { StoreLaw(m, dir, k, e, dir, i); }
    StoreLaw(m, dir, k, e, dir, k);
  }

  /** Directory d translates every page as before. */
  ghost predicate SameMap(m: Memory, w: Memory, d: nat) {
    forall p: nat :: p < PAGES ==> Translate(w, d, p) == Translate(m, d, p)
  }

  /** A store through entry k of `dir` cannot reach directory d. */
  ghost predicate Apart(m: Memory, used: set<nat>, dir: nat, k: nat, d: nat) {
    Sane(m, used, d) && Clear(m, d, dir) && (Present(Entry(m, dir, k)) ==> Clear(m, d, FrameOf(Entry(m, dir, k))))
  }

  lemma StoreSameBut(m: Memory, f: nat, i: nat, e: u32)
    requires Formed(m) && f < |m| && i < ENTRIES
    ensures SameBut(m, Store(m, f, i, e), f)
  {}

  lemma ElsewhereMap(m: Memory, w: Memory, f: nat, used: set<nat>, d: nat)
    requires SameBut(m, w, f) && Clear(m, d, f) && Sane(m, used, d)
    ensures SameMap(m, w, d) && Sane(w, used, d)
  {
    forall p: nat | p < PAGES ensures Translate(w, d, p) == Translate(m, d, p) { Elsewhere(m, w, f, d, p); }
    ElsewhereSane(m, w, f, used, d);
  }

  lemma ClearKept(m: Memory, w: Memory, f: nat, d: nat, g: nat)
    requires SameBut(m, w, f) && Clear(m, d, g) && d != f
    ensures Clear(w, d, g)
  {
    forall i: nat | i < ENTRIES
      ensures !Names(w, d, i, g)
    { assert Entry(w, d, i) == Entry(m, d, i) && !Names(m, d, i, g); }
  }

  /** Frame f made an empty table and named in entry k of `dir`: no translation changes. */
  lemma TableMade(m: Memory, z: Memory, used: set<nat>, dir: nat, k: nat, f: nat, e: u32)
    requires Formed(z) && Sane(m, used, dir) && dir < |m| && k < ENTRIES && !Present(Entry(m, dir, k))
    requires f !in used && SameBut(m, z, f) && FrameOf(e) == f && forall i: nat :: i < ENTRIES ==> Entry(z, f, i) == 0
    ensures SameMap(m, Store(z, dir, k, e), dir) && Sane(Store(z, dir, k, e), used + {f}, dir)
  {
    FreeIsClear(m, used, dir, f);
    ElsewhereMap(m, z, f, used, dir);
    assert !Present(Entry(z, dir, k));
    forall p: nat | p < PAGES ensures Translate(Store(z, dir, k, e), dir, p) == Translate(m, dir, p) {
      EmptyTable(z, used, dir, k, e, p);
    }
    TableSane(z, used, dir, k, e);
  }

  lemma TableMadeApart(m: Memory, z: Memory, used: set<nat>, dir: nat, k: nat, f: nat, e: u32, d: nat)
    requires Formed(z) && dir < |m| && k < ENTRIES && f !in used && SameBut(m, z, f)
    requires Sane(m, used, d) && Clear(m, d, dir)
    ensures SameMap(m, Store(z, dir, k, e), d) && Sane(Store(z, dir, k, e), used, d) && Clear(Store(z, dir, k, e), d, f)
  {
    var w := Store(z, dir, k, e);
    FreeIsClear(m, used, d, f);
    ElsewhereMap(m, z, f, used, d);
    ClearKept(m, z, f, d, dir);
    ClearKept(m, z, f, d, f);
    StoreSameBut(z, dir, k, e);
    ElsewhereMap(z, w, dir, used, d);
    ClearKept(z, w, dir, d, f);
  }

  lemma SaneMore(m: Memory, used: set<nat>, d: nat, f: nat)
    requires Sane(m, used, d)
    ensures Sane(m, used + {f}, d)
  {}

  /** What a store into a table of `dir` does: one page there, nothing in directories apart. */
  lemma TableStored(m: Memory, used: set<nat>, dir: nat, k: nat, i: nat, e: u32)
    requires Formed(m) && Sane(m, used, dir) && k < ENTRIES && i < ENTRIES
    requires Present(Entry(m, dir, k)) && FrameOf(Entry(m, dir, k)) < |m|
    ensures var w := Store(m, FrameOf(Entry(m, dir, k)), i, e);
      && ChangedAt(m, w, dir, ENTRIES * k + i, PageOf(Entry(m, dir, k), e))
      && Sane(w, used, dir)
  {
    var f := FrameOf(Entry(m, dir, k));
    var w := Store(m, f, i, e);
    forall p: nat | p < PAGES
      ensures Translate(w, dir, p) ==
        if p == ENTRIES * k + i then PageOf(Entry(m, dir, k), e) else Translate(m, dir, p)
    {
      StoreInTable(m, used, dir, k, i, e, p);
    }
    StoreSameBut(m, f, i, e);
    assert Names(m, dir, k, f);
    ElsewhereSane(m, w, f, used, dir);
  }

  /** The flat map of directory d, changed at one page. */
  ghost predicate ChangedAt(m: Memory, w: Memory, d: nat, page: nat, to: Translation) {
    forall p: nat :: p < PAGES ==> Translate(w, d, p) == if p == page then to else Translate(m, d, p)
  }

  lemma TableStoredApart(m: Memory, used: set<nat>, dir: nat, k: nat, i: nat, e: u32, d: nat)
    requires Formed(m) && k < ENTRIES && i < ENTRIES && Apart(m, used, dir, k, d) && Sane(m, used, dir)
    requires Present(Entry(m, dir, k)) && FrameOf(Entry(m, dir, k)) < |m|
    ensures var w := Store(m, FrameOf(Entry(m, dir, k)), i, e); SameMap(m, w, d) && Apart(w, used, dir, k, d)
  {
    var f := FrameOf(Entry(m, dir, k));
    var w := Store(m, f, i, e);
    StoreSameBut(m, f, i, e);
    ElsewhereMap(m, w, f, used, d);
    ClearKept(m, w, f, d, dir);
    ClearKept(m, w, f, d, f);
    assert Names(m, dir, k, f);
    StoreLaw(m, f, i, e, dir, k);
  }

  /** The directory itself is as before, or but for entry k. */
  ghost predicate SameDir(m: Memory, w: Memory, dir: nat) {
    forall i: nat :: Entry(w, dir, i) == Entry(m, dir, i)
  }

  ghost predicate SameDirBut(m: Memory, w: Memory, dir: nat, k: nat) {
    forall i: nat :: i != k ==> Entry(w, dir, i) == Entry(m, dir, i)
  }

  lemma SameMapSelf(m: Memory, d: nat)
    ensures SameMap(m, m, d)
  {}

  lemma SameMapTwice(m: Memory, w: Memory, x: Memory, d: nat)
    requires SameMap(m, w, d) && SameMap(w, x, d)
    ensures SameMap(m, x, d)
  {}

  lemma SameThenChanged(m: Memory, w: Memory, x: Memory, d: nat, page: nat, to: Translation)
    requires SameMap(m, w, d) && ChangedAt(w, x, d, page, to)
    ensures ChangedAt(m, x, d, page, to)
  {}

  /** A new directory with the entries of another translates like it. */
  lemma CopiedDir(m: Memory, w: Memory, used: set<nat>, k: nat, d: nat)
    requires Sane(m, used, k) && d !in used && SameBut(m, w, d) && forall i: nat :: i < ENTRIES ==>
      Entry(w, d, i) == Entry(m, k, i)
    ensures Sane(w, used + {d}, d) && forall p: nat :: p < PAGES ==> Translate(w, d, p) == Translate(m, k, p)
  {
    forall i: nat, f: nat | i < ENTRIES
      ensures Names(w, d, i, f) <==> Names(m, k, i, f)
    { assert Entry(w, d, i) == Entry(m, k, i); }
    forall p: nat | p < PAGES ensures Translate(w, d, p) == Translate(m, k, p) {
      var pde := Entry(m, k, p / ENTRIES);
      assert Entry(w, d, p / ENTRIES) == pde;
      assert Present(pde) ==> Names(m, k, p / ENTRIES, FrameOf(pde));
    }
  }

  /** A change inside a frame that is free is not seen by any directory in use. */
  lemma FreshMap(m: Memory, w: Memory, used: set<nat>, f: nat, d: nat)
    requires SameBut(m, w, f) && Sane(m, used, d) && f !in used
    ensures SameMap(m, w, d) && Sane(w, used + {f}, d)
  {
    FreeIsClear(m, used, d, f);
    ElsewhereMap(m, w, f, used, d);
    SaneMore(w, used, d, f);
  }

  /** Frames other than a and b keep their words. */
  ghost predicate OnlyTwo(m: Memory, w: Memory, a: nat, b: nat) {
    |w| == |m| && forall f :: 0 <= f < |m| && f != a && f != b ==> w[f] == m[f]
  }

  /** The frames in `kept` keep their words. */
  ghost predicate Untouched(m: Memory, w: Memory, kept: set<nat>) {
    |w| == |m| && forall f :: f in kept && f < |m| ==> w[f] == m[f]
  }

  /** Directories whose frames are untouched translate every page as before. */
  lemma UntouchedMap(m: Memory, w: Memory, used: set<nat>, more: set<nat>, d: nat)
    requires Untouched(m, w, used) && Sane(m, used, d) && used <= more
    ensures SameMap(m, w, d) && Sane(w, more, d)
  {
    forall i: nat, f: nat ensures Names(w, d, i, f) <==> Names(m, d, i, f) { assert Entry(w, d, i) == Entry(m, d, i); }
    forall p: nat | p < PAGES ensures Translate(w, d, p) == Translate(m, d, p) {
      var pde := Entry(m, d, p / ENTRIES);
      assert Entry(w, d, p / ENTRIES) == pde;
      assert Present(pde) ==> Names(m, d, p / ENTRIES, FrameOf(pde));
    }
  }

  /** The first n pages are mapped to themselves, writable and closed to user mode, and no others. */
  ghost predicate IdentityTo(m: Memory, dir: nat, n: nat) {
    forall p: nat :: p < PAGES ==> Translate(m, dir, p) == if p < n then Mapped(p, true, false) else Unmapped
  }

  /** User mode can use a page under dir. */
  ghost predicate Reachable(m: Memory, dir: nat, page: nat) {
    Translate(m, dir, page).Mapped? && Translate(m, dir, page).user
  }

  /** User mode can use nothing under dir. */
  ghost predicate Closed(m: Memory, dir: nat) {
    forall p: nat :: p < PAGES ==> !Reachable(m, dir, p)
  }

  lemma IdentityClosed(m: Memory, dir: nat, n: nat)
    requires IdentityTo(m, dir, n)
    ensures Closed(m, dir)
  {}

  lemma IdentityMore(m: Memory, w: Memory, dir: nat, n: nat)
    requires IdentityTo(m, dir, n) && ChangedAt(m, w, dir, n, Mapped(n, true, false))
    ensures IdentityTo(w, dir, n + 1)
  {}

  lemma IdentitySame(m: Memory, w: Memory, dir: nat, n: nat)
    requires IdentityTo(m, dir, n) && SameMap(m, w, dir)
    ensures IdentityTo(w, dir, n)
  {}

  lemma SameDirTwice(m: Memory, w: Memory, x: Memory, dir: nat)
    requires SameDir(m, w, dir) && SameDir(w, x, dir)
    ensures SameDir(m, x, dir)
  {}

  lemma EmptySane(m: Memory, used: set<nat>, dir: nat)
    requires dir in used && forall i: nat :: i < ENTRIES ==> Entry(m, dir, i) == 0
    ensures Sane(m, used, dir) && IdentityTo(m, dir, 0)
  {
    assert forall p: nat :: p < PAGES ==> p / ENTRIES < ENTRIES;
  }
}
