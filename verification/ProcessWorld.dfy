/** The account of all frames in use: the kernel's, and those each process owns. */
module ProcessWorld {
  import opened Collections
  import opened Frames
  import opened PageTables
  import opened Paging
  import opened ProcessFrames

  /** The task_t of a process names what the process owns. */
  ghost predicate Matches(m: Memory, k: nat, p: Proc, r: Resources) {
    match p
    case User(dir, table, pages, stack) =>
      Built(m, k, dir, table, pages) && dir != table && 0 !in pages && r == Resources(dir, stack)
    case Kern(stack) => r == Resources(k, stack)
  }

  /** Process t owns frames in use that are not the kernel's. */
  ghost predicate Settled(m: Memory, used: set<nat>, k: nat, kernel: set<nat>, p: Proc, r: Resources) {
    Matches(m, k, p, r) && Own(p) <= used && Own(p) !! kernel
  }

  /** The kernel directory and its tables are kernel frames. */
  ghost predicate KernelOk(m: Memory, used: set<nat>, k: nat, kernel: set<nat>) {
    && Sane(m, used, k) && k in kernel && 0 in kernel && k != 0 && kernel <= used
    && forall i: nat, f: nat :: i < ENTRIES && Names(m, k, i, f) ==> f in kernel
  }

  ghost predicate Owned(f: nat, procs: map<nat, Proc>) {
    exists t :: t in procs && f in Own(procs[t])
  }

  ghost predicate AllSettled(m: Memory, used: set<nat>, k: nat, kernel: set<nat>, procs: map<nat, Proc>,
                             tasks: map<nat, Resources>) {
    forall t :: t in procs ==> t in tasks && Settled(m, used, k, kernel, procs[t], tasks[t])
  }

  ghost predicate NoneShared(procs: map<nat, Proc>) {
    forall t, u :: t in procs && u in procs && t != u ==> Own(procs[t]) !! Own(procs[u])
  }

  ghost predicate AllOwned(used: set<nat>, kernel: set<nat>, procs: map<nat, Proc>) {
    forall f :: f in used ==> f in kernel || Owned(f, procs)
  }

  ghost predicate Ended(k: nat, procs: map<nat, Proc>, tasks: map<nat, Resources>) {
    forall t :: t in tasks && t !in procs ==> (tasks[t].dir == 0 || tasks[t].dir == k) && tasks[t].stack == 0
  }

  /** Every frame in use is the kernel's or some process's, and no frame is two owners'.  A task_t
      whose process has ended names nothing any more. */
  ghost predicate World(m: Memory, used: set<nat>, k: nat, kernel: set<nat>, procs: map<nat, Proc>, tasks: map<nat,
                        Resources>) {
    && KernelOk(m, used, k, kernel) && AllSettled(m, used, k, kernel, procs, tasks) && NoneShared(procs)
    && AllOwned(used, kernel, procs) && Ended(k, procs, tasks) && TaskFrames(kernel, tasks)
  }

  /** A task_t frame is never given back. */
  ghost predicate TaskFrames(kernel: set<nat>, tasks: map<nat, Resources>) {
    forall t :: t in tasks ==> t in kernel
  }

  // ------------------------------------------------- directories of processes

  /** A built address space is a sane directory. */
  lemma BuiltSane(m: Memory, used: set<nat>, k: nat, kernel: set<nat>, dir: nat, table: nat, pages: seq<nat>)
    requires KernelOk(m, used, k, kernel) && Built(m, k, dir, table, pages) && dir != table
    requires dir in used && table in used && dir !in kernel && table !in kernel
    ensures Sane(m, used, dir)
  {
    EntryParts(table, 0, USER_FLAGS);
    forall i: nat, f: nat | i < ENTRIES && Names(m, dir, i, f)
      ensures if i == USER_PDE then f == table else Names(m, k, i, f) && f in kernel
    {
      if i != USER_PDE { assert Entry(m, dir, i) == Entry(m, k, i) && Names(m, k, i, f); }
    }
  }

  /** It stays built while its frames and the kernel directory are untouched. */
  lemma BuiltKept(m: Memory, used: set<nat>, k: nat, kernel: set<nat>, dir: nat, table: nat, pages: seq<nat>, w: Memory)
    requires KernelOk(m, used, k, kernel) && Built(m, k, dir, table, pages) && dir != table
    requires dir in used && table in used && dir !in kernel && table !in kernel && Untouched(m, w, used)
    ensures Built(w, k, dir, table, pages)
  {
    BuiltSane(m, used, k, kernel, dir, table, pages);
    UntouchedMap(m, w, used, used, dir);
    forall i: nat ensures Entry(w, dir, i) == Entry(m, dir, i) && Entry(w, k, i) == Entry(m, k, i) {}
    assert forall p: nat :: USER_PAGE <= p < USER_PAGE + ENTRIES ==> Translate(w, dir, p) == Translate(m, dir, p);
  }

  lemma KernelKept(m: Memory, used: set<nat>, k: nat, kernel: set<nat>, w: Memory, more: set<nat>, grown: set<nat>)
    requires KernelOk(m, used, k, kernel) && Untouched(m, w, used) && used <= more && kernel <= grown <= more
    ensures KernelOk(w, more, k, grown)
  {
    UntouchedMap(m, w, used, more, k);
    forall i: nat, f: nat | i < ENTRIES && Names(w, k, i, f) ensures f in grown {
      assert Entry(w, k, i) == Entry(m, k, i) && Names(m, k, i, f);
    }
  }

  lemma SettledKept(m: Memory, used: set<nat>, k: nat, kernel: set<nat>, p: Proc, r: Resources, w: Memory,
                    more: set<nat>, grown: set<nat>)
    requires KernelOk(m, used, k, kernel) && Settled(m, used, k, kernel, p, r) && Untouched(m, w, used)
    requires used <= more && kernel <= grown && grown * used <= kernel
    ensures Settled(w, more, k, grown, p, r)
  {
    if p.User? { BuiltKept(m, used, k, kernel, p.dir, p.table, p.pages, w); }
  }

  /** What one process can use in user mode is no frame of the kernel's and no frame that another
      process can use. */
  lemma Isolated(m: Memory, used: set<nat>, k: nat, kernel: set<nat>, procs: map<nat, Proc>, tasks: map<nat, Resources>,
                 t: nat, u: nat, p: nat, q: nat)
    requires World(m, used, k, kernel, procs, tasks) && Closed(m, k) && p < PAGES && q < PAGES
    requires t in procs && u in procs && t != u && procs[t].User? && procs[u].User?
    requires Reachable(m, procs[t].dir, p) && Reachable(m, procs[u].dir, q)
    ensures Translate(m, procs[t].dir, p).frame !in kernel
    ensures Translate(m, procs[t].dir, p).frame != Translate(m, procs[u].dir, q).frame
  {
    hide Built, Translate, Closed, KernelOk, AllOwned, Ended, TaskFrames;
    ReachesOwn(m, used, k, kernel, procs[t], tasks[t], p);
    ReachesOwn(m, used, k, kernel, procs[u], tasks[u], q);
  }

  lemma ReachesOwn(m: Memory, used: set<nat>, k: nat, kernel: set<nat>, x: Proc, r: Resources, p: nat)
    requires Settled(m, used, k, kernel, x, r) && x.User? && Closed(m, k) && p < PAGES && Reachable(m, x.dir, p)
    ensures Translate(m, x.dir, p).frame in Own(x) && Translate(m, x.dir, p).frame !in kernel
  {
    hide Translate, Closed;
    ProcessReaches(m, k, x.dir, x.table, x.pages, p);
    assert |x.pages| == USER_PAGES;
    assert x.pages[p - USER_PAGE] in x.pages;
    hide Built;
  }

  // ------------------------------------------------- what happens to the account

  /** Frames taken without an owner count as the kernel's. */
  lemma WorldGrows(m: Memory, used: set<nat>, k: nat, kernel: set<nat>, procs: map<nat, Proc>, tasks: map<nat,
                   Resources>, w: Memory, more: set<nat>)
    requires World(m, used, k, kernel, procs, tasks) && Untouched(m, w, used) && used <= more
    ensures World(w, more, k, kernel + (more - used), procs, tasks)
  {
    var grown := kernel + (more - used);
    KernelKept(m, used, k, kernel, w, more, grown);
    forall t | t in procs ensures t in tasks && Settled(w, more, k, grown, procs[t], tasks[t]) {
      SettledKept(m, used, k, kernel, procs[t], tasks[t], w, more, grown);
    }
  }

  /** A new process on frames that were free, with its task_t in another such frame. */
  lemma WorldGains(m: Memory, used: set<nat>, k: nat, kernel: set<nat>, procs: map<nat, Proc>, tasks: map<nat,
                   Resources>, w: Memory, t: nat, p: Proc, r: Resources)
    requires World(m, used, k, kernel, procs, tasks) && Untouched(m, w, used)
    requires t !in used && t !in Own(p) && Own(p) !! used && Matches(w, k, p, r)
    ensures World(w, used + {t} + Own(p), k, kernel + {t}, procs[t := p], tasks[t := r])
  {
    hide KernelOk, AllSettled, NoneShared, AllOwned, Ended, TaskFrames, Own, Matches, Untouched;
    Unknown(m, used, k, kernel, procs, tasks, t);
    KernelKept(m, used, k, kernel, w, used + {t} + Own(p), kernel + {t});
    SettledMore(m, used, k, kernel, procs, tasks, w, t, p, r);
    SharedMore(m, used, k, kernel, procs, tasks, t, p);
    AllOwnedMore(used, kernel, procs, t, p);
    EndedMore(k, kernel, procs, tasks, t, p, r);
  }

  lemma Unknown(m: Memory, used: set<nat>, k: nat, kernel: set<nat>, procs: map<nat, Proc>, tasks: map<nat,
                Resources>, t: nat)
    requires World(m, used, k, kernel, procs, tasks) && t !in used
    ensures kernel <= used && t !in tasks && t !in procs
  {
    hide Sane, Names, Settled, NoneShared, AllOwned, Ended;
  }

  lemma AllOwnedMore(used: set<nat>, kernel: set<nat>, procs: map<nat, Proc>, t: nat, p: Proc)
    requires AllOwned(used, kernel, procs) && t !in procs
    ensures AllOwned(used + {t} + Own(p), kernel + {t}, procs[t := p])
  {
    hide Own;
    forall f | f in used + {t} + Own(p)
      ensures f in kernel +
    {t} || Owned(f, procs[t := p]) { OwnedMore(f, procs, t, p, used, kernel); }
  }

  lemma EndedMore(k: nat, kernel: set<nat>, procs: map<nat, Proc>, tasks: map<nat, Resources>, t: nat, p: Proc,
                  r: Resources)
    requires Ended(k, procs, tasks) && TaskFrames(kernel, tasks)
    ensures Ended(k, procs[t := p], tasks[t := r]) && TaskFrames(kernel + {t}, tasks[t := r])
  {}

  lemma SettledMore(m: Memory, used: set<nat>, k: nat, kernel: set<nat>, procs: map<nat, Proc>, tasks: map<nat,
                    Resources>, w: Memory, t: nat, p: Proc, r: Resources)
    requires KernelOk(m, used, k, kernel) && AllSettled(m, used, k, kernel, procs, tasks) && Untouched(m, w, used)
    requires t !in used && t !in procs && t !in Own(p) && Own(p) !! used && Matches(w, k, p, r)
    ensures AllSettled(w, used + {t} + Own(p), k, kernel + {t}, procs[t := p], tasks[t := r])
  {
    var more, grown := used + {t} + Own(p), kernel + {t};
    var ps, ts := procs[t := p], tasks[t := r];
    assert kernel <= used;
    hide Matches, KernelOk, Own, Untouched;
    forall u | u in ps ensures u in ts && Settled(w, more, k, grown, ps[u], ts[u]) {
      if u != t { SettledKept(m, used, k, kernel, procs[u], tasks[u], w, more, grown); }
    }
  }

  lemma SharedMore(m: Memory, used: set<nat>, k: nat, kernel: set<nat>, procs: map<nat, Proc>, tasks: map<nat,
                   Resources>, t: nat, p: Proc)
    requires AllSettled(m, used, k, kernel, procs, tasks) && NoneShared(procs) && t !in procs && Own(p) !! used
    ensures NoneShared(procs[t := p])
  {
    hide Matches, Own;
    forall u | u in procs ensures Own(procs[u]) !! Own(p) { assert Settled(m, used, k, kernel, procs[u], tasks[u]); }
  }

  lemma OwnedMore(f: nat, procs: map<nat, Proc>, t: nat, p: Proc, used: set<nat>, kernel: set<nat>)
    requires t !in procs && (f in used ==> f in kernel || Owned(f, procs)) && (f in used || f == t || f in Own(p))
    ensures f in kernel + {t} || Owned(f, procs[t := p])
  {
    var ps := procs[t := p];
    if f in Own(p) {
      assert t in ps && f in Own(ps[t]);
    } else if f in used && f !in kernel {
      var u :| u in procs && f in Own(procs[u]);
      assert u in ps && f in Own(ps[u]);
    }
  }

  /** A process that gives up exactly what it owns. */
  lemma WorldLoses(m: Memory, used: set<nat>, k: nat, kernel: set<nat>, procs: map<nat, Proc>, tasks: map<nat,
                   Resources>, t: nat, r: Resources)
    requires World(m, used, k, kernel, procs, tasks) && t in procs && r.stack == 0 && (r.dir == 0 || r.dir == k)
    ensures World(m, used - Own(procs[t]), k, kernel, procs - {t}, tasks[t := r])
  {
    hide Own, Matches, AllOwned, NoneShared, Sane, Names, Ended;
    assert Settled(m, used, k, kernel, procs[t], tasks[t]);
    KernelShrinks(m, used, k, kernel, used - Own(procs[t]));
    hide KernelOk, AllSettled, Settled;
    SettledLess(m, used, k, kernel, procs, tasks, t, r);
    OwnedLess(used, kernel, procs, t);
    Fewer(k, procs, tasks, t, r);
  }

  lemma Fewer(k: nat, procs: map<nat, Proc>, tasks: map<nat, Resources>, t: nat, r: Resources)
    requires NoneShared(procs) && Ended(k, procs, tasks) && r.stack == 0 && (r.dir == 0 || r.dir == k)
    ensures NoneShared(procs - {t}) && Ended(k, procs - {t}, tasks[t := r])
  {
    hide Own;
  }

  lemma SettledLess(m: Memory, used: set<nat>, k: nat, kernel: set<nat>, procs: map<nat, Proc>, tasks: map<nat,
                    Resources>, t: nat, r: Resources)
    requires AllSettled(m, used, k, kernel, procs, tasks) && NoneShared(procs) && t in procs
    ensures AllSettled(m, used - Own(procs[t]), k, kernel, procs - {t}, tasks[t := r])
  {
    hide Matches, Own;
    var ps, ts := procs - {t}, tasks[t := r];
    forall u | u in ps ensures u in ts && Settled(m, used - Own(procs[t]), k, kernel, ps[u], ts[u]) {
      assert Settled(m, used, k, kernel, procs[u], tasks[u]) && Own(procs[u]) !! Own(procs[t]);
    }
  }

  lemma OwnedLess(used: set<nat>, kernel: set<nat>, procs: map<nat, Proc>, t: nat)
    requires AllOwned(used, kernel, procs) && t in procs
    ensures AllOwned(used - Own(procs[t]), kernel, procs - {t})
  {
    hide Own;
    var ps := procs - {t};
    forall f | f in used - Own(procs[t]) && f !in kernel ensures Owned(f, ps) {
      var u :| u in procs && f in Own(procs[u]);
      assert u in ps && f in Own(ps[u]);
    }
  }

  lemma KernelShrinks(m: Memory, used: set<nat>, k: nat, kernel: set<nat>, less: set<nat>)
    requires KernelOk(m, used, k, kernel) && kernel <= less
    ensures KernelOk(m, less, k, kernel)
  {}

  /** The frames that free_task_resources frees for a task_t. */
  ghost function Freed(m: Memory, k: nat, r: Resources): set<nat> {
    (if r.dir != 0 && r.dir != k then Reclaimed(m, k, r.dir, ENTRIES) + {r.dir} else {})
    + (if r.stack != 0 then RunSet(r.stack, STACK_FRAMES) else {})
  }

  /** For a settled process they are exactly what it owns. */
  lemma FreesOwn(m: Memory, used: set<nat>, k: nat, kernel: set<nat>, p: Proc, r: Resources)
    requires KernelOk(m, used, k, kernel) && Settled(m, used, k, kernel, p, r)
    ensures Freed(m, k, r) == Own(p)
  {
    assert r.stack in Own(p);
    if p.User? {
      assert p.dir in Own(p) && p.table in Own(p);
      assert Present(Entry(m, k, USER_PDE)) ==> Names(m, k, USER_PDE, FrameOf(Entry(m, k, USER_PDE)));
      BuiltReclaimed(m, k, p.dir, p.table, p.pages);
    }
  }

  /** In the account: a process's own frames, and none once it has ended. */
  lemma WorldFrees(m: Memory, used: set<nat>, k: nat, kernel: set<nat>, procs: map<nat, Proc>, tasks: map<nat,
                   Resources>, t: nat)
    requires World(m, used, k, kernel, procs, tasks) && t in tasks
    ensures t in procs ==> Freed(m, k, tasks[t]) == Own(procs[t])
    ensures t !in procs ==> Freed(m, k, tasks[t]) == {}
  {
    if t in procs { FreesOwn(m, used, k, kernel, procs[t], tasks[t]); }
  }

  /** A task_t whose process has ended. */
  lemma WorldEnded(m: Memory, used: set<nat>, k: nat, kernel: set<nat>, procs: map<nat, Proc>, tasks: map<nat,
                   Resources>, t: nat)
    requires World(m, used, k, kernel, procs, tasks) && t in tasks && t !in procs
    ensures Freed(m, k, tasks[t]) == {} && tasks[t].stack == 0 && (tasks[t].dir == 0 || tasks[t].dir == k)
    ensures tasks[t := Resources(tasks[t].dir, 0)] == tasks && procs - {t} == procs
  {
    assert tasks[t] == Resources(tasks[t].dir, 0);
    hide KernelOk, AllSettled, NoneShared, AllOwned, Reclaimed;
  }

  /** The account after a process has given back its frames. */
  lemma WorldReleased(m: Memory, used: set<nat>, k: nat, kernel: set<nat>, procs: map<nat, Proc>, tasks: map<nat,
                      Resources>, t: nat, left: Resources)
    requires World(m, used, k, kernel, procs, tasks) && t in procs
    requires left.stack == 0 && (left.dir == 0 || left.dir == k)
    ensures t in tasks && Freed(m, k, tasks[t]) == Own(procs[t])
    ensures World(m, used - Own(procs[t]), k, kernel, procs - {t}, tasks[t := left])
  {
    hide Freed, Own, KernelOk, Settled, NoneShared, AllOwned, Ended, TaskFrames;
    WorldFrees(m, used, k, kernel, procs, tasks, t);
    WorldLoses(m, used, k, kernel, procs, tasks, t, left);
  }

  /** The frames of a finished exec were all free, and are now the process's. */
  lemma ExecOwns(m0: Memory, used0: set<nat>, m: Memory, used1: set<nat>, k: nat, dir: nat, table: nat,
                 pages: seq<nat>, t: nat, stack: nat, used: set<nat>)
    requires Mapping(m0, used0, m, used1, k, dir, table, pages) && pages != [] && t !in used1
    requires AllFree(used1 + {t}, stack, STACK_FRAMES) && used == used1 + {t} + RunSet(stack, STACK_FRAMES)
    ensures var p := User(dir, table, pages, stack);
      t !in used0 && t !in Own(p) && Own(p) !! used0 && used == used0 + {t} + Own(p) && dir != table
  {
    hide Untouched, Sane, UserMap, Entry, DirEntry, SeqSet;
  }

  lemma KernOwns(m: Memory, k: nat, used0: set<nat>, t: nat, stack: nat)
    requires AllFree(used0 + {t}, stack, STACK_FRAMES)
    ensures Own(Kern(stack)) == RunSet(stack, STACK_FRAMES) && Own(Kern(stack)) !! used0 && t !in Own(Kern(stack))
    ensures Untouched(m, m, used0) && Matches(m, k, Kern(stack), Resources(k, stack))
  {}
}
