/** The steps of the scheduler and the invariant that all of them keep. */
module TaskSteps {
  import opened Collections
  import opened TaskModel

  // ------------------------------------------------- the invariant

  /** CPU c runs a listed task that is RUNNING and pinned to it. */
  ghost predicate Seated(s: State, c: nat)
    requires c < |s.current|
  {
    var t := s.current[c];
    t in s.ring && t in s.task && s.task[t].state == RUNNING && s.task[t].cpu == c
  }

  /** CPU c is on the stack of a task pinned to it, or of one that has ended. */
  ghost predicate Grounded(s: State, c: nat)
    requires c < |s.current| && |s.on| == |s.current| && |s.phase| == |s.current|
  {
    && s.on[c] in s.task && (s.task[s.on[c]].cpu == c || s.task[s.on[c]].state == FREE)
    && (s.phase[c] != Leaving ==> s.on[c] == s.current[c])
    && (s.phase[c].Saved? ==> s.phase[c].to == READY || s.phase[c].to == BLOCKED)
  }

  /** A task that has not ended is on the list, and a RUNNING one is some CPU's current task. */
  ghost predicate Placed(s: State, t: nat)
    requires t in s.task
  {
    && (s.task[t].state != FREE ==> t in s.ring)
    && (s.task[t].state == RUNNING ==> 0 <= s.task[t].cpu < |s.current| && s.current[s.task[t].cpu] == t)
  }

  ghost predicate Shaped(s: State) {
    |s.current| > 0 && |s.on| == |s.current| && |s.phase| == |s.current|
  }

  ghost predicate Inv(s: State) {
    && Shaped(s) && Linked(s.task, s.ring)
    && (forall c :: 0 <= c < |s.current| ==> Seated(s, c))
    && (forall c :: 0 <= c < |s.current| ==> Grounded(s, c))
    && (forall t :: t in s.task ==> Placed(s, t))
  }

  // ------------------------------------------------- the steps

  datatype Step =
    | Save(c: nat, esp: nat, to: TaskState, wake: nat)
    | Switch(c: nat)
    | Leave(c: nat)
    | Tick(scan: bool)
    | Create(t: nat, pid: nat, esp: nat)
    | Kill(pid: nat)
    | Exit(c: nat)

  /** task_switch_from before it takes the lock. */
  function DoSave(s: State, c: nat, esp: nat, to: TaskState, wake: nat): State
    requires c < |s.current| && s.current[c] in s.task && |s.phase| == |s.current|
  {
    var t := s.current[c];
    s.(task := s.task[t := s.task[t].(esp := esp, wake := wake)], phase := s.phase[c := Saved(to)])
  }

  function Marked(s: State, c: nat): map<nat, Task>
    requires c < |s.current| && s.current[c] in s.task && |s.phase| == |s.current| && s.phase[c].Saved?
  {
    s.task[s.current[c] := s.task[s.current[c]].(state := s.phase[c].to, cpu := c)]
  }

  /** The choice that pick_next_locked makes. */
  function Picked(s: State, c: nat): Choice
    requires c < |s.current| && s.current[c] in s.task && s.current[c] in s.ring
    requires |s.phase| == |s.current| && s.phase[c].Saved?
  {
    First(Marked(s, c), c, Order(s.ring, Pos(s.ring, s.current[c])))
  }

  lemma PickedIs(s: State, c: nat)
    requires c < |s.current| && s.current[c] in s.task && s.current[c] in s.ring
    requires |s.phase| == |s.current| && s.phase[c].Saved?
    ensures Picked(s, c) == First(Marked(s, c), c, Order(s.ring, Pos(s.ring, s.current[c])))
    ensures Picked(s, c).Chosen? ==> Picked(s, c).who in Marked(s, c)
  {}

  /** Seating task u on CPU c. */
  function Seat(s: State, task: map<nat, Task>, c: nat, u: nat): State
    requires c < |s.current| && |s.phase| == |s.current| && u in task
  {
    s.(task := task[u := task[u].(state := RUNNING, cpu := c)],
       current := s.current[c := u],
       phase := s.phase[c := if u == s.current[c] then Executing else Leaving])
  }

  /** The locked section of task_switch_from. */
  function DoSwitch(s: State, c: nat): State
    requires c < |s.current| && s.current[c] in s.task && s.current[c] in s.ring
    requires |s.phase| == |s.current| && s.phase[c].Saved?
  {
    var k := Picked(s, c);
    Seat(s, Marked(s, c), c, if k.Chosen? then k.who else s.current[c])
  }

  /** The return from task_switch_from: the stack of the new task is loaded. */
  function DoLeave(s: State, c: nat): State
    requires c < |s.current| && |s.on| == |s.current| && |s.phase| == |s.current|
  {
    s.(on := s.on[c := s.current[c]], phase := s.phase[c := Executing])
  }

  function Wake(t: Task, tick: nat): Task {
    if t.state == BLOCKED && t.wake != 0 && tick >= t.wake then t.(state := READY, wake := 0) else t
  }

  /** The wake-up scan of the timer over the tasks in ids. */
  function Scan(task: map<nat, Task>, ids: seq<nat>, tick: nat): map<nat, Task>
    requires forall t :: t in ids ==> t in task
  {
    map t | t in task :: if t in ids then Wake(task[t], tick) else task[t]
  }

  /** The timer interrupt on CPU 0, which may fail to get the lock. */
  function DoTick(s: State, scan: bool): State
    requires forall t :: t in s.ring ==> t in s.task
  {
    s.(tick := s.tick + 1, task := if scan then Scan(s.task, s.ring, s.tick + 1) else s.task)
  }

  /** task_create once its fields are set: insertion behind the head. */
  function DoCreate(s: State, t: nat, pid: nat, esp: nat): State
    requires |s.ring| > 0 && s.ring[0] in s.task && t !in s.task
  {
    var head := s.ring[0];
    var x := Task(pid, READY, -1, esp, 0, s.task[head].next);
    s.(task := s.task[t := x][head := s.task[head].(next := t)], ring := [head, t] + s.ring[1..])
  }

  /** Position of the first listed task with this pid. */
  function PidAt(task: map<nat, Task>, ring: seq<nat>, pid: nat): (p: nat)
    requires forall t :: t in ring ==> t in task
    ensures p <= |ring| && (p < |ring| ==> task[ring[p]].pid == pid)
  {
    if |ring| == 0 || task[ring[0]].pid == pid then 0 else 1 + PidAt(task, ring[1..], pid)
  }

  /** The list without its p-th member. */
  function Without(r: seq<nat>, p: nat): seq<nat>
    requires p < |r|
  {
    r[..p] + r[p + 1..]
  }

  lemma {:induction false} PidFirst(task: map<nat, Task>, ring: seq<nat>, pid: nat, j: nat)
    requires (forall t :: t in ring ==> t in task) && j <= |ring|
    requires forall i :: 0 <= i < j ==> task[ring[i]].pid != pid
    requires j < |ring| ==> task[ring[j]].pid == pid
    ensures PidAt(task, ring, pid) == j
  {
    if j > 0 { PidFirst(task, ring[1..], pid, j - 1); }
  }

  /** Position before p on the cycle. */
  function Before(r: seq<nat>, p: nat): nat
    requires p < |r|
  {
    if p > 0 then p - 1 else |r| - 1
  }

  function Unlinked(task: map<nat, Task>, r: seq<nat>, p: nat): map<nat, Task>
    requires p < |r| && r[p] in task && r[Before(r, p)] in task
  {
    var before := r[Before(r, p)];
    var t := r[p];
    task[before := task[before].(next := task[t].next)][t := task[t].(state := FREE, cpu := -1)]
  }

  /** task_kill: a listed task that is not RUNNING is taken off the list. */
  function DoKill(s: State, pid: nat): State
    requires Linked(s.task, s.ring)
  {
    var p := PidAt(s.task, s.ring, pid);
    if p == |s.ring| || s.task[s.ring[p]].state == RUNNING then s
    else s.(task := Unlinked(s.task, s.ring, p), ring := Without(s.ring, p))
  }

  /** SYS_EXIT: the first unassigned READY task from the head takes over. */
  function Ended(s: State, c: nat): map<nat, Task>
    requires c < |s.current| && s.current[c] in s.task
  {
    s.task[s.current[c] := s.task[s.current[c]].(state := FREE, cpu := -1)]
  }

  function Heir(s: State, c: nat): Choice
    requires c < |s.current| && s.current[c] in s.task
  {
    First(Ended(s, c), -1, s.ring)
  }

  function DoExit(s: State, c: nat): State
    requires c < |s.current| && s.current[c] in s.task && |s.phase| == |s.current|
    requires Heir(s, c).Chosen?
  {
    Seat(s, Ended(s, c), c, Heir(s, c).who)
  }

  ghost predicate Enabled(s: State, e: Step)
    requires Inv(s)
  {
    match e
    case Save(c, esp, to, wake) =>
      c < |s.current| && s.phase[c] == Executing && esp != 0 && (to == READY || to == BLOCKED)
    case Switch(c) => c < |s.current| && s.phase[c].Saved?
    case Leave(c) => c < |s.current| && s.phase[c] == Leaving
    case Tick(scan) => true
    case Create(t, pid, esp) => t !in s.task && esp != 0
    case Kill(pid) => true
    case Exit(c) => c < |s.current| && Seated(s, c) && s.phase[c] == Executing && Heir(s, c).Chosen?
  }

  lemma Members(s: State)
    requires Inv(s)
    ensures forall t :: t in s.ring ==> t in s.task
    ensures forall c :: 0 <= c < |s.current| ==> s.current[c] in s.task && s.current[c] in s.ring
  {
    forall c | 0 <= c < |s.current| ensures s.current[c] in s.task && s.current[c] in s.ring { assert Seated(s, c); }
  }

  /** What a step makes of a state. */
  ghost function Apply(s: State, e: Step): State
    requires Inv(s) && Enabled(s, e)
  {
    Members(s);
    match e
    case Save(c, esp, to, wake) => DoSave(s, c, esp, to, wake)
    case Switch(c) => DoSwitch(s, c)
    case Leave(c) => DoLeave(s, c)
    case Tick(scan) => DoTick(s, scan)
    case Create(t, pid, esp) => DoCreate(s, t, pid, esp)
    case Kill(pid) => DoKill(s, pid)
    case Exit(c) => DoExit(s, c)
  }

  // ------------------------------------------------- every step keeps the invariant

  lemma SaveInv(s: State, c: nat, esp: nat, to: TaskState, wake: nat)
    requires Inv(s) && c < |s.current| && s.phase[c] == Executing && (to == READY || to == BLOCKED)
    ensures s.current[c] in s.task && Inv(DoSave(s, c, esp, to, wake))
  {
    Members(s);
    var z := DoSave(s, c, esp, to, wake);
    forall d | 0 <= d < |z.current| ensures Seated(z, d) && Grounded(z, d) { assert Seated(s, d) && Grounded(s, d); }
    forall t | t in z.task ensures Placed(z, t) { assert Placed(s, t); }
  }

  lemma LeaveInv(s: State, c: nat)
    requires Inv(s) && c < |s.current|
    ensures Inv(DoLeave(s, c))
  {
    Members(s);
    var z := DoLeave(s, c);
    forall d | 0 <= d < |z.current| ensures Seated(z, d) && Grounded(z, d) { assert Seated(s, d) && Grounded(s, d); }
    forall t | t in z.task ensures Placed(z, t) { assert Placed(s, t); }
  }

  lemma TickInv(s: State, scan: bool)
    requires Inv(s)
    ensures (forall t :: t in s.ring ==> t in s.task) && Inv(DoTick(s, scan))
  {
    Members(s);
    var z := DoTick(s, scan);
    forall d | 0 <= d < |z.current| ensures Seated(z, d) && Grounded(z, d) { assert Seated(s, d) && Grounded(s, d); }
    forall t | t in z.task ensures Placed(z, t) { assert Placed(s, t); }
  }

  lemma ScanNone(task: map<nat, Task>, r: seq<nat>, tick: nat)
    ensures Scan(task, r[..0], tick) == task
  {}

  /** Only the first n tasks of the list scanned, and then one more. */
  lemma ScanNext(task: map<nat, Task>, r: seq<nat>, n: nat, tick: nat)
    requires NoDup(r) && n < |r| && forall t :: t in r ==> t in task
    ensures r[n] in Scan(task, r[..n], tick) && Scan(task, r[..n], tick)[r[n]] == task[r[n]]
    ensures Scan(task, r[..n + 1], tick) == Scan(task, r[..n], tick)[r[n] := Wake(task[r[n]], tick)]
  {
    assert r[..n + 1] == r[..n] + [r[n]];
    assert r[n] !in r[..n];
  }

  /** Changing states and owners leaves the list alone. */
  lemma SeatLinked(s: State, task: map<nat, Task>, c: nat, u: nat)
    requires Linked(s.task, s.ring) && c < |s.current| && |s.phase| == |s.current| && u in task
    requires task.Keys == s.task.Keys && forall t :: t in task ==> task[t].next == s.task[t].next
    ensures Linked(Seat(s, task, c, u).task, s.ring)
  {}

  /** Seating u after the old task of CPU c was put aside. */
  lemma SeatInv(s: State, old': Task, c: nat, u: nat)
    requires Inv(s) && c < |s.current| && s.phase[c] != Leaving && s.current[c] in s.task
    requires old'.state != RUNNING && (old'.cpu == c || old'.state == FREE) && old'.next == s.task[s.current[c]].next
    requires u in s.ring && u in s.task && (u == s.current[c] || s.task[u].state != RUNNING)
    requires u == s.current[c] ==> old'.cpu == c
    requires u != s.current[c] ==> forall d :: 0 <= d < |s.on| && d != c ==> s.on[d] != u
    ensures Inv(Seat(s, s.task[s.current[c] := old'], c, u))
  {
    var task := s.task[s.current[c] := old'];
    var z := Seat(s, task, c, u);
    SeatLinked(s, task, c, u);
    hide Linked;
    forall d | 0 <= d < |z.current|
      ensures Seated(z, d) && Grounded(z, d)
    { assert Seated(s, d) && Grounded(s, d) && Seated(s, c) && Grounded(s, c); }
    forall t | t in z.task ensures Placed(z, t) { assert Placed(s, t) && Seated(s, c); }
  }

  /** A task that is READY for CPU c is not under any other CPU. */
  lemma EligibleClear(s: State, c: nat, u: nat, who: int)
    requires Inv(s) && c < |s.current| && Eligible(s.task, who, u) && (who == c || who < 0)
    ensures forall d :: 0 <= d < |s.on| && d != c ==> s.on[d] != u
  {
    forall d | 0 <= d < |s.on| && d != c ensures s.on[d] != u { assert Grounded(s, d); }
  }

  lemma SwitchInv(s: State, c: nat)
    requires Inv(s) && c < |s.current| && s.phase[c].Saved?
    ensures s.current[c] in s.task && s.current[c] in s.ring && Inv(DoSwitch(s, c))
  {
    Members(s);
    assert Grounded(s, c) && Seated(s, c);
    var t := s.current[c];
    var k := Picked(s, c);
    hide Inv, Linked, First, Grounded, Seated;
    if k.Chosen? && k.who != t {
      EligibleClear(s, c, k.who, c);
      SeatInv(s, Marked(s, c)[t], c, k.who);
    } else {
      SeatInv(s, Marked(s, c)[t], c, t);
    }
  }

  lemma ExitInv(s: State, c: nat)
    requires Inv(s) && c < |s.current| && s.phase[c] == Executing && s.current[c] in s.task && Heir(s, c).Chosen?
    ensures Inv(DoExit(s, c))
  {
    Members(s);
    var u := Heir(s, c).who;
    hide Inv, Linked, First;
    EligibleClear(s, c, u, -1);
    SeatInv(s, Ended(s, c)[s.current[c]], c, u);
  }

  lemma CreateLinked(task: map<nat, Task>, r: seq<nat>, t: nat, x: Task)
    requires Linked(task, r) && t !in task && x.next == task[r[0]].next
    ensures Linked(task[t := x][r[0] := task[r[0]].(next := t)], [r[0], t] + r[1..])
  {
    var z := [r[0], t] + r[1..];
    assert t !in r;
    assert NoDup(z);
  }

  lemma CreateInv(s: State, t: nat, pid: nat, esp: nat)
    requires Inv(s) && t !in s.task
    ensures |s.ring| > 0 && s.ring[0] in s.task && Inv(DoCreate(s, t, pid, esp))
  {
    var z := DoCreate(s, t, pid, esp);
    CreateLinked(s.task, s.ring, t, Task(pid, READY, -1, esp, 0, s.task[s.ring[0]].next));
    hide Linked;
    forall d | 0 <= d < |z.current| ensures Seated(z, d) && Grounded(z, d) {
      assert Seated(s, d) && Grounded(s, d);
      assert forall u :: u in s.ring ==> u in z.ring;
    }
    assert z.ring[1] == t;
    forall u | u in z.task ensures Placed(z, u) {
      if u != t { assert Placed(s, u); }
      assert forall x :: x in s.ring ==> x in z.ring;
    }
  }

  lemma UnlinkedLinked(task: map<nat, Task>, r: seq<nat>, p: nat)
    requires Linked(task, r) && p < |r| && |r| > 1
    ensures Linked(Unlinked(task, r, p), Without(r, p))
  {
    var w := Without(r, p);
    var z := Unlinked(task, r, p);
    forall i | 0 <= i < |w| ensures w[i] in z && z[w[i]].next == w[if i + 1 < |w| then i + 1 else 0] {
      var a := if i < p then i else i + 1;
      assert w[i] == r[a] && a != p;
    }
    assert NoDup(w);
  }

  lemma KillInv(s: State, pid: nat)
    requires Inv(s)
    ensures Inv(DoKill(s, pid))
  {
    Members(s);
    var p := PidAt(s.task, s.ring, pid);
    if p < |s.ring| && s.task[s.ring[p]].state != RUNNING { RemoveInv(s, p); }
  }

  lemma WithoutHas(r: seq<nat>, p: nat, u: nat)
    requires p < |r| && u in r && u != r[p]
    ensures u in Without(r, p)
  {
    var i :| 0 <= i < |r| && r[i] == u;
    assert Without(r, p)[if i < p then i else i - 1] == u;
  }

  /** The list is never emptied: a RUNNING task stays on it. */
  lemma Others(s: State, p: nat)
    requires Inv(s) && p < |s.ring| && s.task[s.ring[p]].state != RUNNING
    ensures |s.ring| > 1
  {
    assert Seated(s, 0);
  }

  lemma RemoveInv(s: State, p: nat)
    requires Inv(s) && p < |s.ring| && s.task[s.ring[p]].state != RUNNING
    ensures Inv(s.(task := Unlinked(s.task, s.ring, p), ring := Without(s.ring, p)))
  {
    Members(s);
    Others(s, p);
    UnlinkedLinked(s.task, s.ring, p);
    hide Linked, Without;
    var z := s.(task := Unlinked(s.task, s.ring, p), ring := Without(s.ring, p));
    forall d | 0 <= d < |z.current| ensures Seated(z, d) && Grounded(z, d) {
      RemoveSeat(s, p, d);
    }
    forall u | u in z.task ensures Placed(z, u) {
      assert Placed(s, u);
      if u in s.ring && u != s.ring[p] { WithoutHas(s.ring, p, u); }
    }
  }

  lemma RemoveSeat(s: State, p: nat, d: nat)
    requires Inv(s) && p < |s.ring| && s.task[s.ring[p]].state != RUNNING && d < |s.current|
    requires s.ring[Before(s.ring, p)] in s.task
    ensures var z := s.(task := Unlinked(s.task, s.ring, p), ring := Without(s.ring, p)); Seated(z, d) && Grounded(z, d)
  {
    assert Seated(s, d) && Grounded(s, d);
    hide Linked, Without, Inv, Before;
    WithoutHas(s.ring, p, s.current[d]);
  }

  /** Every step keeps the invariant. */
  lemma StepInv(s: State, e: Step)
    requires Inv(s) && Enabled(s, e)
    ensures Inv(Apply(s, e))
  {
    Members(s);
    match e
    case Save(c, esp, to, wake) => SaveInv(s, c, esp, to, wake);
    case Switch(c) => SwitchInv(s, c);
    case Leave(c) => LeaveInv(s, c);
    case Tick(scan) => TickInv(s, scan);
    case Create(t, pid, esp) => CreateInv(s, t, pid, esp);
    case Kill(pid) => KillInv(s, pid);
    case Exit(c) => ExitInv(s, c);
  }
}
