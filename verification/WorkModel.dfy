/** The SMP work queue: what each lock section does to the slots, and what happened so far. */
module WorkModel {

  const MAX_TASKS := 64
  const FREE := 0
  const SUBMITTED := 1
  const RUNNING := 2

  /** A slot; fn and arg are opaque. */
  datatype Slot = Slot(fn: int, arg: int, state: int, cpu: int)

  /** An accepted submission and the CPU it was assigned to; its position is its id less one. */
  datatype Job = Job(fn: int, arg: int, cpu: int)

  /** One call of a submitted function. */
  datatype Call = Call(id: nat, fn: int, arg: int, cpu: int)

  /** The slots and the next CPU, and the history: which submission each slot holds, all accepted
      submissions, all calls begun, and the submissions whose call has returned. */
  datatype Queue = Queue(
    slot: seq<Slot>, next: int, holds: seq<nat>, accepted: seq<Job>, calls: seq<Call>, done: set<nat>)

  /** The CPU of the k-th submission on n CPUs. */
  function Turn(k: nat, n: nat): (c: nat)
    requires n > 0
    ensures c < n
  {
    if k == 0 then 0 else Advance(Turn(k - 1, n), n)
  }

  function Advance(c: nat, n: nat): (d: nat)
    requires c < n
    ensures d < n
  {
    if c + 1 == n then 0 else c + 1
  }

  lemma AdvanceMod(c: nat, n: nat)
    requires c < n
    ensures (c + 1) % n == Advance(c, n) && (n == 1 ==> Advance(c, n) == c)
  {}

  ghost predicate Called(q: Queue, id: nat) {
    exists j :: 0 <= j < |q.calls| && q.calls[j].id == id
  }

  /** A busy slot holds its own submission, called exactly if it is RUNNING, not yet done. */
  ghost predicate SlotOk(q: Queue, i: nat)
    requires i < |q.slot| && i < |q.holds|
  {
    var s := q.slot[i];
    && (s.state == FREE || s.state == SUBMITTED || s.state == RUNNING)
    && (s.state != FREE ==>
          q.holds[i] < |q.accepted| && Job(s.fn, s.arg, s.cpu) == q.accepted[q.holds[i]] && q.holds[i] !in q.done)
    && (s.state == SUBMITTED ==> !Called(q, q.holds[i]))
    && (s.state == RUNNING ==> Called(q, q.holds[i]))
  }

  ghost predicate Held(q: Queue, id: nat) {
    exists i :: 0 <= i < |q.slot| && i < |q.holds| && q.slot[i].state != FREE && q.holds[i] == id
  }

  ghost predicate Once(q: Queue) {
    forall i, j :: 0 <= i < j < |q.calls| ==> q.calls[i].id != q.calls[j].id
  }

  ghost predicate CallsOk(q: Queue) {
    forall j :: 0 <= j < |q.calls| ==>
      q.calls[j].id < |q.accepted| && Job(q.calls[j].fn, q.calls[j].arg, q.calls[j].cpu) == q.accepted[q.calls[j].id]
  }

  /** CPUs are handed out in turn. */
  ghost predicate Dealt(q: Queue, n: nat) {
    n > 0 && q.next == Turn(|q.accepted|, n) && forall k :: 0 <= k < |q.accepted| ==> q.accepted[k].cpu == Turn(k, n)
  }

  ghost predicate Sized(q: Queue) {
    |q.slot| == MAX_TASKS && |q.holds| == MAX_TASKS
  }

  ghost predicate AllSlots(q: Queue)
    requires Sized(q)
  {
    forall i :: 0 <= i < MAX_TASKS ==> SlotOk(q, i)
  }

  /** No two busy slots hold the same submission. */
  ghost predicate Distinct(q: Queue)
    requires Sized(q)
  {
    forall i, j :: 0 <= i < j < MAX_TASKS && q.slot[i].state != FREE && q.slot[j].state != FREE ==>
      q.holds[i] != q.holds[j]
  }

  /** No accepted submission is lost: it is done or in a slot. */
  ghost predicate Tracked(q: Queue) {
    forall id: nat :: id < |q.accepted| ==> id in q.done || Held(q, id)
  }

  ghost predicate DoneCalled(q: Queue) {
    forall id :: id in q.done ==> Called(q, id)
  }

  ghost predicate Inv(q: Queue, n: nat) {
    && Sized(q) && Dealt(q, n) && AllSlots(q) && Distinct(q) && Tracked(q)
    && DoneCalled(q) && Once(q) && CallsOk(q)
  }

  // ------------------------------------------------- the lock sections

  /** First slot from i on that is free. */
  function FreeFrom(s: seq<Slot>, i: nat): (k: nat)
    requires i <= |s|
    ensures i <= k <= |s| && (k < |s| ==> s[k].state == FREE)
    decreases |s| - i
  {
    if i == |s| || s[i].state == FREE then i else FreeFrom(s, i + 1)
  }

  /** First slot from i on that is submitted for this CPU. */
  function ReadyFrom(s: seq<Slot>, cpu: int, i: nat): (k: nat)
    requires i <= |s|
    ensures i <= k <= |s| && (k < |s| ==> s[k].state == SUBMITTED && s[k].cpu == cpu)
    decreases |s| - i
  {
    if i == |s| || (s[i].state == SUBMITTED && s[i].cpu == cpu) then i else ReadyFrom(s, cpu, i + 1)
  }

  /** scheduler_submit with slot i found free. */
  function DoSubmit(q: Queue, n: nat, i: nat, fn: int, arg: int): Queue
    requires n > 0 && i < |q.slot| && |q.holds| == |q.slot| && 0 <= q.next < n
  {
    q.(slot := q.slot[i := Slot(fn, arg, SUBMITTED, q.next)], holds := q.holds[i := |q.accepted|],
       accepted := q.accepted + [Job(fn, arg, q.next)], next := Advance(q.next, n))
  }

  /** The first section of scheduler_step, which leads to the call. */
  function DoTake(q: Queue, i: nat, cpu: int): Queue
    requires i < |q.slot| && |q.holds| == |q.slot|
  {
    var s := q.slot[i];
    q.(slot := q.slot[i := s.(state := RUNNING)], calls := q.calls + [Call(q.holds[i], s.fn, s.arg, cpu)])
  }

  /** The section after the call has returned on `cpu`. */
  function DoFinish(q: Queue, i: nat, cpu: int): Queue
    requires i < |q.slot| && |q.holds| == |q.slot|
  {
    q.(slot := q.slot[i := q.slot[i].(state := FREE, cpu := cpu)], done := q.done + {q.holds[i]})
  }

  datatype Step = Submit(fn: int, arg: int) | Take(cpu: int) | Finish(i: nat, cpu: int)

  /** Which sections can run: a call returns only from a slot that is RUNNING. */
  ghost predicate Enabled(q: Queue, n: nat, e: Step)
    requires Inv(q, n)
  {
    match e
    case Submit(fn, arg) => true
    case Take(cpu) => true
    case Finish(i, cpu) => i < MAX_TASKS && q.slot[i].state == RUNNING
  }

  ghost function Apply(q: Queue, n: nat, e: Step): Queue
    requires Inv(q, n) && Enabled(q, n, e)
  {
    match e
    case Submit(fn, arg) =>
      var i := FreeFrom(q.slot, 0);
      if i < |q.slot| then DoSubmit(q, n, i, fn, arg) else q
    case Take(cpu) =>
      var i := ReadyFrom(q.slot, cpu, 0);
      if i < |q.slot| then DoTake(q, i, cpu) else q
    case Finish(i, cpu) => DoFinish(q, i, cpu)
  }

  // ------------------------------------------------- every section keeps the invariant

  lemma NotCalled(q: Queue, id: nat)
    requires CallsOk(q) && id >= |q.accepted|
    ensures !Called(q, id)
  {}

  lemma SubmitSlots(q: Queue, n: nat, i: nat, fn: int, arg: int)
    requires Sized(q) && AllSlots(q) && Distinct(q) && DoneCalled(q)
    requires CallsOk(q) && n > 0 && 0 <= q.next < n && i < |q.slot|
    ensures AllSlots(DoSubmit(q, n, i, fn, arg)) && Distinct(DoSubmit(q, n, i, fn, arg))
  {
    var z := DoSubmit(q, n, i, fn, arg);
    NotCalled(q, |q.accepted|);
    assert forall x: nat :: Called(z, x) <==> Called(q, x);
    hide Called;
    forall j | 0 <= j < MAX_TASKS ensures SlotOk(z, j) { assert SlotOk(q, j); }
    forall a, b | 0 <= a < b < MAX_TASKS && z.slot[a].state != FREE && z.slot[b].state != FREE
      ensures z.holds[a] != z.holds[b]
    {
      assert SlotOk(q, a) && SlotOk(q, b);
    }
  }

  lemma SubmitTracked(q: Queue, n: nat, i: nat, fn: int, arg: int)
    requires Sized(q) && Tracked(q) && n > 0 && 0 <= q.next < n && i < |q.slot| && q.slot[i].state == FREE
    ensures Tracked(DoSubmit(q, n, i, fn, arg))
  {
    var z := DoSubmit(q, n, i, fn, arg);
    forall x: nat | x < |z.accepted| && x !in q.done ensures Held(z, x) {
      if x == |q.accepted| {
        assert z.slot[i].state != FREE && z.holds[i] == x;
      } else {
        var j :| 0 <= j < |q.slot| && j < |q.holds| && q.slot[j].state != FREE && q.holds[j] == x;
        assert z.slot[j].state != FREE && z.holds[j] == x;
      }
    }
  }

  lemma SubmitInv(q: Queue, n: nat, i: nat, fn: int, arg: int)
    requires Inv(q, n) && i < |q.slot| && q.slot[i].state == FREE
    ensures Inv(DoSubmit(q, n, i, fn, arg), n)
  {
    SubmitSlots(q, n, i, fn, arg);
    SubmitTracked(q, n, i, fn, arg);
    var z := DoSubmit(q, n, i, fn, arg);
    assert Dealt(z, n) && CallsOk(z);
    hide AllSlots, Distinct, Tracked, Dealt, CallsOk;
    assert forall x: nat :: Called(z, x) <==> Called(q, x);
  }

  lemma TakeSlots(q: Queue, i: nat, cpu: int)
    requires Sized(q) && AllSlots(q) && Distinct(q) && i < |q.slot|
    requires q.slot[i].state == SUBMITTED && q.slot[i].cpu == cpu
    ensures AllSlots(DoTake(q, i, cpu)) && Distinct(DoTake(q, i, cpu))
  {
    var z := DoTake(q, i, cpu);
    assert SlotOk(q, i);
    assert z.calls[|q.calls|].id == q.holds[i];
    assert Called(z, q.holds[i]);
    forall x: nat | x != q.holds[i] ensures Called(z, x) <==> Called(q, x) {
      if Called(q, x) { var c :| 0 <= c < |q.calls| && q.calls[c].id == x; assert z.calls[c].id == x; }
    }
    hide Called;
    forall j | 0 <= j < MAX_TASKS ensures SlotOk(z, j) { assert SlotOk(q, j); }
  }

  lemma TakeCalls(q: Queue, i: nat, cpu: int)
    requires Sized(q) && AllSlots(q) && Once(q) && CallsOk(q) && DoneCalled(q)
    requires i < |q.slot| && q.slot[i].state == SUBMITTED && q.slot[i].cpu == cpu
    ensures Once(DoTake(q, i, cpu)) && CallsOk(DoTake(q, i, cpu)) && DoneCalled(DoTake(q, i, cpu))
  {
    var z := DoTake(q, i, cpu);
    assert SlotOk(q, i);
    forall a, b | 0 <= a < b < |z.calls| ensures z.calls[a].id != z.calls[b].id {
      assert q.calls[a].id == z.calls[a].id;
    }
    forall id | id in z.done ensures Called(z, id) {
      var c :| 0 <= c < |q.calls| && q.calls[c].id == id;
      assert z.calls[c].id == id;
    }
  }

  lemma HeldKept(q: Queue, z: Queue, gone: set<nat>)
    requires Sized(q) && Sized(z) && Tracked(q) && z.accepted == q.accepted
    requires z.holds == q.holds && z.done == q.done + gone
    requires forall j :: 0 <= j < MAX_TASKS && q.slot[j].state != FREE && q.holds[j] !in gone ==>
      z.slot[j].state != FREE
    ensures Tracked(z)
  {
    forall x: nat | x < |z.accepted| && x !in z.done ensures Held(z, x) {
      var j :| 0 <= j < |q.slot| && j < |q.holds| && q.slot[j].state != FREE && q.holds[j] == x;
      assert z.slot[j].state != FREE && z.holds[j] == x;
    }
  }

  lemma TakeInv(q: Queue, n: nat, i: nat, cpu: int)
    requires Inv(q, n) && i < |q.slot| && q.slot[i].state == SUBMITTED && q.slot[i].cpu == cpu
    ensures Inv(DoTake(q, i, cpu), n)
  {
    TakeSlots(q, i, cpu);
    TakeCalls(q, i, cpu);
    HeldKept(q, DoTake(q, i, cpu), {});
  }

  lemma FinishInv(q: Queue, n: nat, i: nat, cpu: int)
    requires Inv(q, n) && i < |q.slot| && q.slot[i].state == RUNNING
    ensures Inv(DoFinish(q, i, cpu), n)
  {
    var z := DoFinish(q, i, cpu);
    assert SlotOk(q, i);
    HeldKept(q, z, {q.holds[i]});
    hide Tracked, Once, CallsOk, Dealt;
    assert forall x: nat :: Called(z, x) <==> Called(q, x);
    hide Called;
    forall j | 0 <= j < MAX_TASKS ensures SlotOk(z, j) { assert SlotOk(q, j); }
  }

  /** Every lock section keeps the invariant. */
  lemma StepInv(q: Queue, n: nat, e: Step)
    requires Inv(q, n) && Enabled(q, n, e)
    ensures Inv(Apply(q, n, e), n)
  {
    match e
    case Submit(fn, arg) => if FreeFrom(q.slot, 0) < |q.slot| { SubmitInv(q, n, FreeFrom(q.slot, 0), fn, arg); }
    case Take(cpu) => if ReadyFrom(q.slot, cpu, 0) < |q.slot| { TakeInv(q, n, ReadyFrom(q.slot, cpu, 0), cpu); }
    case Finish(i, cpu) => FinishInv(q, n, i, cpu);
  }

  // ------------------------------------------------- runs

  /** scheduler_init. */
  function Init(): Queue {
    Queue(seq(MAX_TASKS, i => Slot(0, 0, FREE, 0)), 0, seq(MAX_TASKS, i => 0), [], [], {})
  }

  lemma InitInv(n: nat)
    requires n > 0
    ensures Inv(Init(), n)
  {}

  /** Any interleaving of lock sections of any CPUs. */
  ghost predicate CanRun(q: Queue, n: nat, es: seq<Step>)
    requires Inv(q, n)
    decreases |es|
  {
    |es| > 0 ==>
      Enabled(q, n, es[0]) && (StepInv(q, n, es[0]); CanRun(Apply(q, n, es[0]), n, es[1..]))
  }

  ghost function After(q: Queue, n: nat, es: seq<Step>): (z: Queue)
    requires Inv(q, n) && CanRun(q, n, es)
    ensures Inv(z, n)
    decreases |es|
  {
    if |es| == 0 then q else StepInv(q, n, es[0]); After(Apply(q, n, es[0]), n, es[1..])
  }

  /** A run from the initial state on n CPUs, and the queue it ends with. */
  ghost predicate IsRun(n: nat, es: seq<Step>) {
    n > 0 && (InitInv(n); CanRun(Init(), n, es))
  }

  ghost function End(n: nat, es: seq<Step>): (z: Queue)
    requires IsRun(n, es)
    ensures Inv(z, n)
  {
    InitInv(n);
    After(Init(), n, es)
  }

  /** Number of calls of submission id. */
  function CallsOf(calls: seq<Call>, id: nat): nat {
    if |calls| == 0 then 0 else CallsOf(calls[..|calls| - 1], id) + (if calls[|calls| - 1].id == id then 1 else 0)
  }

  lemma {:induction false} CallsOfNone(calls: seq<Call>, id: nat)
    requires forall j :: 0 <= j < |calls| ==> calls[j].id != id
    ensures CallsOf(calls, id) == 0
  {
    if |calls| > 0 { CallsOfNone(calls[..|calls| - 1], id); }
  }

  lemma {:induction false} CallsOfOnce(calls: seq<Call>, id: nat)
    requires forall i, j :: 0 <= i < j < |calls| ==> calls[i].id != calls[j].id
    ensures CallsOf(calls, id) == if exists j :: 0 <= j < |calls| && calls[j].id == id then 1 else 0
  {
    if |calls| > 0 {
      var rest := calls[..|calls| - 1];
      if calls[|calls| - 1].id == id { CallsOfNone(rest, id); } else {
        CallsOfOnce(rest, id);
        if exists j :: 0 <= j < |calls| && calls[j].id == id {
          var j :| 0 <= j < |calls| && calls[j].id == id;
          assert rest[j].id == id;
        }
      }
    }
  }

  /** In every run, each accepted submission is called at most once, with its own function and
      argument, and only by the CPU it was assigned to. */
  lemma AtMostOnce(n: nat, es: seq<Step>, j: nat)
    requires IsRun(n, es) && j < |End(n, es).calls|
    ensures var z := End(n, es); z.calls[j].id < |z.accepted| && CallsOf(z.calls, z.calls[j].id) == 1
    ensures var z := End(n, es);
      && Job(z.calls[j].fn, z.calls[j].arg, z.calls[j].cpu) == z.accepted[z.calls[j].id]
      && z.calls[j].cpu == Turn(z.calls[j].id, n)
  {
    var z := End(n, es);
    CallsOfOnce(z.calls, z.calls[j].id);
  }

  ghost predicate Idle(q: Queue) {
    forall i :: 0 <= i < |q.slot| ==> q.slot[i].state == FREE
  }

  /** When scheduler_wait_all sees no busy slot, every accepted submission has been called exactly
      once and its call has returned. */
  lemma IdleMeansDone(n: nat, es: seq<Step>, id: nat)
    requires IsRun(n, es) && Idle(End(n, es)) && id < |End(n, es).accepted|
    ensures id in End(n, es).done && CallsOf(End(n, es).calls, id) == 1
  {
    var z := End(n, es);
    CallsOfOnce(z.calls, id);
    assert Called(z, id);
  }

  // ------------------------------------------------- balance

  /** Submissions among the first m that went to CPU c. */
  function Share(m: nat, n: nat, c: nat): nat
    requires n > 0
  {
    if m == 0 then 0 else Share(m - 1, n, c) + (if Turn(m - 1, n) == c then 1 else 0)
  }

  lemma {:induction false} Shares(m: nat, n: nat) returns (q: nat)
    requires n > 0
    ensures forall c: nat :: c < n ==> Share(m, n, c) == q + (if c < Turn(m, n) then 1 else 0)
  {
    if m == 0 { q := 0; } else {
      q := Shares(m - 1, n);
      if Turn(m - 1, n) + 1 == n { q := q + 1; }
    }
  }

  /** The numbers of submissions that two CPUs got differ by at most one. */
  lemma Balanced(m: nat, n: nat, c: nat, d: nat)
    requires c < n && d < n
    ensures Share(m, n, c) <= Share(m, n, d) + 1
  {
    var q := Shares(m, n);
  }

  /** Accepted submissions that were assigned to CPU c. */
  function JobsOn(jobs: seq<Job>, c: int): nat {
    if |jobs| == 0 then 0 else JobsOn(jobs[..|jobs| - 1], c) + (if jobs[|jobs| - 1].cpu == c then 1 else 0)
  }

  lemma {:induction false} JobsAreShares(jobs: seq<Job>, n: nat, c: nat)
    requires n > 0 && forall k :: 0 <= k < |jobs| ==> jobs[k].cpu == Turn(k, n)
    ensures JobsOn(jobs, c) == Share(|jobs|, n, c)
  {
    if |jobs| > 0 { JobsAreShares(jobs[..|jobs| - 1], n, c); }
  }

  /** In every run, the CPUs' shares of the accepted submissions differ by at most one. */
  lemma RunBalanced(n: nat, es: seq<Step>, c: nat, d: nat)
    requires IsRun(n, es) && c < n && d < n
    ensures JobsOn(End(n, es).accepted, c) <= JobsOn(End(n, es).accepted, d) + 1
  {
    var jobs := End(n, es).accepted;
    JobsAreShares(jobs, n, c);
    JobsAreShares(jobs, n, d);
    Balanced(|jobs|, n, c, d);
  }
}
