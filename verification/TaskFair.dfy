/** A READY task gets a CPU within as many switches as the list is long: its own, if it is pinned
    to one, and any otherwise. */
module TaskFair {
  import opened TaskModel
  import opened TaskSteps
  import opened TaskRuns

  /** Ticks, yields and blocks on any CPU: no task is created, killed or ends. */
  predicate Steady(e: Step) {
    e.Save? || e.Switch? || e.Leave? || e.Tick?
  }

  ghost predicate AllSteady(es: seq<Step>) {
    forall i :: 0 <= i < |es| ==> Steady(es[i])
  }

  /** Number of switches that CPU c makes in es. */
  function Switches(es: seq<Step>, c: nat): nat {
    if |es| == 0 then 0 else (if es[0] == Switch(c) then 1 else 0) + Switches(es[1..], c)
  }

  /** Task t waits for CPU c, or for any: it would be met in step k of a walk from c's current task. */
  ghost predicate Waits(s: State, c: nat, t: nat, k: nat) {
    && c < |s.current| && s.current[c] in s.ring && k + 1 < |s.ring|
    && Order(s.ring, Pos(s.ring, s.current[c]))[k] == t
    && t in s.task && s.task[t].state == READY && (s.task[t].cpu < 0 || s.task[t].cpu == c) && s.task[t].esp != 0
  }

  /** A READY task on the list is less than the list's length away. */
  lemma WaitsSomewhere(s: State, c: nat, t: nat) returns (k: nat)
    requires Inv(s) && c < |s.current| && t in s.task && s.task[t].state == READY
    requires (s.task[t].cpu < 0 || s.task[t].cpu == c) && s.task[t].esp != 0
    ensures Waits(s, c, t, k)
  {
    Members(s);
    assert Seated(s, c) && Placed(s, t);
    var p := Pos(s.ring, s.current[c]);
    var walk := Order(s.ring, p);
    assert t in walk;
    var i :| 0 <= i < |walk| && walk[i] == t;
    OrderNext(s.task, s.ring, p, i);
    k := i;
  }

  /** The choice of a switch falls on the waiting task or on one met before it. */
  lemma PickWithin(s: State, c: nat, t: nat, k: nat) returns (j: nat)
    requires Inv(s) && Waits(s, c, t, k) && s.phase[c].Saved? && Seated(s, c)
    ensures j <= k && Picked(s, c) == Chosen(Order(s.ring, Pos(s.ring, s.current[c]))[j])
  {
    var walk := Order(s.ring, Pos(s.ring, s.current[c]));
    assert Eligible(Marked(s, c), c, walk[k]);
    j := FirstBy(Marked(s, c), c, walk, k);
  }

  lemma SwitchSeats(s: State, c: nat, u: nat, t: nat)
    requires c < |s.current| && Seated(s, c) && |s.phase| == |s.current|
    requires s.phase[c].Saved? && Picked(s, c) == Chosen(u)
    requires t in s.task && t != u && t != s.current[c]
    ensures DoSwitch(s, c).current == s.current[c := u] && DoSwitch(s, c).ring == s.ring
    ensures t in DoSwitch(s, c).task && DoSwitch(s, c).task[t] == s.task[t]
  {}

  lemma Met(s: State, c: nat, j: nat, k: nat)
    requires Linked(s.task, s.ring) && c < |s.current| && s.current[c] in s.ring && j < k && k + 1 < |s.ring|
    ensures |Order(s.ring, Pos(s.ring, s.current[c]))| == |s.ring|
    ensures Order(s.ring, Pos(s.ring, s.current[c]))[k] != s.current[c]
    ensures Order(s.ring, Pos(s.ring, s.current[c]))[k] != Order(s.ring, Pos(s.ring, s.current[c]))[j]
    ensures Order(s.ring, Pos(s.ring, s.current[c]))[j] in s.ring
    ensures Order(s.ring, Pos(s.ring, Order(s.ring, Pos(s.ring, s.current[c]))[j]))[k - j - 1] ==
      Order(s.ring, Pos(s.ring, s.current[c]))[k]
  {
    var p := Pos(s.ring, s.current[c]);
    OrderNoDup(s.ring, p);
    OrderNext(s.task, s.ring, p, k);
    Nearer(s.ring, p, j, k);
  }

  /** A switch on its CPU either seats the waiting task or brings it nearer. */
  lemma SwitchNearer(s: State, c: nat, t: nat, k: nat) returns (n: nat)
    requires Inv(s) && Waits(s, c, t, k) && s.phase[c].Saved? && Seated(s, c)
    ensures DoSwitch(s, c).current[c] == t || (n < k && Waits(DoSwitch(s, c), c, t, n))
    ensures DoSwitch(s, c).current[c] != t ==> DoSwitch(s, c).task[t] == s.task[t]
  {
    hide First, Linked, Order, Pos, DoSwitch;
    assert Linked(s.task, s.ring);
    var j := PickWithin(s, c, t, k);
    n := 0;
    if j < k {
      Met(s, c, j, k);
      SwitchSeats(s, c, Order(s.ring, Pos(s.ring, s.current[c]))[j], t);
      n := k - j - 1;
    } else {
      SwitchTo(s, c, t);
    }
  }

  lemma SwitchTo(s: State, c: nat, u: nat)
    requires c < |s.current| && Seated(s, c) && |s.phase| == |s.current|
    requires s.phase[c].Saved? && Picked(s, c) == Chosen(u)
    ensures c < |DoSwitch(s, c).current| && DoSwitch(s, c).current[c] == u
  {}

  /** Any other steady step leaves the waiting task where it is, or seats it on another CPU. */
  lemma StillWaits(s: State, e: Step, c: nat, t: nat, k: nat)
    requires Inv(s) && Enabled(s, e) && Steady(e) && e != Switch(c) && Waits(s, c, t, k)
    ensures
      || (Waits(Apply(s, e), c, t, k) && Apply(s, e).task[t].cpu == s.task[t].cpu)
      || (e.Switch? && e.c < |Apply(s, e).current| && Apply(s, e).current[e.c] == t && s.task[t].cpu < 0)
  {
    Members(s);
    hide First, Order, Pos;
    match e
    case Save(d, esp, to, wake) => assert Seated(s, d);
    case Switch(d) => OtherSwitch(s, d, c, t);
    case _ =>
  }

  lemma OtherSwitch(s: State, d: nat, c: nat, t: nat)
    requires Inv(s) && d < |s.current| && s.phase[d].Saved? && d != c && c < |s.current|
    requires t in s.task && s.task[t].state == READY && (s.task[t].cpu < 0 || s.task[t].cpu == c)
    ensures s.current[d] in s.task && s.current[d] in s.ring && |DoSwitch(s, d).current| == |s.current|
    ensures DoSwitch(s, d).current[c] == s.current[c] && DoSwitch(s, d).ring == s.ring
    ensures
      || (t in DoSwitch(s, d).task && DoSwitch(s, d).task[t] == s.task[t])
      || (DoSwitch(s, d).current[d] == t && s.task[t].cpu < 0)
  {
    Members(s);
    assert Seated(s, d);
    hide First, Order, Pos;
  }

  lemma RunOne(s: State, e: Step)
    requires Inv(s) && Enabled(s, e)
    ensures CanRun(s, [e]) && After(s, [e]) == Apply(s, e)
  {
    StepInv(s, e);
    assert [e][1..] == [];
    assert CanRun(Apply(s, e), []);
  }

  lemma RunMore(s: State, e: Step, es: seq<Step>)
    requires Inv(s) && Enabled(s, e) && Inv(Apply(s, e)) && CanRun(Apply(s, e), es)
    ensures CanRun(s, [e] + es) && After(s, [e] + es) == After(Apply(s, e), es)
  {
    assert ([e] + es)[1..] == es;
  }

  /** CPU d runs task t: the one that t is pinned to, if any. */
  ghost predicate Runs(s: State, t: nat, d: nat, cpu: int) {
    d < |s.current| && s.current[d] == t && (cpu < 0 || d == cpu)
  }

  lemma SteadyStep(s: State, e: Step, c: nat, t: nat, k: nat) returns (n: nat, d: nat)
    requires Inv(s) && Enabled(s, e) && Steady(e) && Waits(s, c, t, k)
    ensures Inv(Apply(s, e)) && t in s.task
    ensures
      || Runs(Apply(s, e), t, d, s.task[t].cpu)
      || (Waits(Apply(s, e), c, t, n) && Apply(s, e).task[t].cpu == s.task[t].cpu
          && if e == Switch(c) then n < k else n == k)
  {
    StepInv(s, e);
    n, d := k, c;
    if e == Switch(c) {
      assert Seated(s, c);
      n := SwitchNearer(s, c, t, k);
    } else {
      StillWaits(s, e, c, t, k);
      if e.Switch? { d := e.c; }
    }
  }

  /** In every steady run with more than k switches on CPU c, the waiting task gets to run: `i` is a
      point of the run where it is current on CPU `d`. */
  lemma {:induction false} Fair(s: State, es: seq<Step>, c: nat, t: nat, k: nat) returns (i: nat, d: nat)
    requires Inv(s) && CanRun(s, es) && AllSteady(es) && Waits(s, c, t, k) && Switches(es, c) > k && t in s.task
    ensures i <= |es| && CanRun(s, es[..i]) && Runs(After(s, es[..i]), t, d, s.task[t].cpu)
    ensures Switches(es[..i], c) <= k + 1
    decreases |es|
  {
    hide Waits, Inv, Apply, Enabled, After, Runs;
    assert Steady(es[0]);
    var n;
    n, d := SteadyStep(s, es[0], c, t, k);
    var z := Apply(s, es[0]);
    if Runs(z, t, d, s.task[t].cpu) {
      i := 1;
      assert es[..1] == [es[0]];
      RunOne(s, es[0]);
    } else {
      WaitsIn(z, c, t, n);
      var j;
      j, d := Fair(z, es[1..], c, t, n);
      i := j + 1;
      assert es[..i] == [es[0]] + es[1..][..j];
      RunMore(s, es[0], es[1..][..j]);
    }
  }

  lemma WaitsIn(s: State, c: nat, t: nat, k: nat)
    requires Waits(s, c, t, k)
    ensures t in s.task
  {}

  /** A READY task pinned to a CPU is chosen within list-length switches on that CPU. */
  lemma FairWithinList(s: State, es: seq<Step>, c: nat, t: nat) returns (i: nat)
    requires Inv(s) && CanRun(s, es) && AllSteady(es) && Switches(es, c) >= |s.ring|
    requires c < |s.current| && t in s.task && s.task[t].state == READY && s.task[t].cpu == c && s.task[t].esp != 0
    ensures i <= |es| && CanRun(s, es[..i]) && c < |After(s, es[..i]).current| && After(s, es[..i]).current[c] == t
    ensures Switches(es[..i], c) <= |s.ring|
  {
    var k := WaitsSomewhere(s, c, t);
    var d;
    i, d := Fair(s, es, c, t, k);
  }

  /** A READY task that no CPU has run yet is chosen by CPU c within list-length switches there, if
      no other CPU chooses it before. */
  lemma FairToNew(s: State, es: seq<Step>, c: nat, t: nat) returns (i: nat, d: nat)
    requires Inv(s) && CanRun(s, es) && AllSteady(es) && Switches(es, c) >= |s.ring|
    requires c < |s.current| && t in s.task && s.task[t].state == READY && s.task[t].cpu < 0 && s.task[t].esp != 0
    ensures i <= |es| && CanRun(s, es[..i]) && d < |After(s, es[..i]).current| && After(s, es[..i]).current[d] == t
    ensures Switches(es[..i], c) <= |s.ring|
  {
    var k := WaitsSomewhere(s, c, t);
    i, d := Fair(s, es, c, t, k);
  }
}
