/** What holds over every run of the scheduler's steps, whatever CPUs take them. */
module TaskRuns {
  import opened TaskModel
  import opened TaskSteps

  /** The steps es can be taken one after the other from s. */
  ghost predicate CanRun(s: State, es: seq<Step>)
    requires Inv(s)
    decreases |es|
  {
    |es| > 0 ==>
      Enabled(s, es[0]) && (StepInv(s, es[0]); CanRun(Apply(s, es[0]), es[1..]))
  }

  ghost function After(s: State, es: seq<Step>): (z: State)
    requires Inv(s) && CanRun(s, es)
    ensures Inv(z)
    decreases |es|
  {
    if |es| == 0 then s else StepInv(s, es[0]); After(Apply(s, es[0]), es[1..])
  }

  // ------------------------------------------------- exclusivity

  /** No task is current on two CPUs, a current task is RUNNING and its CPU's own, and no CPU runs
      a task while another one is on that task's kernel stack. */
  ghost predicate Exclusive(s: State) {
    && (forall c, d :: 0 <= c < d < |s.current| ==> s.current[c] != s.current[d])
    && (forall c :: 0 <= c < |s.current| ==>
          s.current[c] in s.task && s.task[s.current[c]].state == RUNNING && s.task[s.current[c]].cpu == c)
    && (forall c, d :: 0 <= c < |s.on| && 0 <= d < |s.current| && c != d ==> s.on[c] != s.current[d])
  }

  lemma InvExclusive(s: State)
    requires Inv(s)
    ensures Exclusive(s)
  {
    forall c | 0 <= c < |s.current|
      ensures s.current[c] in s.task && s.task[s.current[c]].state == RUNNING && s.task[s.current[c]].cpu == c
    {
      assert Seated(s, c);
    }
    forall c, d | 0 <= c < |s.on| && 0 <= d < |s.current| && c != d ensures s.on[c] != s.current[d] {
      assert Grounded(s, c) && Seated(s, d);
    }
  }

  /** SMP exclusivity in every reachable state. */
  lemma RunExclusive(s: State, es: seq<Step>)
    requires Inv(s) && CanRun(s, es)
    ensures Exclusive(After(s, es))
  {
    InvExclusive(After(s, es));
  }

  /** Taking the steps to get somewhere, and further ones from there. */
  lemma {:induction false} RunOn(s: State, es: seq<Step>, fs: seq<Step>)
    requires Inv(s) && CanRun(s, es) && CanRun(After(s, es), fs)
    ensures CanRun(s, es + fs) && After(s, es + fs) == After(After(s, es), fs)
    decreases |es|
  {
    if |es| == 0 {
      assert es + fs == fs;
    } else {
      assert (es + fs)[1..] == es[1..] + fs;
      StepInv(s, es[0]);
      RunOn(Apply(s, es[0]), es[1..], fs);
    }
  }

  /** The list stays one cycle, through every CPU's current task. */
  lemma RunLinked(s: State, es: seq<Step>)
    requires Inv(s) && CanRun(s, es)
    ensures Linked(After(s, es).task, After(s, es).ring)
    ensures forall c :: 0 <= c < |After(s, es).current| ==> After(s, es).current[c] in After(s, es).ring
  {
    Members(After(s, es));
  }

  // ------------------------------------------------- pinning

  /** Task t belongs to CPU c for good, or has ended. */
  ghost predicate Bound(s: State, t: nat, c: nat) {
    t in s.task && (s.task[t].cpu == c || s.task[t].state == FREE)
  }

  lemma SeatBound(s: State, old': Task, c: nat, u: nat, t: nat, d: nat)
    requires c < |s.current| && |s.phase| == |s.current| && s.current[c] in s.task && u in s.task && Bound(s, t, d)
    requires s.task[s.current[c]].cpu == c && s.task[s.current[c]].state != FREE
    requires (old'.cpu == c || old'.state == FREE)
    requires u == s.current[c] || (s.task[u].state != FREE && (s.task[u].cpu < 0 || s.task[u].cpu == c))
    ensures Bound(Seat(s, s.task[s.current[c] := old'], c, u), t, d)
  {}

  lemma StepBound(s: State, e: Step, t: nat, d: nat)
    requires Inv(s) && Enabled(s, e) && Bound(s, t, d)
    ensures Bound(Apply(s, e), t, d)
  {
    Members(s);
    hide First;
    match e
    case Switch(c) => assert Seated(s, c); SeatBound(s, Marked(s, c)[s.current[c]], c, DoSwitch(s, c).current[c], t, d);
    case Exit(c) => assert Seated(s, c); SeatBound(s, Ended(s, c)[s.current[c]], c, Heir(s, c).who, t, d);
    case _ =>
  }

  /** A task that has run on a CPU never runs on another. */
  lemma {:induction false} RunBound(s: State, es: seq<Step>, t: nat, c: nat)
    requires Inv(s) && CanRun(s, es) && Bound(s, t, c)
    ensures Bound(After(s, es), t, c)
    decreases |es|
  {
    if |es| > 0 {
      StepBound(s, es[0], t, c);
      StepInv(s, es[0]);
      RunBound(Apply(s, es[0]), es[1..], t, c);
    }
  }

  /** A task that a CPU runs now, if a CPU still runs it later, is run by the same one. */
  lemma NoMigration(s: State, es: seq<Step>, c: nat, d: nat)
    requires Inv(s) && CanRun(s, es) && c < |s.current| && d < |After(s, es).current|
    requires After(s, es).current[d] == s.current[c]
    ensures d == c
  {
    assert Seated(s, c);
    RunBound(s, es, s.current[c], c);
    assert Seated(After(s, es), d);
  }
}
