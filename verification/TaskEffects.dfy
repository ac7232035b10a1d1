/** What the steps do to the tasks they name, field by field, and that a task resumes on the stack
    it was saved with. */
module TaskEffects {
  import opened Collections
  import opened TaskModel
  import opened TaskSteps
  import opened TaskRuns

  // ------------------------------------------------- who is chosen

  /** First names the first task of a walk that is READY, has a stack, and is unassigned or the
      CPU's own; `j` is its place, or the length. */
  lemma {:induction false} FirstPlace(task: map<nat, Task>, cpu: int, walk: seq<nat>) returns (j: nat)
    requires forall t :: t in walk ==> t in task
    ensures j <= |walk| && First(task, cpu, walk) == if j < |walk| then Chosen(walk[j]) else Nobody
    ensures forall i :: 0 <= i < j ==>
      !(task[walk[i]].state == READY && (task[walk[i]].cpu < 0 || task[walk[i]].cpu == cpu) && task[walk[i]].esp != 0)
    ensures j < |walk| ==>
      task[walk[j]].state == READY && (task[walk[j]].cpu < 0 || task[walk[j]].cpu == cpu) && task[walk[j]].esp != 0
  {
    j := 0;
    if |walk| > 0 && First(task, cpu, walk) != Chosen(walk[0]) {
      var i := FirstPlace(task, cpu, walk[1..]);
      j := i + 1;
    }
  }

  /** The task i places behind CPU c's current one on the circular list. */
  function Ahead(s: State, c: nat, i: nat): (t: nat)
    requires c < |s.current| && s.current[c] in s.ring
    ensures t in s.ring
  {
    s.ring[(Pos(s.ring, s.current[c]) + i) % |s.ring|]
  }

  lemma VisitIs(n: nat, p: nat, i: nat)
    requires p < n && i < n
    ensures Visit(n, p, i) == (p + 1 + i) % n
  {
    var a := p + 1 + i;
    if a >= n { WrapsOnce(n, a); } else { WrapsNever(n, a); }
  }

  lemma WrapsNever(n: nat, a: nat)
    requires a < n
    ensures a % n == a
  {}

  lemma WrapsOnce(n: nat, a: nat)
    requires n <= a < 2 * n
    ensures a % n == a - n
  {
    assert (a - n) + n == a;
  }

  lemma AheadIs(s: State, c: nat, i: nat)
    requires c < |s.current| && s.current[c] in s.ring && i < |s.ring|
    ensures |Order(s.ring, Pos(s.ring, s.current[c]))| == |s.ring|
    ensures Ahead(s, c, i + 1) == Order(s.ring, Pos(s.ring, s.current[c]))[i]
  {
    var p := Pos(s.ring, s.current[c]);
    VisitIs(|s.ring|, p, i);
    OrderAt(s.ring, p, i);
    hide Order, Visit;
  }

  lemma AheadOther(s: State, c: nat, i: nat)
    requires Inv(s) && c < |s.current| && s.current[c] in s.ring && 0 < i <= |s.ring|
    ensures Ahead(s, c, i) in s.task && (Ahead(s, c, i) == s.current[c] <==> i == |s.ring|)
  {
    var p := Pos(s.ring, s.current[c]);
    AheadIs(s, c, i - 1);
    OrderNoDup(s.ring, p);
    OrderNext(s.task, s.ring, p, i - 1);
    hide Order, Ahead, Inv, Linked;
  }

  /** A switch goes to the nearest task behind the current one that is READY with a saved stack and
      unassigned or this CPU's own; j places behind, where all the way round means it stays. */
  lemma SwitchChooses(s: State, c: nat) returns (j: nat)
    requires Inv(s) && c < |s.current| && s.phase[c].Saved?
    ensures s.current[c] in s.ring && s.current[c] in s.task && 1 <= j <= |s.ring|
    ensures DoSwitch(s, c).current == s.current[c := Ahead(s, c, j)]
    ensures forall i :: 1 <= i < j ==> var t := Ahead(s, c, i);
      t in s.task && !(s.task[t].state == READY && (s.task[t].cpu < 0 || s.task[t].cpu == c) && s.task[t].esp != 0)
    ensures j < |s.ring| ==> var t := Ahead(s, c, j);
      t in s.task && s.task[t].state == READY && (s.task[t].cpu < 0 || s.task[t].cpu == c) && s.task[t].esp != 0
  {
    hide First, Order, Pos, Ahead, Linked;
    Members(s);
    WalkPlaces(s, c);
    var m, walk := Marked(s, c), Order(s.ring, Pos(s.ring, s.current[c]));
    var k := FirstPlace(m, c, walk);
    j := if k < |walk| then k + 1 else |walk|;
    SwitchEnds(s, c, k);
    hide Inv;
    forall i | 1 <= i <= |s.ring| && i <= k + 1
      ensures Ahead(s, c, i) == walk[i - 1] && (i < |s.ring| ==> m[Ahead(s, c, i)] == s.task[Ahead(s, c, i)])
    {}
  }

  /** The walk of pick_next_locked, place by place: only the last is the current task. */
  lemma WalkPlaces(s: State, c: nat)
    requires Inv(s) && c < |s.current| && s.phase[c].Saved? && s.current[c] in s.ring && s.current[c] in s.task
    ensures |Order(s.ring, Pos(s.ring, s.current[c]))| == |s.ring|
    ensures forall i :: 1 <= i <= |s.ring| ==>
      && Ahead(s, c, i) == Order(s.ring, Pos(s.ring, s.current[c]))[i - 1] && Ahead(s, c, i) in s.task
      && (i < |s.ring| ==> Ahead(s, c, i) != s.current[c])
    ensures Ahead(s, c, |s.ring|) == s.current[c]
    ensures forall t :: t in Order(s.ring, Pos(s.ring, s.current[c])) ==> t in s.task
  {
    hide Order, Pos, Ahead, Linked, Seated, Grounded, Placed;
    var walk := Order(s.ring, Pos(s.ring, s.current[c]));
    forall i | 1 <= i <= |s.ring|
      ensures |walk| == |s.ring| && Ahead(s, c, i) == walk[i - 1] && Ahead(s, c, i) in s.task
      ensures Ahead(s, c, i) == s.current[c] <==> i == |s.ring|
    {
      AheadIs(s, c, i - 1);
      AheadOther(s, c, i);
    }
    AheadIs(s, c, 0);
    forall t | t in walk ensures t in s.task {
      var i :| 0 <= i < |walk| && walk[i] == t;
      assert Ahead(s, c, i + 1) == walk[i];
    }
  }

  lemma SwitchEnds(s: State, c: nat, k: nat)
    requires c < |s.current| && |s.phase| == |s.current| && s.phase[c].Saved?
    requires s.current[c] in s.ring && s.current[c] in s.task && |Order(s.ring, Pos(s.ring, s.current[c]))| == |s.ring|
    requires var walk := Order(s.ring, Pos(s.ring, s.current[c]));
      First(Marked(s, c), c, walk) == if k < |walk| then Chosen(walk[k]) else Nobody
    ensures DoSwitch(s, c).current == s.current[c :=
      if k < |s.ring| then Order(s.ring, Pos(s.ring, s.current[c]))[k] else s.current[c]]
  {
    hide First, Order, Pos, Marked;
  }

  /** SYS_EXIT hands the CPU to the first task from the head that is READY with a saved stack and on
      no CPU, and ends the old one. */
  lemma ExitChooses(s: State, c: nat) returns (j: nat)
    requires Inv(s) && Enabled(s, Exit(c))
    ensures s.current[c] in s.task && j < |s.ring| && s.ring[j] in s.task && s.ring[j] != s.current[c]
    ensures s.task[s.ring[j]].state == READY && s.task[s.ring[j]].cpu < 0 && s.task[s.ring[j]].esp != 0
    ensures forall i :: 0 <= i < j ==>
      && s.ring[i] in s.task
      && !(s.task[s.ring[i]].state == READY && s.task[s.ring[i]].cpu < 0 && s.task[s.ring[i]].esp != 0)
    ensures var z := DoExit(s, c);
      && z.current == s.current[c := s.ring[j]] && z.ring == s.ring && z.task.Keys == s.task.Keys
      && z.task[s.current[c]] == s.task[s.current[c]].(state := FREE, cpu := -1)
      && z.task[s.ring[j]] == s.task[s.ring[j]].(state := RUNNING, cpu := c)
      && forall v :: v in s.task && v != s.current[c] && v != s.ring[j] ==> z.task[v] == s.task[v]
  {
    Members(s);
    assert Seated(s, c);
    hide First;
    j := FirstPlace(Ended(s, c), -1, s.ring);
    hide Inv;
  }

  // ------------------------------------------------- what a switch stores

  /** task_switch_from stores stack and wake-up tick in the old task, and with another task chosen
      also the state asked for; the new one runs here with its stack as it was. */
  lemma SwitchStores(s: State, c: nat, esp: nat, to: TaskState, wake: nat)
    requires Inv(s) && c < |s.current| && s.phase[c] == Executing && (to == READY || to == BLOCKED)
    ensures var t := s.current[c]; t in s.task && t in s.ring
    ensures var t, z := s.current[c], DoSwitch(DoSave(s, c, esp, to, wake), c); var u := z.current[c];
      && z.task.Keys == s.task.Keys && u in s.task
      && z.task[t] == Task(s.task[t].pid, if u == t then RUNNING else to, c, esp, wake, s.task[t].next)
      && (u != t ==> z.task[u] == Task(s.task[u].pid, RUNNING, c, s.task[u].esp, s.task[u].wake, s.task[u].next))
      && forall v :: v in s.task && v != t && v != u ==> z.task[v] == s.task[v]
  {
    hide First, Order, Pos, Picked, Linked;
    Members(s);
    assert Seated(s, c);
    var x := DoSave(s, c, esp, to, wake);
    PickedIs(x, c);
    hide Inv;
  }

  // ------------------------------------------------- resuming

  /** Step e saves the registers of task t. */
  ghost predicate Saves(s: State, e: Step, t: nat) {
    e.Save? && e.c < |s.current| && s.current[e.c] == t
  }

  lemma SeatEsp(s: State, old': Task, c: nat, u: nat, t: nat)
    requires c < |s.current| && |s.phase| == |s.current| && s.current[c] in s.task && u in s.task && t in s.task
    requires old'.esp == s.task[s.current[c]].esp
    ensures var z := Seat(s, s.task[s.current[c] := old'], c, u); t in z.task && z.task[t].esp == s.task[t].esp
  {}

  lemma StepEsp(s: State, e: Step, t: nat)
    requires Inv(s) && Enabled(s, e) && t in s.task && !Saves(s, e, t)
    ensures t in Apply(s, e).task && Apply(s, e).task[t].esp == s.task[t].esp
  {
    Members(s);
    hide First;
    match e
    case Switch(c) => assert Seated(s, c); SeatEsp(s, Marked(s, c)[s.current[c]], c, DoSwitch(s, c).current[c], t);
    case Exit(c) => assert Seated(s, c); SeatEsp(s, Ended(s, c)[s.current[c]], c, Heir(s, c).who, t);
    case _ =>
  }

  /** Nowhere in the run are the registers of t saved. */
  ghost predicate Unsaved(s: State, es: seq<Step>, t: nat)
    requires Inv(s) && CanRun(s, es)
    decreases |es|
  {
    |es| > 0 ==> !Saves(s, es[0], t) && (StepInv(s, es[0]); Unsaved(Apply(s, es[0]), es[1..], t))
  }

  lemma {:induction false} RunEsp(s: State, es: seq<Step>, t: nat)
    requires Inv(s) && CanRun(s, es) && t in s.task && Unsaved(s, es, t)
    ensures t in After(s, es).task && After(s, es).task[t].esp == s.task[t].esp
    decreases |es|
  {
    if |es| > 0 {
      StepEsp(s, es[0], t);
      StepInv(s, es[0]);
      RunEsp(Apply(s, es[0]), es[1..], t);
    }
  }

  /** Whatever happens in between, the stack pointer a switch hands out for a task is the one that
      was passed in when the task last gave up its CPU. */
  lemma ResumesAsSaved(s: State, c: nat, esp: nat, to: TaskState, wake: nat, es: seq<Step>)
    requires Inv(s) && Enabled(s, Save(c, esp, to, wake)) && Inv(Apply(s, Save(c, esp, to, wake)))
    requires CanRun(Apply(s, Save(c, esp, to, wake)), es)
    requires Unsaved(Apply(s, Save(c, esp, to, wake)), es, s.current[c])
    ensures var z := After(Apply(s, Save(c, esp, to, wake)), es);
      s.current[c] in z.task && z.task[s.current[c]].esp == esp
  {
    Members(s);
    RunEsp(Apply(s, Save(c, esp, to, wake)), es, s.current[c]);
  }

  // ------------------------------------------------- creating and killing

  /** A new task is READY on no CPU, with the pid and stack given, second on the list; the others
      keep all but the head's link. */
  lemma CreateAdds(s: State, t: nat, pid: nat, esp: nat)
    requires Inv(s) && t !in s.task
    ensures s.ring[0] in s.task
    ensures var z := DoCreate(s, t, pid, esp);
      && t in z.task && z.task[t].pid == pid && z.task[t].esp == esp && z.task[t].state == READY
      && z.task[t].cpu == -1 && z.task[t].wake == 0
      && z.ring == [s.ring[0], t] + s.ring[1..] && z.current == s.current
      && forall u :: u in s.task ==> u in z.task && z.task[u] == s.task[u].(next := z.task[u].next)
  {}

  /** Position p is the first on the list with this pid. */
  ghost predicate FirstWith(s: State, pid: nat, p: nat) {
    && p < |s.ring| && s.ring[p] in s.task && s.task[s.ring[p]].pid == pid
    && forall i :: 0 <= i < p ==> s.ring[i] in s.task && s.task[s.ring[i]].pid != pid
  }

  /** task_kill takes the first task with the pid off the list, unless a CPU runs it. */
  lemma KillRemoves(s: State, pid: nat, p: nat)
    requires Inv(s) && FirstWith(s, pid, p)
    ensures s.task[s.ring[p]].state == RUNNING ==> DoKill(s, pid) == s
    ensures s.task[s.ring[p]].state != RUNNING ==> var z := DoKill(s, pid);
      && s.ring[p] in z.task && z.task[s.ring[p]].state == FREE && z.task[s.ring[p]].cpu == -1
      && s.ring[p] !in z.ring
      && z.ring == s.ring[..p] + s.ring[p + 1..] && z.current == s.current
      && forall u :: u in s.task && u != s.ring[p] ==> u in z.task && z.task[u] == s.task[u].(next := z.task[u].next)
  {
    PidFirst(s.task, s.ring, pid, p);
    if s.task[s.ring[p]].state != RUNNING {
      Gone(s.ring, p);
    }
    hide PidAt;
  }

  lemma Gone(r: seq<nat>, p: nat)
    requires NoDup(r) && p < |r|
    ensures r[p] !in Without(r, p)
  {}

  /** Without such a task nothing happens. */
  lemma KillNobody(s: State, pid: nat)
    requires Inv(s) && forall t :: t in s.ring ==> t in s.task && s.task[t].pid != pid
    ensures DoKill(s, pid) == s
  {
    PidFirst(s.task, s.ring, pid, |s.ring|);
  }

  lemma KillMeans(s: State, pid: nat)
    requires Inv(s)
    ensures forall t :: t in s.ring ==> t in s.task
    ensures PidAt(s.task, s.ring, pid) == |s.ring| <==> forall t :: t in s.ring ==> t in s.task && s.task[t].pid != pid
    ensures forall p: nat :: FirstWith(s, pid, p) ==>
      && PidAt(s.task, s.ring, pid) == p
      && (s.task[s.ring[p]].state != RUNNING ==>
            && s.ring[p] in DoKill(s, pid).task && DoKill(s, pid).task[s.ring[p]].state == FREE
            && s.ring[p] !in DoKill(s, pid).ring)
  {
    Members(s);
    forall p: nat | FirstWith(s, pid, p)
      ensures PidAt(s.task, s.ring, pid) == p
      ensures s.task[s.ring[p]].state != RUNNING ==>
        && s.ring[p] in DoKill(s, pid).task && DoKill(s, pid).task[s.ring[p]].state == FREE
        && s.ring[p] !in DoKill(s, pid).ring
    {
      PidFirst(s.task, s.ring, pid, p);
      KillRemoves(s, pid, p);
    }
    hide Inv, DoKill, FirstWith;
    NoPid(s.task, s.ring, pid);
  }

  lemma {:induction false} NoPid(task: map<nat, Task>, ring: seq<nat>, pid: nat)
    requires forall t :: t in ring ==> t in task
    ensures PidAt(task, ring, pid) == |ring| <==> forall t :: t in ring ==> task[t].pid != pid
  {
    if |ring| > 0 && task[ring[0]].pid != pid {
      NoPid(task, ring[1..], pid);
      assert forall t :: t in ring <==> t == ring[0] || t in ring[1..];
    }
  }

  /** A task created under a new pid is the one that this pid kills. */
  lemma CreateThenKill(s: State, t: nat, pid: nat, esp: nat)
    requires Inv(s) && t !in s.task && forall u :: u in s.task ==> s.task[u].pid != pid
    ensures s.ring[0] in s.task && Inv(DoCreate(s, t, pid, esp)) && FirstWith(DoCreate(s, t, pid, esp), pid, 1)
    ensures DoKill(DoCreate(s, t, pid, esp), pid).ring == s.ring
    ensures t in DoKill(DoCreate(s, t, pid, esp), pid).task
    ensures DoKill(DoCreate(s, t, pid, esp), pid).task[t].state == FREE
  {
    CreateInv(s, t, pid, esp);
    CreateAdds(s, t, pid, esp);
    var z := DoCreate(s, t, pid, esp);
    hide Inv, DoKill;
    assert FirstWith(z, pid, 1);
    KillRemoves(z, pid, 1);
    assert z.ring[..1] + z.ring[2..] == s.ring;
  }
}
