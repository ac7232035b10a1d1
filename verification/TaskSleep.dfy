/** Sleeping tasks: they leave their CPU, stay away until their tick, and come back at the
    first wake-up scan from then on. */
module TaskSleep {
  import opened Bytes
  import opened Collections
  import opened TaskModel
  import opened TaskSteps
  import opened TaskRuns

  // ------------------------------------------------- the idle tasks

  /** CPU c has its idle task on the list, pinned, READY whenever it is not RUNNING. */
  ghost predicate IdleOk(s: State, idle: seq<nat>, c: nat)
    requires c < |idle| && c < |s.current| && c < |s.phase|
  {
    var t := idle[c];
    && t in s.ring && t in s.task && s.task[t].cpu == c && s.task[t].esp != 0
    && (s.task[t].state == READY || s.task[t].state == RUNNING)
    && (s.current[c] == t && s.phase[c].Saved? ==> s.phase[c].to == READY)
  }

  ghost predicate HasIdle(s: State, idle: seq<nat>)
    requires Shaped(s)
  {
    |idle| == |s.current| && forall c :: 0 <= c < |idle| ==> IdleOk(s, idle, c)
  }

  /** An idle task neither sleeps nor exits, and nobody kills it. */
  ghost predicate Spares(s: State, e: Step, idle: seq<nat>)
    requires Inv(s)
  {
    match e
    case Save(c, esp, to, wake) => c < |s.current| && s.current[c] in idle ==> to == READY
    case Kill(pid) => forall t :: t in idle && t in s.task ==> s.task[t].pid != pid
    case Exit(c) => c < |s.current| ==> s.current[c] !in idle
    case _ => true
  }

  lemma SaveIdle(s: State, c: nat, esp: nat, to: TaskState, wake: nat, idle: seq<nat>)
    requires Inv(s) && HasIdle(s, idle) && Enabled(s, Save(c, esp, to, wake)) && Spares(s, Save(c, esp, to, wake), idle)
    ensures s.current[c] in s.task && HasIdle(DoSave(s, c, esp, to, wake), idle)
  {
    Members(s);
    forall d | 0 <= d < |idle| ensures IdleOk(DoSave(s, c, esp, to, wake), idle, d) { assert IdleOk(s, idle, d); }
  }

  lemma SeatIdle(s: State, old': Task, c: nat, u: nat, idle: seq<nat>)
    requires Inv(s) && HasIdle(s, idle) && c < |s.current| && s.current[c] in s.task && u in s.task
    requires s.current[c] in idle ==> old'.cpu == c && old'.state == READY && old'.esp == s.task[s.current[c]].esp
    requires u == s.current[c] ==> old'.esp == s.task[s.current[c]].esp
    requires u == s.current[c] || s.task[u].cpu < 0 || s.task[u].cpu == c
    ensures HasIdle(Seat(s, s.task[s.current[c] := old'], c, u), idle)
  {
    var z := Seat(s, s.task[s.current[c] := old'], c, u);
    forall d | 0 <= d < |idle| ensures IdleOk(z, idle, d) { assert IdleOk(s, idle, d) && Seated(s, c); }
  }

  lemma SwitchIdle(s: State, c: nat, idle: seq<nat>)
    requires Inv(s) && HasIdle(s, idle) && Enabled(s, Switch(c))
    ensures s.current[c] in s.task && s.current[c] in s.ring && HasIdle(DoSwitch(s, c), idle)
  {
    Members(s);
    assert Seated(s, c) && IdleOk(s, idle, c);
    hide First, Linked;
    var t := s.current[c];
    if t in idle { IdleOwn(s, idle, c); }
    SeatIdle(s, Marked(s, c)[t], c, DoSwitch(s, c).current[c], idle);
  }

  /** A CPU that runs an idle task runs its own. */
  lemma IdleOwn(s: State, idle: seq<nat>, c: nat)
    requires Inv(s) && HasIdle(s, idle) && c < |s.current| && s.current[c] in idle
    ensures s.current[c] == idle[c]
  {
    var d :| 0 <= d < |idle| && idle[d] == s.current[c];
    assert Seated(s, c) && IdleOk(s, idle, d);
  }

  lemma ExitIdle(s: State, c: nat, idle: seq<nat>)
    requires Inv(s) && HasIdle(s, idle) && Enabled(s, Exit(c)) && Spares(s, Exit(c), idle)
    ensures HasIdle(DoExit(s, c), idle)
  {
    Members(s);
    assert Seated(s, c);
    hide First, Linked;
    SeatIdle(s, Ended(s, c)[s.current[c]], c, Heir(s, c).who, idle);
  }

  lemma CreateIdle(s: State, t: nat, pid: nat, esp: nat, idle: seq<nat>)
    requires Inv(s) && HasIdle(s, idle) && t !in s.task
    ensures HasIdle(DoCreate(s, t, pid, esp), idle)
  {
    var z := DoCreate(s, t, pid, esp);
    forall d | 0 <= d < |idle| ensures IdleOk(z, idle, d) {
      assert IdleOk(s, idle, d);
      assert forall u :: u in s.ring ==> u in z.ring;
    }
  }

  lemma KillIdle(s: State, pid: nat, idle: seq<nat>)
    requires Inv(s) && HasIdle(s, idle) && Spares(s, Kill(pid), idle)
    ensures HasIdle(DoKill(s, pid), idle)
  {
    Members(s);
    var p := PidAt(s.task, s.ring, pid);
    var z := DoKill(s, pid);
    if z != s {
      Others(s, p);
      hide Without, Linked;
      forall d | 0 <= d < |idle| ensures IdleOk(z, idle, d) {
        assert IdleOk(s, idle, d);
        WithoutHas(s.ring, p, idle[d]);
      }
    }
  }

  lemma StepIdle(s: State, e: Step, idle: seq<nat>)
    requires Inv(s) && Enabled(s, e) && HasIdle(s, idle) && Spares(s, e, idle)
    ensures Inv(Apply(s, e)) && HasIdle(Apply(s, e), idle)
  {
    StepInv(s, e);
    Members(s);
    match e
    case Save(c, esp, to, wake) => SaveIdle(s, c, esp, to, wake, idle);
    case Switch(c) => SwitchIdle(s, c, idle);
    case Create(t, pid, esp) => CreateIdle(s, t, pid, esp, idle);
    case Kill(pid) => KillIdle(s, pid, idle);
    case Exit(c) => ExitIdle(s, c, idle);
    case Leave(c) => LeaveIdle(s, c, idle);
    case Tick(scan) => TickIdle(s, scan, idle);
  }

  lemma LeaveIdle(s: State, c: nat, idle: seq<nat>)
    requires Inv(s) && HasIdle(s, idle) && c < |s.current|
    ensures HasIdle(DoLeave(s, c), idle)
  {
    forall d | 0 <= d < |idle| ensures IdleOk(DoLeave(s, c), idle, d) { assert IdleOk(s, idle, d); }
  }

  lemma TickIdle(s: State, scan: bool, idle: seq<nat>)
    requires Inv(s) && HasIdle(s, idle)
    ensures (forall t :: t in s.ring ==> t in s.task) && HasIdle(DoTick(s, scan), idle)
  {
    Members(s);
    forall d | 0 <= d < |idle| ensures IdleOk(DoTick(s, scan), idle, d) { assert IdleOk(s, idle, d); }
  }

  /** A run in which the idle tasks are left alone. */
  ghost predicate Sparing(s: State, es: seq<Step>, idle: seq<nat>)
    requires Inv(s) && CanRun(s, es)
    decreases |es|
  {
    |es| > 0 ==>
      Spares(s, es[0], idle) && (StepInv(s, es[0]); Sparing(Apply(s, es[0]), es[1..], idle))
  }

  lemma {:induction false} RunIdle(s: State, es: seq<Step>, idle: seq<nat>)
    requires Inv(s) && CanRun(s, es) && HasIdle(s, idle) && Sparing(s, es, idle)
    ensures HasIdle(After(s, es), idle)
    decreases |es|
  {
    if |es| > 0 {
      StepIdle(s, es[0], idle);
      RunIdle(Apply(s, es[0]), es[1..], idle);
    }
  }

  // ------------------------------------------------- going to sleep

  /** A task that blocks always finds a successor, and leaves its CPU with its tick noted. */
  lemma BlockLeaves(s: State, c: nat, idle: seq<nat>)
    requires Inv(s) && HasIdle(s, idle) && c < |s.current| && s.phase[c] == Saved(BLOCKED)
    ensures s.current[c] in s.task && s.current[c] in s.ring && Picked(s, c).Chosen? && Picked(s, c).who != s.current[c]
    ensures DoSwitch(s, c).task[s.current[c]] == s.task[s.current[c]].(state := BLOCKED, cpu := c)
    ensures DoSwitch(s, c).current[c] != s.current[c]
  {
    Members(s);
    assert Seated(s, c) && IdleOk(s, idle, c) && Placed(s, idle[c]);
    var t := s.current[c];
    var walk := Order(s.ring, Pos(s.ring, t));
    assert idle[c] in walk;
    var k :| 0 <= k < |walk| && walk[k] == idle[c];
    var j := FirstBy(Marked(s, c), c, walk, k);
  }

  /** Saving and switching in one go. */
  lemma SleepLeaves(s: State, c: nat, esp: nat, wake: nat, idle: seq<nat>)
    requires Inv(s) && HasIdle(s, idle) && c < |s.current|
    requires s.phase[c] == Executing && esp != 0 && s.current[c] != idle[c]
    ensures s.current[c] in s.task && s.current[c] in s.ring
    ensures var z := DoSwitch(DoSave(s, c, esp, BLOCKED, wake), c);
      && Shaped(z) && HasIdle(z, idle) && z.current[c] != s.current[c] && z.current[c] in z.task
      && z.task[z.current[c]].esp != 0
    ensures DoSwitch(DoSave(s, c, esp, BLOCKED, wake), c).task[s.current[c]] ==
      s.task[s.current[c]].(state := BLOCKED, cpu := c, esp := esp, wake := wake)
  {
    if s.current[c] in idle { IdleOwn(s, idle, c); }
    SaveInv(s, c, esp, BLOCKED, wake);
    SaveIdle(s, c, esp, BLOCKED, wake, idle);
    var m := DoSave(s, c, esp, BLOCKED, wake);
    BlockLeaves(m, c, idle);
    SwitchIdle(m, c, idle);
    hide Inv, HasIdle, First, Order, Pos;
  }

  // ------------------------------------------------- staying asleep

  /** Task t sleeps towards tick w, or the tick has come, or t has ended. */
  ghost predicate Asleep(s: State, t: nat, w: nat) {
    && t in s.task
    && (s.task[t].state == FREE || s.tick >= w || (s.task[t].state == BLOCKED && s.task[t].wake == w))
  }

  lemma SeatAsleep(s: State, old': Task, c: nat, u: nat, t: nat, w: nat)
    requires c < |s.current| && |s.phase| == |s.current| && s.current[c] in s.task && u in s.task && Asleep(s, t, w)
    requires s.task[s.current[c]].state == RUNNING && (u == s.current[c] || s.task[u].state == READY)
    ensures Asleep(Seat(s, s.task[s.current[c] := old'], c, u), t, w)
  {}

  lemma StepAsleep(s: State, e: Step, t: nat, w: nat)
    requires Inv(s) && Enabled(s, e) && Asleep(s, t, w) && w > 0
    ensures Asleep(Apply(s, e), t, w)
  {
    Members(s);
    hide First;
    match e
    case Save(c, esp, to, wake) => assert Seated(s, c);
    case Switch(c) =>
      assert Seated(s, c);
      SeatAsleep(s, Marked(s, c)[s.current[c]], c, DoSwitch(s, c).current[c], t, w);
    case Exit(c) => assert Seated(s, c); SeatAsleep(s, Ended(s, c)[s.current[c]], c, Heir(s, c).who, t, w);
    case _ =>
  }

  lemma {:induction false} RunAsleep(s: State, es: seq<Step>, t: nat, w: nat)
    requires Inv(s) && CanRun(s, es) && Asleep(s, t, w) && w > 0
    ensures Asleep(After(s, es), t, w)
    decreases |es|
  {
    if |es| > 0 {
      StepAsleep(s, es[0], t, w);
      StepInv(s, es[0]);
      RunAsleep(Apply(s, es[0]), es[1..], t, w);
    }
  }

  /** The wake-up tick noted for the current task of CPU c. */
  ghost function Alarm(s: State, c: nat): nat
    requires c < |s.current|
  {
    if s.current[c] in s.task then s.task[s.current[c]].wake else 0
  }

  /** A task that goes to sleep after any run leaves its CPU, and in whatever follows it does not
      run again before its tick. */
  lemma SleepNeverEarly(s: State, es: seq<Step>, idle: seq<nat>, c: nat, fs: seq<Step>)
    requires Inv(s) && HasIdle(s, idle) && CanRun(s, es) && Sparing(s, es, idle)
    requires c < |After(s, es).current| && After(s, es).phase[c] == Saved(BLOCKED) && Alarm(After(s, es), c) > 0
    requires CanRun(After(s, es), [Switch(c)] + fs)
    ensures c < |Apply(After(s, es), Switch(c)).current|
    ensures Apply(After(s, es), Switch(c)).current[c] != After(s, es).current[c]
    ensures Asleep(After(After(s, es), [Switch(c)] + fs), After(s, es).current[c], Alarm(After(s, es), c))
  {
    var m := After(s, es);
    RunIdle(s, es, idle);
    BlockLeaves(m, c, idle);
    StepInv(m, Switch(c));
    assert ([Switch(c)] + fs)[1..] == fs;
    RunAsleep(Apply(m, Switch(c)), fs, m.current[c], m.task[m.current[c]].wake);
  }

  // ------------------------------------------------- waking up

  /** The first scan at or after its tick makes a sleeper READY. */
  lemma ScanWakes(s: State, t: nat, w: nat)
    requires Inv(s) && w > 0 && t in s.ring && s.task[t].state == BLOCKED && s.task[t].wake == w
    ensures forall u :: u in s.ring ==> u in s.task
    ensures t in DoTick(s, true).task
    ensures s.tick + 1 >= w ==> DoTick(s, true).task[t] == s.task[t].(state := READY, wake := 0)
    ensures s.tick + 1 < w ==> DoTick(s, true).task[t] == s.task[t]
  {
    Members(s);
  }

  /** After any run, a task that still sleeps towards w is made READY by a scan exactly when its
      tick has come; a task that no longer does has ended or its tick has come. */
  lemma WakesAtFirstScan(s: State, es: seq<Step>, t: nat, w: nat)
    requires Inv(s) && CanRun(s, es) && t in s.task && s.task[t].state == BLOCKED && s.task[t].wake == w && w > 0
    ensures t in After(s, es).task && forall u :: u in After(s, es).ring ==> u in After(s, es).task
    ensures t in DoTick(After(s, es), true).task
    ensures After(s, es).task[t].state == BLOCKED && After(s, es).task[t].wake == w ==>
      (DoTick(After(s, es), true).task[t].state == READY <==> After(s, es).tick + 1 >= w)
    ensures !(After(s, es).task[t].state == BLOCKED && After(s, es).task[t].wake == w) ==>
      After(s, es).task[t].state == FREE || After(s, es).tick >= w
  {
    var m := After(s, es);
    assert Placed(s, t);
    RunAsleep(s, es, t, w);
    assert Placed(m, t);
    Members(m);
    if m.task[t].state == BLOCKED && m.task[t].wake == w { ScanWakes(m, t, w); }
  }

  /** The ticks SYS_SLEEP_MS adds: ten milliseconds each, rounded up in 32-bit arithmetic. */
  function SleepTicks(ms: u32): nat {
    (ms + 9) % 0x1_0000_0000 / 10
  }

  /** The ticks last at least as long as asked for exactly when the addition does not wrap, in
      which case they are the fewest that do; the nine counts that wrap ask for no tick at all. */
  lemma SleepTicksExact(ms: u32)
    ensures SleepTicks(ms) == (ms + 9) % 0x1_0000_0000 / 10
    ensures 10 * SleepTicks(ms) >= ms <==> ms <= 0xFFFF_FFF6
    ensures ms <= 0xFFFF_FFF6 ==> 10 * SleepTicks(ms) < ms + 10
    ensures SleepTicks(ms) == 0 <==> ms == 0 || ms >= 0xFFFF_FFF7
  {
    if ms >= 0xFFFF_FFF7 { assert (ms + 9) % 0x1_0000_0000 == ms + 9 - 0x1_0000_0000; }
  }

  /** A wake-up tick of 0 means no wake-up: such a sleeper stays BLOCKED until it is killed. */
  ghost predicate Lost(s: State, t: nat) {
    t in s.task && (s.task[t].state == FREE || (s.task[t].state == BLOCKED && s.task[t].wake == 0))
  }

  lemma SeatLost(s: State, old': Task, c: nat, u: nat, t: nat)
    requires c < |s.current| && |s.phase| == |s.current| && s.current[c] in s.task && u in s.task && Lost(s, t)
    requires s.task[s.current[c]].state == RUNNING && (u == s.current[c] || s.task[u].state == READY)
    ensures Lost(Seat(s, s.task[s.current[c] := old'], c, u), t)
  {}

  lemma StepLost(s: State, e: Step, t: nat)
    requires Inv(s) && Enabled(s, e) && Lost(s, t)
    ensures Lost(Apply(s, e), t)
  {
    Members(s);
    hide First;
    match e
    case Save(c, esp, to, wake) => assert Seated(s, c);
    case Switch(c) => assert Seated(s, c); SeatLost(s, Marked(s, c)[s.current[c]], c, DoSwitch(s, c).current[c], t);
    case Exit(c) => assert Seated(s, c); SeatLost(s, Ended(s, c)[s.current[c]], c, Heir(s, c).who, t);
    case _ =>
  }

  lemma {:induction false} RunLost(s: State, es: seq<Step>, t: nat)
    requires Inv(s) && CanRun(s, es) && Lost(s, t)
    ensures Lost(After(s, es), t)
    decreases |es|
  {
    if |es| > 0 {
      StepLost(s, es[0], t);
      StepInv(s, es[0]);
      RunLost(Apply(s, es[0]), es[1..], t);
    }
  }

  // ------------------------------------------------- after boot

  function Ids(n: nat): seq<nat> {
    seq(n, i => i)
  }

  /** The tasks 0 to n in some order. */
  ghost predicate Orders(ring: seq<nat>, n: nat) {
    NoDup(ring) && forall t: nat :: t in ring <==> t <= n
  }

  /** The one behind t on the list. */
  function Behind(ring: seq<nat>, t: nat): nat {
    if t !in ring then 0 else ring[if Pos(ring, t) + 1 < |ring| then Pos(ring, t) + 1 else 0]
  }

  function BootTask(ring: seq<nat>, n: nat, i: nat): Task {
    if i < n then Task(i + 1, RUNNING, i, 1, 0, Behind(ring, i)) else Task(i + 1, READY, -1, 1, 0, Behind(ring, i))
  }

  /** n CPUs, each on its idle task, and the shell waiting for one of them.  The processors put their
      idle tasks behind the head in the order they come up, so the list may have any order. */
  function Booted(ring: seq<nat>, n: nat): State {
    State(map i: nat | i <= n :: BootTask(ring, n, i), ring, Ids(n), Ids(n), seq(n, i => Executing), 0)
  }

  lemma BootedLinked(ring: seq<nat>, n: nat)
    requires Orders(ring, n)
    ensures Linked(Booted(ring, n).task, ring)
  {
    hide Pos;
    assert 0 in ring;
    forall i | 0 <= i < |ring|
      ensures ring[i] in Booted(ring, n).task
      ensures Booted(ring, n).task[ring[i]].next == ring[if i + 1 < |ring| then i + 1 else 0]
    {
      PosAt(ring, i);
      assert ring[i] in ring;
    }
  }

  lemma BootedOk(ring: seq<nat>, n: nat)
    requires n > 0 && Orders(ring, n)
    ensures Inv(Booted(ring, n)) && HasIdle(Booted(ring, n), Ids(n))
  {
    hide Behind, Linked;
    var s := Booted(ring, n);
    BootedLinked(ring, n);
    forall c | 0 <= c < n ensures Seated(s, c) && Grounded(s, c) && IdleOk(s, Ids(n), c) { assert c in s.ring; }
    forall t | t in s.task ensures Placed(s, t) { assert t in s.ring; }
  }
}
