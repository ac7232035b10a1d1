/** task.c and the parts of timer.c and elf.c that change the list of tasks, as they run on it. */
module Tasks {
  import opened Bytes
  import opened TaskModel
  import opened TaskSteps
  import opened TaskEffects
  import opened TaskSleep

  class Scheduler {
    /** The tasks by address, linked through `next`; ready_head; cpu_info[].current_task and
        cpu_info[].resched_pending; tick_count. */
    var task: map<nat, Task>
    var head: nat
    var current: seq<nat>
    var pending: seq<bool>
    var tick: nat
    /** The list from head on, the stack each CPU is on, and where each CPU is in a switch. */
    ghost var ring: seq<nat>
    ghost var on: seq<nat>
    ghost var phase: seq<Phase>

    ghost function St(): State
      reads this
    {
      State(task, ring, current, on, phase, tick)
    }

    ghost predicate Valid()
      reads this
    {
      Inv(St()) && head == ring[0] && |pending| == |current|
    }

    /** pick_next_locked: the walk ends where it started, because the list is one cycle. */
    method PickNext(c: nat) returns (k: Choice)
      requires Linked(task, ring) && c < |current| && current[c] in ring
      ensures k == First(task, c, Order(ring, Pos(ring, current[c])))
    {
      var start := current[c];
      ghost var p := Pos(ring, start);
      ghost var walk := Order(ring, p);
      ghost var n := |ring|;
      OrderNext(task, ring, p, 0);
      OrderNoDup(ring, p);
      var t := task[start].next;
      ghost var j := 0;
      while t != start
        invariant j < n && t == walk[j] && t in task
        invariant forall i :: 0 <= i < j ==> !Eligible(task, c, walk[i])
        decreases n - j
      {
        if Eligible(task, c, t) {
          FirstAt(task, c, walk, j);
          return Chosen(t);
        }
        OrderNext(task, ring, p, j);
        t := task[t].next;
        j := j + 1;
        OrderNext(task, ring, p, j);
      }
      assert j == n - 1;
      if Eligible(task, c, start) {
        FirstAt(task, c, walk, j);
        return Chosen(start);
      }
      FirstNobody(task, c, walk);
      return Nobody;
    }

    lemma MarkLinked(s: State, c: nat)
      requires Linked(s.task, s.ring) && c < |s.current| && s.current[c] in s.task
      requires |s.phase| == |s.current| && s.phase[c].Saved?
      ensures Linked(Marked(s, c), s.ring)
    {}

    /** The locked section of task_switch_from. */
    method SwitchSection(c: nat, to: TaskState)
      requires Linked(task, ring) && c < |current| && |phase| == |current|
      requires phase[c] == Saved(to) && current[c] in task && current[c] in ring
      modifies this`task, this`current, this`phase
      ensures St() == DoSwitch(old(St()), c)
    {
      hide Linked, First, Order, Pos, Eligible, Picked;
      ghost var s := St();
      var curr := current[c];
      task := task[curr := task[curr].(state := to, cpu := c)];
      MarkLinked(s, c);
      PickedIs(s, c);
      var next := PickNext(c);
      if next == Nobody || next == Chosen(curr) {
        task := task[curr := task[curr].(state := RUNNING, cpu := c)];
        phase := phase[c := Executing];
        assert current[c := curr] == current;
      } else {
        task := task[next.who := task[next.who].(state := RUNNING, cpu := c)];
        current := current[c := next.who];
        phase := phase[c := Leaving];
      }
    }

    /** task_switch_from: registers and wake-up tick saved, then the switch; the result is the
        stack pointer to continue with, 0 to stay. */
    method SwitchFrom(c: nat, esp: nat, to: TaskState, wake: nat) returns (r: nat)
      requires Valid() && c < |current| && phase[c] == Executing && esp != 0 && (to == READY || to == BLOCKED)
      modifies this
      ensures Valid() && old(current[c] in task && current[c] in ring)
      ensures St() == DoSwitch(DoSave(old(St()), c, esp, to, wake), c) && pending == old(pending)
      ensures r == if current[c] == old(current[c]) then 0 else task[current[c]].esp
    {
      ghost var s := St();
      SaveInv(s, c, esp, to, wake);
      Members(s);
      var curr := current[c];
      task := task[curr := task[curr].(esp := esp, wake := wake)];
      phase := phase[c := Saved(to)];
      SwitchInv(St(), c);
      SwitchSection(c, to);
      Members(St());
      r := if current[c] == curr then 0 else task[current[c]].esp;
    }

    /** task_block_and_switch. */
    method Block(c: nat, esp: nat, wake: nat) returns (r: nat)
      requires Valid() && c < |current| && phase[c] == Executing && esp != 0
      modifies this
      ensures Valid() && old(current[c] in task && current[c] in ring)
      ensures St() == DoSwitch(DoSave(old(St()), c, esp, BLOCKED, wake), c)
      ensures r == if current[c] == old(current[c]) then 0 else task[current[c]].esp
    {
      r := SwitchFrom(c, esp, BLOCKED, wake);
    }

    /** task_switch_tick: a yield, if the timer asked for one since the last. */
    method SwitchTick(c: nat, esp: nat) returns (r: nat)
      requires Valid() && c < |current| && phase[c] == Executing && esp != 0
      modifies this
      ensures Valid() && old(current[c] in task && current[c] in ring)
      ensures pending == old(pending)[c := false]
      ensures !old(pending[c]) ==> r == 0 && St() == old(St())
      ensures old(pending[c]) ==> St() == DoSwitch(DoSave(old(St()), c, esp, READY, 0), c)
      ensures old(pending[c]) ==> r == if current[c] == old(current[c]) then 0 else task[current[c]].esp
    {
      Members(St());
      r := 0;
      if pending[c] {
        pending := pending[c := false];
        r := SwitchFrom(c, esp, READY, 0);
      }
    }

    /** The wake-up loop of the timer, once around the list. */
    method WakeLoop()
      requires Linked(task, ring) && head == ring[0]
      modifies this`task
      ensures forall t :: t in ring ==> t in old(task)
      ensures task == Scan(old(task), ring, tick)
    {
      ghost var was := task;
      ghost var j := 0;
      var start := head;
      var t := start;
      ScanNone(was, ring, tick);
      hide Scan;
      while true
        invariant j < |ring| && t == ring[j] && task == Scan(was, ring[..j], tick)
        decreases |ring| - j
      {
        ScanNext(was, ring, j, tick);
        Around(was, ring, j);
        var next := task[t].next;
        if task[t].state == BLOCKED && task[t].wake != 0 && tick >= task[t].wake {
          task := task[t := task[t].(state := READY, wake := 0)];
        }
        assert task == Scan(was, ring[..j + 1], tick);
        t := next;
        j := j + 1;
        if t == start {
          assert j == |ring|;
          break;
        }
      }
      assert ring[..j] == ring;
    }

    /** timer_handler; `gotLock` is the outcome of spinlock_try_lock. */
    method TimerHandler(c: nat, gotLock: bool)
      requires Valid() && c < |current|
      modifies this
      ensures Valid() && (forall t :: t in old(ring) ==> t in old(task)) && pending == old(pending)[c := true]
      ensures tick == old(tick) + if c == 0 then 1 else 0
      ensures c == 0 ==> St() == DoTick(old(St()), gotLock)
      ensures c != 0 ==> St() == old(St())
    {
      TickInv(St(), gotLock);
      if c == 0 {
        tick := tick + 1;
        if gotLock { WakeLoop(); }
      }
      pending := pending[c := true];
    }

    /** The end of task_create and of elf_exec: a READY task goes on the list behind the head. */
    method Create(t: nat, pid: nat, esp: nat)
      requires Valid() && t !in task && esp != 0
      modifies this
      ensures Valid() && old(ring[0] in task) && St() == DoCreate(old(St()), t, pid, esp)
    {
      CreateInv(St(), t, pid, esp);
      task := task[t := Task(pid, READY, -1, esp, 0, task[head].next)];
      task := task[head := task[head].(next := t)];
      ring := [ring[0], t] + ring[1..];
    }

    /** SYS_EXIT's search from the head for an unassigned READY task. */
    method FindHeir() returns (k: Choice)
      requires Linked(task, ring) && head == ring[0]
      ensures k == First(task, -1, ring)
    {
      ghost var j := 0;
      var t := head;
      while true
        invariant j < |ring| && t == ring[j]
        invariant forall i :: 0 <= i < j ==> !Eligible(task, -1, ring[i])
        decreases |ring| - j
      {
        if task[t].state == READY && task[t].cpu < 0 && task[t].esp != 0 {
          FirstAt(task, -1, ring, j);
          return Chosen(t);
        }
        Around(task, ring, j);
        t := task[t].next;
        j := j + 1;
        if t == head {
          assert j == |ring|;
          break;
        }
      }
      FirstNobody(task, -1, ring);
      k := Nobody;
    }

    /** SYS_EXIT, when another task can take over. */
    method Exit(c: nat) returns (r: nat)
      requires Valid() && c < |current| && phase[c] == Executing && Seated(St(), c) && Heir(St(), c).Chosen?
      modifies this
      ensures Valid() && St() == DoExit(old(St()), c) && r == task[current[c]].esp
    {
      ghost var s := St();
      ExitInv(s, c);
      var curr := current[c];
      task := task[curr := task[curr].(state := FREE, cpu := -1)];
      EndLinked(s, c);
      hide Linked, First, Eligible;
      var next := FindHeir();
      assert next == Heir(s, c);
      task := task[next.who := task[next.who].(state := RUNNING, cpu := c)];
      current := current[c := next.who];
      phase := phase[c := Leaving];
      r := task[next.who].esp;
    }

    lemma EndLinked(s: State, c: nat)
      requires Linked(s.task, s.ring) && c < |s.current| && s.current[c] in s.task
      ensures Linked(Ended(s, c), s.ring)
    {}

    /** task_kill's search for the predecessor of the one to remove. */
    method FindBefore(t: nat, ghost j: nat) returns (p: nat)
      requires Linked(task, ring) && j < |ring| && |ring| > 1 && t == ring[j]
      ensures p == ring[Before(ring, j)]
    {
      ghost var walk := Order(ring, j);
      ghost var n := |ring|;
      ghost var i := -1;
      p := t;
      OrderNext(task, ring, j, 0);
      OrderNoDup(ring, j);
      while task[p].next != t
        invariant -1 <= i < n - 1 && p in task
        invariant i == -1 ==> p == t && task[p].next == walk[0]
        invariant i >= 0 ==> p == walk[i] && task[p].next == walk[i + 1]
        decreases n - i
      {
        p := task[p].next;
        i := i + 1;
        OrderNext(task, ring, j, i);
      }
      assert i == n - 2;
      OrderAt(ring, j, n - 2);
    }

    /** task_kill's search for the pid, once around the list. */
    method FindPid(pid: nat) returns (found: bool, t: nat, ghost j: nat)
      requires Linked(task, ring) && head == ring[0] && forall u :: u in ring ==> u in task
      ensures j == PidAt(task, ring, pid) && (found <==> j < |ring|) && (found ==> t == ring[j])
    {
      j := 0;
      t := head;
      while true
        invariant j < |ring| && t == ring[j]
        invariant forall i :: 0 <= i < j ==> task[ring[i]].pid != pid
        decreases |ring| - j
      {
        if task[t].pid == pid {
          PidFirst(task, ring, pid, j);
          return true, t, j;
        }
        Around(task, ring, j);
        t := task[t].next;
        j := j + 1;
        if t == head {
          assert j == |ring|;
          break;
        }
      }
      PidFirst(task, ring, pid, j);
      found := false;
    }

    /** Taking the j-th task off the list. */
    method Remove(t: nat, ghost j: nat)
      requires Valid() && j < |ring| && t == ring[j] && task[t].state != RUNNING
      modifies this`task, this`head, this`ring
      ensures task == Unlinked(old(task), old(ring), j) && ring == Without(old(ring), j)
      ensures |ring| > 0 && head == ring[0]
    {
      Others(St(), j);
      Around(task, ring, j);
      if task[t].next == t { assert false; }
      var p := FindBefore(t, j);
      task := task[p := task[p].(next := task[t].next)];
      if head == t { head := task[t].next; }
      task := task[t := task[t].(state := FREE, cpu := -1)];
      ring := Without(ring, j);
    }

    /** task_kill: 0 when a task was removed, -2 when it is RUNNING, -1 when there is none. */
    method Kill(pid: nat) returns (r: int)
      requires Valid()
      modifies this
      ensures Valid() && old(Linked(task, ring)) && St() == DoKill(old(St()), pid)
      ensures r == -1 <==> old(PidAt(task, ring, pid) == |ring|)
      ensures r == -1 <==> forall t :: t in old(ring) ==> t in old(task) && old(task)[t].pid != pid
      ensures r == -2 ==> St() == old(St())
      ensures r == 0 ==> |ring| + 1 == old(|ring|)
      ensures r == 0 || r == -1 || r == -2
      ensures forall p: nat :: FirstWith(old(St()), pid, p) ==>
        && (r == -2 <==> old(task)[old(ring)[p]].state == RUNNING)
        && (r == 0 ==> old(ring)[p] in task && task[old(ring)[p]].state == FREE && old(ring)[p] !in ring)
    {
      Members(St());
      KillMeans(St(), pid);
      KillInv(St(), pid);
      assert Linked(task, ring);
      hide Linked, Inv, PidAt;
      var found, t, j := FindPid(pid);
      if !found { return -1; }
      if task[t].state == RUNNING { return -2; }
      Remove(t, j);
      r := 0;
    }

    /** SYS_SLEEP_MS of a task that is not the CPU's idle task.  The caller's 32-bit count of
        milliseconds is rounded up to ticks by an addition that wraps: the sleep is as long as
        asked for exactly up to 0xFFFFFFF6, and a wake-up tick of 0 is never reached. */
    method SleepMs(c: nat, esp: nat, ms: u32, ghost idle: seq<nat>) returns (r: nat)
      requires Valid() && c < |current| && phase[c] == Executing && esp != 0
      requires HasIdle(St(), idle) && current[c] != idle[c]
      modifies this
      ensures Valid() && HasIdle(St(), idle) && |current| == |old(current)|
      ensures current[c] != old(current[c]) && current[c] in task
      ensures r == task[current[c]].esp && r != 0
      ensures old(current[c]) in task && task[old(current[c])].state == BLOCKED
      ensures task[old(current[c])].wake == old(tick) + SleepTicks(ms)
      ensures 10 * (task[old(current[c])].wake - old(tick)) >= ms <==> ms <= 0xFFFF_FFF6
      ensures Lost(St(), old(current[c])) <==> old(tick) == 0 && (ms == 0 || ms >= 0xFFFF_FFF7)
    {
      var wake := tick + (ms + 9) % 0x1_0000_0000 / 10;
      SleepTicksExact(ms);
      hide SleepTicks;
      SleepLeaves(St(), c, esp, wake, idle);
      hide Inv, HasIdle, DoSwitch, DoSave, IdleOk, Linked;
      r := Block(c, esp, wake);
    }
  }
}
