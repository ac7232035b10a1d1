/** SMP task switching as a state machine: every step is one section under the scheduler lock,
    or one of the unlocked steps before and after it. */
module TaskModel {
  import opened Collections

  datatype TaskState = FREE | READY | RUNNING | BLOCKED | ZOMBIE

  /** task_t, without the resources that frames model.  `cpu` is cpu_assigned, -1 when none. */
  datatype Task = Task(pid: nat, state: TaskState, cpu: int, esp: nat, wake: nat, next: nat)

  /** Where a CPU is inside a switch: its registers saved with the state its task will take,
      or switched in the tables but still on the old task's kernel stack. */
  datatype Phase = Executing | Saved(to: TaskState) | Leaving

  /** `ring` lists the tasks from ready_head on; `on[c]` names the kernel stack CPU c uses. */
  datatype State = State(
    task: map<nat, Task>, ring: seq<nat>, current: seq<nat>, on: seq<nat>, phase: seq<Phase>, tick: nat)

  datatype Choice = Nobody | Chosen(who: nat)

  // ------------------------------------------------- the circular list

  /** The next pointers of the tasks in r close one cycle through all of them. */
  ghost predicate Linked(task: map<nat, Task>, r: seq<nat>) {
    && |r| > 0 && NoDup(r)
    && forall i :: 0 <= i < |r| ==> r[i] in task && task[r[i]].next == r[if i + 1 < |r| then i + 1 else 0]
  }

  /** A walk from the head is back at the head exactly behind the last task. */
  lemma Around(task: map<nat, Task>, r: seq<nat>, j: nat)
    requires Linked(task, r) && j < |r|
    ensures r[j] in task && (j + 1 < |r| ==> task[r[j]].next == r[j + 1])
    ensures task[r[j]].next == r[0] <==> j + 1 == |r|
    ensures |r| > 1 ==> task[r[j]].next != r[j]
  {
    assert j + 1 < |r| ==> r[0] != r[j + 1];
  }

  /** The list in the order of a walk that starts behind position p and ends at p. */
  function Order(r: seq<nat>, p: nat): seq<nat>
    requires p < |r|
  {
    r[p + 1..] + r[..p + 1]
  }

  /** The list position that such a walk visits in its i-th step. */
  function Visit(n: nat, p: nat, i: nat): nat
    requires p < n && i < n
  {
    if i < n - p - 1 then p + 1 + i else i - (n - p - 1)
  }

  lemma OrderAt(r: seq<nat>, p: nat, i: nat)
    requires p < |r| && i < |r|
    ensures |Order(r, p)| == |r| && Visit(|r|, p, i) < |r| && Order(r, p)[i] == r[Visit(|r|, p, i)]
  {}

  lemma OrderNext(task: map<nat, Task>, r: seq<nat>, p: nat, j: nat)
    requires Linked(task, r) && p < |r| && j < |r|
    ensures Order(r, p)[j] in task && Order(r, p)[|r| - 1] == r[p]
    ensures j + 1 < |r| ==> task[Order(r, p)[j]].next == Order(r, p)[j + 1]
    ensures task[r[p]].next == Order(r, p)[0]
  {
    OrderAt(r, p, j);
  }

  lemma OrderNoDup(r: seq<nat>, p: nat)
    requires NoDup(r) && p < |r|
    ensures NoDup(Order(r, p)) && |Order(r, p)| == |r|
  {
    forall i, j | 0 <= i < j < |r| ensures Order(r, p)[i] != Order(r, p)[j] {
      OrderAt(r, p, i);
      OrderAt(r, p, j);
    }
  }

  /** Position of t in r. */
  function Pos(r: seq<nat>, t: nat): (p: nat)
    requires t in r
    ensures p < |r| && r[p] == t
  {
    if r[0] == t then 0 else 1 + Pos(r[1..], t)
  }

  lemma PosAt(r: seq<nat>, p: nat)
    requires NoDup(r) && p < |r|
    ensures Pos(r, r[p]) == p
  {}

  /** Seen from a task that a walk meets in step j, a task met later in step k is j + 1 steps nearer. */
  lemma Nearer(r: seq<nat>, p: nat, j: nat, k: nat)
    requires NoDup(r) && p < |r| && j < k < |r|
    ensures Order(r, p)[j] in r
    ensures Order(r, Pos(r, Order(r, p)[j]))[k - j - 1] == Order(r, p)[k]
  {
    var q := Visit(|r|, p, j);
    OrderAt(r, p, j);
    OrderAt(r, p, k);
    PosAt(r, q);
    OrderAt(r, q, k - j - 1);
    VisitNearer(|r|, p, j, k);
    hide Order, Pos, NoDup, Visit;
  }

  lemma VisitNearer(n: nat, p: nat, j: nat, k: nat)
    requires p < n && j < k < n
    ensures Visit(n, p, j) < n && Visit(n, Visit(n, p, j), k - j - 1) == Visit(n, p, k)
  {}

  // ------------------------------------------------- choosing the next task

  predicate Eligible(task: map<nat, Task>, cpu: int, t: nat) {
    t in task && task[t].state == READY && (task[t].cpu < 0 || task[t].cpu == cpu) && task[t].esp != 0
  }

  /** The first eligible task of a walk. */
  function First(task: map<nat, Task>, cpu: int, walk: seq<nat>): (k: Choice)
    ensures k.Chosen? ==> k.who in walk && Eligible(task, cpu, k.who)
  {
    if |walk| == 0 then Nobody
    else if Eligible(task, cpu, walk[0]) then Chosen(walk[0])
    else First(task, cpu, walk[1..])
  }

  lemma {:induction false} FirstAt(task: map<nat, Task>, cpu: int, walk: seq<nat>, j: nat)
    requires j < |walk| && Eligible(task, cpu, walk[j])
    requires forall i :: 0 <= i < j ==> !Eligible(task, cpu, walk[i])
    ensures First(task, cpu, walk) == Chosen(walk[j])
  {
    if j > 0 { FirstAt(task, cpu, walk[1..], j - 1); }
  }

  lemma {:induction false} FirstNobody(task: map<nat, Task>, cpu: int, walk: seq<nat>)
    requires forall i :: 0 <= i < |walk| ==> !Eligible(task, cpu, walk[i])
    ensures First(task, cpu, walk) == Nobody
  {
    if |walk| > 0 { FirstNobody(task, cpu, walk[1..]); }
  }

  /** With an eligible task in step k, the choice falls on it or on one met before. */
  lemma {:induction false} FirstBy(task: map<nat, Task>, cpu: int, walk: seq<nat>, k: nat) returns (j: nat)
    requires k < |walk| && Eligible(task, cpu, walk[k])
    ensures j <= k && Eligible(task, cpu, walk[j]) && First(task, cpu, walk) == Chosen(walk[j])
  {
    if Eligible(task, cpu, walk[0]) { j := 0; } else { var i := FirstBy(task, cpu, walk[1..], k - 1); j := i + 1; }
  }
}
