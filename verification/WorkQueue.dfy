/** scheduler.c, section by section, on its array of slots. */
module WorkQueue {
  import opened WorkModel

  class Scheduler {
    const slot: array<Slot>
    const cpus: nat
    var next: nat
    var nextId: nat
    /** History: see WorkModel.Queue. */
    ghost var holds: seq<nat>
    ghost var accepted: seq<Job>
    ghost var calls: seq<Call>
    ghost var done: set<nat>

    ghost function Q(): Queue
      reads this, slot
    {
      Queue(slot[..], next, holds, accepted, calls, done)
    }

    ghost predicate Valid()
      reads this, slot
    {
      Inv(Q(), cpus) && nextId == |accepted| + 1 && next < cpus
    }

    /** scheduler_init. */
    constructor (cpus: nat)
      requires cpus > 0
      ensures Valid() && fresh(slot) && this.cpus == cpus && Q() == Init()
    {
      this.cpus := cpus;
      slot := new Slot[MAX_TASKS](i => Slot(0, 0, FREE, 0));
      next, nextId := 0, 1;
      holds, accepted, calls, done := seq(MAX_TASKS, i => 0), [], [], {};
      new;
      InitInv(cpus);
      assert slot[..] == Init().slot;
    }

    /** scheduler_submit: the lowest free slot; the id, or 0 when all slots are busy. */
    method Submit(fn: int, arg: int) returns (id: nat)
      requires Valid()
      modifies this, slot
      ensures Valid()
      ensures Q() == Apply(old(Q()), cpus, WorkModel.Submit(fn, arg))
      ensures id == 0 <==> forall i :: 0 <= i < MAX_TASKS ==> old(slot[i].state) != FREE
      ensures id != 0 ==> id == |accepted| && accepted[id - 1] == Job(fn, arg, old(next))
      ensures id != 0 ==> exists i ::
        && 0 <= i < MAX_TASKS && old(slot[i].state) == FREE && slot[i] == Slot(fn, arg, SUBMITTED, old(next))
        && forall j :: 0 <= j < i ==> old(slot[j].state) != FREE
    {
      StepInv(Q(), cpus, WorkModel.Submit(fn, arg));
      AdvanceMod(next, cpus);
      ghost var s := slot[..];
      hide Dealt, AllSlots, Distinct, Tracked, DoneCalled, Once, CallsOk, Advance;
      var i := 0;
      while i < MAX_TASKS
        invariant 0 <= i <= MAX_TASKS && slot[..] == s && Q() == old(Q()) && nextId == old(nextId)
        invariant FreeFrom(s, 0) == FreeFrom(s, i)
        invariant forall j :: 0 <= j < i ==> s[j].state != FREE
      {
        if slot[i].state == FREE {
          slot[i] := Slot(fn, arg, SUBMITTED, next);
          holds := holds[i := |accepted|];
          accepted := accepted + [Job(fn, arg, next)];
          if cpus > 1 { next := (next + 1) % cpus; }
          id := nextId;
          nextId := nextId + 1;
          return;
        }
        i := i + 1;
      }
      id := 0;
    }

    /** scheduler_step up to the call: the slot taken, its function and argument. */
    method StepBegin(cpu: int) returns (found: bool, i: nat, fn: int, arg: int)
      requires Valid()
      modifies this`calls, slot
      ensures Valid() && Q() == Apply(old(Q()), cpus, Take(cpu))
      ensures found <==> exists j :: 0 <= j < MAX_TASKS && old(slot[j].state) == SUBMITTED && old(slot[j].cpu) == cpu
      ensures found ==> i < MAX_TASKS && slot[i].state == RUNNING && |calls| == |old(calls)| + 1
      ensures found ==> calls[|old(calls)|] == Call(holds[i], fn, arg, cpu)
      ensures found ==> old(slot[i]) == Slot(fn, arg, SUBMITTED, cpu)
      ensures found ==> forall j :: 0 <= j < i ==> !(old(slot[j].state) == SUBMITTED && old(slot[j].cpu) == cpu)
    {
      StepInv(Q(), cpus, Take(cpu));
      ghost var s := slot[..];
      i, fn, arg := 0, 0, 0;
      while i < MAX_TASKS
        invariant 0 <= i <= MAX_TASKS && slot[..] == s && Q() == old(Q())
        invariant ReadyFrom(s, cpu, 0) == ReadyFrom(s, cpu, i)
        invariant forall j :: 0 <= j < i ==> !(s[j].state == SUBMITTED && s[j].cpu == cpu)
      {
        if slot[i].state == SUBMITTED && slot[i].cpu == cpu {
          fn, arg := slot[i].fn, slot[i].arg;
          slot[i] := slot[i].(state := RUNNING);
          calls := calls + [Call(holds[i], fn, arg, cpu)];
          found := true;
          return;
        }
        i := i + 1;
      }
      found := false;
    }

    /** scheduler_step after the call has returned. */
    method StepEnd(i: nat, cpu: int)
      requires Valid() && i < MAX_TASKS && slot[i].state == RUNNING
      modifies this`done, slot
      ensures Valid() && Q() == Apply(old(Q()), cpus, Finish(i, cpu))
    {
      StepInv(Q(), cpus, Finish(i, cpu));
      slot[i] := slot[i].(state := FREE, cpu := cpu);
      done := done + {holds[i]};
    }

    /** The check of scheduler_wait_all under the lock. */
    method AnyBusy() returns (pending: bool)
      requires Valid()
      ensures !pending <==> Idle(Q())
      ensures !pending ==> forall id: nat :: id < |accepted| ==> id in done && Called(Q(), id)
    {
      var i := 0;
      while i < MAX_TASKS
        invariant 0 <= i <= MAX_TASKS && forall j :: 0 <= j < i ==> slot[j].state == FREE
      {
        if slot[i].state == SUBMITTED || slot[i].state == RUNNING { return true; }
        assert SlotOk(Q(), i);
        i := i + 1;
      }
      pending := false;
    }
  }
}
