/** The scheduler as it runs: a table of processes changed in place (kernel/scheduler.c). */
module Scheduler {
  import opened SchedulerSpec
  import opened Pmm

  class RoundRobin {
    const procs: array<Pcb>
    var current: nat
    var count: nat
    const pmm: PageAllocator

    ghost predicate Valid()
      reads this, procs
    {
      procs.Length == PROC_MAX && SchedOk(State())
    }

    ghost function State(): Sched
      reads this, procs
    {
      Sched(procs[..], current, count)
    }

    /** scheduler_init. */
    constructor (pmm: PageAllocator)
      ensures Valid() && State() == Initial() && this.pmm == pmm && fresh(procs)
      ensures current == 0 && count == 1 && procs[0].state == Running
      ensures forall i | 1 <= i < PROC_MAX :: procs[i].state == Unused
    {
      procs := new Pcb[PROC_MAX](i => if i == 0 then Pcb(0, Running, 0, 0) else IDLE);
      current, count := 0, 1;
      this.pmm := pmm;
      new;
      assert procs[..] == Initial().procs;
      InitialOk();
    }

    /** process_create: the slot, or -1. */
    method ProcessCreate() returns (slot: int)
      requires Valid() && pmm.Valid()
      modifies this`count, procs, pmm`freePages, pmm.used
      ensures Valid() && pmm.Valid() && (slot == -1 || 1 <= slot < PROC_MAX)
      ensures old(FreeSlot(procs[..], 1)) == PROC_MAX ==>
                slot == -1 && State() == old(State()) && pmm.Pages() == old(pmm.Pages())
      ensures old(FreeSlot(procs[..], 1)) < PROC_MAX ==>
        (State(), slot) == Created(old(State()), if old(pmm.Pages()) == [] then 0 else old(pmm.Pages())[0] * PAGE_SIZE)
        && pmm.Pages() == if old(pmm.Pages()) == [] then [] else old(pmm.Pages())[1..]
      ensures slot != -1 ==> LowestFree(old(procs[..]), slot)
      ensures slot != -1 ==> procs[slot].esp + 17 * 4 == procs[slot].stackPage + 4096
    {
      ghost var before := State();
      var i := 1;
      while i < PROC_MAX && procs[i].state != Unused
        invariant 1 <= i <= PROC_MAX && FreeSlot(before.procs, 1) == FreeSlot(before.procs, i)
      {
        i := i + 1;
      }
      if i == PROC_MAX {
        return -1;
      }
      var page := pmm.Alloc();
      CreateKeepsOk(before, page);
      FreeIsLowest(before.procs);
      if page == 0 {
        return -1;
      }
      AddProcess(i, page);
      slot := i;
    }

    /** Filling in the process control block. */
    method AddProcess(i: nat, page: nat)
      requires i < procs.Length
      modifies this`count, procs
      ensures State() == Sched(old(procs[..])[i := Pcb(i, Ready, BuiltEsp(page), page)], current, old(count) + 1)
    {
      procs[i] := Pcb(i, Ready, BuiltEsp(page), page);
      count := count + 1;
    }

    /** The search loop of scheduler_tick. */
    method FindReady() returns (next: nat)
      requires procs.Length == PROC_MAX && current < PROC_MAX
      ensures next < PROC_MAX && next == Search(procs[..], Ahead(current, 1), PROC_MAX)
    {
      next := (current + 1) % PROC_MAX;
      var i := 0;
      while i < PROC_MAX && procs[next].state != Ready
        invariant i <= PROC_MAX && next < PROC_MAX
        invariant Search(procs[..], next, PROC_MAX - i) == Search(procs[..], Ahead(current, 1), PROC_MAX)
      {
        next := (next + 1) % PROC_MAX;
        i := i + 1;
      }
    }

    /** scheduler_tick: the stack pointer to switch to, 0 for no change. */
    method SchedulerTick(currentEsp: nat) returns (esp: nat)
      requires Valid()
      modifies this`current, procs
      ensures Valid() && (State(), esp) == Ticked(old(State()), currentEsp)
      ensures current != old(current) <==> OthersInUse(old(State()))
      ensures !OthersInUse(old(State())) ==> esp == 0 && State() == old(State())
      ensures OthersInUse(old(State())) ==> Switched(old(State()), currentEsp, State(), esp)
    {
      ghost var before := State();
      CountsOthers(before);
      if count <= 1 {
        return 0;
      }
      TickKeepsOk(before, currentEsp);
      procs[current] := procs[current].(esp := currentEsp, state := Ready);
      assert procs[..] == Saved(before, currentEsp);
      var next := FindReady();
      procs[next] := procs[next].(state := Running);
      esp := 0;
      if next == current {
        TickSwitches(before, currentEsp);
        return;
      }
      TickSwitches(before, currentEsp);
      current := next;
      esp := procs[next].esp;
    }
  }
}
