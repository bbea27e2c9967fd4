/** The interrupt path as it runs: pushes and pops, one word at a time (kernel/arch/x86/isr.s, kernel/scheduler.c). */
module Switch {
  import opened SchedulerSpec
  import opened SwitchSpec
  import opened Scheduler
  import opened Pmm

  class Machine {
    var mem: Memory
    var cpu: Cpu
    const rr: RoundRobin

    constructor (rr: RoundRobin, mem: Memory, cpu: Cpu)
      ensures this.rr == rr && this.mem == mem && this.cpu == cpu
    {
      this.rr, this.mem, this.cpu := rr, mem, cpu;
    }

    ghost function State(): System
      reads this, rr, rr.procs
    {
      System(rr.State(), mem, cpu)
    }

    /** push. */
    method Push(v: nat)
      requires cpu.esp >= 4
      modifies this`mem, this`cpu
      ensures cpu == old(cpu).(esp := old(cpu).esp - 4) && mem == old(mem)[old(cpu).esp - 4 := v]
    {
      cpu := cpu.(esp := cpu.esp - 4);
      mem := mem[cpu.esp := v];
    }

    /** pop. */
    method Pop() returns (v: nat)
      modifies this`cpu
      ensures v == WordAt(mem, old(cpu).esp) && cpu == old(cpu).(esp := old(cpu).esp + 4)
    {
      v := WordAt(mem, cpu.esp);
      cpu := cpu.(esp := cpu.esp + 4);
    }

    /** What the processor pushes, then what the stub of the vector does. */
    method Enter(vector: nat)
      requires cpu.esp >= FRAME
      modifies this`mem, this`cpu
      ensures cpu == old(cpu).(esp := old(cpu).esp - 20)
      ensures mem == PushAll(old(mem), old(cpu).esp, [cpu.eflags, cpu.cs, cpu.eip, 0, vector])
    {
      PushFive(mem, cpu.esp, cpu.eflags, cpu.cs, cpu.eip, 0, vector);
      Push(cpu.eflags);
      Push(cpu.cs);
      Push(cpu.eip);
      Push(0);
      Push(vector);
    }

    /** pusha and the four segment registers; then the kernel's segments. */
    method SaveRegisters()
      requires cpu.esp >= FRAME - 20
      modifies this`mem, this`cpu
      ensures cpu.esp == old(cpu).esp - 48
      ensures mem == PushAll(PushAll(old(mem), old(cpu).esp, General(old(cpu))), old(cpu).esp - 32, Segments(old(cpu)))
    {
      PushGeneral();
      PushSegments();
      cpu := cpu.(ds := 0x10, es := 0x10, fs := 0x10, gs := 0x10);
    }

    /** pusha: the stack pointer it stores is the one before it. */
    method PushGeneral()
      requires cpu.esp >= 32
      modifies this`mem, this`cpu
      ensures cpu == old(cpu).(esp := old(cpu).esp - 32) && mem == PushAll(old(mem), old(cpu).esp, General(old(cpu)))
    {
      var esp := cpu.esp;
      PushEight(mem, cpu);
      Push(cpu.eax);
      Push(cpu.ecx);
      Push(cpu.edx);
      Push(cpu.ebx);
      Push(esp);
      Push(cpu.ebp);
      Push(cpu.esi);
      Push(cpu.edi);
    }

    method PushSegments()
      requires cpu.esp >= 16
      modifies this`mem, this`cpu
      ensures cpu == old(cpu).(esp := old(cpu).esp - 16) && mem == PushAll(old(mem), old(cpu).esp, Segments(old(cpu)))
    {
      PushFour(mem, cpu.esp, cpu.ds, cpu.es, cpu.fs, cpu.gs);
      Push(cpu.ds);
      Push(cpu.es);
      Push(cpu.fs);
      Push(cpu.gs);
    }

    /** The pops, the last pushed first. */
    method Leave()
      modifies this`cpu
      ensures cpu == Restored(mem, old(cpu).esp)
    {
      PopSegments();
      PopGeneral();
      cpu := cpu.(esp := cpu.esp + 8);
      ReturnFromInterrupt();
    }

    method PopSegments()
      modifies this`cpu
      ensures cpu == old(cpu).(gs := WordAt(mem, old(cpu).esp), fs := WordAt(mem, old(cpu).esp + 4),
                               es := WordAt(mem, old(cpu).esp + 8), ds := WordAt(mem, old(cpu).esp + 12),
                               esp := old(cpu).esp + 16)
    {
      var v := Pop();
      cpu := cpu.(gs := v);
      v := Pop();
      cpu := cpu.(fs := v);
      v := Pop();
      cpu := cpu.(es := v);
      v := Pop();
      cpu := cpu.(ds := v);
    }

    /** The first half of popa; the stored stack pointer is skipped. */
    method PopIndexes()
      modifies this`cpu
      ensures cpu == old(cpu).(edi := WordAt(mem, old(cpu).esp), esi := WordAt(mem, old(cpu).esp + 4),
                               ebp := WordAt(mem, old(cpu).esp + 8), esp := old(cpu).esp + 16)
    {
      var v := Pop();
      cpu := cpu.(edi := v);
      v := Pop();
      cpu := cpu.(esi := v);
      v := Pop();
      cpu := cpu.(ebp := v);
      v := Pop();
    }

    /** popa. */
    method PopGeneral()
      modifies this`cpu
      ensures cpu == old(cpu).(edi := WordAt(mem, old(cpu).esp), esi := WordAt(mem, old(cpu).esp + 4),
                               ebp := WordAt(mem, old(cpu).esp + 8), ebx := WordAt(mem, old(cpu).esp + 16),
                               edx := WordAt(mem, old(cpu).esp + 20), ecx := WordAt(mem, old(cpu).esp + 24),
                               eax := WordAt(mem, old(cpu).esp + 28), esp := old(cpu).esp + 32)
    {
      PopIndexes();
      var v := Pop();
      cpu := cpu.(ebx := v);
      v := Pop();
      cpu := cpu.(edx := v);
      v := Pop();
      cpu := cpu.(ecx := v);
      v := Pop();
      cpu := cpu.(eax := v);
    }

    /** iret within the kernel's own privilege level: three words. */
    method ReturnFromInterrupt()
      modifies this`cpu
      ensures cpu == old(cpu).(eip := WordAt(mem, old(cpu).esp), cs := WordAt(mem, old(cpu).esp + 4),
                               eflags := WordAt(mem, old(cpu).esp + 8), esp := old(cpu).esp + 12)
    {
      var v := Pop();
      cpu := cpu.(eip := v);
      v := Pop();
      cpu := cpu.(cs := v);
      v := Pop();
      cpu := cpu.(eflags := v);
    }

    /** Everything that is pushed before the handler is called. */
    method Save(vector: nat)
      requires cpu.esp >= FRAME
      modifies this`mem, this`cpu
      ensures cpu.esp == old(cpu).esp - FRAME
      ensures mem == PushAll(old(mem), old(cpu).esp, SavedWords(old(cpu), vector))
    {
      SavedInParts(mem, cpu, vector);
      Enter(vector);
      SaveRegisters();
    }

    /** Up to the return of the C handler, which leaves `scratch` in memory. */
    method Handle(vector: nat, scratch: Memory)
      requires cpu.esp >= FRAME
      modifies this`mem, this`cpu
      ensures cpu.esp == old(cpu).esp - FRAME && mem == IrqMemory(old(mem), old(cpu), vector, scratch)
    {
      Save(vector);
      mem := mem + scratch;
    }

    /** A hardware interrupt through irq_common; `scratch` is what the C handler leaves in memory. */
    method Interrupt(vector: nat, scratch: Memory)
      requires rr.Valid() && cpu.esp >= FRAME
      modifies this`mem, this`cpu, rr`current, rr.procs
      ensures rr.Valid() && old(|State().sched.procs| == PROC_MAX && State().sched.current < PROC_MAX)
      ensures State() == Interrupted(old(State()), vector, scratch)
    {
      ghost var goal := Interrupted(State(), vector, scratch);
      ghost var at, saved := IrqResumes(State(), vector, scratch, goal);
      InterruptFor(vector, scratch, at, saved, goal);
    }

    method InterruptFor(vector: nat, scratch: Memory, ghost at: nat, ghost saved: Memory, ghost goal: System)
      requires rr.Valid() && cpu.esp >= FRAME && |rr.State().procs| == PROC_MAX && rr.State().current < PROC_MAX
      requires at == cpu.esp - FRAME && saved == IrqMemory(mem, cpu, vector, scratch)
      requires goal == Resumed(rr.State(), at, saved)
      modifies this`mem, this`cpu, rr`current, rr.procs
      ensures rr.Valid() && State() == goal
    {
      Handle(vector, scratch);
      Reschedule(goal);
    }

    /** The end of irq_common: the scheduler is called with the address of the frame. */
    method Reschedule(ghost goal: System)
      requires rr.Valid() && |rr.State().procs| == PROC_MAX && rr.State().current < PROC_MAX
      requires goal == Resumed(rr.State(), cpu.esp, mem)
      modifies this`cpu, rr`current, rr.procs
      ensures rr.Valid() && State() == goal
    {
      var to := rr.SchedulerTick(cpu.esp);
      if to != 0 {
        cpu := cpu.(esp := to);
      }
      Leave();
    }

    /** The stack process_create builds below the end of the page. */
    method BuildStack(page: nat, entry: nat) returns (sp: nat)
      modifies this`mem
      ensures sp == BuiltEsp(page) && mem == PushAll(old(mem), page + STACK_SIZE, BuiltWords(entry))
    {
      ghost var before := mem;
      sp := page + STACK_SIZE;
      sp := Store(sp, [0x202, 0x08, entry]);
      sp := Store(sp, [0, 0]);
      sp := Store(sp, [0, 0, 0, 0, 0, 0, 0, 0]);
      sp := Store(sp, [0x10, 0x10, 0x10, 0x10]);
      BuiltInParts(before, page, entry);
    }

    /** A group of *--sp = word. */
    method Store(at: nat, words: seq<nat>) returns (sp: nat)
      requires at >= 4 * |words|
      modifies this`mem
      ensures sp == at - 4 * |words| && mem == PushAll(old(mem), at, words)
    {
      sp := at;
      for k := 0 to |words|
        invariant sp == at - 4 * k && PushAll(mem, sp, words[k..]) == PushAll(old(mem), at, words)
      {
        sp := sp - 4;
        mem := mem[sp := words[k]];
        assert words[k..][1..] == words[k + 1..];
      }
    }

    /** process_create: a slot and a page, and the stack of the new process in it. */
    method ProcessCreate(entry: nat) returns (slot: int, ghost page: nat)
      requires rr.Valid() && rr.pmm.Valid()
      modifies this`mem, rr`count, rr.procs, rr.pmm`freePages, rr.pmm.used
      ensures rr.Valid() && rr.pmm.Valid() && old(|State().sched.procs| == PROC_MAX)
      ensures State() == Spawned(old(State()), page, entry) && slot == Created(old(rr.State()), page).1
      ensures slot != -1 ==> old(rr.pmm.Pages()) != [] && page == old(rr.pmm.Pages())[0] * 4096
    {
      ghost var before := rr.State();
      ghost var full := FreeSlot(before.procs, 1) == PROC_MAX;
      page := if full || rr.pmm.Pages() == [] then 0 else rr.pmm.Pages()[0] * PAGE_SIZE;
      slot := rr.ProcessCreate();
      if slot != -1 {
        var sp := BuildStack(rr.procs[slot].stackPage, entry);
      }
    }
  }

  /** The words of pusha, first pushed first. */
  function General(c: Cpu): seq<nat> {
    [c.eax, c.ecx, c.edx, c.ebx, c.esp, c.ebp, c.esi, c.edi]
  }

  function Segments(c: Cpu): seq<nat> {
    [c.ds, c.es, c.fs, c.gs]
  }

  lemma PushFour(mem: Memory, esp: nat, a: nat, b: nat, c: nat, d: nat)
    requires esp >= 16
    ensures PushAll(mem, esp, [a, b, c, d]) == mem[esp - 4 := a][esp - 8 := b][esp - 12 := c][esp - 16 := d]
  {
    var m1 := mem[esp - 4 := a];
    var m2 := m1[esp - 8 := b];
    var m3 := m2[esp - 12 := c];
    assert [a, b, c, d][1..] == [b, c, d] && [b, c, d][1..] == [c, d] && [c, d][1..] == [d] && [d][1..] == [];
    assert PushAll(m3, esp - 12, [d]) == PushAll(m3[esp - 16 := d], esp - 16, []);
    assert PushAll(m2, esp - 8, [c, d]) == PushAll(m3, esp - 12, [d]);
    assert PushAll(m1, esp - 4, [b, c, d]) == PushAll(m2, esp - 8, [c, d]);
    assert PushAll(mem, esp, [a, b, c, d]) == PushAll(m1, esp - 4, [b, c, d]);
  }

  lemma PushFive(mem: Memory, esp: nat, a: nat, b: nat, c: nat, d: nat, e: nat)
    requires esp >= 20
    ensures PushAll(mem, esp, [a, b, c, d, e])
         == mem[esp - 4 := a][esp - 8 := b][esp - 12 := c][esp - 16 := d][esp - 20 := e]
  {
    PushFour(mem[esp - 4 := a], esp - 4, b, c, d, e);
    assert [a, b, c, d, e][1..] == [b, c, d, e];
  }

  lemma PushEight(mem: Memory, c: Cpu)
    requires c.esp >= 32
    ensures PushAll(mem, c.esp, General(c))
         == mem[c.esp - 4 := c.eax][c.esp - 8 := c.ecx][c.esp - 12 := c.edx][c.esp - 16 := c.ebx]
               [c.esp - 20 := c.esp][c.esp - 24 := c.ebp][c.esp - 28 := c.esi][c.esp - 32 := c.edi]
  {
    var a, b := [c.eax, c.ecx, c.edx, c.ebx], [c.esp, c.ebp, c.esi, c.edi];
    assert General(c) == a + b;
    PushAllConcat(mem, c.esp, a, b);
    PushFour(mem, c.esp, c.eax, c.ecx, c.edx, c.ebx);
    PushFour(mem[c.esp - 4 := c.eax][c.esp - 8 := c.ecx][c.esp - 12 := c.edx][c.esp - 16 := c.ebx], c.esp - 16,
             c.esp, c.ebp, c.esi, c.edi);
  }

  lemma {:induction false} PushAllConcat(mem: Memory, esp: nat, a: seq<nat>, b: seq<nat>)
    requires esp >= 4 * |a + b|
    ensures PushAll(mem, esp, a + b) == PushAll(PushAll(mem, esp, a), esp - 4 * |a|, b)
    decreases a
  {
    if a == [] {
      assert a + b == b;
    } else {
      assert (a + b)[1..] == a[1..] + b;
      PushAllConcat(mem[esp - 4 := a[0]], esp - 4, a[1..], b);
    }
  }

  /** The three groups of pushes are the frame. */
  lemma SavedInParts(mem: Memory, c: Cpu, vector: nat)
    requires c.esp >= FRAME
    ensures PushAll(mem, c.esp, SavedWords(c, vector))
         == PushAll(PushAll(PushAll(mem, c.esp, [c.eflags, c.cs, c.eip, 0, vector]),
                            c.esp - 20, General(c.(esp := c.esp - 20))), c.esp - 52, Segments(c))
  {
    var a, b, d := [c.eflags, c.cs, c.eip, 0, vector], General(c.(esp := c.esp - 20)), Segments(c);
    assert SavedWords(c, vector) == a + b + d;
    PushAllConcat(mem, c.esp, a + b, d);
    PushAllConcat(mem, c.esp, a, b);
  }

  /** The four groups of stores are what process_create builds. */
  lemma BuiltInParts(mem: Memory, page: nat, entry: nat)
    ensures PushAll(mem, page + STACK_SIZE, BuiltWords(entry))
         == PushAll(PushAll(PushAll(PushAll(mem, page + 4096, [0x202, 0x08, entry]), page + 4084, [0, 0]), page + 4076,
                            [0, 0, 0, 0, 0, 0, 0, 0]), page + 4044, [0x10, 0x10, 0x10, 0x10])
  {
    var a: seq<nat>, b: seq<nat>, c: seq<nat>, d: seq<nat> :=
      [0x202, 0x08, entry], [0, 0], [0, 0, 0, 0, 0, 0, 0, 0], [0x10, 0x10, 0x10, 0x10];
    assert BuiltWords(entry) == a + b + c + d;
    PushAllConcat(mem, page + 4096, a + b + c, d);
    PushAllConcat(mem, page + 4096, a + b, c);
    PushAllConcat(mem, page + 4096, a, b);
  }
}
