/** What an interrupt does to the processor and to the stacks (kernel/arch/x86/isr.s), on top of the scheduler: one
  * processor is made to look like one for each process. */
module SwitchSpec {
  import opened SchedulerSpec

  datatype Cpu = Cpu(eip: nat, cs: nat, eflags: nat, eax: nat, ecx: nat, edx: nat, ebx: nat, esp: nat, ebp: nat,
                     esi: nat, edi: nat, ds: nat, es: nat, fs: nat, gs: nat)

  /** The 32-bit words of memory at addresses divisible by four. */
  type Memory = map<nat, nat>

  function WordAt(mem: Memory, at: nat): nat {
    if at in mem then mem[at] else 0
  }

  /** Pushing these words one after the other. */
  function PushAll(mem: Memory, esp: nat, words: seq<nat>): Memory
    requires esp >= 4 * |words|
    decreases words
  {
    if words == [] then mem else PushAll(mem[esp - 4 := words[0]], esp - 4, words[1..])
  }

  const VECTOR_WORDS := 5

  /** What is on the stack when the handler is called, first pushed first: eflags, cs and eip by the processor, 0 and
    * the vector by the stub, then pusha and the four segment registers. */
  function SavedWords(c: Cpu, vector: nat): seq<nat>
    requires c.esp >= 4 * VECTOR_WORDS
  {
    [c.eflags, c.cs, c.eip, 0, vector,
     c.eax, c.ecx, c.edx, c.ebx, c.esp - 4 * VECTOR_WORDS, c.ebp, c.esi, c.edi, c.ds, c.es, c.fs, c.gs]
  }

  /** What process_create writes below the end of the page. */
  function BuiltWords(entry: nat): seq<nat> {
    [0x202, 0x08, entry, 0, 0, 0, 0, 0, 0, 0, 0, 0, 0, 0x10, 0x10, 0x10, 0x10]
  }

  /** The pops at the end: segment registers, popa, eight bytes skipped, iret. */
  function Restored(mem: Memory, esp: nat): Cpu {
    Cpu(WordAt(mem, esp + 56), WordAt(mem, esp + 60), WordAt(mem, esp + 64),
        WordAt(mem, esp + 44), WordAt(mem, esp + 40), WordAt(mem, esp + 36), WordAt(mem, esp + 32), esp + 68,
        WordAt(mem, esp + 24), WordAt(mem, esp + 20), WordAt(mem, esp + 16),
        WordAt(mem, esp + 12), WordAt(mem, esp + 8), WordAt(mem, esp + 4), WordAt(mem, esp))
  }

  datatype System = System(sched: Sched, mem: Memory, cpu: Cpu)

  /** An interrupt: the frame is pushed, the handler leaves `scratch` behind, the scheduler chooses, and the frame of
    * the chosen process is popped. */
  function Interrupted(s: System, vector: nat, scratch: Memory): System
    requires |s.sched.procs| == PROC_MAX && s.sched.current < PROC_MAX && s.cpu.esp >= FRAME
  {
    Resumed(s.sched, s.cpu.esp - FRAME, IrqMemory(s.mem, s.cpu, vector, scratch))
  }

  /** Memory when the handler has returned. */
  function IrqMemory(mem: Memory, c: Cpu, vector: nat, scratch: Memory): Memory
    requires c.esp >= FRAME
  {
    PushAll(mem, c.esp, SavedWords(c, vector)) + scratch
  }

  /** The scheduler is handed the address of the frame, and what it returns is popped. */
  function Resumed(sched: Sched, at: nat, mem: Memory): System
    requires |sched.procs| == PROC_MAX && sched.current < PROC_MAX
  {
    var (sched', to) := Ticked(sched, at);
    System(sched', mem, Restored(mem, if to == 0 then at else to))
  }

  /** process_create with this page and this function. */
  function Spawned(s: System, page: nat, entry: nat): System
    requires |s.sched.procs| == PROC_MAX
  {
    var (sched, slot) := Created(s.sched, page);
    if slot == -1 then s.(sched := sched)
    else System(sched, PushAll(s.mem, page + STACK_SIZE, BuiltWords(entry)), s.cpu)
  }

  // ---- words on a stack ----

  lemma {:induction false} PushAllAt(mem: Memory, esp: nat, words: seq<nat>, k: nat)
    requires esp >= 4 * |words| && k < |words|
    ensures WordAt(PushAll(mem, esp, words), esp - 4 * (k + 1)) == words[k]
    decreases words
  {
    if k == 0 {
      PushAllKeeps(mem[esp - 4 := words[0]], esp - 4, words[1..], esp - 4);
    } else {
      PushAllAt(mem[esp - 4 := words[0]], esp - 4, words[1..], k - 1);
    }
  }

  lemma {:induction false} PushAllKeeps(mem: Memory, esp: nat, words: seq<nat>, at: nat)
    requires esp >= 4 * |words| && (at >= esp || at < esp - 4 * |words|)
    ensures Kept(mem, PushAll(mem, esp, words), at)
    decreases words
  {
    if words != [] {
      PushAllKeeps(mem[esp - 4 := words[0]], esp - 4, words[1..], at);
    }
  }

  /** The word at this address is the same in both memories. */
  predicate Kept(mem: Memory, mem': Memory, at: nat) {
    WordAt(mem', at) == WordAt(mem, at)
  }

  /** The two memories agree on the words of a frame. */
  ghost predicate SameFrame(mem: Memory, mem': Memory, esp: nat) {
    forall a {:trigger Kept(mem, mem', a)} | esp <= a < esp + 68 :: Kept(mem, mem', a)
  }

  lemma SameRestored(mem: Memory, mem': Memory, esp: nat)
    requires SameFrame(mem, mem', esp)
    ensures Restored(mem', esp) == Restored(mem, esp)
  {
    assert Kept(mem, mem', esp) && Kept(mem, mem', esp + 4) && Kept(mem, mem', esp + 8) && Kept(mem, mem', esp + 12);
    assert Kept(mem, mem', esp + 16) && Kept(mem, mem', esp + 20) && Kept(mem, mem', esp + 24);
    assert Kept(mem, mem', esp + 32) && Kept(mem, mem', esp + 36) && Kept(mem, mem', esp + 40);
    assert Kept(mem, mem', esp + 44) && Kept(mem, mem', esp + 56) && Kept(mem, mem', esp + 60);
    assert Kept(mem, mem', esp + 64);
  }

  /** Seventeen words pushed are seventeen words popped, the last first. */
  lemma PoppedWords(mem: Memory, esp: nat, words: seq<nat>)
    requires |words| == 17 && esp >= 68
    ensures Restored(PushAll(mem, esp, words), esp - 68)
         == Cpu(words[2], words[1], words[0], words[5], words[6], words[7], words[8], esp, words[10], words[11],
                words[12], words[13], words[14], words[15], words[16])
  {
    forall k: nat | k < 17 ensures WordAt(PushAll(mem, esp, words), esp - 4 * (k + 1)) == words[k] {
      PushAllAt(mem, esp, words, k);
    }
    var after := PushAll(mem, esp, words);
    assert WordAt(after, esp - 4 * (16 + 1)) == words[16] && WordAt(after, esp - 4 * (15 + 1)) == words[15];
    assert WordAt(after, esp - 4 * (14 + 1)) == words[14] && WordAt(after, esp - 4 * (13 + 1)) == words[13];
    assert WordAt(after, esp - 4 * (12 + 1)) == words[12] && WordAt(after, esp - 4 * (11 + 1)) == words[11];
    assert WordAt(after, esp - 4 * (10 + 1)) == words[10] && WordAt(after, esp - 4 * (8 + 1)) == words[8];
    assert WordAt(after, esp - 4 * (7 + 1)) == words[7] && WordAt(after, esp - 4 * (6 + 1)) == words[6];
    assert WordAt(after, esp - 4 * (5 + 1)) == words[5] && WordAt(after, esp - 4 * (2 + 1)) == words[2];
    assert WordAt(after, esp - 4 * (1 + 1)) == words[1] && WordAt(after, esp - 4 * (0 + 1)) == words[0];
  }

  /** What the stub and the handler save is what the pops restore, every register and the stack pointer. */
  lemma SaveRestores(mem: Memory, c: Cpu, vector: nat)
    requires c.esp >= FRAME
    ensures Restored(PushAll(mem, c.esp, SavedWords(c, vector)), c.esp - FRAME) == c
  {
    PoppedWords(mem, c.esp, SavedWords(c, vector));
  }

  /** The frame as the C handlers see it: struct registers of kernel/arch/x86/idt.h, field by field. */
  lemma FrameLayout(mem: Memory, c: Cpu, vector: nat, after: Memory, at: nat)
    requires c.esp >= FRAME && at == c.esp - 68 && after == PushAll(mem, c.esp, SavedWords(c, vector))
    ensures WordAt(after, at) == c.gs && WordAt(after, at + 4) == c.fs
    ensures WordAt(after, at + 8) == c.es && WordAt(after, at + 12) == c.ds
    ensures WordAt(after, at + 16) == c.edi && WordAt(after, at + 20) == c.esi && WordAt(after, at + 24) == c.ebp
    ensures WordAt(after, at + 28) == c.esp - 20
    ensures WordAt(after, at + 32) == c.ebx && WordAt(after, at + 36) == c.edx
    ensures WordAt(after, at + 40) == c.ecx && WordAt(after, at + 44) == c.eax
    ensures WordAt(after, at + 48) == vector && WordAt(after, at + 52) == 0
    ensures WordAt(after, at + 56) == c.eip && WordAt(after, at + 60) == c.cs && WordAt(after, at + 64) == c.eflags
  {
    PoppedWords(mem, c.esp, SavedWords(c, vector));
    PushAllAt(mem, c.esp, SavedWords(c, vector), 9);
    PushAllAt(mem, c.esp, SavedWords(c, vector), 4);
    PushAllAt(mem, c.esp, SavedWords(c, vector), 3);
  }

  /** The state in which a new process starts: at its function, interrupts enabled, flat kernel segments, cleared
    * registers, and the whole page as its stack. */
  function EntryState(entry: nat, page: nat): Cpu {
    Cpu(entry, 0x08, 0x202, 0, 0, 0, 0, page + 4096, 0, 0, 0, 0x10, 0x10, 0x10, 0x10)
  }

  /** What process_create writes is popped as that state. */
  lemma BuiltRestores(mem: Memory, page: nat, entry: nat)
    ensures Restored(PushAll(mem, page + STACK_SIZE, BuiltWords(entry)), BuiltEsp(page)) == EntryState(entry, page)
  {
    PoppedWords(mem, page + STACK_SIZE, BuiltWords(entry));
  }

  // ---- stacks ----

  /** The bytes from low to high. */
  datatype Stack = Stack(low: nat, high: nat)

  predicate Inside(st: Stack, at: nat) {
    st.low <= at < st.high
  }

  predicate InUse(sched: Sched, p: nat) {
    p < |sched.procs| && sched.procs[p].state != Unused
  }

  /** The stack of process p; that of process 0 is the one the kernel was started on. */
  function StackOf(sched: Sched, boot: Stack, p: nat): Stack
    requires p < |sched.procs|
  {
    if p == 0 then boot else Stack(sched.procs[p].stackPage, sched.procs[p].stackPage + 4096)
  }

  ghost predicate Apart(a: Stack, b: Stack) {
    a.high <= b.low || b.high <= a.low
  }

  /** No two stacks overlap. */
  ghost predicate StacksApart(sched: Sched, boot: Stack) {
    forall p: nat, q: nat | InUse(sched, p) && InUse(sched, q) && p != q ::
      Apart(StackOf(sched, boot, p), StackOf(sched, boot, q))
  }

  /** A stack pointer in its stack, with a frame's room below it. */
  predicate HasRoomFor(st: Stack, esp: nat) {
    0 < st.low && st.low + 68 <= esp <= st.high && esp % 4 == 0
  }

  /** The processor state of process p: in the processor, or in the frame on its stack. */
  function CpuOf(s: System, p: nat): Cpu
    requires p < |s.sched.procs|
  {
    if p == s.sched.current then s.cpu else Restored(s.mem, s.sched.procs[p].esp)
  }

  ghost predicate Sound(s: System, boot: Stack) {
    && SchedOk(s.sched) && StacksApart(s.sched, boot)
    && forall p: nat | InUse(s.sched, p) :: HasRoomFor(StackOf(s.sched, boot, p), CpuOf(s, p).esp)
  }

  // ---- what happens ----

  /** The running process computes; an interrupt arrives; process_create is called. */
  datatype Event = Work(cpu: Cpu, written: Memory) | Irq(vector: nat, scratch: Memory) | Spawn(page: nat, entry: nat)

  /** No address lies in the stack of another process in use. */
  ghost predicate KeepsOff(s: System, boot: Stack, written: Memory) {
    forall a, q: nat | a in written && InUse(s.sched, q) && q != s.sched.current ::
      !Inside(StackOf(s.sched, boot, q), a)
  }

  /** A process keeps its stack pointer in its stack and off the stacks of others; a handler leaves the frame and what
    * lies above it alone; a new page overlaps no stack in use. */
  ghost predicate Proper(s: System, boot: Stack, e: Event) {
    match e
    case Work(cpu, written) =>
      s.sched.current < |s.sched.procs| && HasRoomFor(StackOf(s.sched, boot, s.sched.current), cpu.esp)
      && KeepsOff(s, boot, written)
    case Irq(_, scratch) =>
      s.sched.current < |s.sched.procs| && s.cpu.esp >= 68 && KeepsOff(s, boot, scratch)
      && forall a | a in scratch :: !Inside(Stack(s.cpu.esp - 68, StackOf(s.sched, boot, s.sched.current).high), a)
    case Spawn(page, _) =>
      page == 0 || (page % 4 == 0 && forall q: nat | InUse(s.sched, q) ::
                      Apart(Stack(page, page + 4096), StackOf(s.sched, boot, q)))
  }

  function Next(s: System, e: Event): System
    requires |s.sched.procs| == PROC_MAX && s.sched.current < PROC_MAX && s.cpu.esp >= FRAME
  {
    match e
    case Work(cpu, written) => System(s.sched, s.mem + written, cpu)
    case Irq(vector, scratch) => Interrupted(s, vector, scratch)
    case Spawn(page, entry) => Spawned(s, page, entry)
  }

  // ---- one event ----

  /** The words of p's stack from its stack pointer up. */
  ghost predicate SameStack(s: System, s': System, boot: Stack, p: nat)
    requires p < |s.sched.procs|
  {
    forall a {:trigger Kept(s.mem, s'.mem, a)} | CpuOf(s, p).esp <= a < StackOf(s.sched, boot, p).high ::
      Kept(s.mem, s'.mem, a)
  }

  /** Process p notices nothing: registers, stack pointer and stack are what they were. */
  ghost predicate Unaware(s: System, s': System, boot: Stack, p: nat) {
    && InUse(s.sched, p) && InUse(s'.sched, p)
    && StackOf(s'.sched, boot, p) == StackOf(s.sched, boot, p)
    && CpuOf(s', p) == CpuOf(s, p) && SameStack(s, s', boot, p)
  }

  lemma InUseBound(s: System, boot: Stack)
    requires Sound(s, boot)
    ensures |s.sched.procs| == PROC_MAX && s.sched.current < PROC_MAX && InUse(s.sched, s.sched.current)
    ensures s.cpu.esp >= FRAME
  {
    assert HasRoomFor(StackOf(s.sched, boot, s.sched.current), CpuOf(s, s.sched.current).esp);
  }

  /** The interrupt's memory: the processor's state is in the frame, the stack above it is as it was, and so are the
    * stacks of the others. */
  ghost predicate FrameSaved(s: System, boot: Stack, mem: Memory) {
    && s.sched.current < |s.sched.procs| && s.cpu.esp >= 68 && Restored(mem, s.cpu.esp - 68) == s.cpu
    && (forall a {:trigger Kept(s.mem, mem, a)} | s.cpu.esp <= a < StackOf(s.sched, boot, s.sched.current).high ::
          Kept(s.mem, mem, a))
    && OthersKept(s, boot, mem)
  }

  ghost predicate OthersKept(s: System, boot: Stack, mem: Memory) {
    forall q: nat, a: nat | InUse(s.sched, q) && q != s.sched.current && Inside(StackOf(s.sched, boot, q), a) ::
      Kept(s.mem, mem, a)
  }

  lemma ScratchKeeps(mem: Memory, scratch: Memory, at: nat)
    requires at !in scratch
    ensures Kept(mem, mem + scratch, at)
  {
  }

  lemma IrqSaves(s: System, boot: Stack, vector: nat, scratch: Memory)
    requires Sound(s, boot) && Proper(s, boot, Irq(vector, scratch))
    ensures s.cpu.esp >= FRAME && FrameSaved(s, boot, IrqMemory(s.mem, s.cpu, vector, scratch))
  {
    InUseBound(s, boot);
    var esp, st := s.cpu.esp, StackOf(s.sched, boot, s.sched.current);
    var pushed := PushAll(s.mem, esp, SavedWords(s.cpu, vector));
    SaveRestores(s.mem, s.cpu, vector);
    forall a | esp - 68 <= a < st.high ensures Kept(pushed, pushed + scratch, a) {
      assert Inside(Stack(esp - 68, st.high), a);
      ScratchKeeps(pushed, scratch, a);
    }
    SameRestored(pushed, pushed + scratch, esp - 68);
    forall a | esp <= a < st.high ensures Kept(s.mem, pushed + scratch, a) {
      assert Kept(pushed, pushed + scratch, a);
      PushAllKeeps(s.mem, esp, SavedWords(s.cpu, vector), a);
    }
    OthersOutOfReach(s, boot, pushed, vector, scratch);
  }

  lemma OthersOutOfReach(s: System, boot: Stack, pushed: Memory, vector: nat, scratch: Memory)
    requires Sound(s, boot) && Proper(s, boot, Irq(vector, scratch))
    requires pushed == PushAll(s.mem, s.cpu.esp, SavedWords(s.cpu, vector))
    ensures OthersKept(s, boot, pushed + scratch)
  {
    InUseBound(s, boot);
    forall q: nat, a | InUse(s.sched, q) && q != s.sched.current && Inside(StackOf(s.sched, boot, q), a)
      ensures Kept(s.mem, pushed + scratch, a)
    {
      ScratchKeeps(pushed, scratch, a);
      assert Apart(StackOf(s.sched, boot, q), StackOf(s.sched, boot, s.sched.current));
      PushAllKeeps(s.mem, s.cpu.esp, SavedWords(s.cpu, vector), a);
    }
  }

  /** The scheduler's tables of two states describe the same processes on the same stacks. */
  ghost predicate SameProcesses(a: Sched, b: Sched) {
    |a.procs| == |b.procs| == PROC_MAX
    && forall p: nat | p < PROC_MAX :: (InUse(a, p) <==> InUse(b, p)) && b.procs[p].stackPage == a.procs[p].stackPage
  }

  /** A suspended process: its frame is on its stack and is not touched. */
  lemma SuspendedIsKept(s: System, boot: Stack, mem: Memory, q: nat)
    requires Sound(s, boot) && OthersKept(s, boot, mem) && InUse(s.sched, q) && q != s.sched.current
    ensures |s.sched.procs| == PROC_MAX && Restored(mem, s.sched.procs[q].esp) == CpuOf(s, q)
    ensures forall a {:trigger Kept(s.mem, mem, a)} | CpuOf(s, q).esp <= a < StackOf(s.sched, boot, q).high ::
              Kept(s.mem, mem, a)
  {
    var st, esp := StackOf(s.sched, boot, q), s.sched.procs[q].esp;
    assert HasRoomFor(st, CpuOf(s, q).esp);
    forall a | esp <= a < st.high ensures Kept(s.mem, mem, a) {
      assert Inside(st, a);
    }
    SameRestored(s.mem, mem, esp);
  }

  /** After a switch every process is where it was, the interrupted one in its frame. */
  lemma SwitchedUnaware(s: System, boot: Stack, s': System, p: nat)
    requires Sound(s, boot) && FrameSaved(s, boot, s'.mem) && InUse(s.sched, p)
    requires SchedOk(s'.sched) && Switched(s.sched, s.cpu.esp - 68, s'.sched, s'.sched.procs[s'.sched.current].esp)
    requires InUse(s.sched, s'.sched.current)
    requires s'.cpu == Restored(s'.mem, s'.sched.procs[s'.sched.current].esp)
    ensures Unaware(s, s', boot, p)
  {
    if p != s.sched.current {
      SuspendedIsKept(s, boot, s'.mem, p);
    }
  }

  /** The scheduler's part of an interrupt. */
  lemma TickProcesses(sched: Sched, at: nat, sched': Sched, to: nat)
    requires SchedOk(sched) && (sched', to) == Ticked(sched, at)
    ensures SchedOk(sched') && SameProcesses(sched, sched')
    ensures !OthersInUse(sched) ==> sched' == sched && to == 0
    ensures OthersInUse(sched) ==>
              && InUse(sched, sched'.current) && sched'.current != sched.current
              && Switched(sched, at, sched', to) && to == sched'.procs[sched'.current].esp
  {
    TickKeepsOk(sched, at);
    TickExact(sched, at);
    if OthersInUse(sched) {
      assert sched'.procs[sched'.current].state == Running;
      CountsOthers(sched);
      TickPicksNext(sched, at);
    }
  }

  lemma FrameIsSomewhere(s: System, boot: Stack, q: nat)
    requires Sound(s, boot) && InUse(s.sched, q) && q != s.sched.current
    ensures s.sched.procs[q].esp > 0
  {
    assert HasRoomFor(StackOf(s.sched, boot, q), CpuOf(s, q).esp);
  }

  /** What is popped: the state of the chosen process, or the one just pushed. */
  lemma IrqChooses(s: System, boot: Stack, at: nat, mem: Memory, s': System, to: nat)
    requires Sound(s, boot) && at == s.cpu.esp - 68 && FrameSaved(s, boot, mem) && s'.mem == mem
    requires (s'.sched, to) == Ticked(s.sched, at) && s'.cpu == Restored(mem, if to == 0 then at else to)
    ensures SchedOk(s'.sched) && SameProcesses(s.sched, s'.sched)
    ensures !OthersInUse(s.sched) ==> s'.sched == s.sched && s'.cpu == s.cpu
    ensures OthersInUse(s.sched) ==>
              && InUse(s.sched, s'.sched.current) && s'.sched.current != s.sched.current
              && Switched(s.sched, at, s'.sched, to) && to == s'.sched.procs[s'.sched.current].esp
              && s'.cpu == Restored(mem, to)
  {
    TickProcesses(s.sched, at, s'.sched, to);
    if OthersInUse(s.sched) {
      FrameIsSomewhere(s, boot, s'.sched.current);
    }
  }

  /** Whatever process p is aware of keeps it sound. */
  lemma UnawareIsSound(s: System, boot: Stack, s': System)
    requires Sound(s, boot) && SchedOk(s'.sched) && SameProcesses(s.sched, s'.sched)
    requires forall p: nat | InUse(s.sched, p) :: Unaware(s, s', boot, p)
    ensures Sound(s', boot)
  {
    forall p: nat | InUse(s'.sched, p) ensures HasRoomFor(StackOf(s'.sched, boot, p), CpuOf(s', p).esp) {
      assert Unaware(s, s', boot, p);
      assert HasRoomFor(StackOf(s.sched, boot, p), CpuOf(s, p).esp);
    }
    forall p: nat, q: nat | InUse(s'.sched, p) && InUse(s'.sched, q) && p != q
      ensures Apart(StackOf(s'.sched, boot, p), StackOf(s'.sched, boot, q))
    {
      assert Apart(StackOf(s.sched, boot, p), StackOf(s.sched, boot, q));
    }
  }

  lemma AllUnaware(s: System, boot: Stack, at: nat, mem: Memory, s': System, to: nat)
    requires Sound(s, boot) && at == s.cpu.esp - 68 && FrameSaved(s, boot, mem) && s'.mem == mem && SchedOk(s'.sched)
    requires !OthersInUse(s.sched) ==> s'.sched == s.sched && s'.cpu == s.cpu
    requires OthersInUse(s.sched) ==>
               && InUse(s.sched, s'.sched.current)
               && Switched(s.sched, at, s'.sched, to) && to == s'.sched.procs[s'.sched.current].esp
               && s'.cpu == Restored(mem, to)
    ensures forall p: nat | InUse(s.sched, p) :: Unaware(s, s', boot, p)
  {
    forall p: nat | InUse(s.sched, p) ensures Unaware(s, s', boot, p) {
      if OthersInUse(s.sched) {
        SwitchedUnaware(s, boot, s', p);
      } else if p != s.sched.current {
        SuspendedIsKept(s, boot, mem, p);
      }
    }
  }

  lemma IrqResumes(s: System, vector: nat, scratch: Memory, s': System) returns (at: nat, mem: Memory)
    requires |s.sched.procs| == PROC_MAX && s.sched.current < PROC_MAX && s.cpu.esp >= FRAME
    requires s' == Interrupted(s, vector, scratch)
    ensures at == s.cpu.esp - 68 && mem == IrqMemory(s.mem, s.cpu, vector, scratch) && s' == Resumed(s.sched, at, mem)
  {
    at, mem := s.cpu.esp - FRAME, IrqMemory(s.mem, s.cpu, vector, scratch);
  }

  lemma FrameIsInvisible(s: System, boot: Stack, at: nat, mem: Memory, s': System)
    requires Sound(s, boot) && at == s.cpu.esp - 68 && FrameSaved(s, boot, mem)
    requires |s.sched.procs| == PROC_MAX && s' == Resumed(s.sched, at, mem)
    ensures Sound(s', boot) && SameProcesses(s.sched, s'.sched)
    ensures forall p: nat | InUse(s.sched, p) :: Unaware(s, s', boot, p)
    ensures s'.sched.current != s.sched.current <==> OthersInUse(s.sched)
  {
    var to := Ticked(s.sched, at).1;
    IrqChooses(s, boot, at, mem, s', to);
    AllUnaware(s, boot, at, mem, s', to);
    UnawareIsSound(s, boot, s');
  }

  /** An interrupt is invisible: every process in use, the interrupted and the chosen one included, has the
    * registers, the stack pointer and the stack it had. The processor changes hands exactly when another process is
    * in use. */
  lemma IrqIsInvisible(s: System, boot: Stack, vector: nat, scratch: Memory, s': System)
    requires Sound(s, boot) && Proper(s, boot, Irq(vector, scratch))
    requires |s.sched.procs| == PROC_MAX && s.sched.current < PROC_MAX && s.cpu.esp >= FRAME
    requires s' == Interrupted(s, vector, scratch)
    ensures Sound(s', boot) && SameProcesses(s.sched, s'.sched)
    ensures forall p: nat | InUse(s.sched, p) :: Unaware(s, s', boot, p)
    ensures s'.sched.current != s.sched.current <==> OthersInUse(s.sched)
  {
    var at, mem := IrqResumes(s, vector, scratch, s');
    IrqSaves(s, boot, vector, scratch);
    FrameIsInvisible(s, boot, at, mem, s');
  }

  /** While a process computes the others notice nothing. */
  lemma WorkIsPrivate(s: System, boot: Stack, cpu: Cpu, written: Memory, s': System)
    requires Sound(s, boot) && Proper(s, boot, Work(cpu, written)) && s' == System(s.sched, s.mem + written, cpu)
    ensures Sound(s', boot)
    ensures forall p: nat | InUse(s.sched, p) && p != s.sched.current :: Unaware(s, s', boot, p)
  {
    assert OthersKept(s, boot, s'.mem);
    forall p: nat | InUse(s.sched, p) && p != s.sched.current ensures Unaware(s, s', boot, p) {
      SuspendedIsKept(s, boot, s'.mem, p);
    }
    forall p: nat | InUse(s'.sched, p) ensures HasRoomFor(StackOf(s'.sched, boot, p), CpuOf(s', p).esp) {
      if p != s.sched.current {
        assert Unaware(s, s', boot, p);
      }
    }
  }

  /** A page that overlaps no stack: writing into it changes none. */
  lemma PageKeeps(s: System, boot: Stack, page: nat, entry: nat, q: nat, a: nat)
    requires InUse(s.sched, q) && Apart(Stack(page, page + 4096), StackOf(s.sched, boot, q))
    requires Inside(StackOf(s.sched, boot, q), a)
    ensures Kept(s.mem, PushAll(s.mem, page + STACK_SIZE, BuiltWords(entry)), a)
  {
    PushAllKeeps(s.mem, page + STACK_SIZE, BuiltWords(entry), a);
  }

  /** A new process is in the state in which it is to start, and the others notice nothing. */
  lemma SpawnStarts(s: System, boot: Stack, page: nat, entry: nat, s': System, slot: int)
    requires Sound(s, boot) && Proper(s, boot, Spawn(page, entry)) && |s.sched.procs| == PROC_MAX
    requires s' == Spawned(s, page, entry) && slot == Created(s.sched, page).1
    ensures Sound(s', boot)
    ensures slot == -1 ==> s' == s
    ensures slot != -1 ==> LowestFree(s.sched.procs, slot) && InUse(s'.sched, slot)
                           && CpuOf(s', slot) == EntryState(entry, page)
    ensures forall p: nat | InUse(s.sched, p) :: Unaware(s, s', boot, p)
  {
    CreateExact(s.sched, page);
    CreateKeepsOk(s.sched, page);
    if slot != -1 {
      SpawnedUnaware(s, boot, page, entry, s', slot);
      BuiltRestores(s.mem, page, entry);
      SpawnedSound(s, boot, page, s', slot);
    }
  }

  lemma SpawnedUnaware(s: System, boot: Stack, page: nat, entry: nat, s': System, slot: nat)
    requires Sound(s, boot) && Proper(s, boot, Spawn(page, entry)) && |s.sched.procs| == PROC_MAX
    requires s' == Spawned(s, page, entry) && slot == Created(s.sched, page).1
    ensures forall p: nat | InUse(s.sched, p) :: Unaware(s, s', boot, p)
  {
    CreateExact(s.sched, page);
    forall p: nat | InUse(s.sched, p) ensures Unaware(s, s', boot, p) {
      forall a | Inside(StackOf(s.sched, boot, p), a) ensures Kept(s.mem, s'.mem, a) {
        PageKeeps(s, boot, page, entry, p, a);
      }
      UntouchedIsUnaware(s, boot, s', p);
    }
  }

  lemma UntouchedIsUnaware(s: System, boot: Stack, s': System, p: nat)
    requires Sound(s, boot) && InUse(s.sched, p) && p < |s'.sched.procs| && s'.sched.procs[p] == s.sched.procs[p]
    requires s'.sched.current == s.sched.current && s'.cpu == s.cpu
    requires forall a | Inside(StackOf(s.sched, boot, p), a) :: Kept(s.mem, s'.mem, a)
    ensures Unaware(s, s', boot, p)
  {
    var st := StackOf(s.sched, boot, p);
    assert HasRoomFor(st, CpuOf(s, p).esp);
    if p != s.sched.current {
      var esp := s.sched.procs[p].esp;
      forall a | esp <= a < esp + 68 ensures Kept(s.mem, s'.mem, a) {
        assert Inside(st, a);
      }
      SameRestored(s.mem, s'.mem, esp);
    }
    forall a | CpuOf(s, p).esp <= a < st.high ensures Kept(s.mem, s'.mem, a) {
      assert Inside(st, a);
    }
  }

  lemma SpawnedSound(s: System, boot: Stack, page: nat, s': System, slot: nat)
    requires Sound(s, boot) && |s.sched.procs| == PROC_MAX && page > 0 && page % 4 == 0
    requires forall q: nat | InUse(s.sched, q) :: Apart(Stack(page, page + 4096), StackOf(s.sched, boot, q))
    requires SchedOk(s'.sched) && LowestFree(s.sched.procs, slot) && s'.sched.current == s.sched.current
    requires s'.sched.procs == s.sched.procs[slot := s'.sched.procs[slot]] && s'.sched.procs[slot].stackPage == page
    requires CpuOf(s', slot).esp == page + 4096
    requires forall p: nat | InUse(s.sched, p) :: Unaware(s, s', boot, p)
    ensures Sound(s', boot)
  {
    forall p: nat | InUse(s'.sched, p) ensures HasRoomFor(StackOf(s'.sched, boot, p), CpuOf(s', p).esp) {
      if p != slot {
        assert Unaware(s, s', boot, p);
        assert HasRoomFor(StackOf(s.sched, boot, p), CpuOf(s, p).esp);
      }
    }
    forall p: nat, q: nat | InUse(s'.sched, p) && InUse(s'.sched, q) && p != q
      ensures Apart(StackOf(s'.sched, boot, p), StackOf(s'.sched, boot, q))
    {
      if p == slot {
        assert Apart(Stack(page, page + 4096), StackOf(s.sched, boot, q));
      } else if q == slot {
        assert Apart(Stack(page, page + 4096), StackOf(s.sched, boot, p));
      } else {
        assert Apart(StackOf(s.sched, boot, p), StackOf(s.sched, boot, q));
      }
    }
  }

  // ---- the reference: a processor for each process ----

  /** The processors of the processes in use, and whose turn it is. */
  datatype Many = Many(cpus: map<nat, Cpu>, current: nat)

  ghost function Abs(s: System): Many {
    Many(map p: nat | p < |s.sched.procs| && InUse(s.sched, p) :: CpuOf(s, p), s.sched.current)
  }

  ghost predicate LowestUnused(m: Many, slot: nat) {
    1 <= slot < 16 && slot !in m.cpus && forall j: nat | 1 <= j < slot :: j in m.cpus
  }

  /** Computing changes the processor whose turn it is; an interrupt changes none, and passes the turn on when there is
    * another; process_create adds one, in its entry state, if there are a page and one of fifteen slots. */
  ghost predicate ManyStep(m: Many, e: Event, m': Many) {
    match e
    case Work(cpu, _) => m' == m.(cpus := m.cpus[m.current := cpu])
    case Irq(_, _) =>
      && m'.cpus == m.cpus && m'.current in m.cpus
      && (m'.current != m.current <==> exists p :: p in m.cpus && p != m.current)
    case Spawn(page, entry) =>
      if page == 0 || (forall j: nat | 1 <= j < 16 :: j in m.cpus) then m' == m
      else exists slot :: LowestUnused(m, slot) && m' == m.(cpus := m.cpus[slot := EntryState(entry, page)])
  }

  lemma SameCpus(s: System, boot: Stack, s': System)
    requires SameProcesses(s.sched, s'.sched) && forall p: nat | InUse(s.sched, p) :: Unaware(s, s', boot, p)
    ensures Abs(s').cpus == Abs(s).cpus
  {
    forall p | p in Abs(s).cpus ensures Abs(s').cpus[p] == Abs(s).cpus[p] {
      assert Unaware(s, s', boot, p);
    }
  }

  lemma OthersInAbs(s: System)
    requires |s.sched.procs| == PROC_MAX
    ensures OthersInUse(s.sched) <==> exists p :: p in Abs(s).cpus && p != s.sched.current
  {
    if i :| 0 <= i < |s.sched.procs| && i != s.sched.current && s.sched.procs[i].state != Unused {
      assert InUse(s.sched, i) && i in Abs(s).cpus;
    }
  }

  lemma IrqSimulates(s: System, boot: Stack, vector: nat, scratch: Memory, s': System)
    requires Sound(s', boot) && |s.sched.procs| == PROC_MAX
    requires SameProcesses(s.sched, s'.sched) && forall p: nat | InUse(s.sched, p) :: Unaware(s, s', boot, p)
    requires s'.sched.current != s.sched.current <==> OthersInUse(s.sched)
    ensures ManyStep(Abs(s), Irq(vector, scratch), Abs(s'))
  {
    InUseBound(s', boot);
    SameCpus(s, boot, s');
    OthersInAbs(s);
  }

  lemma WorkSimulates(s: System, boot: Stack, cpu: Cpu, written: Memory, s': System)
    requires Sound(s, boot) && s' == System(s.sched, s.mem + written, cpu)
    requires forall p: nat | InUse(s.sched, p) && p != s.sched.current :: Unaware(s, s', boot, p)
    ensures ManyStep(Abs(s), Work(cpu, written), Abs(s'))
  {
    InUseBound(s, boot);
    var m, m' := Abs(s), Abs(s');
    forall p | p in m'.cpus && p != s.sched.current ensures m'.cpus[p] == m.cpus[p] {
      assert Unaware(s, s', boot, p);
    }
    assert m'.cpus == m.cpus[m.current := cpu];
  }

  lemma SpawnSimulates(s: System, boot: Stack, page: nat, entry: nat, s': System, slot: int)
    requires Sound(s, boot) && |s.sched.procs| == PROC_MAX && (s'.sched, slot) == Created(s.sched, page)
    requires slot == -1 ==> s' == s
    requires slot != -1 ==> LowestFree(s.sched.procs, slot) && CpuOf(s', slot) == EntryState(entry, page)
    requires forall p: nat | InUse(s.sched, p) :: Unaware(s, s', boot, p)
    ensures ManyStep(Abs(s), Spawn(page, entry), Abs(s'))
  {
    var m := Abs(s);
    CreateExact(s.sched, page);
    assert forall p: nat :: p in m.cpus <==> InUse(s.sched, p);
    if slot != -1 {
      OneMoreCpu(s, boot, s', slot, EntryState(entry, page));
      assert LowestUnused(m, slot);
    }
  }

  lemma OneMoreCpu(s: System, boot: Stack, s': System, slot: nat, cpu: Cpu)
    requires |s.sched.procs| == |s'.sched.procs| && slot < |s'.sched.procs| && InUse(s'.sched, slot)
    requires s'.sched.procs == s.sched.procs[slot := s'.sched.procs[slot]] && CpuOf(s', slot) == cpu
    requires forall p: nat | InUse(s.sched, p) :: Unaware(s, s', boot, p)
    requires !InUse(s.sched, slot)
    ensures Abs(s').cpus == Abs(s).cpus[slot := cpu]
  {
    forall p: nat ensures p in Abs(s').cpus <==> p in Abs(s).cpus || p == slot {
      assert p in Abs(s').cpus <==> InUse(s'.sched, p);
    }
    forall p | p in Abs(s).cpus ensures Abs(s').cpus[p] == Abs(s).cpus[p] {
      assert Unaware(s, s', boot, p);
    }
  }

  /** One event is a step of the reference. */
  lemma StepSimulates(s: System, boot: Stack, e: Event, s': System)
    requires Sound(s, boot) && Proper(s, boot, e)
    requires |s.sched.procs| == PROC_MAX && s.sched.current < PROC_MAX && s.cpu.esp >= FRAME && s' == Next(s, e)
    ensures Sound(s', boot) && ManyStep(Abs(s), e, Abs(s'))
    ensures forall p: nat | InUse(s.sched, p) && (e.Work? ==> p != s.sched.current) :: Unaware(s, s', boot, p)
  {
    match e
    case Work(cpu, written) =>
      WorkIsPrivate(s, boot, cpu, written, s');
      WorkSimulates(s, boot, cpu, written, s');
    case Irq(vector, scratch) =>
      IrqIsInvisible(s, boot, vector, scratch, s');
      IrqSimulates(s, boot, vector, scratch, s');
    case Spawn(page, entry) =>
      SpawnStarts(s, boot, page, entry, s', Created(s.sched, page).1);
      SpawnSimulates(s, boot, page, entry, s', Created(s.sched, page).1);
  }

  // ---- where the pages come from ----

  /** The byte lies in a page the page allocator has marked used. */
  predicate InUsedPage(used: seq<bool>, a: nat) {
    a / 4096 < |used| && used[a / 4096]
  }

  /** So does every byte of a stack in use. */
  ghost predicate StacksOwned(s: System, boot: Stack, used: seq<bool>) {
    forall p: nat, a: nat | InUse(s.sched, p) && Inside(StackOf(s.sched, boot, p), a) ::
      InUsedPage(used, a)
  }

  lemma SamePage(used: seq<bool>, page: nat, a: nat)
    requires page % 4096 == 0 && page <= a < page + 4096
    ensures InUsedPage(used, a) == InUsedPage(used, page)
  {
    assert a / 4096 == page / 4096;
  }

  lemma FreePageIsApart(st: Stack, used: seq<bool>, page: nat)
    requires forall a: nat | Inside(st, a) :: InUsedPage(used, a)
    requires page % 4096 == 0 && !InUsedPage(used, page) && st.low < st.high
    ensures Apart(Stack(page, page + 4096), st)
  {
    var a := if st.low < page then page else st.low;
    assert Inside(st, a) || st.high <= page;
    if a < page + 4096 {
      SamePage(used, page, a);
    }
  }

  /** A page the allocator has free overlaps no stack; and once it is marked used, all stacks, the new one included, lie
    * in used pages. */
  lemma FreePageIsProper(s: System, boot: Stack, used: seq<bool>, page: nat, entry: nat, s': System)
    requires Sound(s, boot) && StacksOwned(s, boot, used)
    requires page % 4096 == 0 && page / 4096 < |used| && !used[page / 4096]
    requires |s.sched.procs| == PROC_MAX && s' == Spawned(s, page, entry)
    ensures Proper(s, boot, Spawn(page, entry)) && StacksOwned(s', boot, used[page / 4096 := true])
  {
    FreePageIsClear(s, boot, used, page, entry);
    SpawnedSched(s, page, entry, s');
    CreatedOwned(s, boot, used, page, s');
  }

  lemma FreePageIsClear(s: System, boot: Stack, used: seq<bool>, page: nat, entry: nat)
    requires Sound(s, boot) && StacksOwned(s, boot, used) && page % 4096 == 0 && !InUsedPage(used, page)
    ensures Proper(s, boot, Spawn(page, entry))
  {
    forall q: nat | InUse(s.sched, q) ensures Apart(Stack(page, page + 4096), StackOf(s.sched, boot, q)) {
      StackIsOwned(s, boot, used, q);
      FreePageIsApart(StackOf(s.sched, boot, q), used, page);
    }
    PageIsWord(page);
  }

  lemma PageIsWord(page: nat)
    requires page % 4096 == 0
    ensures page % 4 == 0
  {
  }

  lemma StackIsOwned(s: System, boot: Stack, used: seq<bool>, q: nat)
    requires Sound(s, boot) && StacksOwned(s, boot, used) && InUse(s.sched, q)
    ensures forall a: nat | Inside(StackOf(s.sched, boot, q), a) :: InUsedPage(used, a)
    ensures StackOf(s.sched, boot, q).low < StackOf(s.sched, boot, q).high
  {
    assert HasRoomFor(StackOf(s.sched, boot, q), CpuOf(s, q).esp);
  }

  lemma SpawnedSched(s: System, page: nat, entry: nat, s': System)
    requires |s.sched.procs| == PROC_MAX && s' == Spawned(s, page, entry)
    ensures s'.sched == Created(s.sched, page).0
  {
  }

  lemma CreatedOwned(s: System, boot: Stack, used: seq<bool>, page: nat, s': System)
    requires SchedOk(s.sched) && StacksOwned(s, boot, used) && page % 4096 == 0 && page / 4096 < |used|
    requires s'.sched == Created(s.sched, page).0
    ensures StacksOwned(s', boot, used[page / 4096 := true])
  {
    CreateExact(s.sched, page);
    NewPageOwned(s, boot, used, used[page / 4096 := true], page, s', Created(s.sched, page).1);
  }

  lemma StillUsed(used: seq<bool>, i: nat, a: nat)
    requires i < |used|
    ensures InUsedPage(used, a) ==> InUsedPage(used[i := true], a)
  {
  }

  lemma NewPageOwned(s: System, boot: Stack, used: seq<bool>, used': seq<bool>, page: nat, s': System, slot: int)
    requires StacksOwned(s, boot, used) && |s.sched.procs| == |s'.sched.procs| == PROC_MAX
    requires page % 4096 == 0 && page / 4096 < |used| && used' == used[page / 4096 := true]
    requires slot == -1 ==> s'.sched == s.sched
    requires slot != -1 ==> 1 <= slot < PROC_MAX && s'.sched.procs == s.sched.procs[slot := s'.sched.procs[slot]]
                            && s'.sched.procs[slot].stackPage == page
    ensures StacksOwned(s', boot, used')
  {
    forall p: nat, a: nat | InUse(s'.sched, p) && Inside(StackOf(s'.sched, boot, p), a) ensures InUsedPage(used', a) {
      if p == slot {
        SamePage(used', page, a);
      } else {
        assert InUse(s.sched, p) && Inside(StackOf(s.sched, boot, p), a);
        StillUsed(used, page / 4096, a);
      }
    }
  }

  // ---- runs ----

  /** s' is reached from s by these events, each of them proper when it happens. */
  ghost predicate Run(s: System, boot: Stack, events: seq<Event>, s': System)
    decreases events
  {
    if events == [] then s' == s
    else
      && Proper(s, boot, events[0])
      && |s.sched.procs| == PROC_MAX && s.sched.current < PROC_MAX && s.cpu.esp >= FRAME
      && Run(Next(s, events[0]), boot, events[1..], s')
  }

  ghost predicate ManyRun(m: Many, events: seq<Event>, m': Many)
    decreases events
  {
    if events == [] then m' == m
    else exists mid {:trigger ManyStep(m, events[0], mid)} ::
           ManyStep(m, events[0], mid) && ManyRun(mid, events[1..], m')
  }

  /** Every run of one processor under interrupts is a run of one processor for each process. */
  lemma {:induction false} OneIsMany(s: System, boot: Stack, events: seq<Event>, s': System)
    requires Sound(s, boot) && Run(s, boot, events, s')
    ensures Sound(s', boot) && ManyRun(Abs(s), events, Abs(s'))
    decreases events
  {
    if events != [] {
      var mid := Next(s, events[0]);
      StepSimulates(s, boot, events[0], mid);
      OneIsMany(mid, boot, events[1..], s');
      assert ManyStep(Abs(s), events[0], Abs(mid));
    }
  }

  /** Along the run process p does not get to compute. */
  ghost predicate Waits(s: System, events: seq<Event>, p: nat)
    decreases events
  {
    events == []
    || ((events[0].Work? ==> s.sched.current != p)
        && (|s.sched.procs| == PROC_MAX && s.sched.current < PROC_MAX && s.cpu.esp >= FRAME ==>
              Waits(Next(s, events[0]), events[1..], p)))
  }

  lemma UnawareTrans(s: System, mid: System, s': System, boot: Stack, p: nat)
    requires Unaware(s, mid, boot, p) && Unaware(mid, s', boot, p)
    ensures Unaware(s, s', boot, p)
  {
    var esp, high := CpuOf(s, p).esp, StackOf(s.sched, boot, p).high;
    forall a | esp <= a < high ensures Kept(s.mem, s'.mem, a) {
      assert Kept(s.mem, mid.mem, a) && Kept(mid.mem, s'.mem, a);
    }
  }

  /** Whatever happens until process p computes again, however many interrupts, switches and creations, it finds its
    * registers, its stack pointer and its stack as it left them. */
  lemma {:induction false} ResumesExactly(s: System, boot: Stack, events: seq<Event>, s': System, p: nat)
    requires Sound(s, boot) && Run(s, boot, events, s') && InUse(s.sched, p) && Waits(s, events, p)
    ensures Sound(s', boot) && Unaware(s, s', boot, p)
    decreases events
  {
    if events != [] {
      var mid := Next(s, events[0]);
      StepSimulates(s, boot, events[0], mid);
      ResumesExactly(mid, boot, events[1..], s', p);
      UnawareTrans(s, mid, s', boot, p);
    }
  }

  /** scheduler_init on a stack with room for a frame. */
  lemma StartIsSound(boot: Stack, mem: Memory, cpu: Cpu)
    requires HasRoomFor(boot, cpu.esp)
    ensures Sound(System(Initial(), mem, cpu), boot)
    ensures Abs(System(Initial(), mem, cpu)) == Many(map[0 := cpu], 0)
  {
    InitialOk();
  }
}
