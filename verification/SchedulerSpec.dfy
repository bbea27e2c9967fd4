/** The round-robin scheduler as a state machine over process creations and timer ticks
  * (kernel/scheduler.c). Stack pointers are numbers here; what lies on the stacks is in module SwitchSpec. */
module SchedulerSpec {

  const PROC_MAX := 16
  const STACK_SIZE := 4096

  /** The seventeen words process_create pushes. */
  const FRAME := 17 * 4

  datatype State = Unused | Ready | Running

  datatype Pcb = Pcb(pid: nat, state: State, esp: nat, stackPage: nat)

  datatype Sched = Sched(procs: seq<Pcb>, current: nat, count: nat)

  /** A creation is handed the page pmm_alloc returned, 0 for none; a tick the interrupted stack pointer. */
  datatype Event = Create(page: nat) | Tick(esp: nat)

  const IDLE := Pcb(0, Unused, 0, 0)

  function Initial(): Sched {
    Sched(seq(PROC_MAX, i => if i == 0 then Pcb(0, Running, 0, 0) else IDLE), 0, 1)
  }

  /** The first free slot from i on, PROC_MAX if there is none. */
  function FreeSlot(procs: seq<Pcb>, i: nat): (k: nat)
    requires i <= |procs|
    ensures i <= k <= |procs| && (k < |procs| ==> procs[k].state == Unused)
    ensures forall j | i <= j < k :: procs[j].state != Unused
    decreases |procs| - i
  {
    if i == |procs| || procs[i].state == Unused then i else FreeSlot(procs, i + 1)
  }

  function BuiltEsp(page: nat): nat {
    page + STACK_SIZE - FRAME
  }

  /** process_create with this page; slot -1 when there is no slot or no page. */
  function Created(s: Sched, page: nat): (Sched, int)
    requires |s.procs| == PROC_MAX
  {
    var slot: int := FreeSlot(s.procs, 1);
    if slot == PROC_MAX || page == 0 then (s, -1)
    else (Sched(s.procs[slot := Pcb(slot, Ready, BuiltEsp(page), page)], s.current, s.count + 1), slot)
  }

  /** The search for the next ready process, starting at `next` with `left` slots to look at. */
  function Search(procs: seq<Pcb>, next: nat, left: nat): (k: nat)
    requires |procs| == PROC_MAX && next < PROC_MAX
    ensures k < PROC_MAX
    decreases left
  {
    if left == 0 || procs[next].state == Ready then next else Search(procs, (next + 1) % PROC_MAX, left - 1)
  }

  /** The processes as the search sees them: the interrupted one is ready too. */
  function Saved(s: Sched, esp: nat): seq<Pcb>
    requires s.current < |s.procs|
  {
    s.procs[s.current := s.procs[s.current].(esp := esp, state := Ready)]
  }

  /** scheduler_tick: the new state, and the stack pointer to switch to, 0 for no change. */
  function Ticked(s: Sched, esp: nat): (Sched, nat)
    requires |s.procs| == PROC_MAX && s.current < PROC_MAX
  {
    if s.count <= 1 then (s, 0)
    else
      var saved := Saved(s, esp);
      var next := Search(saved, (s.current + 1) % PROC_MAX, PROC_MAX);
      var procs := saved[next := saved[next].(state := Running)];
      if next == s.current then (Sched(procs, s.current, s.count), 0)
      else (Sched(procs, next, s.count), procs[next].esp)
  }

  // ---- the invariant ----

  function Live(procs: seq<Pcb>): nat {
    if procs == [] then 0
    else Live(procs[..|procs| - 1]) + (if procs[|procs| - 1].state == Unused then 0 else 1)
  }

  /** Exactly one slot is running, the current one; the counter counts the slots in use. */
  ghost predicate SchedOk(s: Sched) {
    && |s.procs| == PROC_MAX && s.current < PROC_MAX
    && (forall i | 0 <= i < PROC_MAX :: s.procs[i].state == Running <==> i == s.current)
    && s.count == Live(s.procs) && s.procs[0].state != Unused
    && forall i | 0 <= i < PROC_MAX && s.procs[i].state != Unused :: s.procs[i].pid == i
  }

  lemma {:induction false} LiveUpdate(procs: seq<Pcb>, k: nat, p: Pcb)
    requires k < |procs|
    ensures Live(procs[k := p]) == Live(procs) - (if procs[k].state == Unused then 0 else 1)
                                               + (if p.state == Unused then 0 else 1)
    decreases |procs|
  {
    var n := |procs| - 1;
    if k < n {
      assert procs[k := p][..n] == procs[..n][k := p];
      LiveUpdate(procs[..n], k, p);
    } else {
      assert procs[k := p][..n] == procs[..n];
    }
  }

  lemma {:induction false} LiveAtMost(procs: seq<Pcb>, k: nat)
    requires k < |procs| && forall i | 0 <= i < |procs| && i != k :: procs[i].state == Unused
    ensures Live(procs) <= 1
    decreases |procs|
  {
    var n := |procs| - 1;
    if k < n {
      LiveAtMost(procs[..n], k);
    } else {
      LiveNone(procs[..n]);
    }
  }

  lemma {:induction false} LiveNone(procs: seq<Pcb>)
    requires forall i | 0 <= i < |procs| :: procs[i].state == Unused
    ensures Live(procs) == 0
  {
    if procs != [] {
      LiveNone(procs[..|procs| - 1]);
    }
  }

  lemma InitialOk()
    ensures SchedOk(Initial())
  {
    var procs := Initial().procs;
    var none := seq(PROC_MAX, i => IDLE);
    LiveNone(none);
    LiveUpdate(none, 0, Pcb(0, Running, 0, 0));
    assert none[0 := Pcb(0, Running, 0, 0)] == procs;
  }

  lemma CreateKeepsOk(s: Sched, page: nat)
    requires SchedOk(s)
    ensures SchedOk(Created(s, page).0)
    ensures Created(s, page).1 != -1 ==> s.procs[Created(s, page).1].state == Unused
  {
    var slot := FreeSlot(s.procs, 1);
    if slot < PROC_MAX && page != 0 {
      LiveUpdate(s.procs, slot, Pcb(slot, Ready, BuiltEsp(page), page));
    }
  }

  /** Slot k is the lowest free one from 1 on. */
  ghost predicate LowestFree(procs: seq<Pcb>, k: int) {
    && 1 <= k < |procs| && procs[k].state == Unused
    && forall j | 1 <= j < k :: procs[j].state != Unused
  }

  /** A creation fails without effect exactly when there is no page or slots 1 to 15 are in use. Otherwise the
    * lowest free slot becomes ready on that page, its stack pointer seventeen words below the page's end. */
  lemma CreateExact(s: Sched, page: nat)
    requires SchedOk(s)
    ensures var (s', slot) := Created(s, page);
            && (slot == -1 <==> page == 0 || forall j | 1 <= j < PROC_MAX :: s.procs[j].state != Unused)
            && (slot == -1 ==> s' == s)
            && (slot != -1 ==>
                 && LowestFree(s.procs, slot) && s'.current == s.current && s'.count == s.count + 1
                 && |s'.procs| == PROC_MAX && s'.procs == s.procs[slot := s'.procs[slot]]
                 && s'.procs[slot].pid == slot && s'.procs[slot].state == Ready && s'.procs[slot].stackPage == page
                 && page <= s'.procs[slot].esp && s'.procs[slot].esp + 17 * 4 == page + 4096)
  {
    FreeIsLowest(s.procs);
  }

  lemma FreeIsLowest(procs: seq<Pcb>)
    requires |procs| == PROC_MAX
    ensures FreeSlot(procs, 1) == PROC_MAX <==> forall j | 1 <= j < PROC_MAX :: procs[j].state != Unused
    ensures forall k {:trigger LowestFree(procs, k)} :: LowestFree(procs, k) <==> k == FreeSlot(procs, 1) < PROC_MAX
  {
  }

  /** Some process besides the current one is in use. */
  ghost predicate OthersInUse(s: Sched) {
    exists i :: 0 <= i < |s.procs| && i != s.current && s.procs[i].state != Unused
  }

  lemma CountsOthers(s: Sched)
    requires SchedOk(s)
    ensures s.count > 1 <==> OthersInUse(s)
  {
    if s.count > 1 {
      var p := SomeoneIsReady(s);
      assert s.procs[p].state != Unused;
    }
    if i :| 0 <= i < |s.procs| && i != s.current && s.procs[i].state != Unused {
      OneIsAlone(s, i);
    }
  }

  // ---- which process comes next ----

  /** How many slots after `from`, going round, slot `to` comes: 1 to 16. */
  function Distance(from: nat, to: nat): int {
    if to > from then to - from else to - from + PROC_MAX
  }

  /** Slot `steps` places after `from`. */
  function Ahead(from: nat, steps: nat): (k: nat)
    ensures k < PROC_MAX
  {
    (from + steps) % PROC_MAX
  }

  lemma {:induction false} SearchFinds(procs: seq<Pcb>, from: nat, steps: nat, to: nat)
    requires |procs| == PROC_MAX && from < PROC_MAX && to < PROC_MAX && procs[to].state == Ready
    requires 1 <= steps <= Distance(from, to)
    ensures var k := Search(procs, Ahead(from, steps), PROC_MAX + 1 - steps);
            procs[k].state == Ready && steps <= Distance(from, k) <= Distance(from, to)
    decreases Distance(from, to) - steps
  {
    var here := Ahead(from, steps);
    assert Distance(from, here) == steps;
    if procs[here].state != Ready {
      assert Ahead(from, steps + 1) == (here + 1) % PROC_MAX;
      SearchFinds(procs, from, steps + 1, to);
    }
  }

  /** With two processes or more there is a ready one. */
  lemma SomeoneIsReady(s: Sched) returns (p: nat)
    requires SchedOk(s) && s.count > 1
    ensures p < PROC_MAX && p != s.current && s.procs[p].state == Ready
  {
    if i: nat :| i < PROC_MAX && i != s.current && s.procs[i].state != Unused {
      p := i;
    } else {
      LiveAtMost(s.procs, s.current);
    }
  }

  lemma SearchIsNearest(s: Sched, saved: seq<Pcb>, next: nat)
    requires |saved| == PROC_MAX && s.current < PROC_MAX && next == Search(saved, Ahead(s.current, 1), PROC_MAX)
    requires exists p: nat :: p < PROC_MAX && p != s.current && saved[p].state == Ready
    ensures next < PROC_MAX && next != s.current && saved[next].state == Ready
    ensures forall p: nat | p < PROC_MAX && saved[p].state == Ready ::
              Distance(s.current, next) <= Distance(s.current, p)
  {
    forall p: nat | p < PROC_MAX && saved[p].state == Ready
      ensures saved[next].state == Ready && Distance(s.current, next) <= Distance(s.current, p)
    {
      SearchFinds(saved, s.current, 1, p);
    }
  }

  /** A tick with two processes or more switches to a ready process, and to one that comes, going round,
    * no later than any ready process. */
  lemma TickPicksNext(s: Sched, esp: nat)
    requires SchedOk(s) && s.count > 1
    ensures var next := Ticked(s, esp).0.current;
            && next < PROC_MAX && next != s.current && s.procs[next].state == Ready
            && Ticked(s, esp).1 == s.procs[next].esp
            && forall p: nat | p < PROC_MAX && s.procs[p].state == Ready ::
                 Distance(s.current, next) <= Distance(s.current, p)
  {
    var p := SomeoneIsReady(s);
    assert Saved(s, esp)[p].state == Ready;
    SearchIsNearest(s, Saved(s, esp), Search(Saved(s, esp), Ahead(s.current, 1), PROC_MAX));
    forall q: nat | q < PROC_MAX && s.procs[q].state == Ready ensures Saved(s, esp)[q].state == Ready {
    }
  }

  /** The interrupted process is ready with the stack pointer handed in, another one runs, and its stack pointer
    * is returned. */
  ghost predicate Switched(s: Sched, esp: nat, s': Sched, to: nat) {
    && |s.procs| == PROC_MAX && s.current < PROC_MAX
    && s'.current < PROC_MAX && s'.current != s.current && s'.count == s.count
    && to == s.procs[s'.current].esp
    && s'.procs == s.procs[s.current := s.procs[s.current].(esp := esp, state := Ready)]
                          [s'.current := s.procs[s'.current].(state := Running)]
  }

  /** A tick switches exactly when another process is in use; otherwise nothing changes and 0 is returned. */
  lemma TickExact(s: Sched, esp: nat)
    requires SchedOk(s)
    ensures !OthersInUse(s) ==> Ticked(s, esp) == (s, 0)
    ensures OthersInUse(s) ==> Switched(s, esp, Ticked(s, esp).0, Ticked(s, esp).1)
  {
    CountsOthers(s);
    if s.count > 1 {
      TickPicksNext(s, esp);
    }
  }

  lemma TickSwitches(s: Sched, esp: nat)
    requires SchedOk(s) && s.count > 1
    ensures Switched(s, esp, Ticked(s, esp).0, Ticked(s, esp).1)
  {
    CountsOthers(s);
    TickExact(s, esp);
  }

  lemma TickKeepsOk(s: Sched, esp: nat)
    requires SchedOk(s)
    ensures SchedOk(Ticked(s, esp).0)
  {
    if s.count > 1 {
      TickPicksNext(s, esp);
      var saved := Saved(s, esp);
      var next := Ticked(s, esp).0.current;
      LiveUpdate(s.procs, s.current, saved[s.current]);
      LiveUpdate(saved, next, saved[next].(state := Running));
    }
  }

  // ---- runs ----

  function Step(s: Sched, e: Event): Sched
    requires |s.procs| == PROC_MAX && s.current < PROC_MAX
  {
    match e
    case Create(page) => Created(s, page).0
    case Tick(esp) => Ticked(s, esp).0
  }

  lemma StepKeepsOk(s: Sched, e: Event)
    requires SchedOk(s)
    ensures SchedOk(Step(s, e))
  {
    match e
    case Create(page) => CreateKeepsOk(s, page);
    case Tick(esp) => TickKeepsOk(s, esp);
  }

  /** The state after these events; stops at a state that is none. */
  function Run(s: Sched, events: seq<Event>): Sched {
    if events == [] then s
    else
      var before := Run(s, events[..|events| - 1]);
      if |before.procs| == PROC_MAX && before.current < PROC_MAX then Step(before, events[|events| - 1]) else before
  }

  /** Every interleaving of creations and ticks keeps the invariant. */
  lemma {:induction false} RunKeepsOk(s: Sched, events: seq<Event>)
    requires SchedOk(s)
    ensures SchedOk(Run(s, events))
  {
    if events != [] {
      RunKeepsOk(s, events[..|events| - 1]);
      StepKeepsOk(Run(s, events[..|events| - 1]), events[|events| - 1]);
    }
  }

  function Ticks(events: seq<Event>): nat {
    if events == [] then 0 else Ticks(events[..|events| - 1]) + (if events[|events| - 1].Tick? then 1 else 0)
  }

  /** A waiting process comes closer with every tick until it runs. */
  lemma Closer(s: Sched, esp: nat, p: nat)
    requires SchedOk(s) && p < PROC_MAX && s.procs[p].state == Ready
    ensures var s' := Ticked(s, esp).0;
            || s'.current == p
            || (SchedOk(s') && s'.procs[p].state == Ready && Distance(s'.current, p) < Distance(s.current, p))
  {
    TickKeepsOk(s, esp);
    if s.count <= 1 {
      OneIsAlone(s, p);
    } else {
      TickPicksNext(s, esp);
    }
  }

  lemma OneIsAlone(s: Sched, p: nat)
    requires SchedOk(s) && p < PROC_MAX && s.procs[p].state == Ready
    ensures s.count > 1
  {
    var rest := s.procs[p := IDLE];
    LiveUpdate(s.procs, p, IDLE);
    LiveUpdate(rest, s.current, IDLE);
  }

  /** Created processes take free slots: a waiting one goes on waiting. */
  lemma CreateLeavesOthers(s: Sched, page: nat, p: nat)
    requires SchedOk(s) && p < PROC_MAX && s.procs[p].state != Unused
    ensures Created(s, page).0.procs[p] == s.procs[p] && Created(s, page).0.current == s.current
  {
  }

  /** The process has run at some point of the events, after at most `limit` ticks. */
  ghost predicate RunsWithin(s: Sched, events: seq<Event>, p: nat, limit: int) {
    exists k: nat :: k <= |events| && Run(s, events[..k]).current == p && Ticks(events[..k]) <= limit
  }

  /** Still waiting after `events`, and that many ticks closer. */
  ghost predicate Waiting(s: Sched, events: seq<Event>, p: nat) {
    var s' := Run(s, events);
    && p < PROC_MAX && SchedOk(s') && s'.procs[p].state == Ready
    && Distance(s'.current, p) + Ticks(events) <= Distance(s.current, p)
  }

  lemma {:induction false} RunsOrWaits(s: Sched, events: seq<Event>, p: nat)
    requires SchedOk(s) && p < PROC_MAX && s.procs[p].state == Ready
    ensures RunsWithin(s, events, p, Distance(s.current, p)) || Waiting(s, events, p)
  {
    if events != [] {
      var front, e := events[..|events| - 1], events[|events| - 1];
      RunsOrWaits(s, front, p);
      if RunsWithin(s, front, p, Distance(s.current, p)) {
        var k: nat :| k <= |front| && Run(s, front[..k]).current == p && Ticks(front[..k]) <= Distance(s.current, p);
        assert events[..k] == front[..k];
      } else {
        StepKeepsOk(Run(s, front), e);
        match e
        case Create(page) => CreateLeavesOthers(Run(s, front), page, p);
        case Tick(esp) =>
          Closer(Run(s, front), esp, p);
          assert events[..|events|] == events;
      }
    }
  }

  /** No starvation: a ready process runs within its cyclic distance in ticks, at most fifteen, whatever
    * creations are interleaved. */
  lemma ReadyProcessRuns(s: Sched, events: seq<Event>, p: nat)
    requires SchedOk(s) && p < PROC_MAX && s.procs[p].state == Ready && Ticks(events) >= Distance(s.current, p)
    ensures RunsWithin(s, events, p, Distance(s.current, p)) && 1 <= Distance(s.current, p) <= 15
  {
    RunsOrWaits(s, events, p);
  }

  // ---- every process resumes where it was interrupted ----

  /** The stack pointer process p was last interrupted at, or was built with, according to the events. */
  ghost function Context(s: Sched, events: seq<Event>, p: nat): nat
    requires p < |s.procs|
  {
    if events == [] then s.procs[p].esp
    else
      var front, e := events[..|events| - 1], events[|events| - 1];
      var before := Run(s, front);
      if e.Tick? && before.current == p && OthersInUse(before) then e.esp
      else if e.Create? && e.page != 0 && LowestFree(before.procs, p) then e.page + 4096 - 17 * 4
      else Context(s, front, p)
  }

  lemma {:induction false} EspIsContext(s: Sched, events: seq<Event>, p: nat)
    requires SchedOk(s) && p < PROC_MAX
    ensures SchedOk(Run(s, events)) && Run(s, events).procs[p].esp == Context(s, events, p)
  {
    RunKeepsOk(s, events);
    if events != [] {
      var front, e := events[..|events| - 1], events[|events| - 1];
      EspIsContext(s, front, p);
      match e
      case Create(page) => FreeIsLowest(Run(s, front).procs);
      case Tick(esp) => TickExact(Run(s, front), esp);
    }
  }

  /** From scheduler_init on, whatever happened: a tick with no other process in use changes nothing and returns
    * 0; with another one it switches, and returns the stack pointer the chosen process was last interrupted
    * at or built with. */
  lemma ResumesWhereInterrupted(events: seq<Event>, esp: nat)
    ensures SchedOk(Run(Initial(), events))
    ensures var s := Run(Initial(), events);
            if OthersInUse(s) then
              var next := Ticked(s, esp).0.current;
              next < PROC_MAX && next != s.current && Ticked(s, esp).1 == Context(Initial(), events, next)
            else Ticked(s, esp) == (s, 0)
  {
    InitialOk();
    RunKeepsOk(Initial(), events);
    var s := Run(Initial(), events);
    TickExact(s, esp);
    if OthersInUse(s) {
      EspIsContext(Initial(), events, Ticked(s, esp).0.current);
    }
  }
}
