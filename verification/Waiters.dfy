/** What the threads of a run get from a semaphore, and in which order. */
module Waiters {
  /*
   Everything here is told from the acts of a run and the states between them: who went to sleep on a
   semaphore, whom an up made READY, and who came out of sema_down() or sema_try_down() with a unit.
   */

  import opened Common
  import opened Kernel

  function Waiting(s: Sys, id: SemaId): seq<Tid> {
    if id in s.semas then s.semas[id].waiters else []
  }

  /** The running thread, if the step put it to sleep on the semaphore. */
  function SleptIn(s: Sys, s': Sys, id: SemaId): seq<Tid> {
    if s.current in s'.threads && s'.threads[s.current] == Thread(Blocked, Some(id)) then [s.current] else []
  }

  /** The thread that an up of the semaphore put on the ready list. */
  function WokenIn(s: Sys, s': Sys, a: Act, id: SemaId): seq<Tid> {
    if a == Up(id) && |s'.ready| > |s.ready| then [s'.ready[|s'.ready| - 1]] else []
  }

  function Slept(acts: seq<Act>, id: SemaId): seq<Tid>
    decreases |acts|
  {
    if acts == [] then [] else
      var before := acts[..|acts| - 1];
      Slept(before, id) + SleptIn(Run(Boot(), before), Run(Boot(), acts), id)
  }

  function Awoken(acts: seq<Act>, id: SemaId): seq<Tid>
    decreases |acts|
  {
    if acts == [] then [] else
      var before := acts[..|acts| - 1];
      Awoken(before, id) + WokenIn(Run(Boot(), before), Run(Boot(), acts), acts[|acts| - 1], id)
  }

  ghost predicate InOrder(s: Sys, s': Sys, a: Act, id: SemaId) {
    Waiting(s, id) + SleptIn(s, s', id) == WokenIn(s, s', a, id) + Waiting(s', id)
  }

  lemma SimpleInOrder(s: Sys, a: Act, id: SemaId)
    requires Inv(s) && Enabled(s, a) && BeforeSchedule(s, a) == None
    ensures InOrder(s, Simple(s, a), a, id)
  {
    hide CoreInv, StatusInv, FreedInv;
    if a.Up? {
      UpInOrder(s, a.sema, id);
    }
  }

  lemma UpInOrder(s: Sys, i: SemaId, id: SemaId)
    requires Inv(s) && i in s.semas
    ensures InOrder(s, UpSema(s, i), Up(i), id)
  {
    hide ReadyInv, IdleInv, SemaInv, StatusInv, FreedInv, NoDup;
    assert ListInv(s.threads, i, s.semas[i].waiters);
    var w := s.semas[i].waiters;
    if w != [] {
      assert w[0] in w;
      assert w == [w[0]] + w[1..];
    }
  }

  lemma ScheduleInOrder(s: Sys, a: Act, id: SemaId)
    requires Inv(s) && Enabled(s, a) && BeforeSchedule(s, a).Some?
    ensures InOrder(s, Next(s, a), a, id)
  {
    hide Inv, EntryInv, BeforeSchedule, Enabled, Schedule, CanSchedule, Next;
    var p := BeforeSchedule(s, a).value;
    Enters(s, a);
    BeforeInOrder(s, a, id);
    ScheduleKeeps(p, id);
  }

  lemma Enters(s: Sys, a: Act)
    requires Inv(s) && Enabled(s, a) && BeforeSchedule(s, a).Some?
    ensures var p := BeforeSchedule(s, a).value; EntryInv(p) && CanSchedule(p) && p.current in p.threads && Next(s, a) == Schedule(p)
  {
    var p := BeforeSchedule(s, a).value;
    hide Inv, EntryInv, BeforeSchedule, Enabled, Schedule, CanSchedule;
    EnterInv(s, a);
    ScheduleInv(p);
    EntryCurrent(p);
  }

  lemma BeforeInOrder(s: Sys, a: Act, id: SemaId)
    requires Inv(s) && Enabled(s, a) && BeforeSchedule(s, a).Some?
    ensures var p := BeforeSchedule(s, a).value;
      Waiting(s, id) + SleptIn(s, p, id) == Waiting(p, id) && p.current == s.current && !a.Up?
  {
    hide CoreInv, StatusInv, FreedInv;
  }

  lemma ScheduleKeeps(p: Sys, id: SemaId)
    requires EntryInv(p) && CanSchedule(p)
    ensures Waiting(Schedule(p), id) == Waiting(p, id) && SleptIn(p, Schedule(p), id) == SleptIn(p, p, id)
  {
    ScheduleFinds(p);
    ScheduleThreads(p);
    hide CoreInv, Schedule, Pick;
  }

  lemma StepInOrder(s: Sys, a: Act, id: SemaId)
    requires Inv(s)
    ensures InOrder(s, Next(s, a), a, id)
  {
    if !Enabled(s, a) {
      hide CoreInv, StatusInv, FreedInv;
    } else if BeforeSchedule(s, a) == None {
      SimpleInOrder(s, a, id);
    } else {
      ScheduleInOrder(s, a, id);
    }
  }

  /** In every run the threads that have gone to sleep on a semaphore are those that ups have woken and then those
      still on its list, in that order: first in, first out. */
  lemma {:induction false} SemaFifo(acts: seq<Act>, id: SemaId)
    ensures Slept(acts, id) == Awoken(acts, id) + Waiting(Run(Boot(), acts), id)
    decreases |acts|
  {
    if acts != [] {
      var before, a := acts[..|acts| - 1], acts[|acts| - 1];
      var s := Run(Boot(), before);
      SemaFifo(before, id);
      RunInv(before);
      StepInOrder(s, a, id);
      hide Inv, Next, SleptIn, WokenIn, Waiting;
      Requeue(Slept(before, id), Awoken(before, id), Waiting(s, id), SleptIn(s, Next(s, a), id),
              WokenIn(s, Next(s, a), a, id), Waiting(Next(s, a), id));
    }
  }

  lemma Requeue(slept: seq<Tid>, woken: seq<Tid>, list: seq<Tid>, joins: seq<Tid>, leaves: seq<Tid>, list': seq<Tid>)
    requires slept == woken + list && list + joins == leaves + list'
    ensures slept + joins == (woken + leaves) + list'
  {
    assert slept + joins == woken + (list + joins);
  }

  // ---------------------------------------------------------------- units

  /** The step came out of sema_down() with a unit, or was a sema_try_down() that found one. */
  predicate Completes(s: Sys, s': Sys, a: Act, id: SemaId) {
    && Enabled(s, a)
    && (if a == TryDown(id) then Value(s', id) < Value(s, id)
        else (a == Down(id) || (a == Resume && s.threads[s.current].asleepOn == Some(id))) && SleptIn(s, s', id) == [])
  }

  function Value(s: Sys, id: SemaId): nat {
    if id in s.semas then s.semas[id].value else 0
  }

  /** What a step puts into a semaphore: a unit for an up, less one for a completed down, or its first value. */
  function Added(s: Sys, s': Sys, a: Act, id: SemaId): int {
    (if a == Up(id) && Enabled(s, a) then 1 else 0)
    + (if a.NewSema? && a.id == id && Enabled(s, a) then a.init else 0)
    - (if Completes(s, s', a, id) then 1 else 0)
  }

  function AddedBy(acts: seq<Act>, id: SemaId): int
    decreases |acts|
  {
    if acts == [] then 0 else
      var before := acts[..|acts| - 1];
      AddedBy(before, id) + Added(Run(Boot(), before), Run(Boot(), acts), acts[|acts| - 1], id)
  }

  lemma SimpleUnits(s: Sys, a: Act, id: SemaId)
    requires Inv(s) && Enabled(s, a) && BeforeSchedule(s, a) == None
    ensures Value(Simple(s, a), id) == Value(s, id) + Added(s, Simple(s, a), a, id)
  {
    hide CoreInv, StatusInv, FreedInv;
    if a.Up? {
      UpUnits(s, a.sema, id);
    }
  }

  lemma UpUnits(s: Sys, i: SemaId, id: SemaId)
    requires i in s.semas
    ensures Value(UpSema(s, i), id) == Value(s, id) + if i == id then 1 else 0
  {
  }

  /** A down that puts its thread to sleep takes nothing. */
  lemma ScheduleUnits(s: Sys, a: Act, id: SemaId)
    requires Inv(s) && Enabled(s, a) && BeforeSchedule(s, a).Some?
    ensures Value(Next(s, a), id) == Value(s, id) && Added(s, Next(s, a), a, id) == 0
  {
    hide Inv, EntryInv, BeforeSchedule, Enabled, Schedule, CanSchedule, Next;
    var p := BeforeSchedule(s, a).value;
    Enters(s, a);
    BeforeUnits(s, a, id);
    BeforeInOrder(s, a, id);
    ScheduleKeeps(p, id);
    ScheduleThreads(p);
  }

  lemma BeforeUnits(s: Sys, a: Act, id: SemaId)
    requires Inv(s) && Enabled(s, a) && BeforeSchedule(s, a).Some?
    ensures var p := BeforeSchedule(s, a).value;
      && Value(p, id) == Value(s, id) && !a.TryDown? && !a.NewSema?
      && (a == Down(id) || (a == Resume && s.threads[s.current].asleepOn == Some(id)) ==> SleptIn(s, p, id) != [])
  {
    hide CoreInv, StatusInv, FreedInv;
  }

  lemma StepUnits(s: Sys, a: Act, id: SemaId)
    requires Inv(s)
    ensures Value(Next(s, a), id) == Value(s, id) + Added(s, Next(s, a), a, id)
  {
    hide Inv, Simple, BeforeSchedule;
    if Enabled(s, a) {
      if BeforeSchedule(s, a) == None {
        SimpleUnits(s, a, id);
      } else {
        ScheduleUnits(s, a, id);
      }
    }
  }

  /** In every run a semaphore holds the value it was made with, a unit for each up, and one less for each down
      that came out with one. */
  lemma {:induction false} UnitsCounted(acts: seq<Act>, id: SemaId)
    ensures Value(Run(Boot(), acts), id) == AddedBy(acts, id)
    decreases |acts|
  {
    if acts != [] {
      var before, a := acts[..|acts| - 1], acts[|acts| - 1];
      UnitsCounted(before, id);
      RunInv(before);
      StepUnits(Run(Boot(), before), a, id);
    }
  }

  /** In every run sema_down() and sema_try_down() find a unit if and only if the value is not 0; then the caller
      runs on, and otherwise sema_down() puts it at the end of the list and sema_try_down() changes nothing. */
  lemma DownMeans(acts: seq<Act>, id: SemaId)
    ensures var s := Run(Boot(), acts); var s' := Next(s, Down(id)); var s'' := Next(s, TryDown(id));
      && (Enabled(s, Down(id)) ==>
            && (Completes(s, s', Down(id), id) <==> Value(s, id) > 0)
            && (Value(s, id) > 0 ==> s'.current == s.current && Waiting(s', id) == Waiting(s, id))
            && (Value(s, id) == 0 ==> Waiting(s', id) == Waiting(s, id) + [s.current]))
      && (Enabled(s, TryDown(id)) ==>
            && (Completes(s, s'', TryDown(id), id) <==> Value(s, id) > 0)
            && s''.current == s.current && Waiting(s'', id) == Waiting(s, id)
            && (Value(s, id) == 0 ==> s'' == s))
  {
    RunInv(acts);
    var s := Run(Boot(), acts);
    hide Inv, Run, Boot;
    if Enabled(s, Down(id)) {
      DownStep(s, id);
    }
    if Enabled(s, TryDown(id)) {
      TryDownStep(s, id);
    }
  }

  lemma DownStep(s: Sys, id: SemaId)
    requires Inv(s) && Enabled(s, Down(id))
    ensures var s' := Next(s, Down(id));
      && (Completes(s, s', Down(id), id) <==> Value(s, id) > 0)
      && (Value(s, id) > 0 ==> s'.current == s.current && Waiting(s', id) == Waiting(s, id))
      && (Value(s, id) == 0 ==> Waiting(s', id) == Waiting(s, id) + [s.current])
  {
    StepUnits(s, Down(id), id);
    if Value(s, id) == 0 {
      StepInOrder(s, Down(id), id);
      hide Inv, Next;
    } else {
      hide CoreInv, StatusInv, FreedInv;
    }
  }

  lemma TryDownStep(s: Sys, id: SemaId)
    requires Inv(s) && Enabled(s, TryDown(id))
    ensures var s' := Next(s, TryDown(id));
      && (Completes(s, s', TryDown(id), id) <==> Value(s, id) > 0)
      && s'.current == s.current && Waiting(s', id) == Waiting(s, id)
      && (Value(s, id) == 0 ==> s' == s)
  {
    hide Inv;
  }
}
