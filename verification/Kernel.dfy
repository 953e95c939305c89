/**
 The FIFO scheduler of threads/thread.c and the semaphores of threads/synch.c that block and
 unblock its threads.

 The kernel runs on one processor, so a region with interrupts off is one step. A run is any
 sequence of such steps: the running thread's calls, its preemption by the timer, and sema_up()
 calls made by interrupt handlers on its back.
 */
module Kernel {
  import opened Common

  type SemaId = nat

  datatype Status = Running | Ready | Blocked | Dying

  /** A thread; "asleepOn" names the semaphore in whose sema_down() loop it has slept and not yet
      come out of. */
  datatype Thread = Thread(status: Status, asleepOn: Option<SemaId>)

  /** struct semaphore, with its history: the initial value, and the ups and completed downs. */
  datatype Sema = Sema(value: nat, waiters: seq<Tid>, initial: nat, ups: nat, downs: nat)

  /** The globals of thread.c, the semaphores, and the history: picks made by schedule(), threads
      that called thread_exit() and threads whose page was freed. */
  datatype Sys = Sys(
    threads: map<Tid, Thread>, ready: seq<Tid>, current: Tid, idle: Option<Tid>, nextTid: Tid,
    semas: map<SemaId, Sema>,
    picks: nat, exited: seq<Tid>, freed: seq<Tid>)

  /** The initial thread, whose page did not come from the page allocator. */
  const MAIN: Tid := 1

  /** The thread that thread_start() creates to run idle(). */
  const IDLE: Tid := 2

  // ---------------------------------------------------------------- thread.c

  function SetStatus(s: Sys, t: Tid, status: Status): Sys
    requires t in s.threads
  {
    s.(threads := s.threads[t := s.threads[t].(status := status)])
  }

  /** thread_unblock(). */
  function Unblock(s: Sys, t: Tid): Sys {
    if t in s.threads then SetStatus(s.(ready := s.ready + [t]), t, Ready) else s
  }

  /** Whether schedule() has a thread to switch to. */
  predicate CanSchedule(s: Sys) {
    if s.ready != [] then s.ready[0] in s.threads else s.idle.Some? && s.idle.value in s.threads
  }

  /** thread_schedule_fifo(). */
  function Pick(s: Sys): Tid
    requires CanSchedule(s)
  {
    if s.ready != [] then s.ready[0] else s.idle.value
  }

  /** schedule() and thread_switch_tail(). */
  function Schedule(s: Sys): Sys
    requires CanSchedule(s) && s.current in s.threads
  {
    var next := Pick(s);
    var ready := if s.ready != [] then s.ready[1..] else [];
    var on := SetStatus(s.(ready := ready, current := next, picks := s.picks + 1), next, Running);
    if s.current != next && s.threads[s.current].status == Dying && s.current != MAIN
    then on.(threads := on.threads - {s.current}, freed := s.freed + [s.current])
    else on
  }

  // ---------------------------------------------------------------- steps

  /** A region with interrupts off. */
  datatype Act =
    | Create                 // thread_create: thread_unblock of a new thread
    | Yield                  // thread_yield, called or forced by the timer
    | Exit                   // thread_exit
    | BecomeIdle             // idle: idle_thread = thread_current
    | IdleBlock              // idle: thread_block
    | NewSema(id: SemaId, init: nat)
    | Down(sema: SemaId)     // sema_down: first pass of the loop
    | Resume                 // sema_down: a later pass of the loop
    | TryDown(sema: SemaId)
    | Up(sema: SemaId)

  /** sema_down(): value is zero, so join the list and block. */
  function Sleep(s: Sys, id: SemaId): Sys
    requires s.current in s.threads && id in s.semas
  {
    var x := s.semas[id];
    s.(semas := s.semas[id := x.(waiters := x.waiters + [s.current])],
       threads := s.threads[s.current := Thread(Blocked, Some(id))])
  }

  /** sema_down(): value is positive, so take one and leave the loop. */
  function Take(s: Sys, id: SemaId): Sys
    requires s.current in s.threads && id in s.semas && s.semas[id].value > 0
  {
    var x := s.semas[id];
    s.(semas := s.semas[id := x.(value := x.value - 1, downs := x.downs + 1)],
       threads := s.threads[s.current := s.threads[s.current].(asleepOn := None)])
  }

  /** sema_up(). */
  function UpSema(s: Sys, id: SemaId): Sys
    requires id in s.semas
  {
    var x := s.semas[id];
    if x.waiters == [] then
      s.(semas := s.semas[id := x.(value := x.value + 1, ups := x.ups + 1)])
    else
      Unblock(s.(semas := s.semas[id := x.(value := x.value + 1, ups := x.ups + 1, waiters := x.waiters[1..])]),
              x.waiters[0])
  }

  /** What the code of the running thread may do next: a thread inside sema_down() goes on with its
      loop, the idle thread only runs idle(), everybody else does as it likes. */
  predicate Enabled(s: Sys, a: Act) {
    && s.current in s.threads
    && var me := s.threads[s.current];
       if me.asleepOn.Some? then a == Resume && me.asleepOn.value in s.semas
       else match a
         case Resume => false
         case BecomeIdle => s.current == IDLE && s.idle == None
         case IdleBlock => s.idle == Some(s.current)
         case NewSema(id, _) => id !in s.semas
         case Down(id) => s.current != IDLE && id in s.semas
         case TryDown(id) => id in s.semas
         case Up(id) => id in s.semas
         case Exit => s.current != IDLE
         case Create => true
         case Yield => true
  }

  /** The state in which schedule() is called, for the acts that call it. */
  function BeforeSchedule(s: Sys, a: Act): Option<Sys>
    requires Enabled(s, a)
  {
    match a
    case Yield =>
      var q := if s.idle == Some(s.current) then s else s.(ready := s.ready + [s.current]);
      Some(SetStatus(q, s.current, Ready))
    case Exit => Some(SetStatus(s.(exited := s.exited + [s.current]), s.current, Dying))
    case IdleBlock => Some(SetStatus(s, s.current, Blocked))
    case Down(id) => if s.semas[id].value == 0 then Some(Sleep(s, id)) else None
    case Resume =>
      var id := s.threads[s.current].asleepOn.value;
      if s.semas[id].value == 0 then Some(Sleep(s, id)) else None
    case _ => None
  }

  /** thread_create(): init_thread() and allocate_tid(), then thread_unblock(). */
  function Created(s: Sys): Sys {
    Unblock(s.(threads := s.threads[s.nextTid := Thread(Blocked, None)], nextTid := s.nextTid + 1), s.nextTid)
  }

  /** The effect of the acts that do not call schedule(). */
  function Simple(s: Sys, a: Act): Sys
    requires Enabled(s, a) && BeforeSchedule(s, a) == None
  {
    match a
    case Create => Created(s)
    case BecomeIdle => s.(idle := Some(s.current))
    case NewSema(id, init) => s.(semas := s.semas[id := Sema(init, [], init, 0, 0)])
    case Down(id) => Take(s, id)
    case Resume => Take(s, s.threads[s.current].asleepOn.value)
    case TryDown(id) => if s.semas[id].value > 0 then Take(s, id) else s
    case Up(id) => UpSema(s, id)
  }

  /** One step; schedule() without a thread to switch to fails its assertion, so the system stops. */
  function Next(s: Sys, a: Act): Sys {
    if !Enabled(s, a) then s
    else
      match BeforeSchedule(s, a)
      case None => Simple(s, a)
      case Some(p) => if CanSchedule(p) && p.current in p.threads then Schedule(p) else p
  }

  function Run(s: Sys, acts: seq<Act>): Sys
    decreases |acts|
  {
    if acts == [] then s else Next(Run(s, acts[..|acts| - 1]), acts[|acts| - 1])
  }

  /** The state in which thread_start() turns interrupts on: the initial thread is running, the
      idle thread is created and ready, and the semaphore it will raise exists. */
  function Boot(): Sys {
    Sys(map[MAIN := Thread(Running, None), IDLE := Thread(Ready, None)], [IDLE], MAIN, None, 3,
        map[0 := Sema(0, [], 0, 0, 0)], 0, [], [])
  }

  // ---------------------------------------------------------------- the invariant

  /** The ready list holds exactly the READY threads other than the idle thread. */
  ghost predicate ReadyInv(s: Sys) {
    && NoDup(s.ready)
    && (forall t :: t in s.ready ==> t in s.threads)
    && (forall t :: t in s.threads ==> (t in s.ready <==> s.threads[t].status == Ready && s.idle != Some(t)))
  }

  /** A BLOCKED thread is the idle thread, or is on the list of exactly the semaphore it sleeps on;
      nobody else is on a list. */
  ghost predicate WaitInv(s: Sys) {
    && (forall id :: id in s.semas ==> ListInv(s.threads, id, s.semas[id].waiters))
    && (forall t :: t in s.threads ==> SleeperInv(s, t, s.threads[t]))
  }

  ghost predicate ListInv(threads: map<Tid, Thread>, id: SemaId, waiters: seq<Tid>) {
    && NoDup(waiters)
    && forall t :: t in waiters ==> t in threads && threads[t] == Thread(Blocked, Some(id))
  }

  ghost predicate SleeperInv(s: Sys, t: Tid, x: Thread) {
    && (x.asleepOn.Some? ==> x.asleepOn.value in s.semas)
    && (x.status == Blocked ==>
          if x.asleepOn.Some? then t in s.semas[x.asleepOn.value].waiters else s.idle == Some(t))
  }

  /** The idle thread is the one made for it, never sleeps on a semaphore, and can be picked. */
  ghost predicate IdleInv(s: Sys) {
    && IDLE in s.threads && s.threads[IDLE].asleepOn == None && s.threads[IDLE].status != Dying
    && (s.idle == None || s.idle == Some(IDLE))
    && (s.idle == None ==> s.threads[IDLE].status != Blocked)
  }

  /** Every thread but the running one is off the processor, and dead threads are gone. */
  ghost predicate StatusInv(s: Sys) {
    && (forall t :: t in s.threads && t != s.current ==> s.threads[t].status != Running)
    && (forall t :: t in s.threads && s.threads[t].status == Dying ==> t == MAIN && s.threads[t].asleepOn == None)
    && (forall t :: t in s.threads ==> t < s.nextTid)
    && MAIN < s.nextTid
  }

  /** The elements of q other than t, in their order. */
  function Without(q: seq<Tid>, t: Tid): seq<Tid> {
    if q == [] then [] else if q[|q| - 1] == t then Without(q[..|q| - 1], t) else Without(q[..|q| - 1], t) + [q[|q| - 1]]
  }

  /** Pages of exited threads are freed once each, in order; the initial thread's never is. */
  ghost predicate FreedInv(s: Sys) {
    && NoDup(s.exited)
    && (forall t :: t in s.exited ==> t < s.nextTid && (t in s.threads ==> t == MAIN && s.threads[t].status == Dying))
    && s.freed == Without(s.exited, MAIN)
  }

  /** Threads woken from a semaphore that have not yet gone round the loop of sema_down(). */
  function Woken(threads: map<Tid, Thread>, id: SemaId): set<Tid> {
    set t | t in threads && threads[t].asleepOn == Some(id) && threads[t].status != Blocked
  }

  /** Each semaphore's value is accounted for, and no wake-up is lost: while threads sleep on it,
      every unit of its value is matched by a thread on its way to take it. */
  ghost predicate SemaInv(s: Sys) {
    forall id :: id in s.semas ==>
      && s.semas[id].value + s.semas[id].downs == s.semas[id].initial + s.semas[id].ups
      && (s.semas[id].waiters != [] ==> s.semas[id].value <= |Woken(s.threads, id)|)
  }

  /** What holds both outside schedule() and on entry to it. */
  ghost predicate CoreInv(s: Sys) {
    ReadyInv(s) && WaitInv(s) && IdleInv(s) && SemaInv(s)
  }

  ghost predicate Inv(s: Sys) {
    && CoreInv(s)
    && StatusInv(s)
    && FreedInv(s)
    && s.current in s.threads && s.threads[s.current].status == Running
  }

  // ---------------------------------------------------------------- schedule()

  /** On entry to schedule(): nobody is running, and the caller may be dying. */
  ghost predicate EntryInv(s: Sys) {
    CoreInv(s) && EntryRest(s)
  }

  ghost predicate EntryRest(s: Sys) {
    && s.current in s.threads
    && (forall t :: t in s.threads ==> s.threads[t].status != Running && t < s.nextTid)
    && (forall t :: t in s.threads && s.threads[t].status == Dying ==>
          (t == MAIN || t == s.current) && s.threads[t].asleepOn == None)
    && MAIN < s.nextTid
    && NoDup(s.exited)
    && (forall t :: t in s.exited ==>
          t < s.nextTid && (t in s.threads ==> (t == MAIN || t == s.current) && s.threads[t].status == Dying))
    && (if s.threads[s.current].status == Dying
        then s.exited != [] && s.exited[|s.exited| - 1] == s.current
             && s.freed == Without(s.exited[..|s.exited| - 1], MAIN)
        else s.freed == Without(s.exited, MAIN) && s.current !in s.exited)
  }

  /** schedule() always finds a thread: its assertion holds. */
  lemma ScheduleFinds(s: Sys)
    requires EntryInv(s)
    ensures CanSchedule(s)
    ensures Pick(s) in s.threads && s.threads[Pick(s)].status != Dying
    ensures s.threads[Pick(s)].status == Ready || Some(Pick(s)) == s.idle
    ensures s.threads[Pick(s)].status == Blocked ==> s.threads[Pick(s)].asleepOn == None
  {
    if s.ready != [] {
      assert s.ready[0] in s.ready;
    } else {
      assert s.threads[IDLE].status == Ready && s.idle == None ==> IDLE in s.ready;
    }
  }

  lemma ScheduleReady(s: Sys)
    requires EntryInv(s) && CanSchedule(s)
    ensures ReadyInv(Schedule(s))
  {
    ScheduleFinds(s);
    if s.ready != [] {
      TailNoDup(s.ready);
    }
  }

  /** What schedule() does to the threads. */
  lemma ScheduleThreads(s: Sys)
    requires EntryInv(s) && CanSchedule(s)
    ensures var s' := Schedule(s); var n := Pick(s);
      && n in s'.threads && s'.threads[n] == s.threads[n].(status := Running)
      && s'.current == n
      && (forall t :: t in s'.threads && t != n ==> t in s.threads && s'.threads[t] == s.threads[t])
      && (forall t :: t in s.threads && t !in s'.threads ==>
            t == s.current && s.threads[t].status == Dying && t != MAIN)
      && s'.semas == s.semas && s'.idle == s.idle && s'.nextTid == s.nextTid
  {
    hide CoreInv;
    ScheduleFinds(s);
  }

  lemma ScheduleWait(s: Sys)
    requires EntryInv(s) && CanSchedule(s)
    ensures WaitInv(Schedule(s))
  {
    hide ReadyInv, SemaInv, IdleInv, Schedule, Pick, CanSchedule, NoDup;
    ScheduleFinds(s);
    ScheduleThreads(s);
    forall id | id in s.semas ensures ListInv(Schedule(s).threads, id, s.semas[id].waiters) {
      assert ListInv(s.threads, id, s.semas[id].waiters);
    }
  }

  lemma ScheduleIdle(s: Sys)
    requires EntryInv(s) && CanSchedule(s)
    ensures IdleInv(Schedule(s))
  {
    hide ReadyInv, SemaInv, WaitInv, Schedule;
    ScheduleFinds(s);
    ScheduleThreads(s);
  }

  lemma ScheduleSema(s: Sys)
    requires EntryInv(s) && CanSchedule(s)
    ensures SemaInv(Schedule(s))
  {
    hide ReadyInv, WaitInv, Schedule;
    ScheduleFinds(s);
    ScheduleThreads(s);
    forall id | id in s.semas ensures Woken(Schedule(s).threads, id) == Woken(s.threads, id) {
    }
  }

  lemma ScheduleStatus(s: Sys)
    requires EntryInv(s) && CanSchedule(s)
    ensures var s' := Schedule(s);
      StatusInv(s') && s'.current in s'.threads && s'.threads[s'.current].status == Running
  {
    hide CoreInv, Schedule;
    ScheduleFinds(s);
    ScheduleThreads(s);
    var s' := Schedule(s);
    assert s.threads[s.current].status == Dying && s.current != MAIN ==> s.current !in s'.threads by {
      ScheduleFrees(s);
    }
  }

  /** The thread switched to frees the page of a dying caller, in the same step. */
  lemma ScheduleFrees(s: Sys)
    requires EntryInv(s) && CanSchedule(s)
    ensures var s' := Schedule(s);
      && s'.exited == s.exited
      && if s.threads[s.current].status == Dying && s.current != MAIN
         then s.current !in s'.threads && s'.freed == s.freed + [s.current]
         else s'.freed == s.freed
  {
    hide CoreInv;
    ScheduleFinds(s);
  }

  lemma ScheduleFreed(s: Sys)
    requires EntryInv(s) && CanSchedule(s)
    ensures FreedInv(Schedule(s))
  {
    hide CoreInv, Schedule;
    ScheduleFinds(s);
    ScheduleThreads(s);
    ScheduleFrees(s);
    var s' := Schedule(s);
    assert s'.freed == Without(s'.exited, MAIN);
    forall t | t in s'.exited
      ensures t < s'.nextTid && (t in s'.threads ==> t == MAIN && s'.threads[t].status == Dying)
    {
    }
  }

  lemma ScheduleInv(s: Sys)
    requires EntryInv(s)
    ensures CanSchedule(s) && Inv(Schedule(s))
  {
    hide ReadyInv, WaitInv, IdleInv, SemaInv, StatusInv, FreedInv, CanSchedule;
    ScheduleFinds(s);
    ScheduleReady(s);
    ScheduleWait(s);
    ScheduleIdle(s);
    ScheduleSema(s);
    ScheduleStatus(s);
    ScheduleFreed(s);
  }

  // ---------------------------------------------------------------- the acts that call schedule()

  /** Thread t gets another record; nobody else changes. */
  ghost predicate OnlyChanges(s: Sys, p: Sys, t: Tid) {
    && t in s.threads && p.threads.Keys == s.threads.Keys
    && forall u :: u in s.threads && u != t ==> p.threads[u] == s.threads[u]
  }

  /** A thread that was on no semaphore's list, and goes on none, keeps the lists right. */
  lemma WaitFrame(s: Sys, p: Sys, t: Tid)
    requires WaitInv(s) && OnlyChanges(s, p, t) && p.semas == s.semas && (s.idle == None || p.idle == s.idle)
    requires s.threads[t].status != Blocked && p.threads[t].asleepOn == s.threads[t].asleepOn
    requires p.threads[t].status == Blocked ==> p.threads[t].asleepOn == None && p.idle == Some(t)
    ensures WaitInv(p)
  {
    hide NoDup;
    forall id | id in s.semas ensures ListInv(p.threads, id, s.semas[id].waiters) {
      assert ListInv(s.threads, id, s.semas[id].waiters);
    }
    forall u | u in p.threads ensures SleeperInv(p, u, p.threads[u]) {
      assert SleeperInv(s, u, s.threads[u]);
    }
  }

  lemma SemaFrame(s: Sys, p: Sys, t: Tid)
    requires SemaInv(s) && OnlyChanges(s, p, t) && p.semas == s.semas
    requires p.threads[t].asleepOn == s.threads[t].asleepOn
    requires p.threads[t].asleepOn.Some? ==> p.threads[t].status != Blocked && s.threads[t].status != Blocked
    ensures SemaInv(p)
  {
    assert forall id :: Woken(p.threads, id) == Woken(s.threads, id);
  }

  lemma EnterYieldReady(s: Sys)
    requires Inv(s) && Enabled(s, Yield)
    ensures ReadyInv(BeforeSchedule(s, Yield).value)
  {
    hide WaitInv, IdleInv, SemaInv, FreedInv;
  }

  lemma EnterYield(s: Sys)
    requires Inv(s) && Enabled(s, Yield)
    ensures EntryInv(BeforeSchedule(s, Yield).value)
  {
    hide ReadyInv, WaitInv, SemaInv, NoDup;
    var p := BeforeSchedule(s, Yield).value;
    EnterYieldReady(s);
    WaitFrame(s, p, s.current);
    SemaFrame(s, p, s.current);
    assert s.current !in s.exited;
  }

  lemma EnterIdleBlock(s: Sys)
    requires Inv(s) && Enabled(s, IdleBlock)
    ensures EntryInv(BeforeSchedule(s, IdleBlock).value)
  {
    hide WaitInv, SemaInv, NoDup;
    var p := BeforeSchedule(s, IdleBlock).value;
    WaitFrame(s, p, s.current);
    SemaFrame(s, p, s.current);
  }

  lemma EnterExitRest(s: Sys)
    requires Inv(s) && Enabled(s, Exit)
    ensures EntryRest(BeforeSchedule(s, Exit).value)
  {
    hide CoreInv;
    var p := BeforeSchedule(s, Exit).value;
    assert s.current !in s.exited;
    assert p.exited[..|p.exited| - 1] == s.exited;
    assert forall t :: t in p.exited <==> t in s.exited || t == s.current;
  }

  lemma EnterExit(s: Sys)
    requires Inv(s) && Enabled(s, Exit)
    ensures EntryInv(BeforeSchedule(s, Exit).value)
  {
    hide WaitInv, SemaInv, NoDup, EntryRest, FreedInv;
    var p := BeforeSchedule(s, Exit).value;
    EnterExitRest(s);
    WaitFrame(s, p, s.current);
    SemaFrame(s, p, s.current);
  }

  /** A thread may go to sleep on a semaphore of value zero. */
  ghost predicate MaySleep(s: Sys, id: SemaId) {
    && s.current in s.threads && s.current != IDLE && id in s.semas && s.semas[id].value == 0
    && s.threads[s.current].status == Running
    && (s.threads[s.current].asleepOn == None || s.threads[s.current].asleepOn == Some(id))
  }

  lemma SleepWait(s: Sys, id: SemaId)
    requires WaitInv(s) && MaySleep(s, id)
    ensures WaitInv(Sleep(s, id))
  {
    var p := Sleep(s, id);
    var me := s.current;
    forall i | i in p.semas ensures ListInv(p.threads, i, p.semas[i].waiters) {
      assert ListInv(s.threads, i, s.semas[i].waiters);
      assert me !in s.semas[i].waiters;
    }
    forall t | t in p.threads ensures SleeperInv(p, t, p.threads[t]) {
      assert SleeperInv(s, t, s.threads[t]);
    }
  }

  lemma SleepSema(s: Sys, id: SemaId)
    requires SemaInv(s) && MaySleep(s, id)
    ensures SemaInv(Sleep(s, id))
  {
    var p := Sleep(s, id);
    assert forall i :: i != id ==> Woken(p.threads, i) == Woken(s.threads, i);
  }

  lemma SleepReady(s: Sys, id: SemaId)
    requires ReadyInv(s) && MaySleep(s, id)
    ensures ReadyInv(Sleep(s, id))
  {
  }

  lemma SleepRest(s: Sys, id: SemaId)
    requires StatusInv(s) && FreedInv(s) && MaySleep(s, id)
    ensures EntryRest(Sleep(s, id))
  {
    assert s.current !in s.exited;
  }

  lemma EnterSleep(s: Sys, id: SemaId)
    requires Inv(s) && MaySleep(s, id)
    ensures EntryInv(Sleep(s, id))
  {
    hide ReadyInv, WaitInv, SemaInv, StatusInv, FreedInv, EntryRest, NoDup;
    SleepReady(s, id);
    SleepWait(s, id);
    SleepSema(s, id);
    SleepRest(s, id);
  }

  // ---------------------------------------------------------------- the other acts

  lemma TakeWait(s: Sys, id: SemaId)
    requires WaitInv(s) && s.current in s.threads && s.threads[s.current].status == Running
    requires id in s.semas && s.semas[id].value > 0
    ensures WaitInv(Take(s, id))
  {
    hide NoDup;
    var p := Take(s, id);
    forall i | i in p.semas ensures ListInv(p.threads, i, p.semas[i].waiters) {
      assert ListInv(s.threads, i, s.semas[i].waiters);
    }
    forall t | t in p.threads ensures SleeperInv(p, t, p.threads[t]) {
      assert SleeperInv(s, t, s.threads[t]);
    }
  }

  /** The unit taken is the one that the taker, if it was woken for it, stood for. */
  lemma TakeSema(s: Sys, id: SemaId)
    requires SemaInv(s) && s.current in s.threads && s.threads[s.current].status == Running
    requires id in s.semas && s.semas[id].value > 0
    requires s.threads[s.current].asleepOn == None || s.threads[s.current].asleepOn == Some(id)
    ensures SemaInv(Take(s, id))
  {
    var p := Take(s, id);
    assert forall i :: i != id ==> Woken(p.threads, i) == Woken(s.threads, i);
    var w := Woken(s.threads, id);
    if s.threads[s.current].asleepOn == Some(id) {
      assert Woken(p.threads, id) == w - {s.current} && s.current in w;
    } else {
      assert Woken(p.threads, id) == w;
    }
  }

  lemma TakeInv(s: Sys, id: SemaId)
    requires Inv(s) && id in s.semas && s.semas[id].value > 0
    requires s.threads[s.current].asleepOn == None || s.threads[s.current].asleepOn == Some(id)
    ensures Inv(Take(s, id))
  {
    hide WaitInv, SemaInv, NoDup;
    TakeWait(s, id);
    TakeSema(s, id);
  }

  lemma UpWait(s: Sys, id: SemaId)
    requires WaitInv(s) && id in s.semas && s.semas[id].waiters != []
    ensures WaitInv(UpSema(s, id))
  {
    var p := UpSema(s, id);
    var w := s.semas[id].waiters[0];
    assert ListInv(s.threads, id, s.semas[id].waiters);
    assert w in s.semas[id].waiters;
    TailNoDup(s.semas[id].waiters);
    forall i | i in p.semas ensures ListInv(p.threads, i, p.semas[i].waiters) {
      assert ListInv(s.threads, i, s.semas[i].waiters);
    }
    forall t | t in p.threads ensures SleeperInv(p, t, p.threads[t]) {
      assert SleeperInv(s, t, s.threads[t]);
    }
  }

  lemma UpEmptyWait(s: Sys, id: SemaId)
    requires WaitInv(s) && id in s.semas && s.semas[id].waiters == []
    ensures WaitInv(UpSema(s, id))
  {
    hide NoDup;
    var p := UpSema(s, id);
    forall i | i in p.semas ensures ListInv(p.threads, i, p.semas[i].waiters) {
      assert ListInv(s.threads, i, s.semas[i].waiters);
    }
    forall t | t in p.threads ensures SleeperInv(p, t, p.threads[t]) {
      assert SleeperInv(s, t, s.threads[t]);
    }
  }

  /** The unit added is matched by the thread woken for it. */
  lemma UpSemaInv(s: Sys, id: SemaId)
    requires WaitInv(s) && SemaInv(s) && id in s.semas
    ensures SemaInv(UpSema(s, id))
  {
    var p := UpSema(s, id);
    assert ListInv(s.threads, id, s.semas[id].waiters);
    if s.semas[id].waiters != [] {
      var w := s.semas[id].waiters[0];
      assert w in s.semas[id].waiters;
      assert Woken(p.threads, id) == Woken(s.threads, id) + {w};
      assert forall i :: i != id ==> Woken(p.threads, i) == Woken(s.threads, i);
    }
  }

  lemma UpReady(s: Sys, id: SemaId)
    requires ReadyInv(s) && WaitInv(s) && IdleInv(s) && id in s.semas
    ensures ReadyInv(UpSema(s, id))
  {
    assert ListInv(s.threads, id, s.semas[id].waiters);
    var p := UpSema(s, id);
    if s.semas[id].waiters != [] {
      var w := s.semas[id].waiters[0];
      assert w in s.semas[id].waiters;
      assert forall t :: t in p.ready <==> t in s.ready || t == w;
    }
  }

  lemma UpRest(s: Sys, id: SemaId)
    requires Inv(s) && id in s.semas
    ensures var p := UpSema(s, id);
      IdleInv(p) && StatusInv(p) && FreedInv(p) && p.current in p.threads && p.threads[p.current].status == Running
  {
    hide NoDup, SemaInv, ReadyInv;
    assert ListInv(s.threads, id, s.semas[id].waiters);
    if s.semas[id].waiters != [] {
      var w := s.semas[id].waiters[0];
      assert w in s.semas[id].waiters;
    }
  }

  lemma UpInv(s: Sys, id: SemaId)
    requires Inv(s) && id in s.semas
    ensures Inv(UpSema(s, id))
  {
    hide ReadyInv, WaitInv, IdleInv, SemaInv, StatusInv, FreedInv, UpSema;
    UpReady(s, id);
    if s.semas[id].waiters == [] {
      UpEmptyWait(s, id);
    } else {
      UpWait(s, id);
    }
    UpSemaInv(s, id);
    UpRest(s, id);
  }

  lemma CreateWait(s: Sys)
    requires WaitInv(s) && s.nextTid !in s.threads
    ensures WaitInv(Created(s))
  {
    hide NoDup;
    var p := Created(s);
    forall i | i in p.semas ensures ListInv(p.threads, i, p.semas[i].waiters) {
      assert ListInv(s.threads, i, s.semas[i].waiters);
    }
    forall t | t in p.threads ensures SleeperInv(p, t, p.threads[t]) {
      assert t in s.threads ==> SleeperInv(s, t, s.threads[t]);
    }
  }

  lemma CreateInv(s: Sys)
    requires Inv(s)
    ensures Inv(Created(s))
  {
    hide WaitInv, SemaInv;
    assert s.nextTid !in s.threads;
    CreateWait(s);
    CreateSema(s);
    var p := Created(s);
    assert forall t :: t in p.ready <==> t in s.ready || t == s.nextTid;
  }

  lemma CreateSema(s: Sys)
    requires SemaInv(s) && s.nextTid !in s.threads
    ensures SemaInv(Created(s))
  {
    assert forall i :: Woken(Created(s).threads, i) == Woken(s.threads, i);
  }

  lemma NewSemaWait(s: Sys, p: Sys, id: SemaId, init: nat)
    requires WaitInv(s) && id !in s.semas && p == s.(semas := s.semas[id := Sema(init, [], init, 0, 0)])
    ensures WaitInv(p)
  {
    forall i | i in p.semas ensures ListInv(p.threads, i, p.semas[i].waiters) {
      assert i in s.semas ==> ListInv(s.threads, i, s.semas[i].waiters);
    }
    forall t | t in p.threads ensures SleeperInv(p, t, p.threads[t]) {
      assert SleeperInv(s, t, s.threads[t]);
    }
  }

  lemma NewSemaInv(s: Sys, id: SemaId, init: nat)
    requires Inv(s) && id !in s.semas
    ensures Inv(s.(semas := s.semas[id := Sema(init, [], init, 0, 0)]))
  {
    hide NoDup, WaitInv;
    NewSemaWait(s, s.(semas := s.semas[id := Sema(init, [], init, 0, 0)]), id, init);
  }

  lemma BecomeIdleInv(s: Sys)
    requires Inv(s) && s.current == IDLE && s.idle == None
    ensures Inv(s.(idle := Some(IDLE)))
  {
    hide NoDup, WaitInv, SemaInv;
    var p := s.(idle := Some(IDLE));
    WaitFrame(s, p, IDLE);
    SemaFrame(s, p, IDLE);
  }

  // ---------------------------------------------------------------- every run

  lemma SimpleInv(s: Sys, a: Act)
    requires Inv(s) && Enabled(s, a) && BeforeSchedule(s, a) == None
    ensures Inv(Simple(s, a))
  {
    hide CoreInv, StatusInv, FreedInv, Take, UpSema, Created;
    match a
    case Create => CreateInv(s);
    case BecomeIdle => BecomeIdleInv(s);
    case NewSema(id, init) => NewSemaInv(s, id, init);
    case Down(id) => TakeInv(s, id);
    case Resume => TakeInv(s, s.threads[s.current].asleepOn.value);
    case TryDown(id) => if s.semas[id].value > 0 { TakeInv(s, id); }
    case Up(id) => UpInv(s, id);
  }

  lemma EnterInv(s: Sys, a: Act)
    requires Inv(s) && Enabled(s, a) && BeforeSchedule(s, a).Some?
    ensures EntryInv(BeforeSchedule(s, a).value)
  {
    hide ReadyInv, WaitInv, SemaInv, StatusInv, FreedInv, EntryInv, Sleep;
    match a
    case Yield => EnterYield(s);
    case Exit => EnterExit(s);
    case IdleBlock => EnterIdleBlock(s);
    case Down(id) => EnterSleep(s, id);
    case Resume => EnterSleep(s, s.threads[s.current].asleepOn.value);
  }

  lemma NextInv(s: Sys, a: Act)
    requires Inv(s)
    ensures Inv(Next(s, a))
  {
    hide Inv, EntryInv, Schedule, Simple, BeforeSchedule, CanSchedule;
    if Enabled(s, a) {
      if BeforeSchedule(s, a) == None {
        SimpleInv(s, a);
      } else {
        EnterInv(s, a);
        ScheduleInv(BeforeSchedule(s, a).value);
        EntryCurrent(BeforeSchedule(s, a).value);
      }
    }
  }

  lemma EntryCurrent(s: Sys)
    requires EntryInv(s)
    ensures s.current in s.threads
  {
  }

  lemma BootInv()
    ensures Inv(Boot())
  {
    var s := Boot();
    assert forall t :: t in s.ready <==> t == IDLE;
    assert ListInv(s.threads, 0, []);
  }

  lemma {:induction false} RunInv(acts: seq<Act>)
    ensures Inv(Run(Boot(), acts))
    decreases |acts|
  {
    if acts == [] {
      BootInv();
    } else {
      RunInv(acts[..|acts| - 1]);
      NextInv(Run(Boot(), acts[..|acts| - 1]), acts[|acts| - 1]);
    }
  }

  // ---------------------------------------------------------------- what the invariant means

  /** In every run: the thread schedule() switched to is RUNNING, and nobody else is. */
  lemma OneRunning(acts: seq<Act>, t: Tid)
    ensures var s := Run(Boot(), acts);
      s.current in s.threads && (t in s.threads ==> (s.threads[t].status == Running <==> t == s.current))
  {
    RunInv(acts);
  }

  /** In every run: a thread's list element is on at most one of the ready list and the semaphores'
      lists, at most once; READY threads other than the idle thread are on the ready list, BLOCKED
      ones other than the idle thread on the list of the semaphore they sleep on. */
  lemma ElemOnOneList(acts: seq<Act>, t: Tid)
    ensures var s := Run(Boot(), acts);
      && NoDup(s.ready)
      && (forall id :: id in s.semas ==> NoDup(s.semas[id].waiters))
      && (forall id :: id in s.semas && t in s.semas[id].waiters ==> t !in s.ready)
      && (forall i, j :: i in s.semas && j in s.semas && t in s.semas[i].waiters && t in s.semas[j].waiters ==> i == j)
      && (t in s.threads && s.idle != Some(t) ==>
            && (s.threads[t].status == Ready <==> t in s.ready)
            && (s.threads[t].status == Blocked <==> exists id :: id in s.semas && t in s.semas[id].waiters))
  {
    RunInv(acts);
    var s := Run(Boot(), acts);
    hide SemaInv, StatusInv, FreedInv, IdleInv;
    forall id | id in s.semas
      ensures NoDup(s.semas[id].waiters)
      ensures t in s.semas[id].waiters ==> t in s.threads && s.threads[t] == Thread(Blocked, Some(id))
    {
      assert ListInv(s.threads, id, s.semas[id].waiters);
    }
    if t in s.threads {
      assert SleeperInv(s, t, s.threads[t]);
    }
  }

  /** In every run: a semaphore's value is its initial value plus ups minus completed downs, and
      while threads sleep on it, each unit of its value has a woken thread on its way to take it. */
  lemma NoLostWakeUp(acts: seq<Act>, id: SemaId)
    ensures var s := Run(Boot(), acts);
      id in s.semas ==>
        && s.semas[id].value == s.semas[id].initial + s.semas[id].ups - s.semas[id].downs
        && (s.semas[id].waiters != [] ==> s.semas[id].value <= |Woken(s.threads, id)|)
  {
    RunInv(acts);
  }

  /** In every run: whenever schedule() is called it has a live thread to switch to, and it turns
      to the idle thread only if no other thread is READY. */
  lemma ScheduleNeverFails(acts: seq<Act>, a: Act)
    ensures var s := Run(Boot(), acts);
      Enabled(s, a) && BeforeSchedule(s, a).Some? ==>
        var p := BeforeSchedule(s, a).value;
        && CanSchedule(p) && p.current in p.threads && p.threads[Pick(p)].status != Dying
        && (Some(Pick(p)) == p.idle ==>
              forall t :: t in p.threads && t != Pick(p) ==> p.threads[t].status != Ready)
  {
    RunInv(acts);
    var s := Run(Boot(), acts);
    if Enabled(s, a) && BeforeSchedule(s, a).Some? {
      var p := BeforeSchedule(s, a).value;
      hide Inv, SemaInv, WaitInv;
      EnterInv(s, a);
      ScheduleFinds(p);
      PickIdle(p);
    }
  }

  lemma PickIdle(p: Sys)
    requires EntryInv(p) && CanSchedule(p)
    ensures Some(Pick(p)) == p.idle ==> forall t :: t in p.threads && t != Pick(p) ==> p.threads[t].status != Ready
  {
    hide SemaInv, WaitInv, NoDup;
    assert p.ready != [] ==> p.ready[0] in p.ready;
  }

  /** In every run: each exited thread's page is freed exactly once and in order of exit, by the
      thread that runs next; the initial thread's page never is, and no freed thread is listed. */
  lemma FreedOnce(acts: seq<Act>, t: Tid)
    ensures var s := Run(Boot(), acts);
      && NoDup(s.freed)
      && (t in s.freed <==> t in s.exited && t != MAIN)
      && (t in s.freed ==> t !in s.threads)
      && s.freed == Without(s.exited, MAIN)
  {
    RunInv(acts);
    var s := Run(Boot(), acts);
    hide CoreInv, StatusInv;
    WithoutIs(s.exited, MAIN);
  }

  lemma {:induction false} WithoutIs(q: seq<Tid>, t: Tid)
    requires NoDup(q)
    ensures NoDup(Without(q, t))
    ensures forall u :: u in Without(q, t) <==> u in q && u != t
  {
    if q != [] {
      var r, x := q[..|q| - 1], q[|q| - 1];
      assert q == r + [x];
      assert x !in r;
      WithoutIs(r, t);
    }
  }

  // ---------------------------------------------------------------- first in, first out

  /** One step takes a ready thread one place forward if it picks a thread, and moves it nowhere
      if it does not. */
  lemma FifoStep(s: Sys, a: Act, k: nat)
    requires Inv(s) && k < |s.ready|
    ensures var s' := Next(s, a);
      || (s'.picks == s.picks && k < |s'.ready| && s'.ready[k] == s.ready[k])
      || (s'.picks == s.picks + 1 && k == 0 && s'.current == s.ready[0])
      || (s'.picks == s.picks + 1 && 0 < k <= |s'.ready| && s'.ready[k - 1] == s.ready[k])
  {
    if Enabled(s, a) {
      if BeforeSchedule(s, a) == None {
        FifoSimple(s, a);
      } else {
        var p := BeforeSchedule(s, a).value;
        FifoBefore(s, a);
        hide Inv, EntryInv, BeforeSchedule, Enabled;
        EnterInv(s, a);
        ScheduleInv(p);
        EntryCurrent(p);
        FifoSchedule(p);
      }
    }
  }

  lemma FifoSimple(s: Sys, a: Act)
    requires Enabled(s, a) && BeforeSchedule(s, a) == None
    ensures s.ready <= Simple(s, a).ready && Simple(s, a).picks == s.picks
  {
  }

  lemma FifoBefore(s: Sys, a: Act)
    requires Enabled(s, a) && BeforeSchedule(s, a).Some?
    ensures var p := BeforeSchedule(s, a).value; s.ready <= p.ready && p.picks == s.picks
  {
  }

  lemma FifoSchedule(p: Sys)
    requires CanSchedule(p) && p.current in p.threads
    ensures var s' := Schedule(p);
      && s'.picks == p.picks + 1
      && s'.ready == (if p.ready == [] then [] else p.ready[1..])
      && (p.ready != [] ==> s'.current == p.ready[0])
  {
  }

  lemma {:induction false} PicksGrow(s: Sys, acts: seq<Act>)
    ensures Run(s, acts).picks >= s.picks
    decreases |acts|
  {
    if acts != [] {
      PicksGrow(s, acts[..|acts| - 1]);
      NextPicks(Run(s, acts[..|acts| - 1]), acts[|acts| - 1]);
    }
  }

  lemma NextPicks(s: Sys, a: Act)
    ensures s.picks <= Next(s, a).picks <= s.picks + 1
  {
    if Enabled(s, a) {
      if BeforeSchedule(s, a) == None {
        FifoSimple(s, a);
      } else {
        FifoBefore(s, a);
      }
    }
  }

  /** From any state that satisfies the invariant, over any run: a thread at position k of the ready
      list is at position k - d after d picks, as long as d is at most k. */
  lemma {:induction false} FifoRun(s: Sys, acts: seq<Act>, k: nat)
    requires Inv(s) && k < |s.ready|
    ensures var s' := Run(s, acts); var d := s'.picks - s.picks;
      && Inv(s')
      && 0 <= d
      && (d <= k ==> k - d < |s'.ready| && s'.ready[k - d] == s.ready[k])
    decreases |acts|
  {
    hide Inv, Next;
    PicksGrow(s, acts);
    if acts != [] {
      var m := Run(s, acts[..|acts| - 1]);
      var a := acts[|acts| - 1];
      FifoRun(s, acts[..|acts| - 1], k);
      NextInv(m, a);
      NextPicks(m, a);
      var d := m.picks - s.picks;
      if d <= k {
        FifoStep(m, a, k - d);
      }
    }
  }

  /** ... and it is the thread that runs after exactly the (k + 1)-th pick. */
  lemma FifoPick(s: Sys, acts: seq<Act>, a: Act, k: nat)
    requires Inv(s) && k < |s.ready|
    requires Run(s, acts).picks == s.picks + k && Next(Run(s, acts), a).picks == s.picks + k + 1
    ensures Next(Run(s, acts), a).current == s.ready[k]
  {
    hide Inv, Next;
    FifoRun(s, acts, k);
    FifoStep(Run(s, acts), a, 0);
  }

  // ---------------------------------------------------------------- the code, in place

  lemma FrontIsThread(s: Sys, id: SemaId)
    requires Inv(s) && id in s.semas && s.semas[id].waiters != []
    ensures s.semas[id].waiters[0] in s.threads && s.threads[s.semas[id].waiters[0]].status == Blocked
  {
    assert ListInv(s.threads, id, s.semas[id].waiters);
    assert s.semas[id].waiters[0] in s.semas[id].waiters;
  }

  /** The kernel's globals as thread.c and synch.c update them. Each method is a region with
      interrupts off; its contract is the step it takes in the runs above. */
  class Machine {
    var threads: map<Tid, Thread>
    var ready: seq<Tid>
    var current: Tid
    var idle: Option<Tid>
    var nextTid: Tid
    var semas: map<SemaId, Sema>
    ghost var picks: nat
    ghost var exited: seq<Tid>
    ghost var freed: seq<Tid>

    ghost function State(): Sys
      reads this
    {
      Sys(threads, ready, current, idle, nextTid, semas, picks, exited, freed)
    }

    constructor ()
      ensures State() == Boot() && Inv(State())
    {
      threads := map[MAIN := Thread(Running, None), IDLE := Thread(Ready, None)];
      ready, current, idle, nextTid := [IDLE], MAIN, None, 3;
      semas := map[0 := Sema(0, [], 0, 0, 0)];
      picks, exited, freed := 0, [], [];
      new;
      BootInv();
    }

    method ThreadUnblock(t: Tid)
      requires t in threads && threads[t].status == Blocked
      modifies this
      ensures State() == Unblock(old(State()), t)
    {
      ready := ready + [t];
      threads := threads[t := threads[t].(status := Ready)];
    }

    /** thread_schedule_fifo(): the front of the ready list, which it takes off, or the idle thread. */
    method NextThreadToRun() returns (next: Tid)
      requires EntryInv(State())
      modifies this`ready
      ensures CanSchedule(old(State())) && next == Pick(old(State()))
      ensures ready == if old(ready) == [] then [] else old(ready)[1..]
    {
      ScheduleFinds(State());
      if ready != [] {
        next := ready[0];
        ready := ready[1..];
      } else {
        next := idle.value;
      }
    }

    method DoSchedule()
      requires EntryInv(State())
      modifies this
      ensures CanSchedule(old(State())) && old(current) in old(threads)
      ensures State() == Schedule(old(State())) && Inv(State())
    {
      hide EntryInv, Inv;
      ScheduleInv(State());
      ScheduleFinds(State());
      EntryCurrent(State());
      var cur := current;
      var next := NextThreadToRun();
      current := next;
      picks := picks + 1;
      threads := threads[next := threads[next].(status := Running)];
      if cur != next && threads[cur].status == Dying && cur != MAIN {
        threads := threads - {cur};
        freed := freed + [cur];
      }
    }

    method ThreadYield()
      requires Inv(State()) && Enabled(State(), Yield)
      modifies this
      ensures State() == Next(old(State()), Yield) && Inv(State())
    {
      EnterYield(State());
      if idle != Some(current) {
        ready := ready + [current];
      }
      threads := threads[current := threads[current].(status := Ready)];
      DoSchedule();
    }

    method ThreadExit()
      requires Inv(State()) && Enabled(State(), Exit)
      modifies this
      ensures State() == Next(old(State()), Exit) && Inv(State())
    {
      EnterExit(State());
      exited := exited + [current];
      threads := threads[current := threads[current].(status := Dying)];
      DoSchedule();
    }

    /** One pass of the loop in sema_down(): takes a unit and leaves, or joins the list and blocks. */
    method SemaDownPass(id: SemaId) returns (taken: bool)
      requires Inv(State()) && current != IDLE && id in semas
      requires threads[current].asleepOn == None || threads[current].asleepOn == Some(id)
      modifies this
      ensures taken == (old(semas)[id].value > 0) && Inv(State())
      ensures State() == Next(old(State()), if old(threads)[old(current)].asleepOn == None then Down(id) else Resume)
    {
      hide CoreInv, StatusInv, FreedInv, EntryInv;
      if semas[id].value == 0 {
        EnterSleep(State(), id);
        ScheduleInv(Sleep(State(), id));
        var x := semas[id];
        semas := semas[id := x.(waiters := x.waiters + [current])];
        threads := threads[current := Thread(Blocked, Some(id))];
        DoSchedule();
        taken := false;
      } else {
        TakeInv(State(), id);
        var x := semas[id];
        semas := semas[id := x.(value := x.value - 1, downs := x.downs + 1)];
        threads := threads[current := threads[current].(asleepOn := None)];
        taken := true;
      }
    }

    method SemaUp(id: SemaId)
      requires Inv(State()) && Enabled(State(), Up(id))
      modifies this
      ensures State() == Next(old(State()), Up(id)) && Inv(State())
    {
      hide Inv;
      UpInv(State(), id);
      if semas[id].waiters != [] {
        FrontIsThread(State(), id);
      }
      var x := semas[id];
      if x.waiters != [] {
        semas := semas[id := x.(waiters := x.waiters[1..])];
        ThreadUnblock(x.waiters[0]);
      }
      x := semas[id];
      semas := semas[id := x.(value := x.value + 1, ups := x.ups + 1)];
    }
  }
}
