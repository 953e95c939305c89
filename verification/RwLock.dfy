/** The readers-writers lock of threads/synch.c. */
module RwLock {
  /*
   The writer-preferring readers-writers lock of threads/synch.c, with everything it stands on:
   the guard lock (a binary semaphore plus a holder field), two Mesa condition variables and the
   semaphore that each cond_wait() keeps on its own stack.

   Interrupts are off inside sema_down() and sema_up(), so each pass of the loop in sema_down() and
   each sema_up() is one step; every other statement that touches shared memory is a step of its
   own. A run is an arbitrary sequence of picks of threads, so the theorems below range over every
   interleaving of any number of threads.
   */

  import opened Common

  datatype Role = Reader | Writer

  /** struct semaphore. */
  datatype Sema = Sema(value: nat, waiters: seq<Tid>)

  /** The statement a thread executes next. */
  datatype PC =
    | Out                      // in no call, not holding the readers-writers lock
    // rw_lock_acquire
    | AcqDown(role: Role)      // lock_acquire: one pass of sema_down on the guard
    | AcqOwn(role: Role)       // lock_acquire: holder = current
    | Test(role: Role)         // condition of the while loop
    | Announce(role: Role)     // WR++ or WW++
    | CondPush(role: Role)     // cond_wait: sema_init and list_push_back
    | CondDisown(role: Role)   // lock_release: holder = NULL
    | CondUp(role: Role)       // lock_release: sema_up on the guard
    | CondDown(role: Role)     // cond_wait: one pass of sema_down on the waiter's own semaphore
    | CondReDown(role: Role)   // lock_acquire: one pass of sema_down on the guard
    | CondReOwn(role: Role)    // lock_acquire: holder = current
    | Retract(role: Role)      // WR-- or WW--
    | Enter(role: Role)        // AR++ or AW++
    | AcqDisown(role: Role)    // lock_release: holder = NULL
    | AcqUp(role: Role)        // lock_release: sema_up on the guard
    | Inside(role: Role)       // holds the readers-writers lock, in no call
    // rw_lock_release
    | RelDown(role: Role)
    | RelOwn(role: Role)
    | Leave(role: Role)        // AR-- or AW--
    | RelTest(role: Role)      // whom to wake
    | SigPop                   // cond_signal(write): list_pop_front
    | SigUp(target: Tid)       // cond_signal(write): sema_up
    | BcTest                   // cond_broadcast(read): loop test and list_pop_front
    | BcUp(target: Tid)        // cond_broadcast(read): sema_up
    | RelDisown
    | RelUp

  /** A thread: its next statement, whether it sleeps in thread_block(), the semaphore of its
      cond_wait() frame, and three history counters: waits begun, signals received, waits ended. */
  datatype Thread = Thread(pc: PC, blocked: bool, own: Sema, begun: nat, signalled: nat, ended: nat)

  /** struct rw_lock, and the threads. A semaphore_elem on a condition's list is named by its thread. */
  datatype State = State(
    guard: Sema, holder: Option<Tid>,
    readQ: seq<Tid>, writeQ: seq<Tid>,
    AR: int, WR: int, AW: int, WW: int,
    th: map<Tid, Thread>)

  // ---------------------------------------------------------------- the steps

  function Goto(s: State, t: Tid, pc: PC): State
    requires t in s.th
  {
    s.(th := s.th[t := s.th[t].(pc := pc)])
  }

  function Wake(th: map<Tid, Thread>, w: Tid): map<Tid, Thread> {
    if w in th then th[w := th[w].(blocked := false)] else th
  }

  /** One pass of the loop in sema_down() on the guard. */
  function GuardDown(s: State, t: Tid, next: PC): State
    requires t in s.th
  {
    if s.guard.value == 0 then
      s.(guard := s.guard.(waiters := s.guard.waiters + [t]), th := s.th[t := s.th[t].(blocked := true)])
    else
      Goto(s.(guard := s.guard.(value := s.guard.value - 1)), t, next)
  }

  /** sema_up() on the guard. */
  function GuardUp(s: State, t: Tid, next: PC): State
    requires t in s.th
  {
    var moved := Goto(s, t, next);
    if s.guard.waiters == [] then
      moved.(guard := Sema(s.guard.value + 1, []))
    else
      moved.(guard := Sema(s.guard.value + 1, s.guard.waiters[1..]),
             th := Wake(moved.th, s.guard.waiters[0]))
  }

  /** One pass of the loop in sema_down() on the thread's own semaphore. */
  function OwnDown(s: State, t: Tid, next: PC): State
    requires t in s.th
  {
    var x := s.th[t];
    if x.own.value == 0 then
      s.(th := s.th[t := x.(blocked := true, own := x.own.(waiters := x.own.waiters + [t]))])
    else
      s.(th := s.th[t := x.(pc := next, own := x.own.(value := x.own.value - 1), ended := x.ended + 1)])
  }

  /** sema_up() on the semaphore in the cond_wait() frame of thread w, executed by t. */
  function OwnUp(s: State, t: Tid, w: Tid, next: PC): State
    requires t in s.th
  {
    var moved := Goto(s, t, next);
    if w !in moved.th then moved
    else
      var x := moved.th[w];
      var up := moved.th[w := x.(own := Sema(x.own.value + 1, if x.own.waiters == [] then [] else x.own.waiters[1..]),
                                 signalled := x.signalled + 1)];
      moved.(th := if x.own.waiters == [] then up else Wake(up, x.own.waiters[0]))
  }

  function Queue(s: State, role: Role): seq<Tid> {
    if role.Reader? then s.readQ else s.writeQ
  }

  /** The condition of the while loop in rw_lock_acquire(). */
  predicate MustWait(s: State, role: Role) {
    match role
    case Reader => s.AW + s.WW > 0
    case Writer => s.AR + s.AW > 0
  }

  predicate AtGuardDown(pc: PC) {
    pc.AcqDown? || pc.CondReDown? || pc.RelDown?
  }

  predicate AtGuardUp(pc: PC) {
    pc.CondUp? || pc.AcqUp? || pc.RelUp?
  }

  /** The statement after a sema_down() or a sema_up() on the guard. */
  function AfterGuard(pc: PC): PC
    requires AtGuardDown(pc) || AtGuardUp(pc)
  {
    match pc
    case AcqDown(r) => AcqOwn(r)
    case CondReDown(r) => CondReOwn(r)
    case RelDown(r) => RelOwn(r)
    case CondUp(r) => CondDown(r)
    case AcqUp(r) => Inside(r)
    case RelUp => Out
  }

  /** Statements of the condition variables: they touch a list or a waiter's semaphore. */
  predicate AtCond(pc: PC) {
    pc.CondPush? || pc.CondDown? || pc.SigPop? || pc.SigUp? || pc.BcTest? || pc.BcUp?
  }

  function CondStep(s: State, t: Tid): State
    requires t in s.th && AtCond(s.th[t].pc)
  {
    match s.th[t].pc
    case CondPush(r) =>
      var x := s.th[t].(pc := CondDisown(r), own := Sema(0, []), begun := s.th[t].begun + 1);
      if r.Reader?
      then s.(readQ := s.readQ + [t], th := s.th[t := x])
      else s.(writeQ := s.writeQ + [t], th := s.th[t := x])
    case CondDown(r) => OwnDown(s, t, CondReDown(r))
    case SigPop =>
      if s.writeQ == [] then Goto(s, t, RelDisown)
      else Goto(s.(writeQ := s.writeQ[1..]), t, SigUp(s.writeQ[0]))
    case SigUp(w) => OwnUp(s, t, w, RelDisown)
    case BcTest =>
      if s.readQ == [] then Goto(s, t, RelDisown)
      else Goto(s.(readQ := s.readQ[1..]), t, BcUp(s.readQ[0]))
    case BcUp(w) => OwnUp(s, t, w, BcTest)
  }

  /** Statements that change no semaphore and no list. */
  predicate IsPlain(pc: PC) {
    !AtGuardDown(pc) && !AtGuardUp(pc) && !AtCond(pc)
  }

  function PlainPC(s: State, pc: PC, role: Role): PC
    requires IsPlain(pc)
  {
    match pc
    case Out => AcqDown(role)
    case AcqOwn(r) => Test(r)
    case Test(r) => if MustWait(s, r) then Announce(r) else Enter(r)
    case Announce(r) => CondPush(r)
    case CondDisown(r) => CondUp(r)
    case CondReOwn(r) => Retract(r)
    case Retract(r) => Test(r)
    case Enter(r) => AcqDisown(r)
    case AcqDisown(r) => AcqUp(r)
    case Inside(r) => RelDown(r)
    case RelOwn(r) => Leave(r)
    case Leave(r) => RelTest(r)
    case RelTest(Reader) => if s.AR == 0 && s.WW > 0 then SigPop else RelDisown
    case RelTest(Writer) => if s.WW > 0 then SigPop else if s.WR > 0 then BcTest else RelDisown
    case RelDisown => RelUp
  }

  /** The assignment that a plain statement makes to a field of the lock. */
  function PlainAssign(s: State, t: Tid, pc: PC): State {
    match pc
    case AcqOwn(_) => s.(holder := Some(t))
    case CondReOwn(_) => s.(holder := Some(t))
    case RelOwn(_) => s.(holder := Some(t))
    case CondDisown(_) => s.(holder := None)
    case AcqDisown(_) => s.(holder := None)
    case RelDisown => s.(holder := None)
    case Announce(Reader) => s.(WR := s.WR + 1)
    case Announce(Writer) => s.(WW := s.WW + 1)
    case Retract(Reader) => s.(WR := s.WR - 1)
    case Retract(Writer) => s.(WW := s.WW - 1)
    case Enter(Reader) => s.(AR := s.AR + 1)
    case Enter(Writer) => s.(AW := s.AW + 1)
    case Leave(Reader) => s.(AR := s.AR - 1)
    case Leave(Writer) => s.(AW := s.AW - 1)
    case _ => s
  }

  /** Thread t, which is not blocked, executes its next statement; "role" is the argument of the
      call it makes if it is in none. */
  function Step(s: State, t: Tid, role: Role): State
    requires t in s.th
  {
    var pc := s.th[t].pc;
    if AtGuardDown(pc) then GuardDown(s, t, AfterGuard(pc))
    else if AtGuardUp(pc) then GuardUp(s, t, AfterGuard(pc))
    else if AtCond(pc) then CondStep(s, t)
    else Goto(PlainAssign(s, t, pc), t, PlainPC(s, pc, role))
  }

  /** rw_lock_init(), with the given threads in no call. */
  function Init(ids: set<Tid>): State {
    State(Sema(1, []), None, [], [], 0, 0, 0, 0,
          map t | t in ids :: Thread(Out, false, Sema(0, []), 0, 0, 0))
  }

  /** A pick of the scheduler: a thread, and the call it makes if it is free to choose. */
  datatype Pick = Pick(tid: Tid, role: Role)

  /** A pick of a thread that does not exist or sleeps changes nothing. */
  function Next(s: State, p: Pick): State {
    if p.tid in s.th && !s.th[p.tid].blocked then Step(s, p.tid, p.role) else s
  }

  function Run(s: State, picks: seq<Pick>): State
    decreases |picks|
  {
    if picks == [] then s else Next(Run(s, picks[..|picks| - 1]), picks[|picks| - 1])
  }

  // ---------------------------------------------------------------- the invariant

  /** Between its sema_down() and its sema_up() on the guard. */
  predicate HasGuard(pc: PC) {
    !(pc.Out? || pc.AcqDown? || pc.CondDown? || pc.CondReDown? || pc.Inside? || pc.RelDown?)
  }

  /** Recorded in the guard's holder field. */
  predicate IsHolder(pc: PC) {
    HasGuard(pc) && !(pc.AcqOwn? || pc.CondReOwn? || pc.RelOwn? || pc.CondUp? || pc.AcqUp? || pc.RelUp?)
  }

  /** In cond_wait(), on the list or past it, not yet past its own semaphore. */
  predicate InWait(pc: PC, role: Role) {
    (pc.CondDisown? || pc.CondUp? || pc.CondDown?) && pc.role == role
  }

  predicate InAnyWait(pc: PC) {
    pc.CondDisown? || pc.CondUp? || pc.CondDown?
  }

  /** Counted in AR or AW. */
  predicate Active(pc: PC, role: Role) {
    (pc.AcqDisown? || pc.AcqUp? || pc.Inside? || pc.RelDown? || pc.RelOwn? || pc.Leave?) && pc.role == role
  }

  /** Counted in WR or WW. */
  predicate Waiting(pc: PC, role: Role) {
    (pc.CondPush? || InAnyWait(pc) || pc.CondReDown? || pc.CondReOwn? || pc.Retract?) && pc.role == role
  }

  predicate IsSignal(pc: PC, role: Role) {
    if role.Writer? then pc.SigUp? else pc.BcUp?
  }

  /** The statement of the thread in the guard's holder field. */
  function HolderPC(s: State): PC {
    if s.holder.Some? && s.holder.value in s.th then s.th[s.holder.value].pc else Out
  }

  /** The waiter that a signaller has taken off the list and not yet signalled. */
  function Chosen(s: State, role: Role): Option<Tid> {
    if IsSignal(HolderPC(s), role) then Some(HolderPC(s).target) else None
  }

  /** The guard is a lock: value 1 and nobody past it, or value 0 and exactly one thread past it;
      the holder field names that thread while it is set. */
  ghost predicate GuardInv(s: State) {
    && s.guard.value <= 1
    && (s.guard.value == 1 ==> forall t :: t in s.th ==> !HasGuard(s.th[t].pc))
    && (s.guard.value == 0 ==> exists t :: t in s.th && HasGuard(s.th[t].pc))
    && (forall t, u :: t in s.th && u in s.th && HasGuard(s.th[t].pc) && HasGuard(s.th[u].pc) ==> t == u)
    && (forall t :: t in s.th ==> (s.holder == Some(t) <==> IsHolder(s.th[t].pc)))
    && (s.holder.Some? ==> s.holder.value in s.th)
  }

  /** Sleepers and semaphore lists agree, and no wake-up is lost. */
  ghost predicate SleepInv(s: State) {
    && NoDup(s.guard.waiters)
    && (forall t :: t in s.guard.waiters ==> t in s.th)
    && (forall t :: t in s.th ==> (t in s.guard.waiters <==> s.th[t].blocked && AtGuardDown(s.th[t].pc)))
    && (forall t :: t in s.th && s.th[t].blocked ==> AtGuardDown(s.th[t].pc) || s.th[t].pc.CondDown?)
    && (forall t :: t in s.th ==>
          s.th[t].own.waiters == (if s.th[t].blocked && s.th[t].pc.CondDown? then [t] else []))
    && (forall t :: t in s.th && s.th[t].blocked && s.th[t].pc.CondDown? ==> s.th[t].own.value == 0)
    && (s.guard.value == 1 && s.guard.waiters != [] ==>
          exists t :: t in s.th && !s.th[t].blocked && AtGuardDown(s.th[t].pc))
  }

  /** A thread in cond_wait() is in exactly one of three places: on the list, chosen by a signaller
      that has not yet raised its semaphore, or signalled. */
  ghost predicate CondInv(s: State, role: Role) {
    && NoDup(Queue(s, role))
    && (forall t :: t in Queue(s, role) ==> t in s.th && InWait(s.th[t].pc, role) && s.th[t].own.value == 0)
    && (Chosen(s, role).Some? ==>
          var w := Chosen(s, role).value;
          w in s.th && s.th[w].pc == CondDown(role) && s.th[w].own.value == 0 && w !in Queue(s, role))
    && (forall t :: t in s.th && InWait(s.th[t].pc, role) ==>
          && s.th[t].own.value <= 1
          && (s.th[t].own.value == 0 ==> t in Queue(s, role) || Chosen(s, role) == Some(t))
          && (s.th[t].own.value == 1 ==> s.th[t].pc == CondDown(role) && t !in Queue(s, role)))
  }

  /** Waits end only by signals: one signal for each wait, none spurious, none lost. */
  ghost predicate HistoryInv(s: State) {
    forall t :: t in s.th ==> HistoryOf(s.th[t])
  }

  ghost predicate HistoryOf(x: Thread) {
    && x.begun == x.ended + (if InAnyWait(x.pc) then 1 else 0)
    && x.signalled == x.ended + (if InAnyWait(x.pc) then x.own.value else 0)
  }

  /** The threads that are active, or waiting, in a role. */
  datatype Kind = Act(role: Role) | Wait(role: Role)

  predicate Counted(pc: PC, k: Kind) {
    match k
    case Act(r) => Active(pc, r)
    case Wait(r) => Waiting(pc, r)
  }

  function Members(th: map<Tid, Thread>, k: Kind): set<Tid> {
    set t | t in th && Counted(th[t].pc, k)
  }

  function Counter(s: State, k: Kind): int {
    match k
    case Act(Reader) => s.AR
    case Act(Writer) => s.AW
    case Wait(Reader) => s.WR
    case Wait(Writer) => s.WW
  }

  /** The four counters count threads. */
  ghost predicate CountInv(s: State) {
    forall k :: Counter(s, k) == |Members(s.th, k)|
  }

  /** At most one writer or any number of readers are active, and the guard's holder knows what
      its last test of the counters said. */
  ghost predicate TestedInv(s: State) {
    && 0 <= s.AR && 0 <= s.AW <= 1 && (s.AW == 1 ==> s.AR == 0)
    && match HolderPC(s)
       case Announce(r) => MustWait(s, r)
       case CondPush(r) => MustWait(s, r)
       case Enter(r) => !MustWait(s, r)
       case _ => true
  }

  /** A thread at one of these statements is about to restore the reason for readers to wait, or
      to wake them all. */
  predicate MendsReaders(pc: PC) {
    pc == RelTest(Writer) || pc.BcTest? || pc.BcUp? || pc == Test(Writer) || pc == Announce(Writer) || pc == Enter(Writer)
  }

  /** The same for writers. */
  predicate MendsWriters(pc: PC) {
    pc.RelTest? || pc.SigPop? || pc == Test(Writer) || pc == Enter(Writer)
  }

  /** Nobody on a condition's list is stranded. */
  ghost predicate WakerInv(s: State) {
    && (s.readQ != [] ==> s.AW + s.WW > 0 || MendsReaders(HolderPC(s)))
    && (s.writeQ != [] ==> s.AR + s.AW > 0 || s.WW > |s.writeQ| || MendsWriters(HolderPC(s)))
  }

  ghost predicate Inv(s: State) {
    && GuardInv(s)
    && SleepInv(s)
    && CondInv(s, Reader)
    && CondInv(s, Writer)
    && HistoryInv(s)
    && CountInv(s)
    && TestedInv(s)
    && WakerInv(s)
  }

  // ---------------------------------------------------------------- kinds of steps

  /** The threads are the same and only t may be at another statement. */
  ghost predicate OnlyMoves(s: State, s': State, t: Tid) {
    && t in s.th
    && s'.th.Keys == s.th.Keys
    && forall u :: u in s.th && u != t ==> s'.th[u].pc == s.th[u].pc
  }

  lemma OwnUpMovesOne(s: State, t: Tid, w: Tid, q: PC)
    requires t in s.th
    ensures OnlyMoves(s, OwnUp(s, t, w, q), t)
    ensures OwnUp(s, t, w, q).th[t].pc == q
  {
  }

  lemma GuardUpMovesOne(s: State, t: Tid, q: PC)
    requires t in s.th
    ensures OnlyMoves(s, GuardUp(s, t, q), t)
    ensures GuardUp(s, t, q).th[t].pc == q
  {
  }

  lemma CondMovesOne(s: State, t: Tid)
    requires t in s.th && AtCond(s.th[t].pc)
    ensures OnlyMoves(s, CondStep(s, t), t)
  {
    match s.th[t].pc
    case SigUp(w) => OwnUpMovesOne(s, t, w, RelDisown);
    case BcUp(w) => OwnUpMovesOne(s, t, w, BcTest);
    case _ =>
  }

  lemma StepMovesOne(s: State, t: Tid, role: Role)
    requires t in s.th
    ensures OnlyMoves(s, Step(s, t, role), t)
  {
    var pc := s.th[t].pc;
    if AtGuardUp(pc) {
      GuardUpMovesOne(s, t, AfterGuard(pc));
    } else if AtCond(pc) {
      CondMovesOne(s, t);
    } else if IsPlain(pc) {
      assert PlainAssign(s, t, pc).th == s.th;
    }
  }

  // ---------------------------------------------------------------- preservation: the guard

  /** How a step may change the guard and its holder field. */
  ghost predicate GuardSide(s: State, s': State, t: Tid)
    requires t in s.th && t in s'.th
  {
    var p, q := s.th[t].pc, s'.th[t].pc;
    && (|| (s'.guard.value == s.guard.value && HasGuard(p) == HasGuard(q))
        || (s'.guard.value == s.guard.value - 1 && !HasGuard(p) && HasGuard(q))
        || (s'.guard.value == s.guard.value + 1 && HasGuard(p) && !HasGuard(q)))
    && (|| (s'.holder == s.holder && IsHolder(p) == IsHolder(q))
        || (s'.holder == Some(t) && IsHolder(q) && HasGuard(p))
        || (s'.holder == None && IsHolder(p) && !IsHolder(q)))
  }

  lemma CondGuardSide(s: State, t: Tid)
    requires t in s.th && AtCond(s.th[t].pc)
    ensures t in CondStep(s, t).th && GuardSide(s, CondStep(s, t), t)
  {
    match s.th[t].pc
    case SigUp(w) => OwnUpMovesOne(s, t, w, RelDisown);
    case BcUp(w) => OwnUpMovesOne(s, t, w, BcTest);
    case _ =>
  }

  lemma StepGuardSide(s: State, t: Tid, role: Role)
    requires t in s.th
    ensures t in Step(s, t, role).th && GuardSide(s, Step(s, t, role), t)
  {
    var pc := s.th[t].pc;
    if AtGuardUp(pc) {
      GuardUpMovesOne(s, t, AfterGuard(pc));
    } else if AtCond(pc) {
      CondGuardSide(s, t);
    }
  }

  lemma GuardFrame(s: State, s': State, t: Tid)
    requires GuardInv(s) && OnlyMoves(s, s', t) && GuardSide(s, s', t)
    ensures GuardInv(s')
  {
    if s'.guard.value == 0 {
      var h :| h in s.th && HasGuard(s'.th[h].pc);
    }
  }

  lemma StepGuard(s: State, t: Tid, role: Role)
    requires GuardInv(s) && t in s.th
    ensures GuardInv(Step(s, t, role))
  {
    StepMovesOne(s, t, role);
    StepGuardSide(s, t, role);
    GuardFrame(s, Step(s, t, role), t);
  }

  // ---------------------------------------------------------------- preservation: sleepers

  lemma SleepPlain(s: State, s': State, t: Tid, q: PC)
    requires SleepInv(s) && t in s.th && !s.th[t].blocked
    requires !AtGuardDown(s.th[t].pc) && !s.th[t].pc.CondDown?
    requires s'.guard == s.guard && s'.th == s.th[t := s.th[t].(pc := q)]
    ensures SleepInv(s')
  {
    if s.guard.value == 1 && s.guard.waiters != [] {
      var u :| u in s.th && !s.th[u].blocked && AtGuardDown(s.th[u].pc);
      assert s'.th[u] == s.th[u];
    }
  }

  lemma SleepGuardDown(s: State, t: Tid, q: PC)
    requires GuardInv(s) && SleepInv(s) && t in s.th && !s.th[t].blocked && AtGuardDown(s.th[t].pc) && HasGuard(q)
    ensures SleepInv(GuardDown(s, t, q))
  {
  }

  /** The woken thread is unblocked and off the list, and keeps the wake-up from being lost. */
  lemma SleepWake(s: State, value: nat)
    requires SleepInv(s) && s.guard.waiters != []
    ensures var w := s.guard.waiters[0];
      SleepInv(s.(guard := Sema(value, s.guard.waiters[1..]), th := Wake(s.th, w)))
  {
    var w := s.guard.waiters[0];
    TailNoDup(s.guard.waiters);
    assert w in s.guard.waiters;
    var th' := Wake(s.th, w);
    assert !th'[w].blocked && AtGuardDown(th'[w].pc);
  }

  lemma SleepGuardUp(s: State, t: Tid, q: PC)
    requires SleepInv(s) && t in s.th && !s.th[t].blocked
    requires HasGuard(s.th[t].pc)
    ensures SleepInv(GuardUp(s, t, q))
  {
    var m := Goto(s, t, q);
    SleepPlain(s, m, t, q);
    if s.guard.waiters != [] {
      SleepWake(m, s.guard.value + 1);
    }
  }

  lemma SleepPush(s: State, t: Tid)
    requires SleepInv(s) && t in s.th && !s.th[t].blocked && s.th[t].pc.CondPush?
    ensures SleepInv(CondStep(s, t))
  {
    var s' := CondStep(s, t);
    if s.guard.value == 1 && s.guard.waiters != [] {
      var u :| u in s.th && !s.th[u].blocked && AtGuardDown(s.th[u].pc);
      assert s'.th[u] == s.th[u];
    }
  }

  lemma SleepOwnDown(s: State, t: Tid)
    requires SleepInv(s) && t in s.th && !s.th[t].blocked && s.th[t].pc.CondDown?
    ensures SleepInv(CondStep(s, t))
  {
    var s' := CondStep(s, t);
    if s.guard.value == 1 && s.guard.waiters != [] {
      var u :| u in s.th && !s.th[u].blocked && AtGuardDown(s.th[u].pc);
      assert s'.th[u] == s.th[u];
    }
  }

  /** The signalled thread, asleep or about to sleep, ends up awake with its semaphore raised. */
  lemma OwnUpEffect(s: State, t: Tid, w: Tid, q: PC)
    requires SleepInv(s) && t in s.th && w in s.th && w != t && s.th[w].pc.CondDown?
    ensures var x := s.th[w];
      OwnUp(s, t, w, q) == s.(th := s.th[t := s.th[t].(pc := q)]
        [w := x.(own := Sema(x.own.value + 1, []), signalled := x.signalled + 1, blocked := false)])
  {
    var x := s.th[w];
    assert x.own.waiters == if x.blocked then [w] else [];
    var y := x.(own := Sema(x.own.value + 1, []), signalled := x.signalled + 1);
    assert x.blocked ==> x.own.waiters[1..] == [];
    assert OwnUp(s, t, w, q).th == s.th[t := s.th[t].(pc := q)][w := y.(blocked := false)];
  }

  lemma SleepOwnUp(s: State, t: Tid, w: Tid, q: PC)
    requires SleepInv(s) && t in s.th && !s.th[t].blocked && AtCond(s.th[t].pc) && !s.th[t].pc.CondDown?
    requires w in s.th && w != t && s.th[w].pc.CondDown?
    ensures SleepInv(OwnUp(s, t, w, q))
  {
    OwnUpEffect(s, t, w, q);
    var m := Goto(s, t, q);
    SleepPlain(s, m, t, q);
    var s' := OwnUp(s, t, w, q);
    if s.guard.value == 1 && s.guard.waiters != [] {
      var u :| u in m.th && !m.th[u].blocked && AtGuardDown(m.th[u].pc);
      assert s'.th[u] == m.th[u];
    }
  }

  lemma SleepCondStep(s: State, t: Tid)
    requires GuardInv(s) && SleepInv(s) && CondInv(s, Reader) && CondInv(s, Writer)
    requires t in s.th && !s.th[t].blocked && AtCond(s.th[t].pc)
    ensures SleepInv(CondStep(s, t))
  {
    match s.th[t].pc
    case CondPush(_) => SleepPush(s, t);
    case CondDown(_) => SleepOwnDown(s, t);
    case SigPop => SleepPlain(s, CondStep(s, t), t, CondStep(s, t).th[t].pc);
    case BcTest => SleepPlain(s, CondStep(s, t), t, CondStep(s, t).th[t].pc);
    case SigUp(w) =>
      SleepOwnUp(s, t, w, RelDisown);
    case BcUp(w) =>
      SleepOwnUp(s, t, w, BcTest);
  }

  lemma StepSleep(s: State, t: Tid, role: Role)
    requires GuardInv(s) && SleepInv(s) && CondInv(s, Reader) && CondInv(s, Writer)
    requires t in s.th && !s.th[t].blocked
    ensures SleepInv(Step(s, t, role))
  {
    hide GuardInv, SleepInv, CondInv;
    var pc := s.th[t].pc;
    if AtGuardDown(pc) {
      SleepGuardDown(s, t, AfterGuard(pc));
    } else if AtGuardUp(pc) {
      SleepGuardUp(s, t, AfterGuard(pc));
    } else if AtCond(pc) {
      SleepCondStep(s, t);
    } else {
      SleepPlain(s, Step(s, t, role), t, PlainPC(s, pc, role));
    }
  }

  // ---------------------------------------------------------------- preservation: condition lists

  /** The holder's statement after a step of a thread past the guard, and of one that is not. */
  lemma HolderFrame(s: State, s': State, t: Tid)
    requires GuardInv(s) && OnlyMoves(s, s', t) && GuardSide(s, s', t)
    ensures var p, q := s.th[t].pc, s'.th[t].pc;
      if HasGuard(p)
      then HolderPC(s) == (if IsHolder(p) then p else Out) && HolderPC(s') == (if IsHolder(q) then q else Out)
      else HolderPC(s') == HolderPC(s)
  {
    GuardFrame(s, s', t);
  }

  /** A step that touches neither the list nor a semaphore of a thread waiting in this role. */
  lemma CondFrame(s: State, s': State, t: Tid, role: Role)
    requires CondInv(s, role) && OnlyMoves(s, s', t)
    requires Queue(s', role) == Queue(s, role) && Chosen(s', role) == Chosen(s, role)
    requires forall u :: u in s.th && InWait(s.th[u].pc, role) ==> s'.th[u].own.value == s.th[u].own.value
    requires InWait(s.th[t].pc, role) == InWait(s'.th[t].pc, role)
    requires s'.th[t].pc == s.th[t].pc || s.th[t].pc != CondDown(role)
    ensures CondInv(s', role)
  {
  }

  /** cond_wait() puts itself on the list. */
  lemma CondPushed(s: State, s': State, t: Tid, role: Role)
    requires CondInv(s, role) && OnlyMoves(s, s', t)
    requires s.th[t].pc == CondPush(role) && s'.th[t].pc == CondDisown(role) && s'.th[t].own.value == 0
    requires Queue(s', role) == Queue(s, role) + [t]
    requires Chosen(s, role) == None && Chosen(s', role) == None
    requires forall u :: u in s.th && u != t ==> s'.th[u].own.value == s.th[u].own.value
    ensures CondInv(s', role)
  {
    assert t !in Queue(s, role);
    assert forall u :: u in Queue(s', role) <==> u in Queue(s, role) || u == t;
  }

  /** A signalled thread passes its semaphore. */
  lemma CondPassed(s: State, s': State, t: Tid, role: Role)
    requires CondInv(s, role) && OnlyMoves(s, s', t)
    requires s.th[t].pc == CondDown(role) && s.th[t].own.value > 0 && !InWait(s'.th[t].pc, role)
    requires Queue(s', role) == Queue(s, role) && Chosen(s', role) == Chosen(s, role)
    requires forall u :: u in s.th && u != t ==> s'.th[u].own.value == s.th[u].own.value
    ensures CondInv(s', role)
  {
  }

  /** A signaller takes the first waiter off the list: it is past its release of the guard. */
  lemma CondPopped(s: State, s': State, t: Tid, role: Role)
    requires GuardInv(s) && CondInv(s, role) && OnlyMoves(s, s', t)
    requires HasGuard(s.th[t].pc) && !InAnyWait(s.th[t].pc) && !InAnyWait(s'.th[t].pc)
    requires Queue(s, role) != [] && Queue(s', role) == Queue(s, role)[1..]
    requires Chosen(s, role) == None && Chosen(s', role) == Some(Queue(s, role)[0])
    requires forall u :: u in s.th ==> s'.th[u].own.value == s.th[u].own.value
    ensures CondInv(s', role)
  {
    var w := Queue(s, role)[0];
    assert w in Queue(s, role);
    TailNoDup(Queue(s, role));
  }

  /** A signaller raises the semaphore of the waiter it chose. */
  lemma CondRaised(s: State, s': State, t: Tid, role: Role)
    requires CondInv(s, role) && OnlyMoves(s, s', t)
    requires Chosen(s, role).Some? && Chosen(s', role) == None && Queue(s', role) == Queue(s, role)
    requires !InAnyWait(s.th[t].pc) && !InAnyWait(s'.th[t].pc)
    requires forall u :: u in s.th ==>
      s'.th[u].own.value == s.th[u].own.value + if Some(u) == Chosen(s, role) then 1 else 0
    ensures CondInv(s', role)
  {
  }

  lemma PushEffect(s: State, t: Tid, role: Role)
    requires GuardInv(s) && t in s.th && s.th[t].pc.CondPush?
    ensures var s' := CondStep(s, t);
      && OnlyMoves(s, s', t)
      && s'.th[t].pc == CondDisown(s.th[t].pc.role) && s'.th[t].own.value == 0
      && Chosen(s, role) == None && Chosen(s', role) == None
      && Queue(s', role) == Queue(s, role) + (if s.th[t].pc.role == role then [t] else [])
      && forall u :: u in s.th && u != t ==> s'.th[u].own.value == s.th[u].own.value
  {
    CondMovesOne(s, t);
    CondGuardSide(s, t);
    HolderFrame(s, CondStep(s, t), t);
  }

  lemma CondStepPush(s: State, t: Tid, role: Role)
    requires GuardInv(s) && CondInv(s, role) && t in s.th && s.th[t].pc.CondPush?
    ensures CondInv(CondStep(s, t), role)
  {
    PushEffect(s, t, role);
    if s.th[t].pc.role == role {
      CondPushed(s, CondStep(s, t), t, role);
    } else {
      CondFrame(s, CondStep(s, t), t, role);
    }
  }

  lemma CondStepDown(s: State, t: Tid, role: Role)
    requires GuardInv(s) && CondInv(s, role) && t in s.th && s.th[t].pc.CondDown?
    ensures CondInv(CondStep(s, t), role)
  {
    var s' := CondStep(s, t);
    CondMovesOne(s, t);
    CondGuardSide(s, t);
    HolderFrame(s, s', t);
    if s.th[t].pc.role == role && s.th[t].own.value > 0 {
      CondPassed(s, s', t, role);
    } else {
      CondFrame(s, s', t, role);
    }
  }

  predicate AtPop(pc: PC, role: Role) {
    if role.Writer? then pc.SigPop? else pc.BcTest?
  }

  lemma PopEffect(s: State, t: Tid, role: Role)
    requires GuardInv(s) && t in s.th && (s.th[t].pc.SigPop? || s.th[t].pc.BcTest?)
    ensures var s' := CondStep(s, t);
      && OnlyMoves(s, s', t) && !InAnyWait(s'.th[t].pc)
      && Chosen(s, role) == None
      && (forall u :: u in s.th ==> s'.th[u].own.value == s.th[u].own.value)
      && if AtPop(s.th[t].pc, role) && Queue(s, role) != []
         then Queue(s', role) == Queue(s, role)[1..] && Chosen(s', role) == Some(Queue(s, role)[0])
         else Queue(s', role) == Queue(s, role) && Chosen(s', role) == None
  {
    hide GuardInv;
    CondMovesOne(s, t);
    CondGuardSide(s, t);
    HolderFrame(s, CondStep(s, t), t);
  }

  lemma CondStepPop(s: State, t: Tid, role: Role)
    requires GuardInv(s) && CondInv(s, role) && t in s.th && (s.th[t].pc.SigPop? || s.th[t].pc.BcTest?)
    ensures CondInv(CondStep(s, t), role)
  {
    hide GuardInv, CondInv, CondStep, Chosen;
    PopEffect(s, t, role);
    if AtPop(s.th[t].pc, role) && Queue(s, role) != [] {
      CondPopped(s, CondStep(s, t), t, role);
    } else {
      CondFrame(s, CondStep(s, t), t, role);
    }
  }

  predicate AtUp(pc: PC, w: Tid, q: PC, r: Role) {
    if r.Writer? then pc == SigUp(w) && q == RelDisown else pc == BcUp(w) && q == BcTest
  }

  lemma UpEffect(s: State, t: Tid, w: Tid, q: PC, r: Role, role: Role)
    requires GuardInv(s) && SleepInv(s) && t in s.th && AtUp(s.th[t].pc, w, q, r)
    requires w in s.th && s.th[w].pc == CondDown(r)
    ensures var s' := OwnUp(s, t, w, q);
      && OnlyMoves(s, s', t) && s'.th[t].pc == q
      && Chosen(s, role) == (if r == role then Some(w) else None) && Chosen(s', role) == None
      && Queue(s', role) == Queue(s, role)
      && forall u :: u in s.th ==> s'.th[u].own.value == s.th[u].own.value + if u == w then 1 else 0
  {
    hide GuardInv, SleepInv;
    OwnUpMovesOne(s, t, w, q);
    OwnUpEffect(s, t, w, q);
    HolderFrame(s, OwnUp(s, t, w, q), t);
  }

  lemma ChosenByHolder(s: State, t: Tid, w: Tid, q: PC, r: Role)
    requires GuardInv(s) && CondInv(s, r) && t in s.th && AtUp(s.th[t].pc, w, q, r)
    ensures Chosen(s, r) == Some(w) && w in s.th && s.th[w].pc == CondDown(r)
  {
  }

  lemma CondStepUp(s: State, t: Tid, w: Tid, q: PC, r: Role, role: Role)
    requires GuardInv(s) && SleepInv(s) && CondInv(s, r) && CondInv(s, role) && t in s.th
    requires AtUp(s.th[t].pc, w, q, r)
    ensures CondInv(OwnUp(s, t, w, q), role)
  {
    hide GuardInv, SleepInv, CondInv, OwnUp, Chosen;
    ChosenByHolder(s, t, w, q, r);
    UpEffect(s, t, w, q, r, role);
    if r == role {
      CondRaised(s, OwnUp(s, t, w, q), t, role);
    } else {
      CondFrame(s, OwnUp(s, t, w, q), t, role);
    }
  }

  lemma CondStepCond(s: State, t: Tid, role: Role)
    requires GuardInv(s) && SleepInv(s) && CondInv(s, Reader) && CondInv(s, Writer) && t in s.th && AtCond(s.th[t].pc)
    ensures CondInv(CondStep(s, t), role)
  {
    match s.th[t].pc
    case CondPush(_) => CondStepPush(s, t, role);
    case CondDown(_) => CondStepDown(s, t, role);
    case SigPop => CondStepPop(s, t, role);
    case BcTest => CondStepPop(s, t, role);
    case SigUp(w) => CondStepUp(s, t, w, RelDisown, Writer, role);
    case BcUp(w) => CondStepUp(s, t, w, BcTest, Reader, role);
  }

  /** Steps on the guard and plain statements leave the lists alone. */
  lemma NonCondEffect(s: State, t: Tid, role: Role, r: Role)
    requires GuardInv(s) && t in s.th && !AtCond(s.th[t].pc)
    ensures var s' := Step(s, t, role);
      && OnlyMoves(s, s', t)
      && Chosen(s', r) == Chosen(s, r) && Queue(s', r) == Queue(s, r)
      && InWait(s.th[t].pc, r) == InWait(s'.th[t].pc, r)
      && forall u :: u in s.th ==> s'.th[u].own.value == s.th[u].own.value
  {
    hide GuardInv, Step;
    StepMovesOne(s, t, role);
    StepGuardSide(s, t, role);
    HolderFrame(s, Step(s, t, role), t);
    NonCondOwn(s, t, role);
    NonCondTarget(s, t, role, r);
  }

  lemma NonCondTarget(s: State, t: Tid, role: Role, r: Role)
    requires t in s.th && !AtCond(s.th[t].pc)
    ensures var s' := Step(s, t, role);
      t in s'.th && !IsSignal(s'.th[t].pc, r) && InWait(s.th[t].pc, r) == InWait(s'.th[t].pc, r)
  {
    hide OnlyMoves;
    if AtGuardUp(s.th[t].pc) {
      GuardUpMovesOne(s, t, AfterGuard(s.th[t].pc));
    }
  }

  lemma NonCondOwn(s: State, t: Tid, role: Role)
    requires t in s.th && !AtCond(s.th[t].pc)
    ensures var s' := Step(s, t, role);
      && s'.th.Keys == s.th.Keys && s'.readQ == s.readQ && s'.writeQ == s.writeQ
      && forall u :: u in s.th ==> s'.th[u] == s.th[u].(pc := s'.th[u].pc, blocked := s'.th[u].blocked)
  {
  }

  lemma StepCond(s: State, t: Tid, role: Role, r: Role)
    requires GuardInv(s) && SleepInv(s) && CondInv(s, Reader) && CondInv(s, Writer) && t in s.th
    ensures CondInv(Step(s, t, role), r)
  {
    hide GuardInv, SleepInv, CondInv;
    if AtCond(s.th[t].pc) {
      CondStepCond(s, t, r);
    } else {
      NonCondEffect(s, t, role, r);
      CondFrame(s, Step(s, t, role), t, r);
    }
  }

  // ---------------------------------------------------------------- preservation: history

  lemma HistoryUp(s: State, t: Tid, w: Tid, q: PC, r: Role)
    requires HistoryInv(s) && SleepInv(s) && t in s.th && AtUp(s.th[t].pc, w, q, r)
    requires w in s.th && s.th[w].pc == CondDown(r)
    ensures HistoryInv(OwnUp(s, t, w, q))
  {
    OwnUpEffect(s, t, w, q);
  }

  lemma HistoryOwn(s: State, t: Tid)
    requires HistoryInv(s) && t in s.th && (s.th[t].pc.CondPush? || s.th[t].pc.CondDown? || s.th[t].pc.SigPop? || s.th[t].pc.BcTest?)
    requires s.th[t].pc.CondDown? ==> s.th[t].own.value <= 1
    ensures HistoryInv(CondStep(s, t))
  {
  }

  lemma OwnAtMostOne(s: State, t: Tid)
    requires CondInv(s, Reader) && CondInv(s, Writer) && t in s.th
    ensures s.th[t].pc.CondDown? ==> s.th[t].own.value <= 1
  {
    if s.th[t].pc.CondDown? {
      assert InWait(s.th[t].pc, s.th[t].pc.role);
    }
  }

  lemma HistoryCond(s: State, t: Tid)
    requires GuardInv(s) && SleepInv(s) && CondInv(s, Reader) && CondInv(s, Writer) && HistoryInv(s)
    requires t in s.th && AtCond(s.th[t].pc)
    ensures HistoryInv(CondStep(s, t))
  {
    hide GuardInv, SleepInv, CondInv, HistoryInv;
    match s.th[t].pc
    case SigUp(w) =>
      ChosenByHolder(s, t, w, RelDisown, Writer);
      HistoryUp(s, t, w, RelDisown, Writer);
    case BcUp(w) =>
      ChosenByHolder(s, t, w, BcTest, Reader);
      HistoryUp(s, t, w, BcTest, Reader);
    case _ =>
      OwnAtMostOne(s, t);
      HistoryOwn(s, t);
  }

  lemma HistoryNonCond(s: State, t: Tid, role: Role)
    requires HistoryInv(s) && t in s.th && !AtCond(s.th[t].pc)
    ensures HistoryInv(Step(s, t, role))
  {
    hide Step, InAnyWait;
    StepMovesOne(s, t, role);
    NonCondOwn(s, t, role);
    NonCondWaits(s, t, role);
  }

  lemma NonCondWaits(s: State, t: Tid, role: Role)
    requires t in s.th && !AtCond(s.th[t].pc)
    ensures t in Step(s, t, role).th && InAnyWait(Step(s, t, role).th[t].pc) == InAnyWait(s.th[t].pc)
  {
    if AtGuardUp(s.th[t].pc) {
      GuardUpMovesOne(s, t, AfterGuard(s.th[t].pc));
    }
  }

  lemma StepHistory(s: State, t: Tid, role: Role)
    requires GuardInv(s) && SleepInv(s) && CondInv(s, Reader) && CondInv(s, Writer) && HistoryInv(s) && t in s.th
    ensures HistoryInv(Step(s, t, role))
  {
    hide GuardInv, SleepInv, CondInv, HistoryInv;
    if AtCond(s.th[t].pc) {
      HistoryCond(s, t);
    } else {
      HistoryNonCond(s, t, role);
    }
  }

  // ---------------------------------------------------------------- preservation: counters

  function Bit(b: bool): int {
    if b then 1 else 0
  }

  lemma CountMoves(s: State, s': State, t: Tid, k: Kind)
    requires OnlyMoves(s, s', t)
    ensures |Members(s'.th, k)| == |Members(s.th, k)| + Bit(Counted(s'.th[t].pc, k)) - Bit(Counted(s.th[t].pc, k))
  {
    var A, B := Members(s.th, k), Members(s'.th, k);
    assert A - {t} == B - {t};
    SetMoves(A, B, t);
  }

  lemma SetMoves(A: set<Tid>, B: set<Tid>, t: Tid)
    requires A - {t} == B - {t}
    ensures |B| == |A| + Bit(t in B) - Bit(t in A)
  {
    assert t in A ==> A == (A - {t}) + {t};
    assert t in B ==> B == (B - {t}) + {t};
    assert t !in A ==> A == A - {t};
    assert t !in B ==> B == B - {t};
  }

  lemma PlainCounter(s: State, t: Tid, role: Role, k: Kind)
    requires t in s.th && IsPlain(s.th[t].pc)
    ensures var s' := Step(s, t, role);
      t in s'.th && Counter(s', k) == Counter(s, k) + Bit(Counted(s'.th[t].pc, k)) - Bit(Counted(s.th[t].pc, k))
  {
  }

  lemma CondCounter(s: State, t: Tid, k: Kind)
    requires t in s.th && AtCond(s.th[t].pc)
    ensures var s' := CondStep(s, t);
      t in s'.th && Counter(s', k) == Counter(s, k) && Counted(s'.th[t].pc, k) == Counted(s.th[t].pc, k)
  {
    hide OnlyMoves;
    match s.th[t].pc
    case SigUp(w) => OwnUpMovesOne(s, t, w, RelDisown);
    case BcUp(w) => OwnUpMovesOne(s, t, w, BcTest);
    case _ =>
  }

  lemma GuardCounter(s: State, t: Tid, role: Role, k: Kind)
    requires t in s.th && (AtGuardDown(s.th[t].pc) || AtGuardUp(s.th[t].pc))
    ensures var s' := Step(s, t, role);
      t in s'.th && Counter(s', k) == Counter(s, k) && Counted(s'.th[t].pc, k) == Counted(s.th[t].pc, k)
  {
    hide OnlyMoves;
    if AtGuardUp(s.th[t].pc) {
      GuardUpMovesOne(s, t, AfterGuard(s.th[t].pc));
    }
  }

  lemma StepCounter(s: State, t: Tid, role: Role, k: Kind)
    requires t in s.th
    ensures var s' := Step(s, t, role);
      t in s'.th && Counter(s', k) == Counter(s, k) + Bit(Counted(s'.th[t].pc, k)) - Bit(Counted(s.th[t].pc, k))
  {
    hide Counter, Counted, CondStep;
    if IsPlain(s.th[t].pc) {
      PlainCounter(s, t, role, k);
    } else if AtCond(s.th[t].pc) {
      CondCounter(s, t, k);
    } else {
      GuardCounter(s, t, role, k);
    }
  }

  lemma StepCount(s: State, t: Tid, role: Role)
    requires CountInv(s) && t in s.th
    ensures CountInv(Step(s, t, role))
  {
    hide Step;
    StepMovesOne(s, t, role);
    forall k ensures Counter(Step(s, t, role), k) == |Members(Step(s, t, role).th, k)| {
      CountMoves(s, Step(s, t, role), t, k);
      StepCounter(s, t, role, k);
    }
  }

  // ---------------------------------------------------------------- preservation: tests and wakers

  /** Every thread on a condition's list is counted as waiting. */
  lemma QueueCount(s: State, role: Role)
    requires CondInv(s, role) && CountInv(s)
    ensures |Queue(s, role)| <= Counter(s, Wait(role))
  {
    NoDupSize(Queue(s, role));
    assert ToSet(Queue(s, role)) <= Members(s.th, Wait(role));
    SubsetSize(ToSet(Queue(s, role)), Members(s.th, Wait(role)));
  }

  /** A thread counted in a counter makes it positive. */
  lemma CountedPositive(s: State, t: Tid, k: Kind)
    requires CountInv(s) && t in s.th && Counted(s.th[t].pc, k)
    ensures Counter(s, k) > 0
  {
    assert t in Members(s.th, k);
  }

  lemma TestedPlain(s: State, t: Tid, role: Role)
    requires TestedInv(s) && t in s.th && IsPlain(s.th[t].pc)
    requires var s' := Step(s, t, role); var p, q := s.th[t].pc, PlainPC(s, s.th[t].pc, role);
      if HasGuard(p)
      then HolderPC(s) == (if IsHolder(p) then p else Out) && HolderPC(s') == (if IsHolder(q) then q else Out)
      else HolderPC(s') == HolderPC(s)
    requires Active(s.th[t].pc, Reader) ==> s.AR > 0
    requires Active(s.th[t].pc, Writer) ==> s.AW > 0
    requires s.WW >= 0
    ensures TestedInv(Step(s, t, role))
  {
    hide HolderPC;
  }

  /** Steps on semaphores and lists leave the four counters alone and end no test. */
  lemma SpecialEffect(s: State, t: Tid, role: Role)
    requires t in s.th && !IsPlain(s.th[t].pc)
    ensures var s' := Step(s, t, role);
      && t in s'.th
      && s'.AR == s.AR && s'.AW == s.AW && s'.WR == s.WR && s'.WW == s.WW
      && var q := s'.th[t].pc;
         !q.Announce? && !q.CondPush? && !q.Enter?
  {
    hide OnlyMoves;
    StepSpecialPC(s, t, role);
  }

  lemma StepSpecialPC(s: State, t: Tid, role: Role)
    requires t in s.th && !IsPlain(s.th[t].pc)
    ensures var s' := Step(s, t, role);
      t in s'.th && !s'.th[t].pc.Announce? && !s'.th[t].pc.CondPush? && !s'.th[t].pc.Enter?
  {
    hide OnlyMoves;
    if AtGuardUp(s.th[t].pc) {
      GuardUpMovesOne(s, t, AfterGuard(s.th[t].pc));
    } else if AtCond(s.th[t].pc) {
      CondStepPC(s, t);
    }
  }

  lemma CondStepPC(s: State, t: Tid)
    requires t in s.th && AtCond(s.th[t].pc)
    ensures var s' := CondStep(s, t);
      t in s'.th && !s'.th[t].pc.Announce? && !s'.th[t].pc.CondPush? && !s'.th[t].pc.Enter?
  {
    hide OnlyMoves;
    match s.th[t].pc
    case SigUp(w) => OwnUpMovesOne(s, t, w, RelDisown);
    case BcUp(w) => OwnUpMovesOne(s, t, w, BcTest);
    case _ =>
  }

  lemma CountersNonNegative(s: State)
    requires CountInv(s)
    ensures s.AR >= 0 && s.AW >= 0 && s.WR >= 0 && s.WW >= 0
  {
    assert Counter(s, Act(Reader)) >= 0 && Counter(s, Act(Writer)) >= 0;
    assert Counter(s, Wait(Reader)) >= 0 && Counter(s, Wait(Writer)) >= 0;
  }

  lemma ActivePositive(s: State, t: Tid)
    requires CountInv(s) && t in s.th
    ensures Active(s.th[t].pc, Reader) ==> s.AR > 0
    ensures Active(s.th[t].pc, Writer) ==> s.AW > 0
  {
    forall r | Active(s.th[t].pc, r) ensures Counter(s, Act(r)) > 0 {
      CountedPositive(s, t, Act(r));
    }
  }

  /** The holder's statement before and after a step. */
  lemma StepHolder(s: State, t: Tid, role: Role)
    requires GuardInv(s) && t in s.th
    ensures var s' := Step(s, t, role);
      && t in s'.th
      && var p, q := s.th[t].pc, s'.th[t].pc;
         if HasGuard(p)
         then HolderPC(s) == (if IsHolder(p) then p else Out) && HolderPC(s') == (if IsHolder(q) then q else Out)
         else HolderPC(s') == HolderPC(s)
  {
    hide GuardInv, Step, HolderPC;
    StepMovesOne(s, t, role);
    StepGuardSide(s, t, role);
    HolderFrame(s, Step(s, t, role), t);
  }

  lemma StepTested(s: State, t: Tid, role: Role)
    requires GuardInv(s) && CountInv(s) && TestedInv(s) && t in s.th
    ensures TestedInv(Step(s, t, role))
  {
    hide GuardInv, CountInv, HolderPC;
    StepHolder(s, t, role);
    ActivePositive(s, t);
    CountersNonNegative(s);
    if IsPlain(s.th[t].pc) {
      TestedPlain(s, t, role);
    } else {
      TestedSpecial(s, t, role);
    }
  }

  lemma TestedSpecial(s: State, t: Tid, role: Role)
    requires TestedInv(s) && t in s.th && !IsPlain(s.th[t].pc)
    requires var s' := Step(s, t, role);
      && t in s'.th
      && var p, q := s.th[t].pc, s'.th[t].pc;
         if HasGuard(p)
         then HolderPC(s) == (if IsHolder(p) then p else Out) && HolderPC(s') == (if IsHolder(q) then q else Out)
         else HolderPC(s') == HolderPC(s)
    ensures TestedInv(Step(s, t, role))
  {
    hide HolderPC, Step;
    SpecialEffect(s, t, role);
  }

  /** What the step leaves on the lists, in numbers. */
  lemma WakerPlain(s: State, t: Tid, role: Role)
    requires TestedInv(s) && WakerInv(s) && t in s.th && IsPlain(s.th[t].pc)
    requires var s' := Step(s, t, role); var p, q := s.th[t].pc, PlainPC(s, s.th[t].pc, role);
      if HasGuard(p)
      then HolderPC(s) == (if IsHolder(p) then p else Out) && HolderPC(s') == (if IsHolder(q) then q else Out)
      else HolderPC(s') == HolderPC(s)
    requires s.AR >= 0 && s.AW >= 0 && |s.readQ| <= s.WR && |s.writeQ| <= s.WW
    ensures WakerInv(Step(s, t, role))
  {
    hide HolderPC;
  }

  lemma WakerGuard(s: State, t: Tid, role: Role)
    requires WakerInv(s) && t in s.th && (AtGuardDown(s.th[t].pc) || AtGuardUp(s.th[t].pc))
    requires var s' := Step(s, t, role);
      if HasGuard(s.th[t].pc)
      then HolderPC(s) == Out
      else HolderPC(s') == HolderPC(s)
    ensures WakerInv(Step(s, t, role))
  {
    hide HolderPC;
  }

  lemma WakerCond(s: State, t: Tid)
    requires TestedInv(s) && WakerInv(s) && t in s.th && AtCond(s.th[t].pc)
    requires var s' := CondStep(s, t);
      && t in s'.th
      && var p, q := s.th[t].pc, s'.th[t].pc;
         if HasGuard(p)
         then HolderPC(s) == (if IsHolder(p) then p else Out) && HolderPC(s') == (if IsHolder(q) then q else Out)
         else HolderPC(s') == HolderPC(s)
    requires |s.writeQ| <= s.WW
    ensures WakerInv(CondStep(s, t))
  {
    hide HolderPC, OnlyMoves;
    match s.th[t].pc
    case SigUp(w) => OwnUpMovesOne(s, t, w, RelDisown);
    case BcUp(w) => OwnUpMovesOne(s, t, w, BcTest);
    case _ =>
  }

  lemma StepWaker(s: State, t: Tid, role: Role)
    requires GuardInv(s) && CondInv(s, Reader) && CondInv(s, Writer) && CountInv(s) && TestedInv(s) && WakerInv(s)
    requires t in s.th
    ensures WakerInv(Step(s, t, role))
  {
    hide GuardInv, CondInv, CountInv, HolderPC, WakerInv, TestedInv;
    StepHolder(s, t, role);
    QueueCount(s, Reader);
    QueueCount(s, Writer);
    CountersNonNegative(s);
    if IsPlain(s.th[t].pc) {
      WakerPlain(s, t, role);
    } else if AtCond(s.th[t].pc) {
      WakerCond(s, t);
    } else {
      WakerGuard(s, t, role);
    }
  }

  // ---------------------------------------------------------------- every run

  lemma StepInv(s: State, t: Tid, role: Role)
    requires Inv(s) && t in s.th && !s.th[t].blocked
    ensures Inv(Step(s, t, role))
  {
    hide GuardInv, SleepInv, CondInv, HistoryInv, CountInv, TestedInv, WakerInv, Step;
    StepGuard(s, t, role);
    StepSleep(s, t, role);
    StepCond(s, t, role, Reader);
    StepCond(s, t, role, Writer);
    StepHistory(s, t, role);
    StepCount(s, t, role);
    StepTested(s, t, role);
    StepWaker(s, t, role);
  }

  lemma InitInv(ids: set<Tid>)
    ensures Inv(Init(ids))
  {
    var s := Init(ids);
    assert forall k :: Members(s.th, k) == {};
  }

  /** The invariant holds after every run of any number of threads. */
  lemma {:induction false} RunInv(ids: set<Tid>, picks: seq<Pick>)
    ensures Inv(Run(Init(ids), picks))
    decreases |picks|
  {
    if picks == [] {
      InitInv(ids);
    } else {
      var s := Run(Init(ids), picks[..|picks| - 1]);
      RunInv(ids, picks[..|picks| - 1]);
      var p := picks[|picks| - 1];
      if p.tid in s.th && !s.th[p.tid].blocked {
        StepInv(s, p.tid, p.role);
      }
    }
  }

  // ---------------------------------------------------------------- what the invariant means

  /** While a writer is active, no other thread is. */
  lemma ExclusiveWriter(s: State, t: Tid, u: Tid)
    requires CountInv(s) && TestedInv(s)
    requires t in s.th && u in s.th && t != u && Active(s.th[t].pc, Writer)
    ensures !Active(s.th[u].pc, Reader) && !Active(s.th[u].pc, Writer)
  {
    CountedPositive(s, t, Act(Writer));
    assert Counter(s, Act(Writer)) == 1 && Counter(s, Act(Reader)) == 0;
    if Active(s.th[u].pc, Reader) {
      CountedPositive(s, u, Act(Reader));
    } else if Active(s.th[u].pc, Writer) {
      var m := Members(s.th, Act(Writer));
      assert {t, u} <= m;
      SubsetSize({t, u}, m);
    }
  }

  /** In every run: a thread inside as a writer is inside alone. */
  lemma MutualExclusion(ids: set<Tid>, picks: seq<Pick>, t: Tid, u: Tid)
    ensures var s := Run(Init(ids), picks);
      t in s.th && u in s.th && t != u && s.th[t].pc == Inside(Writer) ==> !s.th[u].pc.Inside?
  {
    var s := Run(Init(ids), picks);
    RunInv(ids, picks);
    if t in s.th && u in s.th && t != u && s.th[t].pc == Inside(Writer) {
      ExclusiveWriter(s, t, u);
    }
  }

  /** In every run, whenever the guard is free: the counters describe a legal population, readers
      on the list have a writer to wait for, and writers on the list have an active thread to wait
      for or an already signalled writer ahead of them. */
  lemma GuardFree(ids: set<Tid>, picks: seq<Pick>)
    ensures var s := Run(Init(ids), picks);
      s.guard.value == 1 ==>
        && s.holder == None
        && s.AW <= 1 && (s.AW == 1 ==> s.AR == 0)
        && (s.readQ != [] ==> s.AW + s.WW > 0)
        && (s.writeQ != [] ==> s.AR + s.AW > 0 || s.WW > |s.writeQ|)
  {
    RunInv(ids, picks);
    var s := Run(Init(ids), picks);
    if s.guard.value == 1 {
      assert HolderPC(s) == Out;
    }
  }

  /** In every run: a reader about to be let in has seen no writer, active or waiting. */
  lemma WriterPreference(ids: set<Tid>, picks: seq<Pick>, t: Tid, u: Tid)
    ensures var s := Run(Init(ids), picks);
      t in s.th && u in s.th && s.th[t].pc == Enter(Reader) ==>
        !Active(s.th[u].pc, Writer) && !Waiting(s.th[u].pc, Writer)
  {
    var s := Run(Init(ids), picks);
    RunInv(ids, picks);
    hide Run, Init, SleepInv, CondInv, HistoryInv, WakerInv;
    if t in s.th && u in s.th && s.th[t].pc == Enter(Reader) {
      assert HolderPC(s) == Enter(Reader);
      CountersNonNegative(s);
      assert Counter(s, Act(Writer)) == 0 && Counter(s, Wait(Writer)) == 0;
      if Active(s.th[u].pc, Writer) {
        CountedPositive(s, u, Act(Writer));
      } else if Waiting(s.th[u].pc, Writer) {
        CountedPositive(s, u, Wait(Writer));
      }
    }
  }

  /** In every run: each return from a wait on a condition is paid for by a signal to that very
      thread, signals are neither lost nor doubled, and a thread that has left the list is either
      about to be signalled by the guard's holder or has been. */
  lemma SignalsAndWaits(ids: set<Tid>, picks: seq<Pick>, t: Tid)
    ensures var s := Run(Init(ids), picks);
      t in s.th ==>
        && s.th[t].ended <= s.th[t].signalled <= s.th[t].begun <= s.th[t].ended + 1
        && (s.th[t].pc.CondReDown? ==> s.th[t].ended == s.th[t].signalled == s.th[t].begun)
        && (s.th[t].pc.CondDown? && t !in Queue(s, s.th[t].pc.role) ==>
              Chosen(s, s.th[t].pc.role) == Some(t) || s.th[t].signalled == s.th[t].begun)
  {
    var s := Run(Init(ids), picks);
    RunInv(ids, picks);
    if t in s.th {
      assert HistoryOf(s.th[t]);
      if InAnyWait(s.th[t].pc) {
        assert InWait(s.th[t].pc, s.th[t].pc.role);
      }
    }
  }

  /** In every run, the assertions in synch.c hold: a thread that releases the guard, waits or
      signals is its recorded holder, one that acquires it is not; and the semaphore a signaller
      raises belongs to a cond_wait() that has not returned. */
  lemma AssertionsHold(ids: set<Tid>, picks: seq<Pick>, t: Tid)
    ensures var s := Run(Init(ids), picks);
      t in s.th ==>
        var pc := s.th[t].pc;
        && (pc.CondPush? || pc.CondDisown? || pc.AcqDisown? || pc.RelDisown? || pc.SigPop? || pc.BcTest?
            ==> s.holder == Some(t))
        && (AtGuardDown(pc) ==> s.holder != Some(t))
        && (pc.SigUp? ==> pc.target in s.th && s.th[pc.target].pc == CondDown(Writer))
        && (pc.BcUp? ==> pc.target in s.th && s.th[pc.target].pc == CondDown(Reader))
  {
    var s := Run(Init(ids), picks);
    RunInv(ids, picks);
    hide Run, Step;
    if t in s.th {
      match s.th[t].pc
      case SigUp(w) => ChosenByHolder(s, t, w, RelDisown, Writer);
      case BcUp(w) => ChosenByHolder(s, t, w, BcTest, Reader);
      case _ =>
    }
  }

  // ---------------------------------------------------------------- nobody is stranded

  predicate CanAct(x: Thread) {
    !x.blocked && !x.pc.Out?
  }

  /** If any thread is past sema_down() or asleep on the guard, some thread in a call can act. */
  lemma GuardHasActor(s: State)
    requires GuardInv(s) && SleepInv(s)
    requires s.guard.value == 0 || s.guard.waiters != []
    ensures exists u :: u in s.th && CanAct(s.th[u])
  {
    if s.guard.value == 0 {
      var h :| h in s.th && HasGuard(s.th[h].pc);
      assert CanAct(s.th[h]);
    } else {
      var u :| u in s.th && !s.th[u].blocked && AtGuardDown(s.th[u].pc);
      assert CanAct(s.th[u]);
    }
  }

  lemma ThreadHasActor(s: State, t: Tid)
    requires GuardInv(s) && SleepInv(s) && t in s.th && !s.th[t].pc.Out? && !s.th[t].pc.CondDown?
    ensures exists u :: u in s.th && CanAct(s.th[u])
  {
    if s.th[t].blocked {
      assert t in s.guard.waiters;
      GuardHasActor(s);
    } else {
      assert CanAct(s.th[t]);
    }
  }

  /** A positive counter has a thread behind it. */
  lemma CounterWitness(s: State, k: Kind) returns (t: Tid)
    requires CountInv(s) && Counter(s, k) > 0
    ensures t in s.th && Counted(s.th[t].pc, k)
  {
    assert Members(s.th, k) != {};
    t :| t in Members(s.th, k);
  }

  lemma UnqueuedWitness(s: State, role: Role) returns (t: Tid)
    requires CondInv(s, role) && CountInv(s) && Counter(s, Wait(role)) > |Queue(s, role)|
    ensures t in s.th && Waiting(s.th[t].pc, role) && t !in Queue(s, role)
  {
    var m, q := Members(s.th, Wait(role)), ToSet(Queue(s, role));
    NoDupSize(Queue(s, role));
    if m <= q {
      SubsetSize(m, q);
    }
    t :| t in m && t !in q;
  }

  /** A waiting thread that is off its condition's list can act, or somebody else can. */
  lemma UnqueuedHasActor(s: State, t: Tid, role: Role)
    requires GuardInv(s) && SleepInv(s) && CondInv(s, role) && s.guard.value == 1
    requires t in s.th && Waiting(s.th[t].pc, role) && t !in Queue(s, role)
    ensures exists u :: u in s.th && CanAct(s.th[u])
  {
    if s.th[t].pc.CondDown? {
      assert HolderPC(s) == Out;
      assert InWait(s.th[t].pc, role);
      assert CanAct(s.th[t]);
    } else {
      ThreadHasActor(s, t);
    }
  }

  lemma QueuedHasActor(s: State, role: Role)
    requires Inv(s) && s.guard.value == 1 && Queue(s, role) != []
    ensures exists u :: u in s.th && CanAct(s.th[u])
  {
    hide SleepInv, CondInv, HistoryInv, TestedInv;
    assert HolderPC(s) == Out;
    if s.AR + s.AW > 0 {
      var k := if s.AW > 0 then Act(Writer) else Act(Reader);
      var u := CounterWitness(s, k);
      ThreadHasActor(s, u);
    } else {
      CountersNonNegative(s);
      if s.WW > |s.writeQ| {
        var u := UnqueuedWitness(s, Writer);
        UnqueuedHasActor(s, u, Writer);
      } else {
        QueueCount(s, Writer);
      }
    }
  }

  lemma SomeoneActs(s: State, t: Tid)
    requires Inv(s) && t in s.th && !s.th[t].pc.Out?
    ensures exists u :: u in s.th && CanAct(s.th[u])
  {
    if s.guard.value == 0 || s.guard.waiters != [] {
      GuardHasActor(s);
    } else if !s.th[t].pc.CondDown? {
      ThreadHasActor(s, t);
    } else if t in Queue(s, s.th[t].pc.role) {
      QueuedHasActor(s, s.th[t].pc.role);
    } else {
      UnqueuedHasActor(s, t, s.th[t].pc.role);
    }
  }

  /** In every run: if any thread is inside a call, asleep or not, then some thread inside a call
      or inside the lock is able to run. A sleeper is never left with nobody to wake it. */
  lemma NobodyStranded(ids: set<Tid>, picks: seq<Pick>, t: Tid)
    ensures var s := Run(Init(ids), picks);
      t in s.th && !s.th[t].pc.Out? ==> exists u :: u in s.th && CanAct(s.th[u])
  {
    var s := Run(Init(ids), picks);
    RunInv(ids, picks);
    if t in s.th && !s.th[t].pc.Out? {
      SomeoneActs(s, t);
    }
  }
}
