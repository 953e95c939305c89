/** The roles that threads ask for. */
module RwRoles {
  /*
   RwLock speaks of the role at a thread's statement. Here it is tied to the argument of the call: a thread that
   is past the start of rw_lock_acquire() is where the role it asked for takes it, so that exclusion and
   preference hold of callers. The module also shows that the lists of the lock are first in, first out.
   */

  import opened Common
  import opened RwLock

  // ---------------------------------------------------------------- what was asked for

  /** The role at a statement of rw_lock_acquire(), inside, or of rw_lock_release() up to its test. */
  function RoleAt(pc: PC): Option<Role> {
    match pc
    case AcqDown(r) => Some(r)
    case AcqOwn(r) => Some(r)
    case Test(r) => Some(r)
    case Announce(r) => Some(r)
    case CondPush(r) => Some(r)
    case CondDisown(r) => Some(r)
    case CondUp(r) => Some(r)
    case CondDown(r) => Some(r)
    case CondReDown(r) => Some(r)
    case CondReOwn(r) => Some(r)
    case Retract(r) => Some(r)
    case Enter(r) => Some(r)
    case AcqDisown(r) => Some(r)
    case AcqUp(r) => Some(r)
    case Inside(r) => Some(r)
    case RelDown(r) => Some(r)
    case RelOwn(r) => Some(r)
    case Leave(r) => Some(r)
    case RelTest(r) => Some(r)
    case _ => None
  }

  predicate Takes(s: State, p: Pick) {
    p.tid in s.th && !s.th[p.tid].blocked
  }

  /** The role of the last call of rw_lock_acquire() that t began: the role of its last pick while it was in no
      call. */
  function Asked(ids: set<Tid>, picks: seq<Pick>, t: Tid): Option<Role>
    decreases |picks|
  {
    if picks == [] then None
    else
      var before, p := picks[..|picks| - 1], picks[|picks| - 1];
      var s := Run(Init(ids), before);
      if p.tid == t && Takes(s, p) && s.th[t].pc == Out then Some(p.role) else Asked(ids, before, t)
  }

  /** A step out of no call begins the call asked for; any other keeps the role. */
  predicate RoleKept(p: PC, q: PC, asked: Role) {
    if p == Out then q == AcqDown(asked) else RoleAt(q).Some? ==> RoleAt(q) == RoleAt(p)
  }

  lemma PlainRole(s: State, pc: PC, role: Role)
    requires IsPlain(pc)
    ensures RoleKept(pc, PlainPC(s, pc, role), role)
  {
  }

  lemma GuardRole(pc: PC, role: Role)
    requires AtGuardDown(pc) || AtGuardUp(pc)
    ensures RoleKept(pc, AfterGuard(pc), role) && RoleKept(pc, pc, role)
  {
  }

  lemma CondRole(s: State, t: Tid, role: Role)
    requires t in s.th && AtCond(s.th[t].pc)
    ensures t in CondStep(s, t).th && RoleKept(s.th[t].pc, CondStep(s, t).th[t].pc, role)
  {
    match s.th[t].pc
    case SigUp(w) => OwnUpMovesOne(s, t, w, RelDisown);
    case BcUp(w) => OwnUpMovesOne(s, t, w, BcTest);
    case _ =>
  }

  lemma StepRole(s: State, t: Tid, role: Role)
    requires t in s.th
    ensures t in Step(s, t, role).th && RoleKept(s.th[t].pc, Step(s, t, role).th[t].pc, role)
  {
    var pc := s.th[t].pc;
    hide RoleKept, PlainPC, CondStep, AfterGuard;
    if AtGuardDown(pc) {
      GuardRole(pc, role);
    } else if AtGuardUp(pc) {
      GuardRole(pc, role);
      GuardUpMovesOne(s, t, AfterGuard(pc));
    } else if AtCond(pc) {
      CondRole(s, t, role);
    } else {
      PlainRole(s, pc, role);
    }
  }

  /** In every run a thread whose statement carries a role carries the one it asked for. */
  lemma {:induction false} RoleIsAsked(ids: set<Tid>, picks: seq<Pick>, t: Tid)
    ensures var s := Run(Init(ids), picks);
      t in s.th && RoleAt(s.th[t].pc).Some? ==> RoleAt(s.th[t].pc) == Asked(ids, picks, t)
    decreases |picks|
  {
    if picks != [] {
      var before, p := picks[..|picks| - 1], picks[|picks| - 1];
      var s := Run(Init(ids), before);
      RoleIsAsked(ids, before, t);
      hide Step, RoleAt;
      if Takes(s, p) {
        StepMovesOne(s, p.tid, p.role);
        StepRole(s, p.tid, p.role);
      }
    }
  }

  // ---------------------------------------------------------------- exclusion and preference

  /** Between its announcement and the place where it is counted in. */
  predicate Wants(pc: PC) {
    Waiting(pc, Reader) || Waiting(pc, Writer)
  }

  /** Counted in, and not yet counted out. */
  predicate CountedIn(pc: PC) {
    Active(pc, Reader) || Active(pc, Writer)
  }

  /** In every run, whoever is counted in beside a thread that asked to write, is that thread. */
  lemma WriterAlone(ids: set<Tid>, picks: seq<Pick>, t: Tid, u: Tid)
    ensures var s := Run(Init(ids), picks);
      t in s.th && u in s.th && t != u && CountedIn(s.th[t].pc) && CountedIn(s.th[u].pc)
      ==> Asked(ids, picks, t) == Asked(ids, picks, u) == Some(Reader)
  {
    var s := Run(Init(ids), picks);
    RoleIsAsked(ids, picks, t);
    RoleIsAsked(ids, picks, u);
    RunInv(ids, picks);
    hide Run, Init, Asked, Step;
    if t in s.th && u in s.th && t != u && CountedIn(s.th[t].pc) && CountedIn(s.th[u].pc) {
      if Active(s.th[t].pc, Writer) {
        ExclusiveWriter(s, t, u);
      } else if Active(s.th[u].pc, Writer) {
        ExclusiveWriter(s, u, t);
      }
    }
  }

  /** In every run, of two different threads inside neither has asked to write. */
  lemma NoWriterBesideAnother(ids: set<Tid>, picks: seq<Pick>, t: Tid, u: Tid)
    ensures var s := Run(Init(ids), picks);
      t in s.th && u in s.th && t != u && s.th[t].pc.Inside? && s.th[u].pc.Inside?
      ==> Asked(ids, picks, t) == Asked(ids, picks, u) == Some(Reader)
  {
    hide Run, Init, Asked;
    WriterAlone(ids, picks, t, u);
  }

  /** In every run, what a thread finds at its test: one that asked to read goes in if and only if no thread that
      asked to write is counted in or waits; one that asked to write, if and only if no thread is counted in. */
  lemma TestDecides(ids: set<Tid>, picks: seq<Pick>, t: Tid, role: Role)
    ensures var s := Run(Init(ids), picks);
      t in s.th && s.th[t].pc.Test? ==>
        && Asked(ids, picks, t).Some?
        && t in Step(s, t, role).th
        && var q := Step(s, t, role).th[t].pc;
           if exists u :: u in s.th && Bars(s.th[u].pc, Asked(ids, picks, u), Asked(ids, picks, t).value)
           then q.Announce? else q.Enter?
  {
    var s := Run(Init(ids), picks);
    RunInv(ids, picks);
    RoleIsAsked(ids, picks, t);
    forall u | u in s.th
      ensures RoleAt(s.th[u].pc).Some? ==> RoleAt(s.th[u].pc) == Asked(ids, picks, u)
    {
      RoleIsAsked(ids, picks, u);
    }
    hide Run, Init, Asked;
    if t in s.th && s.th[t].pc.Test? {
      var asked := map u | u in s.th :: Asked(ids, picks, u);
      BarredIff(s, t, asked);
      TestStep(s, t, role);
    }
  }

  /** Another thread at this statement, which asked for "theirs", keeps out one that asks for "mine". */
  predicate Bars(pc: PC, theirs: Option<Role>, mine: Role) {
    match mine
    case Reader => theirs == Some(Writer) && (CountedIn(pc) || Wants(pc))
    case Writer => CountedIn(pc)
  }

  lemma TestStep(s: State, t: Tid, role: Role)
    requires t in s.th && s.th[t].pc.Test?
    ensures t in Step(s, t, role).th
    ensures Step(s, t, role).th[t].pc ==
      if MustWait(s, s.th[t].pc.role) then Announce(s.th[t].pc.role) else Enter(s.th[t].pc.role)
  {
    hide MustWait;
  }

  lemma BarredIff(s: State, t: Tid, asked: map<Tid, Option<Role>>)
    requires CountInv(s) && asked.Keys == s.th.Keys && t in s.th && s.th[t].pc.Test?
    requires forall u :: u in s.th && RoleAt(s.th[u].pc).Some? ==> RoleAt(s.th[u].pc) == asked[u]
    ensures MustWait(s, s.th[t].pc.role) <==> exists u :: u in s.th && Bars(s.th[u].pc, asked[u], s.th[t].pc.role)
  {
    var mine := s.th[t].pc.role;
    CountersNonNegative(s);
    if MustWait(s, mine) {
      var k := if mine.Reader? then (if s.AW > 0 then Act(Writer) else Wait(Writer))
               else if s.AR > 0 then Act(Reader) else Act(Writer);
      assert Counter(s, k) > 0;
      var u := CounterWitness(s, k);
      assert Bars(s.th[u].pc, asked[u], mine);
    }
    if u :| u in s.th && Bars(s.th[u].pc, asked[u], mine) {
      var r := if Active(s.th[u].pc, Reader) || Waiting(s.th[u].pc, Reader) then Reader else Writer;
      var k := if Active(s.th[u].pc, r) then Act(r) else Wait(r);
      CountedPositive(s, u, k);
      assert Counter(s, k) > 0;
    }
  }

  /** Some thread that asked for "role" waits. */
  predicate SomeWaits(s: State, asked: map<Tid, Option<Role>>, role: Role)
    requires asked.Keys == s.th.Keys
  {
    exists u :: u in s.th && Wants(s.th[u].pc) && asked[u] == Some(role)
  }

  predicate SomeIn(s: State, asked: map<Tid, Option<Role>>, role: Role)
    requires asked.Keys == s.th.Keys
  {
    exists u :: u in s.th && CountedIn(s.th[u].pc) && asked[u] == Some(role)
  }

  /** In every run, what a thread does at the end of rw_lock_release(): it signals a writer if one waits, unless it
      asked to read and a reader is still counted in; if it asked to write and no writer waits but a reader does, it
      signals all readers; otherwise it signals nobody. */
  lemma ReleaseDecides(ids: set<Tid>, picks: seq<Pick>, t: Tid, role: Role)
    ensures var s := Run(Init(ids), picks); var asked := map u | u in s.th :: Asked(ids, picks, u);
      t in s.th && s.th[t].pc.RelTest? ==>
        && asked[t].Some?
        && t in Step(s, t, role).th
        && Step(s, t, role).th[t].pc
           == if SomeWaits(s, asked, Writer) && !(asked[t] == Some(Reader) && SomeIn(s, asked, Reader)) then SigPop
              else if asked[t] == Some(Writer) && SomeWaits(s, asked, Reader) && !SomeWaits(s, asked, Writer) then BcTest
              else RelDisown
  {
    var s := Run(Init(ids), picks);
    var asked := map u | u in s.th :: Asked(ids, picks, u);
    AllAsAsked(ids, picks, asked);
    RunInv(ids, picks);
    hide Run, Init, Asked, SomeWaits, SomeIn, CountInv, GuardInv, SleepInv, CondInv, TestedInv, WakerInv, Step, RoleAt;
    if t in s.th && s.th[t].pc.RelTest? {
      CountersMean(s, asked);
      ReleaseStep(s, t, role);
      assert RoleAt(s.th[t].pc) == Some(s.th[t].pc.role) by { ReleaseRole(s.th[t].pc); }
    }
  }

  lemma ReleaseRole(pc: PC)
    requires pc.RelTest?
    ensures RoleAt(pc) == Some(pc.role)
  {
  }

  lemma AllAsAsked(ids: set<Tid>, picks: seq<Pick>, asked: map<Tid, Option<Role>>)
    requires asked == map u | u in Run(Init(ids), picks).th :: Asked(ids, picks, u)
    ensures var s := Run(Init(ids), picks);
      forall u :: u in s.th && RoleAt(s.th[u].pc).Some? ==> RoleAt(s.th[u].pc) == asked[u]
  {
    var s := Run(Init(ids), picks);
    forall u | u in s.th
      ensures RoleAt(s.th[u].pc).Some? ==> RoleAt(s.th[u].pc) == asked[u]
    {
      RoleIsAsked(ids, picks, u);
    }
  }

  lemma ReleaseStep(s: State, t: Tid, role: Role)
    requires t in s.th && s.th[t].pc.RelTest?
    ensures t in Step(s, t, role).th
    ensures Step(s, t, role).th[t].pc ==
      if s.WW > 0 && !(s.th[t].pc.role == Reader && s.AR != 0) then SigPop
      else if s.th[t].pc.role == Writer && s.WR > 0 && !(s.WW > 0) then BcTest
      else RelDisown
  {
  }

  /** The counters are the numbers of threads that asked for a role and wait, or are counted in. */
  lemma CountersMean(s: State, asked: map<Tid, Option<Role>>)
    requires CountInv(s) && asked.Keys == s.th.Keys
    requires forall u :: u in s.th && RoleAt(s.th[u].pc).Some? ==> RoleAt(s.th[u].pc) == asked[u]
    ensures s.WW > 0 <==> SomeWaits(s, asked, Writer)
    ensures s.WR > 0 <==> SomeWaits(s, asked, Reader)
    ensures s.AR != 0 <==> SomeIn(s, asked, Reader)
  {
    CountersNonNegative(s);
    WaitCounted(s, asked, Writer);
    WaitCounted(s, asked, Reader);
    InCounted(s, asked, Reader);
    hide SomeWaits, SomeIn, CountInv;
  }

  lemma WaitCounted(s: State, asked: map<Tid, Option<Role>>, role: Role)
    requires CountInv(s) && asked.Keys == s.th.Keys
    requires forall u :: u in s.th && RoleAt(s.th[u].pc).Some? ==> RoleAt(s.th[u].pc) == asked[u]
    ensures Counter(s, Wait(role)) > 0 <==> SomeWaits(s, asked, role)
  {
    if Counter(s, Wait(role)) > 0 {
      var u := CounterWitness(s, Wait(role));
      assert Wants(s.th[u].pc);
    }
    if SomeWaits(s, asked, role) {
      var u :| u in s.th && Wants(s.th[u].pc) && asked[u] == Some(role);
      CountedPositive(s, u, Wait(role));
    }
  }

  lemma InCounted(s: State, asked: map<Tid, Option<Role>>, role: Role)
    requires CountInv(s) && asked.Keys == s.th.Keys
    requires forall u :: u in s.th && RoleAt(s.th[u].pc).Some? ==> RoleAt(s.th[u].pc) == asked[u]
    ensures Counter(s, Act(role)) > 0 <==> SomeIn(s, asked, role)
  {
    if Counter(s, Act(role)) > 0 {
      var u := CounterWitness(s, Act(role));
      assert CountedIn(s.th[u].pc);
    }
    if SomeIn(s, asked, role) {
      var u :| u in s.th && CountedIn(s.th[u].pc) && asked[u] == Some(role);
      CountedPositive(s, u, Act(role));
    }
  }

  // ---------------------------------------------------------------- first in, first out

  /** The threads that have joined a condition's list, in order. */
  function Joined(ids: set<Tid>, picks: seq<Pick>, role: Role): seq<Tid>
    decreases |picks|
  {
    if picks == [] then []
    else
      var before, p := picks[..|picks| - 1], picks[|picks| - 1];
      var s := Run(Init(ids), before);
      Joined(ids, before, role) + if Takes(s, p) && s.th[p.tid].pc == CondPush(role) then [p.tid] else []
  }

  /** The threads that signallers have turned to, in order. */
  function TurnedTo(ids: set<Tid>, picks: seq<Pick>, role: Role): seq<Tid>
    decreases |picks|
  {
    if picks == [] then []
    else
      var before, p := picks[..|picks| - 1], picks[|picks| - 1];
      var s := Run(Init(ids), before);
      TurnedTo(ids, before, role) + if Takes(s, p) then Turn(Step(s, p.tid, p.role), p.tid, role) else []
  }

  /** The thread that t is about to signal. */
  function Turn(s: State, t: Tid, role: Role): seq<Tid> {
    if t in s.th && IsSignal(s.th[t].pc, role) then [s.th[t].pc.target] else []
  }

  /** A step joins the list at its end, turns to the thread at its front, or leaves it alone. */
  ghost predicate InOrder(s: State, s': State, t: Tid, r: Role)
    requires t in s.th
  {
    Queue(s, r) + (if s.th[t].pc == CondPush(r) then [t] else []) == Turn(s', t, r) + Queue(s', r)
  }

  lemma SignalInOrder(s: State, t: Tid, w: Tid, q: PC, r: Role)
    requires t in s.th && !s.th[t].pc.CondPush? && !IsSignal(q, r)
    ensures InOrder(s, OwnUp(s, t, w, q), t, r)
  {
    OwnUpMovesOne(s, t, w, q);
  }

  lemma QuietInOrder(s: State, t: Tid, r: Role)
    requires t in s.th && AtCond(s.th[t].pc) && !s.th[t].pc.SigUp? && !s.th[t].pc.BcUp?
    ensures InOrder(s, CondStep(s, t), t, r)
  {
  }

  lemma CondInOrder(s: State, t: Tid, r: Role)
    requires t in s.th && AtCond(s.th[t].pc)
    ensures InOrder(s, CondStep(s, t), t, r)
  {
    hide InOrder, OwnUp;
    match s.th[t].pc
    case SigUp(w) => SignalInOrder(s, t, w, RelDisown, r);
    case BcUp(w) => SignalInOrder(s, t, w, BcTest, r);
    case _ => QuietInOrder(s, t, r);
  }

  lemma NoTurn(s: State, pc: PC, role: Role, r: Role)
    ensures IsPlain(pc) ==> !IsSignal(PlainPC(s, pc, role), r)
    ensures AtGuardDown(pc) || AtGuardUp(pc) ==> !IsSignal(AfterGuard(pc), r) && !IsSignal(pc, r)
  {
  }

  lemma ListStep(s: State, t: Tid, role: Role, r: Role)
    requires t in s.th
    ensures InOrder(s, Step(s, t, role), t, r)
  {
    var pc := s.th[t].pc;
    NoTurn(s, pc, role, r);
    if AtCond(pc) {
      CondInOrder(s, t, r);
    } else {
      hide PlainPC, AfterGuard, IsSignal;
      if AtGuardUp(pc) {
        GuardUpMovesOne(s, t, AfterGuard(pc));
      }
      if IsPlain(pc) {
        assert PlainAssign(s, t, pc).readQ == s.readQ && PlainAssign(s, t, pc).writeQ == s.writeQ;
      }
    }
  }

  /** In every run the threads that have joined a condition's list are those that signallers have turned to and
      then those still on it, in that order: first in, first out. */
  lemma {:induction false} CondFifo(ids: set<Tid>, picks: seq<Pick>, r: Role)
    ensures Joined(ids, picks, r) == TurnedTo(ids, picks, r) + Queue(Run(Init(ids), picks), r)
    decreases |picks|
  {
    if picks != [] {
      var before, p := picks[..|picks| - 1], picks[|picks| - 1];
      var s := Run(Init(ids), before);
      CondFifo(ids, before, r);
      hide Step, Turn, Queue;
      if Takes(s, p) {
        assert p.tid in s.th;
        ListStep(s, p.tid, p.role, r);
        Regroup(TurnedTo(ids, before, r), Queue(s, r), if s.th[p.tid].pc == CondPush(r) then [p.tid] else [],
                Turn(Step(s, p.tid, p.role), p.tid, r), Queue(Step(s, p.tid, p.role), r));
      }
    }
  }

  lemma Regroup(a: seq<Tid>, b: seq<Tid>, c: seq<Tid>, d: seq<Tid>, e: seq<Tid>)
    requires b + c == d + e
    ensures (a + b) + c == (a + d) + e
  {
    assert (a + b) + c == a + (b + c);
  }

  /** The threads that have joined the guard's list, in order: those that a pass of sema_down() puts to sleep. */
  function GuardJoined(ids: set<Tid>, picks: seq<Pick>): seq<Tid>
    decreases |picks|
  {
    if picks == [] then []
    else
      var before, p := picks[..|picks| - 1], picks[|picks| - 1];
      var s := Run(Init(ids), before);
      GuardJoined(ids, before) + if Takes(s, p) then FellAsleep(s, Step(s, p.tid, p.role), p.tid) else []
  }

  function FellAsleep(s: State, s': State, t: Tid): seq<Tid> {
    if t in s.th && t in s'.th && AtGuardDown(s.th[t].pc) && s'.th[t].blocked then [t] else []
  }

  /** The threads that sema_up() on the guard has woken, in order. */
  ghost function GuardWoken(ids: set<Tid>, picks: seq<Pick>): seq<Tid>
    decreases |picks|
  {
    if picks == [] then []
    else
      var before, p := picks[..|picks| - 1], picks[|picks| - 1];
      var s := Run(Init(ids), before);
      GuardWoken(ids, before) + if Takes(s, p) then WokeUp(s, Step(s, p.tid, p.role)) else []
  }

  predicate Woke(s: State, s': State, w: Tid) {
    w in s.th && w in s'.th && s.th[w].blocked && AtGuardDown(s.th[w].pc) && !s'.th[w].blocked
  }

  ghost function WokeUp(s: State, s': State): seq<Tid> {
    if exists w :: Woke(s, s', w) then
      var w :| Woke(s, s', w);
      [w]
    else []
  }

  lemma WokeOne(s: State, s': State, w: Tid)
    requires Woke(s, s', w) && forall u :: Woke(s, s', u) ==> u == w
    ensures WokeUp(s, s') == [w]
  {
  }

  ghost predicate GuardInOrder(s: State, s': State, t: Tid) {
    s.guard.waiters + FellAsleep(s, s', t) == WokeUp(s, s') + s'.guard.waiters
  }

  lemma GuardDownInOrder(s: State, t: Tid, q: PC)
    requires SleepInv(s) && t in s.th && !s.th[t].blocked && AtGuardDown(s.th[t].pc)
    ensures GuardInOrder(s, GuardDown(s, t, q), t)
  {
    var s' := GuardDown(s, t, q);
    assert forall w :: !Woke(s, s', w);
  }

  lemma GuardUpInOrder(s: State, t: Tid, q: PC)
    requires SleepInv(s) && t in s.th && !s.th[t].blocked && AtGuardUp(s.th[t].pc)
    ensures GuardInOrder(s, GuardUp(s, t, q), t)
  {
    var s' := GuardUp(s, t, q);
    if s.guard.waiters == [] {
      assert forall w :: !Woke(s, s', w);
    } else {
      var w := s.guard.waiters[0];
      assert w in s.guard.waiters;
      assert s'.th == s.th[t := s.th[t].(pc := q)][w := s.th[w].(blocked := false)];
      WokeOne(s, s', w);
    }
  }

  ghost predicate SleepersSame(s: State, s': State) {
    s'.guard == s.guard
    && forall w :: w in s.th && w in s'.th && AtGuardDown(s.th[w].pc) ==> s'.th[w].blocked == s.th[w].blocked
  }

  /** Nothing but sema_down() and sema_up() on the guard touches the guard's list or its sleepers. */
  lemma OthersInOrder(s: State, s': State, t: Tid)
    requires SleepersSame(s, s') && (t in s.th ==> !AtGuardDown(s.th[t].pc))
    ensures GuardInOrder(s, s', t)
  {
    assert forall w :: !Woke(s, s', w);
  }

  lemma SignalLeavesGuard(s: State, t: Tid, w: Tid, q: PC)
    requires SleepInv(s) && t in s.th && w in s.th && s.th[w].pc.CondDown? && w != t
    ensures SleepersSame(s, OwnUp(s, t, w, q))
  {
    hide SleepInv;
    OwnUpEffect(s, t, w, q);
    hide OwnUp;
  }

  lemma QuietLeavesGuard(s: State, t: Tid)
    requires t in s.th && AtCond(s.th[t].pc) && !s.th[t].pc.SigUp? && !s.th[t].pc.BcUp?
    ensures SleepersSame(s, CondStep(s, t))
  {
  }

  lemma CondLeavesGuard(s: State, t: Tid)
    requires GuardInv(s) && SleepInv(s) && CondInv(s, Reader) && CondInv(s, Writer) && t in s.th && AtCond(s.th[t].pc)
    ensures SleepersSame(s, CondStep(s, t))
  {
    hide GuardInv, SleepInv, CondInv, SleepersSame;
    match s.th[t].pc
    case SigUp(w) =>
      ChosenByHolder(s, t, w, RelDisown, Writer);
      SignalLeavesGuard(s, t, w, RelDisown);
    case BcUp(w) =>
      ChosenByHolder(s, t, w, BcTest, Reader);
      SignalLeavesGuard(s, t, w, BcTest);
    case _ =>
      QuietLeavesGuard(s, t);
  }

  lemma PlainLeavesGuard(s: State, t: Tid, role: Role)
    requires t in s.th && IsPlain(s.th[t].pc)
    ensures SleepersSame(s, Step(s, t, role))
  {
    hide PlainPC;
    assert PlainAssign(s, t, s.th[t].pc).guard == s.guard && PlainAssign(s, t, s.th[t].pc).th == s.th;
  }

  lemma GuardStep(s: State, t: Tid, role: Role)
    requires Inv(s) && t in s.th && !s.th[t].blocked
    ensures GuardInOrder(s, Step(s, t, role), t)
  {
    var pc := s.th[t].pc;
    hide GuardInv, SleepInv, CondInv, HistoryInv, CountInv, TestedInv, WakerInv, GuardInOrder, PlainPC, SleepersSame;
    if AtGuardDown(pc) {
      GuardDownInOrder(s, t, AfterGuard(pc));
    } else if AtGuardUp(pc) {
      GuardUpInOrder(s, t, AfterGuard(pc));
    } else if AtCond(pc) {
      CondLeavesGuard(s, t);
      OthersInOrder(s, CondStep(s, t), t);
    } else {
      PlainLeavesGuard(s, t, role);
      OthersInOrder(s, Step(s, t, role), t);
    }
  }

  lemma PickInOrder(s: State, p: Pick)
    requires Inv(s)
    ensures s.guard.waiters + (if Takes(s, p) then FellAsleep(s, Step(s, p.tid, p.role), p.tid) else [])
         == (if Takes(s, p) then WokeUp(s, Step(s, p.tid, p.role)) else []) + Next(s, p).guard.waiters
  {
    hide Inv, Step, FellAsleep, WokeUp;
    if Takes(s, p) {
      GuardStep(s, p.tid, p.role);
    }
  }

  /** In every run the threads that went to sleep on the guard are those that were woken and then those still on
      its list, in that order. */
  lemma {:induction false} GuardFifo(ids: set<Tid>, picks: seq<Pick>)
    ensures GuardJoined(ids, picks) == GuardWoken(ids, picks) + Run(Init(ids), picks).guard.waiters
    decreases |picks|
  {
    if picks != [] {
      hide Step, FellAsleep, WokeUp, Inv, Init, Next, Takes;
      var before, p := picks[..|picks| - 1], picks[|picks| - 1];
      var s := Run(Init(ids), before);
      GuardFifo(ids, before);
      RunInv(ids, before);
      PickInOrder(s, p);
      Regroup(GuardWoken(ids, before), s.guard.waiters,
              if Takes(s, p) then FellAsleep(s, Step(s, p.tid, p.role), p.tid) else [],
              if Takes(s, p) then WokeUp(s, Step(s, p.tid, p.role)) else [], Next(s, p).guard.waiters);
    }
  }
}
