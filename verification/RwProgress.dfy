/** Every call of the readers-writers lock comes to an end. */
module RwProgress {
  /*
   RwLock shows that nobody is left asleep for good. This module shows that the threads do not run
   for good either: Mesa waiters test again after each wake-up and may go back to sleep, but each
   statement of a thread in a call, or in the lock, uses up work of which there is only so much. So
   once no new calls begin, any scheduler that keeps running threads brings every thread out.
   */

  import opened Common
  import opened RwLock

  /** The thread has yet to reach the place in rw_lock_release() where it wakes others. */
  predicate BeforeWaking(pc: PC) {
    !(pc.Out? || pc.SigPop? || pc.SigUp? || pc.BcTest? || pc.BcUp? || pc.RelDisown? || pc.RelUp?)
  }

  /** How far a thread is from the end of its call and, if it acquires, of the release that follows.
      A signal takes a waiter back to where it tests again, at the cost of its signaller; a broadcast
      pays for "listed" readers, of "threads" at most. */
  function Distance(x: Thread, threads: nat, listed: nat): nat {
    (match x.pc
     case Out => 0
     case RelUp => 1
     case RelDisown => 2
     case BcTest => 3 + 12 * listed
     case BcUp(_) => 14 + 12 * listed
     case SigUp(_) => 12
     case SigPop => 13
     case RelTest(_) => 3
     case Leave(_) => 4
     case RelOwn(_) => 5
     case RelDown(_) => 6
     case Inside(_) => 7
     case AcqUp(_) => 8
     case AcqDisown(_) => 9
     case Enter(_) => 10
     case CondDown(_) => if x.own.value == 0 then 11 else 20
     case CondUp(_) => 12
     case CondDisown(_) => 13
     case CondPush(_) => 14
     case Announce(_) => 15
     case Test(_) => 16
     case AcqOwn(_) => 17
     case AcqDown(_) => 18
     case Retract(_) => 17
     case CondReOwn(_) => 18
     case CondReDown(_) => 19)
    + (if BeforeWaking(x.pc) then 11 + 12 * threads else 0)
  }

  /** Falling asleep uses up work too. */
  function Work(x: Thread, threads: nat, listed: nat): nat {
    2 * Distance(x, threads, listed) + if x.blocked then 0 else 1
  }

  ghost function Total(th: map<Tid, Thread>, ids: set<Tid>, threads: nat, listed: nat): nat
    requires ids <= th.Keys
    decreases |ids|
  {
    if ids == {} then 0
    else
      var t :| t in ids;
      Work(th[t], threads, listed) + Total(th, ids - {t}, threads, listed)
  }

  ghost function WorkLeft(s: State): nat {
    Total(s.th, s.th.Keys, |s.th|, |s.readQ|)
  }

  // ---------------------------------------------------------------- sums over threads

  lemma {:induction false} TotalSplit(th: map<Tid, Thread>, ids: set<Tid>, n: nat, k: nat, t: Tid)
    requires ids <= th.Keys && t in ids
    ensures Total(th, ids, n, k) == Work(th[t], n, k) + Total(th, ids - {t}, n, k)
    decreases |ids|
  {
    hide Work;
    var u :| u in ids && Total(th, ids, n, k) == Work(th[u], n, k) + Total(th, ids - {u}, n, k);
    if u != t {
      TotalSplit(th, ids - {u}, n, k, t);
      TotalSplit(th, ids - {t}, n, k, u);
      assert ids - {u} - {t} == ids - {t} - {u};
    }
  }

  lemma {:induction false} TotalAgrees(th: map<Tid, Thread>, th': map<Tid, Thread>, ids: set<Tid>,
                                       n: nat, k: nat, k': nat)
    requires ids <= th.Keys && ids <= th'.Keys
    requires forall u :: u in ids ==> Work(th'[u], n, k') == Work(th[u], n, k)
    ensures Total(th', ids, n, k') == Total(th, ids, n, k)
    decreases |ids|
  {
    hide Work;
    if ids != {} {
      var u :| u in ids;
      TotalSplit(th, ids, n, k, u);
      TotalSplit(th', ids, n, k', u);
      TotalAgrees(th, th', ids - {u}, n, k, k');
    }
  }

  lemma WorkBound(x: Thread, n: nat, k: nat)
    requires k <= n
    ensures Work(x, n, k) <= 24 * n + 63
  {
  }

  lemma {:induction false} TotalBound(th: map<Tid, Thread>, ids: set<Tid>, n: nat, k: nat)
    requires ids <= th.Keys && k <= n
    ensures Total(th, ids, n, k) <= |ids| * (24 * n + 63)
    decreases |ids|
  {
    hide Work;
    if ids != {} {
      var u :| u in ids;
      TotalSplit(th, ids, n, k, u);
      TotalBound(th, ids - {u}, n, k);
      WorkBound(th[u], n, k);
      assert |ids| == |ids - {u}| + 1;
    }
  }

  /** Only t works, and only a thread woken by it gains work, less than t uses up. */
  lemma TotalDrops(th: map<Tid, Thread>, th': map<Tid, Thread>, n: nat, k: nat, k': nat, t: Tid, w: Tid)
    requires t in th && w in th && th'.Keys == th.Keys
    requires forall u :: u in th && u != t && u != w ==> Work(th'[u], n, k') == Work(th[u], n, k)
    requires Work(th'[t], n, k') + (if w == t then 0 else Work(th'[w], n, k'))
           < Work(th[t], n, k) + (if w == t then 0 else Work(th[w], n, k))
    ensures Total(th', th.Keys, n, k') < Total(th, th.Keys, n, k)
  {
    hide Work;
    TotalSplit(th, th.Keys, n, k, t);
    TotalSplit(th', th.Keys, n, k', t);
    var rest := th.Keys - {t};
    if w != t {
      TotalSplit(th, rest, n, k, w);
      TotalSplit(th', rest, n, k', w);
      rest := rest - {w};
    }
    TotalAgrees(th, th', rest, n, k, k');
  }

  // ---------------------------------------------------------------- one step

  lemma FewListed(s: State)
    requires CondInv(s, Reader)
    ensures |s.readQ| <= |s.th|
  {
    NoDupSize(s.readQ);
    assert Queue(s, Reader) == s.readQ;
    SubsetSize(ToSet(s.readQ), s.th.Keys);
    assert |s.th.Keys| == |s.th|;
  }

  /** Only the guard's holder may change the list of readers, and only to it does the list matter. */
  lemma OthersKeepWork(s: State, s': State, t: Tid, w: Tid)
    requires GuardInv(s) && t in s.th && s'.th.Keys == s.th.Keys
    requires forall u :: u in s.th && u != t && u != w ==> s'.th[u] == s.th[u]
    requires s'.readQ == s.readQ || HasGuard(s.th[t].pc)
    ensures forall u :: u in s.th && u != t && u != w ==>
              Work(s'.th[u], |s.th|, |s'.readQ|) == Work(s.th[u], |s.th|, |s.readQ|)
  {
  }

  lemma SameSize(s: State, s': State)
    requires s'.th.Keys == s.th.Keys
    ensures |s'.th| == |s.th|
  {
    assert |s.th.Keys| == |s.th| && |s'.th.Keys| == |s'.th|;
  }

  /** A step that changes only thread t. */
  lemma AloneDrops(s: State, s': State, t: Tid)
    requires GuardInv(s) && t in s.th && s'.th.Keys == s.th.Keys
    requires forall u :: u in s.th && u != t ==> s'.th[u] == s.th[u]
    requires s'.readQ == s.readQ || HasGuard(s.th[t].pc)
    requires Work(s'.th[t], |s.th|, |s'.readQ|) < Work(s.th[t], |s.th|, |s.readQ|)
    ensures WorkLeft(s') < WorkLeft(s)
  {
    SameSize(s, s');
    OthersKeepWork(s, s', t, t);
    hide Work, GuardInv;
    TotalDrops(s.th, s'.th, |s.th|, |s.readQ|, |s'.readQ|, t, t);
  }

  /** A step of t that also wakes w. */
  lemma WakingDrops(s: State, s': State, t: Tid, w: Tid)
    requires GuardInv(s) && t in s.th && w in s.th && w != t && s'.th.Keys == s.th.Keys
    requires forall u :: u in s.th && u != t && u != w ==> s'.th[u] == s.th[u]
    requires s'.readQ == s.readQ
    requires Work(s'.th[t], |s.th|, |s.readQ|) + Work(s'.th[w], |s.th|, |s.readQ|)
           < Work(s.th[t], |s.th|, |s.readQ|) + Work(s.th[w], |s.th|, |s.readQ|)
    ensures WorkLeft(s') < WorkLeft(s)
  {
    SameSize(s, s');
    OthersKeepWork(s, s', t, w);
    hide Work, GuardInv;
    TotalDrops(s.th, s'.th, |s.th|, |s.readQ|, |s'.readQ|, t, w);
  }

  /** The next statement after a plain one is nearer to the end. */
  lemma PlainNearer(s: State, x: Thread, role: Role, n: nat)
    requires IsPlain(x.pc) && !x.pc.Out? && |s.readQ| <= n
    ensures Distance(x.(pc := PlainPC(s, x.pc, role)), n, |s.readQ|) < Distance(x, n, |s.readQ|)
  {
    hide MustWait;
  }

  lemma PlainDrops(s: State, t: Tid, role: Role)
    requires Inv(s) && t in s.th && CanAct(s.th[t]) && IsPlain(s.th[t].pc)
    ensures WorkLeft(Step(s, t, role)) < WorkLeft(s)
  {
    FewListed(s);
    hide GuardInv, CondInv, SleepInv, HistoryInv, CountInv, TestedInv, WakerInv, WorkLeft, Distance;
    var x := s.th[t];
    PlainNearer(s, x, role, |s.th|);
    PlainEffect(s, t, role);
    AloneDrops(s, Step(s, t, role), t);
  }

  lemma PlainEffect(s: State, t: Tid, role: Role)
    requires t in s.th && IsPlain(s.th[t].pc)
    ensures Step(s, t, role).th == s.th[t := s.th[t].(pc := PlainPC(s, s.th[t].pc, role))]
    ensures Step(s, t, role).readQ == s.readQ
  {
    hide PlainPC;
    assert PlainAssign(s, t, s.th[t].pc).th == s.th;
  }

  lemma GuardNearer(x: Thread, n: nat, k: nat)
    requires AtGuardDown(x.pc) || AtGuardUp(x.pc)
    requires x.pc.CondUp? ==> x.own.value == 0
    ensures Distance(x.(pc := AfterGuard(x.pc)), n, k) < Distance(x, n, k)
  {
  }

  lemma GuardDownDrops(s: State, t: Tid, role: Role)
    requires GuardInv(s) && t in s.th && CanAct(s.th[t]) && AtGuardDown(s.th[t].pc)
    ensures WorkLeft(Step(s, t, role)) < WorkLeft(s)
  {
    hide WorkLeft, GuardInv, Distance;
    GuardNearer(s.th[t], |s.th|, |s.readQ|);
    WakenWork(s.th[t].(blocked := true), |s.th|, |s.readQ|);
    AloneDrops(s, Step(s, t, role), t);
  }

  lemma GuardUpDrops(s: State, t: Tid, role: Role)
    requires Inv(s) && t in s.th && CanAct(s.th[t]) && AtGuardUp(s.th[t].pc)
    ensures WorkLeft(Step(s, t, role)) < WorkLeft(s)
  {
    hide HistoryInv, CountInv, TestedInv, WakerInv, WorkLeft, GuardInv, Distance;
    UnsignalledAtUp(s, t);
    hide CondInv;
    var s' := Step(s, t, role);
    GuardNearer(s.th[t], |s.th|, |s.readQ|);
    if s.guard.waiters == [] {
      AloneDrops(s, s', t);
    } else {
      var w := s.guard.waiters[0];
      assert w in s.guard.waiters && w in s.th && w != t;
      hide SleepInv;
      assert s'.th == s.th[t := s.th[t].(pc := AfterGuard(s.th[t].pc))][w := s.th[w].(blocked := false)];
      WakenWork(s.th[w], |s.th|, |s.readQ|);
      WakingDrops(s, s', t, w);
    }
  }

  /** No waiter is signalled before it has released the guard. */
  lemma UnsignalledAtUp(s: State, t: Tid)
    requires CondInv(s, Reader) && CondInv(s, Writer) && t in s.th
    ensures s.th[t].pc.CondUp? ==> s.th[t].own.value == 0
  {
    if s.th[t].pc.CondUp? {
      assert InWait(s.th[t].pc, s.th[t].pc.role);
    }
  }

  lemma WakenWork(x: Thread, n: nat, k: nat)
    ensures Work(x.(blocked := false), n, k) == Work(x, n, k) + if x.blocked then 1 else 0
  {
  }

  /** What a signal takes from the signaller, and gives back to the waiter. */
  lemma SignalNearer(x: Thread, y: Thread, q: PC, signalled: nat, n: nat, k: nat)
    requires (x.pc.SigUp? && q == RelDisown) || (x.pc.BcUp? && q == BcTest)
    requires y.pc.CondDown? && y.own.value == 0
    ensures Work(x.(pc := q), n, k) + 20 <= Work(x, n, k)
    ensures Work(y.(own := Sema(1, []), signalled := signalled, blocked := false), n, k) <= Work(y, n, k) + 19
  {
  }

  /** A signal to a waiter that has not been signalled yet. */
  lemma SignalDrops(s: State, t: Tid, w: Tid, q: PC)
    requires GuardInv(s) && SleepInv(s) && t in s.th && CanAct(s.th[t])
    requires w in s.th && s.th[w].pc.CondDown? && s.th[w].own.value == 0
    requires (s.th[t].pc.SigUp? && q == RelDisown) || (s.th[t].pc.BcUp? && q == BcTest)
    ensures WorkLeft(OwnUp(s, t, w, q)) < WorkLeft(s)
  {
    hide WorkLeft, GuardInv, SleepInv, Work, OwnUp;
    OwnUpEffect(s, t, w, q);
    SignalNearer(s.th[t], s.th[w], q, s.th[w].signalled + 1, |s.th|, |s.readQ|);
    WakingDrops(s, OwnUp(s, t, w, q), t, w);
  }

  lemma PushNearer(x: Thread, y: Thread, n: nat, k: nat)
    requires x.pc.CondPush? && y.pc.CondDisown?
    ensures Distance(y, n, k + 1) < Distance(x, n, k)
  {
  }

  lemma PushDrops(s: State, t: Tid)
    requires GuardInv(s) && t in s.th && CanAct(s.th[t]) && s.th[t].pc.CondPush?
    ensures WorkLeft(CondStep(s, t)) < WorkLeft(s)
  {
    hide WorkLeft, GuardInv, Distance;
    var s' := CondStep(s, t);
    PushNearer(s.th[t], s'.th[t], |s.th|, |s.readQ|);
    ListedIrrelevant(s'.th[t], |s.th|, |s.readQ|, |s'.readQ|);
    ListedIrrelevant(s'.th[t], |s.th|, |s.readQ| + 1, |s'.readQ|);
    AloneDrops(s, s', t);
  }

  lemma ListedIrrelevant(x: Thread, n: nat, k: nat, k': nat)
    requires !x.pc.BcTest? && !x.pc.BcUp?
    ensures Distance(x, n, k) == Distance(x, n, k')
  {
  }

  lemma OwnDownDrops(s: State, t: Tid)
    requires GuardInv(s) && t in s.th && CanAct(s.th[t]) && s.th[t].pc.CondDown? && s.th[t].own.value <= 1
    ensures WorkLeft(CondStep(s, t)) < WorkLeft(s)
  {
    hide WorkLeft, GuardInv;
    AloneDrops(s, CondStep(s, t), t);
  }

  lemma PopWriterDrops(s: State, t: Tid)
    requires GuardInv(s) && t in s.th && CanAct(s.th[t]) && s.th[t].pc.SigPop?
    ensures WorkLeft(CondStep(s, t)) < WorkLeft(s)
  {
    hide WorkLeft, GuardInv;
    AloneDrops(s, CondStep(s, t), t);
  }

  lemma PopReaderDrops(s: State, t: Tid)
    requires GuardInv(s) && t in s.th && CanAct(s.th[t]) && s.th[t].pc.BcTest?
    ensures WorkLeft(CondStep(s, t)) < WorkLeft(s)
  {
    hide WorkLeft, GuardInv;
    AloneDrops(s, CondStep(s, t), t);
  }

  lemma CondDrops(s: State, t: Tid)
    requires Inv(s) && t in s.th && CanAct(s.th[t]) && AtCond(s.th[t].pc)
    ensures WorkLeft(CondStep(s, t)) < WorkLeft(s)
  {
    hide SleepInv, HistoryInv, CountInv, TestedInv, WakerInv, WorkLeft, Work;
    match s.th[t].pc
    case SigUp(w) =>
      SignalTarget(s, t, w, RelDisown, Writer);
      SignalDrops(s, t, w, RelDisown);
    case BcUp(w) =>
      SignalTarget(s, t, w, BcTest, Reader);
      SignalDrops(s, t, w, BcTest);
    case CondPush(_) =>
      PushDrops(s, t);
    case CondDown(_) =>
      OwnAtMostOne(s, t);
      OwnDownDrops(s, t);
    case SigPop =>
      PopWriterDrops(s, t);
    case BcTest =>
      PopReaderDrops(s, t);
  }

  lemma SignalTarget(s: State, t: Tid, w: Tid, q: PC, r: Role)
    requires GuardInv(s) && CondInv(s, r) && t in s.th && AtUp(s.th[t].pc, w, q, r)
    ensures w in s.th && s.th[w].pc.CondDown? && s.th[w].own.value == 0
  {
    ChosenByHolder(s, t, w, q, r);
  }

  /** Every statement of a thread in a call, or in the lock, uses up work. */
  lemma StepDrops(s: State, t: Tid, role: Role)
    requires Inv(s) && t in s.th && CanAct(s.th[t])
    ensures WorkLeft(Step(s, t, role)) < WorkLeft(s)
  {
    hide WorkLeft, GuardInv, SleepInv;
    if AtGuardDown(s.th[t].pc) {
      GuardDownDrops(s, t, role);
    } else if AtGuardUp(s.th[t].pc) {
      GuardUpDrops(s, t, role);
    } else if AtCond(s.th[t].pc) {
      CondDrops(s, t);
    } else {
      PlainDrops(s, t, role);
    }
  }

  // ---------------------------------------------------------------- whole runs

  /** The most statements that the calls under way among n threads can still take. */
  function Limit(n: nat): nat {
    n * (24 * n + 63)
  }

  /** From pick number "from" on, every pick is of a thread in a call or in the lock that can run. */
  ghost predicate NoNewCalls(ids: set<Tid>, picks: seq<Pick>, from: nat) {
    forall i :: from <= i < |picks| ==> Acts(Run(Init(ids), picks[..i]), picks[i].tid)
  }

  predicate Acts(s: State, t: Tid) {
    t in s.th && CanAct(s.th[t])
  }

  /** Nobody can go on: every thread is out of its calls or asleep. */
  ghost predicate Halted(s: State) {
    forall t :: !Acts(s, t)
  }

  /** The lock as rw_lock_init() left it, and every thread out of its calls and awake. */
  ghost predicate AtRest(s: State) {
    && (forall t :: t in s.th ==> s.th[t].pc == Out && !s.th[t].blocked)
    && s.guard == Sema(1, []) && s.holder == None
    && s.readQ == [] && s.writeQ == []
    && s.AR == 0 && s.WR == 0 && s.AW == 0 && s.WW == 0
  }

  lemma {:induction false} RunThreads(ids: set<Tid>, picks: seq<Pick>)
    ensures Run(Init(ids), picks).th.Keys == ids
    decreases |picks|
  {
    if picks != [] {
      var s, p := Run(Init(ids), picks[..|picks| - 1]), picks[|picks| - 1];
      RunThreads(ids, picks[..|picks| - 1]);
      if p.tid in s.th && !s.th[p.tid].blocked {
        StepMovesOne(s, p.tid, p.role);
      }
    }
  }

  lemma {:induction false} RunDrops(ids: set<Tid>, picks: seq<Pick>, from: nat)
    requires from <= |picks| && NoNewCalls(ids, picks, from)
    ensures WorkLeft(Run(Init(ids), picks)) + |picks| - from <= WorkLeft(Run(Init(ids), picks[..from]))
    decreases |picks|
  {
    hide WorkLeft;
    if from == |picks| {
      assert picks[..from] == picks;
    } else {
      var first, p := picks[..|picks| - 1], picks[|picks| - 1];
      Prefixes(ids, picks, from);
      RunDrops(ids, first, from);
      assert first[..from] == picks[..from];
      assert Acts(Run(Init(ids), first), p.tid);
      RunInv(ids, first);
      StepDrops(Run(Init(ids), first), p.tid, p.role);
    }
  }

  lemma Prefixes(ids: set<Tid>, picks: seq<Pick>, from: nat)
    requires from < |picks| && NoNewCalls(ids, picks, from)
    ensures NoNewCalls(ids, picks[..|picks| - 1], from)
  {
    hide Acts;
    var first := picks[..|picks| - 1];
    forall i | from <= i < |first| ensures Acts(Run(Init(ids), first[..i]), first[i].tid) {
      assert first[..i] == picks[..i];
    }
  }

  lemma WorkLimit(ids: set<Tid>, picks: seq<Pick>)
    ensures WorkLeft(Run(Init(ids), picks)) <= Limit(|ids|)
  {
    RunThreads(ids, picks);
    RunInv(ids, picks);
    hide Run, Init;
    WorkAtMost(Run(Init(ids), picks), ids);
  }

  lemma WorkAtMost(s: State, ids: set<Tid>)
    requires CondInv(s, Reader) && s.th.Keys == ids
    ensures WorkLeft(s) <= Limit(|ids|)
  {
    FewListed(s);
    hide CondInv, Total;
    assert |s.th.Keys| == |s.th|;
    TotalBound(s.th, s.th.Keys, |s.th|, |s.readQ|);
  }

  lemma NotHalted(s: State, t: Tid)
    requires Inv(s) && t in s.th && !s.th[t].pc.Out?
    ensures !Halted(s)
  {
    SomeoneActs(s, t);
    var u :| u in s.th && CanAct(s.th[u]);
    assert Acts(s, u);
  }

  lemma HaltedIsRest(s: State)
    requires Inv(s) && Halted(s)
    ensures AtRest(s)
  {
    forall t | t in s.th ensures s.th[t].pc == Out {
      if !s.th[t].pc.Out? {
        NotHalted(s, t);
      }
    }
    AllOut(s);
  }

  lemma AllOut(s: State)
    requires Inv(s) && forall t :: t in s.th ==> s.th[t].pc == Out
    ensures AtRest(s)
  {
    hide HistoryInv, TestedInv, WakerInv, CountInv;
    NobodyCounted(s);
    HasFirst(Queue(s, Reader));
    HasFirst(Queue(s, Writer));
    HasFirst(s.guard.waiters);
  }

  lemma NobodyCounted(s: State)
    requires CountInv(s) && forall t :: t in s.th ==> s.th[t].pc == Out
    ensures s.AR == 0 && s.WR == 0 && s.AW == 0 && s.WW == 0
  {
    forall k ensures Counter(s, k) == 0 {
      assert Members(s.th, k) == {};
    }
    assert Counter(s, Act(Reader)) == 0 && Counter(s, Act(Writer)) == 0;
    assert Counter(s, Wait(Reader)) == 0 && Counter(s, Wait(Writer)) == 0;
  }

  lemma HasFirst(q: seq<Tid>)
    ensures q == [] || q[0] in q
  {
  }

  /** Take any run, let no new calls begin from some point on, and let the scheduler pick, in any order,
      threads that can run: it can do so only Limit times, and when it can do so no more, all calls have
      returned and the lock is as it was made. There is no deadlock and no livelock. */
  lemma CallsEnd(ids: set<Tid>, picks: seq<Pick>, from: nat)
    requires from <= |picks| && NoNewCalls(ids, picks, from)
    ensures |picks| - from <= Limit(|ids|)
    ensures Halted(Run(Init(ids), picks)) ==> AtRest(Run(Init(ids), picks))
  {
    hide WorkLeft, Limit, AtRest, Halted;
    RunDrops(ids, picks, from);
    WorkLimit(ids, picks[..from]);
    RunInv(ids, picks);
    if Halted(Run(Init(ids), picks)) {
      HaltedIsRest(Run(Init(ids), picks));
    }
  }

  /** A scheduler decides by all that has happened, ready lists included. It picks a thread that can run, if
      there is one. */
  ghost predicate Diligent(ids: set<Tid>, choose: seq<Pick> -> Pick) {
    forall picks :: !Halted(Run(Init(ids), picks)) ==> Acts(Run(Init(ids), picks), choose(picks).tid)
  }

  /** After any run, every such scheduler, left to itself, brings all calls to their end. */
  lemma SchedulerFinishes(ids: set<Tid>, before: seq<Pick>, choose: seq<Pick> -> Pick) returns (picks: seq<Pick>)
    requires Diligent(ids, choose)
    ensures before <= picks && |picks| <= |before| + Limit(|ids|)
    ensures forall i :: |before| <= i < |picks| ==> picks[i] == choose(picks[..i])
    ensures AtRest(Run(Init(ids), picks))
  {
    hide WorkLeft, Limit, AtRest, Halted, Run, Init;
    picks := before;
    while !Halted(Run(Init(ids), picks))
      invariant before <= picks && NoNewCalls(ids, picks, |before|)
      invariant forall i :: |before| <= i < |picks| ==> picks[i] == choose(picks[..i])
      decreases |before| + Limit(|ids|) - |picks|
    {
      CallsEnd(ids, picks, |before|);
      var p := choose(picks);
      OneMore(ids, picks, |before|, p);
      picks := picks + [p];
      CallsEnd(ids, picks, |before|);
    }
    CallsEnd(ids, picks, |before|);
  }

  lemma OneMore(ids: set<Tid>, picks: seq<Pick>, from: nat, p: Pick)
    requires from <= |picks| && NoNewCalls(ids, picks, from) && Acts(Run(Init(ids), picks), p.tid)
    ensures NoNewCalls(ids, picks + [p], from)
    ensures forall i :: 0 <= i <= |picks| ==> (picks + [p])[..i] == picks[..i]
  {
    hide Acts, Run, Init;
    var more := picks + [p];
    forall i | from <= i < |more| ensures Acts(Run(Init(ids), more[..i]), more[i].tid) {
      if i < |picks| {
        assert more[..i] == picks[..i];
      } else {
        assert more[..i] == picks;
      }
    }
  }
}
