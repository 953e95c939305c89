/** The page allocator of threads/palloc.c. */
module Palloc {
  /*
   palloc.c under interleaving. Allocation scans and flips bits of the pool's map under the pool's
   lock; palloc_free_multiple() clears bits one at a time without the lock. A step tests, sets or
   clears one bit, and a run is any sequence of steps of any number of threads. The lock itself is the
   subject of module RwLock, where a lock has at most one holder.
   */

  import opened Common

  /** Where a thread is. */
  datatype Act =
    | Idle
    | Acquire(n: nat)                     // palloc_get_multiple(): waiting for the pool's lock
    | Scanning(n: nat, i: nat, x: nat)    // bitmap_scan(): bit x of the group at i comes next
    | Setting(n: nat, i: nat, x: nat)     // bitmap_set_multiple(): bit i + x comes next
    | Release(n: nat, r: Option<nat>)     // about to release the lock and return
    | Checking(n: nat, i: nat, x: nat)    // palloc_free_multiple(): the assertion, at bit i + x
    | Clearing(n: nat, i: nat, x: nat)    // and bitmap_set_multiple(), at bit i + x
    | Failed                              // the assertion has failed

  /** A thread and the pages that it holds. */
  datatype Thread = Thread(act: Act, pages: set<nat>)

  /** The pool: its map, the holder of its lock, and the threads. */
  datatype Pool = Pool(used: seq<bool>, holder: Option<Tid>, th: map<Tid, Thread>)

  datatype Choice =
    | Get(n: nat)                         // call palloc_get_multiple()
    | Put(i: nat, n: nat)                 // call palloc_free_multiple() on pages it holds
    | Give(to: Tid, gift: set<nat>)       // pass pages to another thread
    | Go                                  // the next step of the call

  predicate Within(p: nat, i: nat, n: nat) {
    i <= p < i + n
  }

  function Range(i: nat, n: nat): set<nat> {
    set p: nat | p < i + n && Within(p, i, n)
  }

  predicate Scans(a: Act) {
    a.Scanning? || a.Setting? || a.Release?
  }

  function To(s: Pool, t: Tid, a: Act): Pool
    requires t in s.th
  {
    s.(th := s.th[t := s.th[t].(act := a)])
  }

  function Step(s: Pool, t: Tid, c: Choice): Pool
    requires t in s.th
  {
    var m := s.th[t];
    match m.act
    case Idle =>
      (match c
       case Get(n) => if n == 0 then s else To(s, t, Acquire(n))
       case Put(i, n) =>
         if n == 0 || !(Range(i, n) <= m.pages) then s
         else s.(th := s.th[t := Thread(Checking(n, i, 0), m.pages - Range(i, n))])
       case Give(u, g) =>
         if u == t || u !in s.th || !(g <= m.pages) then s
         else s.(th := s.th[t := m.(pages := m.pages - g)][u := s.th[u].(pages := s.th[u].pages + g)])
       case Go => s)
    case Acquire(n) => if s.holder.Some? then s else To(s.(holder := Some(t)), t, Scanning(n, 0, 0))
    case Scanning(n, i, x) =>
      if i + n > |s.used| then To(s, t, Release(n, None))
      else if x >= n then To(s, t, Setting(n, i, 0))
      else if s.used[i + x] then To(s, t, Scanning(n, i + 1, 0))
      else To(s, t, Scanning(n, i, x + 1))
    case Setting(n, i, x) =>
      if x >= n || i + x >= |s.used| then To(s, t, Release(n, Some(i)))
      else To(s.(used := s.used[i + x := true]), t, Setting(n, i, x + 1))
    case Release(n, r) =>
      var got := if r.Some? then Range(r.value, n) else {};
      s.(holder := None, th := s.th[t := Thread(Idle, m.pages + got)])
    case Checking(n, i, x) =>
      if x >= n then To(s, t, Clearing(n, i, 0))
      else if i + x < |s.used| && s.used[i + x] then To(s, t, Checking(n, i, x + 1))
      else To(s, t, Failed)
    case Clearing(n, i, x) =>
      if x >= n || i + x >= |s.used| then To(s, t, Idle)
      else To(s.(used := s.used[i + x := false]), t, Clearing(n, i, x + 1))
    case Failed => s
  }

  datatype Pick = Pick(t: Tid, choice: Choice)

  function Run(s: Pool, picks: seq<Pick>): Pool
    decreases |picks|
  {
    if picks == [] then s
    else
      var r, p := Run(s, picks[..|picks| - 1]), picks[|picks| - 1];
      if p.t in r.th then Step(r, p.t, p.choice) else r
  }

  function Init(pages: nat, ids: set<Tid>): Pool {
    Pool(seq(pages, _ => false), None, map t | t in ids :: Thread(Idle, {}))
  }

  // ---------------------------------------------------------------- claims

  /** The page is spoken for by what the thread is doing: it has set the bit for itself, or has given
      the page up and not yet cleared the bit. */
  predicate Doing(a: Act, p: nat) {
    match a
    case Setting(n, i, x) => i <= p < i + x
    case Release(n, r) => r.Some? && r.value <= p < r.value + n
    case Checking(n, i, x) => i <= p < i + n
    case Clearing(n, i, x) => i + x <= p < i + n
    case _ => false
  }

  predicate Claims(m: Thread, p: nat) {
    p in m.pages || Doing(m.act, p)
  }

  /** A page is claimed by at most one thread, in one way. */
  ghost predicate ClaimInv(s: Pool) {
    && (forall t, u, p: nat :: t in s.th && u in s.th && Claims(s.th[t], p) && Claims(s.th[u], p) ==> t == u)
    && (forall t, p: nat :: t in s.th && p in s.th[t].pages ==> !Doing(s.th[t].act, p))
  }

  ghost predicate Claimed(s: Pool, p: nat) {
    exists t :: t in s.th && Claims(s.th[t], p)
  }

  /** The bits that are set are exactly those of claimed pages. */
  ghost predicate BitInv(s: Pool) {
    && (forall p: nat :: p < |s.used| && s.used[p] ==> Claimed(s, p))
    && (forall t, p: nat {:trigger Claims(s.th[t], p)} :: t in s.th && Claims(s.th[t], p) ==> p < |s.used| && s.used[p])
  }

  /** Where a thread is makes sense: what a scan has passed is clear, what is not yet set is clear. */
  ghost predicate ActOk(used: seq<bool>, a: Act) {
    match a
    case Scanning(n, i, x) => n > 0 && x <= n && (x > 0 ==> i + n <= |used| && forall p :: i <= p < i + x ==> !used[p])
    case Setting(n, i, x) => x <= n && i + n <= |used| && forall p :: i + x <= p < i + n ==> !used[p]
    case Release(n, r) => r.Some? ==> r.value + n <= |used|
    case Checking(n, i, x) => x <= n
    case Clearing(n, i, x) => x <= n
    case Acquire(n) => n > 0
    case Idle => true
    case Failed => false
  }

  ghost predicate ActInv(s: Pool) {
    forall t :: t in s.th ==> ActOk(s.used, s.th[t].act)
  }

  /** Only the lock's holder scans and sets. */
  ghost predicate LockInv(s: Pool) {
    forall t :: t in s.th && Scans(s.th[t].act) ==> s.holder == Some(t)
  }

  ghost predicate Inv(s: Pool) {
    ClaimInv(s) && BitInv(s) && ActInv(s) && LockInv(s)
  }

  // ---------------------------------------------------------------- preservation

  /** Thread t moves on and what it claims stays the same. */
  ghost predicate Moves(s: Pool, r: Pool, t: Tid) {
    && t in s.th && r.used == s.used && r.th.Keys == s.th.Keys
    && (forall u :: u in s.th && u != t ==> r.th[u] == s.th[u])
    && (forall p: nat :: Claims(r.th[t], p) <==> Claims(s.th[t], p))
    && (forall p: nat :: p in r.th[t].pages ==> !Doing(r.th[t].act, p))
  }

  lemma MovesKeep(s: Pool, r: Pool, t: Tid)
    requires ClaimInv(s) && BitInv(s) && Moves(s, r, t)
    ensures ClaimInv(r) && BitInv(r)
  {
    assert forall u, p: nat :: u in s.th ==> (Claims(r.th[u], p) <==> Claims(s.th[u], p));
    hide Claims;
    forall p: nat | p < |r.used| && r.used[p] ensures Claimed(r, p) {
      var u :| u in s.th && Claims(s.th[u], p);
      assert u in r.th && Claims(r.th[u], p);
    }
  }

  /** The steps that touch no bit, pass no page on and fail no assertion. */
  predicate Quiet(s: Pool, t: Tid, c: Choice)
    requires t in s.th
  {
    var a := s.th[t].act;
    && (a.Idle? ==> !c.Give?)
    && (a.Setting? || a.Clearing? ==> a.x >= a.n)
    && (a.Checking? ==> a.x >= a.n || (a.i + a.x < |s.used| && s.used[a.i + a.x]))
  }

  lemma QuietOthers(s: Pool, t: Tid, c: Choice)
    requires t in s.th && Quiet(s, t, c)
    ensures var r := Step(s, t, c);
      r.used == s.used && r.th.Keys == s.th.Keys && forall u :: u in s.th && u != t ==> r.th[u] == s.th[u]
  {
  }

  lemma QuietClaims(s: Pool, t: Tid, c: Choice, p: nat)
    requires t in s.th && Quiet(s, t, c) && ActOk(s.used, s.th[t].act)
    requires p in s.th[t].pages ==> !Doing(s.th[t].act, p)
    ensures t in Step(s, t, c).th
    ensures Claims(Step(s, t, c).th[t], p) <==> Claims(s.th[t], p)
    ensures p in Step(s, t, c).th[t].pages ==> !Doing(Step(s, t, c).th[t].act, p)
  {
  }

  lemma QuietOwn(s: Pool, t: Tid, c: Choice)
    requires t in s.th && Quiet(s, t, c) && ActOk(s.used, s.th[t].act)
    requires Scans(s.th[t].act) ==> s.holder == Some(t)
    ensures var r := Step(s, t, c);
      && t in r.th && ActOk(r.used, r.th[t].act)
      && (Scans(r.th[t].act) ==> r.holder == Some(t))
      && (r.holder == s.holder || s.holder == None || s.holder == Some(t))
  {
  }

  lemma QuietActs(s: Pool, t: Tid, c: Choice)
    requires ActInv(s) && LockInv(s) && t in s.th && Quiet(s, t, c)
    ensures ActInv(Step(s, t, c)) && LockInv(Step(s, t, c))
  {
    assert ActOk(s.used, s.th[t].act);
    QuietOwn(s, t, c);
    QuietOthers(s, t, c);
    hide Step, Quiet, ActOk;
  }

  lemma QuietInv(s: Pool, t: Tid, c: Choice)
    requires Inv(s) && t in s.th && Quiet(s, t, c)
    ensures Inv(Step(s, t, c))
  {
    QuietOthers(s, t, c);
    QuietActs(s, t, c);
    var r := Step(s, t, c);
    assert ActOk(s.used, s.th[t].act);
    hide BitInv, ActInv, LockInv, Step, Quiet, Claims, Doing;
    forall p: nat
      ensures Claims(r.th[t], p) <==> Claims(s.th[t], p)
      ensures p in r.th[t].pages ==> !Doing(r.th[t].act, p)
    {
      QuietClaims(s, t, c, p);
    }
    MovesKeep(s, r, t);
  }

  /** The assertion in palloc_free_multiple(): the bit is set. */
  lemma CheckHolds(s: Pool, t: Tid)
    requires BitInv(s) && t in s.th && s.th[t].act.Checking? && s.th[t].act.x < s.th[t].act.n
    ensures var a := s.th[t].act; a.i + a.x < |s.used| && s.used[a.i + a.x]
  {
    var a := s.th[t].act;
    assert Claims(s.th[t], a.i + a.x);
  }

  /** Setting a bit claims the page, which nobody had claimed. */
  lemma SetInv(s: Pool, t: Tid, c: Choice)
    requires Inv(s) && t in s.th && s.th[t].act.Setting? && s.th[t].act.x < s.th[t].act.n
    ensures Inv(Step(s, t, c))
  {
    var r := Step(s, t, c);
    var a := s.th[t].act;
    var q := a.i + a.x;
    assert ActOk(s.used, a);
    assert !s.used[q];
    SetClaims(s, r, t, q);
    forall u | u in r.th ensures ActOk(r.used, r.th[u].act) {
      assert ActOk(s.used, s.th[u].act);
      if u != t {
        assert !Scans(s.th[u].act);
      }
    }
  }

  lemma SetClaims(s: Pool, r: Pool, t: Tid, q: nat)
    requires ClaimInv(s) && BitInv(s) && t in s.th && q < |s.used| && !s.used[q]
    requires r.used == s.used[q := true] && r.th.Keys == s.th.Keys
    requires forall u :: u in s.th && u != t ==> r.th[u] == s.th[u]
    requires r.th[t].pages == s.th[t].pages
    requires forall p: nat :: Doing(r.th[t].act, p) <==> Doing(s.th[t].act, p) || p == q
    ensures ClaimInv(r) && BitInv(r)
  {
    assert forall u :: u in s.th ==> !Claims(s.th[u], q);
    assert forall u, p: nat :: u in s.th ==> (Claims(r.th[u], p) <==> Claims(s.th[u], p) || (u == t && p == q));
    forall p: nat | p < |r.used| && r.used[p] ensures Claimed(r, p) {
      if p == q {
        assert t in r.th && Claims(r.th[t], p);
      } else {
        var u :| u in s.th && Claims(s.th[u], p);
        assert u in r.th && Claims(r.th[u], p);
      }
    }
  }

  /** Clearing a bit drops the claim. */
  lemma ClearInv(s: Pool, t: Tid, c: Choice)
    requires Inv(s) && t in s.th && s.th[t].act.Clearing? && s.th[t].act.x < s.th[t].act.n
    ensures Inv(Step(s, t, c))
  {
    var r := Step(s, t, c);
    var a := s.th[t].act;
    var q := a.i + a.x;
    assert Claims(s.th[t], q);
    ClearClaims(s, r, t, q);
    hide ClaimInv, BitInv;
    forall u | u in r.th ensures ActOk(r.used, r.th[u].act) {
      assert ActOk(s.used, s.th[u].act);
    }
  }

  lemma ClearClaims(s: Pool, r: Pool, t: Tid, q: nat)
    requires ClaimInv(s) && BitInv(s) && t in s.th && q < |s.used| && Doing(s.th[t].act, q)
    requires r.used == s.used[q := false] && r.th.Keys == s.th.Keys
    requires forall u :: u in s.th && u != t ==> r.th[u] == s.th[u]
    requires r.th[t].pages == s.th[t].pages
    requires forall p: nat :: Doing(r.th[t].act, p) <==> Doing(s.th[t].act, p) && p != q
    ensures ClaimInv(r) && BitInv(r)
  {
    assert Claims(s.th[t], q);
    assert forall u, p: nat :: u in s.th ==> (Claims(r.th[u], p) <==> Claims(s.th[u], p) && p != q);
    forall p: nat | p < |r.used| && r.used[p] ensures Claimed(r, p) {
      var u :| u in s.th && Claims(s.th[u], p);
      assert u in r.th && Claims(r.th[u], p);
    }
  }

  lemma GiveInv(s: Pool, t: Tid, c: Choice)
    requires Inv(s) && t in s.th && s.th[t].act.Idle? && c.Give?
    ensures Inv(Step(s, t, c))
  {
    var r := Step(s, t, c);
    if r != s {
      GiveClaims(s, r, t, c.to, c.gift);
    }
  }

  lemma GiveClaims(s: Pool, r: Pool, t: Tid, u: Tid, g: set<nat>)
    requires ClaimInv(s) && BitInv(s) && t in s.th && u in s.th && u != t && g <= s.th[t].pages
    requires r.used == s.used
    requires r.th == s.th[t := s.th[t].(pages := s.th[t].pages - g)][u := s.th[u].(pages := s.th[u].pages + g)]
    ensures ClaimInv(r) && BitInv(r)
  {
    forall v, p: nat | v in s.th
      ensures Claims(r.th[v], p) <==> if p in g then v == u else Claims(s.th[v], p)
      ensures p in r.th[v].pages ==> !Doing(r.th[v].act, p)
    {
      GiveOne(s, r, t, u, g, v, p);
    }
    assert forall p: nat :: p in g ==> Claims(s.th[t], p);
    hide Claims, Doing, BitInv;
    GiveBits(s, r, t, u, g);
  }

  lemma GiveBits(s: Pool, r: Pool, t: Tid, u: Tid, g: set<nat>)
    requires ClaimInv(s) && BitInv(s) && t in s.th && u in s.th && r.used == s.used && r.th.Keys == s.th.Keys
    requires forall v, p: nat :: v in s.th ==> (Claims(r.th[v], p) <==> if p in g then v == u else Claims(s.th[v], p))
    requires forall p: nat :: p in g ==> Claims(s.th[t], p)
    ensures BitInv(r)
  {
    hide Claims, Doing, ClaimInv;
    forall v, p: nat {:trigger Claims(r.th[v], p)} | v in r.th && Claims(r.th[v], p) ensures p < |r.used| && r.used[p] {
      assert p in g ==> Claims(s.th[t], p);
      assert p !in g ==> Claims(s.th[v], p);
    }
    forall p: nat | p < |r.used| && r.used[p] ensures Claimed(r, p) {
      var v :| v in s.th && Claims(s.th[v], p);
      if p in g {
        assert u in r.th && Claims(r.th[u], p);
      } else {
        assert v in r.th && Claims(r.th[v], p);
      }
    }
  }

  lemma GiveOne(s: Pool, r: Pool, t: Tid, u: Tid, g: set<nat>, v: Tid, p: nat)
    requires ClaimInv(s) && t in s.th && u in s.th && u != t && g <= s.th[t].pages && v in s.th
    requires r.th == s.th[t := s.th[t].(pages := s.th[t].pages - g)][u := s.th[u].(pages := s.th[u].pages + g)]
    ensures Claims(r.th[v], p) <==> if p in g then v == u else Claims(s.th[v], p)
    ensures p in r.th[v].pages ==> !Doing(r.th[v].act, p)
  {
    if p in g {
      assert Claims(s.th[t], p);
      assert Claims(s.th[v], p) ==> v == t;
      assert !Doing(s.th[t].act, p);
    }
  }

  lemma StepInv(s: Pool, t: Tid, c: Choice)
    requires Inv(s) && t in s.th
    ensures Inv(Step(s, t, c))
  {
    var a := s.th[t].act;
    if a.Checking? && a.x < a.n {
      CheckHolds(s, t);
    }
    hide Inv, Step;
    if a.Setting? && a.x < a.n {
      SetInv(s, t, c);
    } else if a.Clearing? && a.x < a.n {
      ClearInv(s, t, c);
    } else if a.Idle? && c.Give? {
      GiveInv(s, t, c);
    } else {
      QuietInv(s, t, c);
    }
  }

  lemma {:induction false} RunInv(pages: nat, ids: set<Tid>, picks: seq<Pick>)
    ensures Inv(Run(Init(pages, ids), picks))
    decreases |picks|
  {
    if picks != [] {
      var r, p := Run(Init(pages, ids), picks[..|picks| - 1]), picks[|picks| - 1];
      RunInv(pages, ids, picks[..|picks| - 1]);
      hide Inv, Init, Step;
      if p.t in r.th {
        StepInv(r, p.t, p.choice);
      }
    }
  }

  // ---------------------------------------------------------------- what it means

  /** In every interleaving: no two threads hold the same page, and the bit of a page that is held is
      set. */
  lemma NoPageTwice(pages: nat, ids: set<Tid>, picks: seq<Pick>, t: Tid, p: nat)
    ensures var s := Run(Init(pages, ids), picks);
      t in s.th && p in s.th[t].pages ==>
        && p < |s.used| && s.used[p]
        && forall u :: u in s.th && p in s.th[u].pages ==> u == t
  {
    var s := Run(Init(pages, ids), picks);
    RunInv(pages, ids, picks);
    hide Run, Init;
    if t in s.th && p in s.th[t].pages {
      assert Claims(s.th[t], p);
    }
  }

  /** In every interleaving: the assertion in palloc_free_multiple() never fails. */
  lemma NoAssertionFails(pages: nat, ids: set<Tid>, picks: seq<Pick>, t: Tid)
    ensures var s := Run(Init(pages, ids), picks); t in s.th ==> !s.th[t].act.Failed?
  {
    RunInv(pages, ids, picks);
    hide Run, Init;
    var s := Run(Init(pages, ids), picks);
    if t in s.th {
      assert ActOk(s.used, s.th[t].act);
    }
  }

  /** In every interleaving: when no call is in progress, the bits that are set are exactly those of
      the pages that threads hold. */
  lemma QuietIsExact(pages: nat, ids: set<Tid>, picks: seq<Pick>, p: nat)
    ensures var s := Run(Init(pages, ids), picks);
      (forall t :: t in s.th ==> s.th[t].act.Idle?) && p < |s.used| ==>
        (s.used[p] <==> exists t :: t in s.th && p in s.th[t].pages)
  {
    RunInv(pages, ids, picks);
    hide Run, Init;
    var s := Run(Init(pages, ids), picks);
    if (forall t :: t in s.th ==> s.th[t].act.Idle?) && p < |s.used| {
      assert forall t :: t in s.th ==> (Claims(s.th[t], p) <==> p in s.th[t].pages);
      if s.used[p] {
        var t :| t in s.th && Claims(s.th[t], p);
      }
    }
  }

  // ---------------------------------------------------------------- what a call gives

  /** The call of palloc_get_multiple() that t is in or made last: how many pages it asked for, and how many
      picks had been made before it. */
  datatype Call = Call(n: nat, since: nat)

  function LastGet(pages: nat, ids: set<Tid>, picks: seq<Pick>, t: Tid): Option<Call>
    decreases |picks|
  {
    if picks == [] then None
    else
      var before, p := picks[..|picks| - 1], picks[|picks| - 1];
      var r := Run(Init(pages, ids), before);
      if p.t == t && t in r.th && r.th[t].act.Idle? && p.choice.Get? && p.choice.n > 0
      then Some(Call(p.choice.n, |before|)) else LastGet(pages, ids, before, t)
  }

  predicate Gets(a: Act) {
    a.Acquire? || Scans(a)
  }

  /** Some page of the group at j was in use when k picks had been made. */
  ghost predicate Busy(pages: nat, ids: set<Tid>, picks: seq<Pick>, k: nat, j: nat, n: nat) {
    k <= |picks| && exists p: nat :: Within(p, j, n) && p < |Run(Init(pages, ids), picks[..k]).used|
                                  && Run(Init(pages, ids), picks[..k]).used[p]
  }

  /** Some page of the group at j was in use at some time since "since" picks had been made. */
  ghost predicate WasBusy(pages: nat, ids: set<Tid>, picks: seq<Pick>, since: nat, j: nat, n: nat) {
    exists k: nat :: since <= k && Busy(pages, ids, picks, k, j, n)
  }

  lemma BusyLonger(pages: nat, ids: set<Tid>, picks: seq<Pick>, p: Pick, since: nat, j: nat, n: nat)
    requires WasBusy(pages, ids, picks, since, j, n)
    ensures WasBusy(pages, ids, picks + [p], since, j, n)
  {
    var k: nat :| since <= k && Busy(pages, ids, picks, k, j, n);
    assert (picks + [p])[..k] == picks[..k];
    assert Busy(pages, ids, picks + [p], k, j, n);
  }

  lemma BusyNow(pages: nat, ids: set<Tid>, picks: seq<Pick>, p: Pick, since: nat, j: nat, n: nat, x: nat)
    requires var r := Run(Init(pages, ids), picks); j + x < |r.used| && x < n && r.used[j + x] && since <= |picks|
    ensures WasBusy(pages, ids, picks + [p], since, j, n)
  {
    assert (picks + [p])[..|picks|] == picks;
    assert Within(j + x, j, n);
    assert Busy(pages, ids, picks + [p], |picks|, j, n);
  }

  /** How far a call has come: up to "end", every group it has passed was busy at some time of the call. */
  function Passed(size: nat, a: Act): nat {
    match a
    case Scanning(_, i, _) => i
    case Release(n, None) => if n <= size then size - n + 1 else 0
    case _ => 0
  }

  ghost predicate CallOk(pages: nat, ids: set<Tid>, picks: seq<Pick>, a: Act, call: Option<Call>) {
    Gets(a) ==>
      && call.Some? && call.value.n == a.n && call.value.since <= |picks|
      && forall j: nat :: j < Passed(pages, a) ==> WasBusy(pages, ids, picks, call.value.since, j, a.n)
  }

  /** The steps of a call: it begins, goes on with as many pages, and passes a group only at a page in use. */
  lemma StepCall(s: Pool, t: Tid, c: Choice)
    requires t in s.th && t in Step(s, t, c).th && Gets(Step(s, t, c).th[t].act)
    ensures var a, a' := s.th[t].act, Step(s, t, c).th[t].act;
      if a.Idle? then c.Get? && c.n > 0 && a' == Acquire(c.n)
      else
        && Gets(a) && a'.n == a.n
        && (Passed(|s.used|, a') <= Passed(|s.used|, a)
            || (a.Scanning? && Passed(|s.used|, a') == a.i + 1 && a.x < a.n && a.i + a.x < |s.used| && s.used[a.i + a.x])
            || (a.Acquire? && Passed(|s.used|, a') == 0))
  {
  }

  lemma StepOther(s: Pool, t: Tid, c: Choice, u: Tid)
    requires t in s.th && u != t
    ensures var r := Step(s, t, c); |r.used| == |s.used| && (u in r.th <==> u in s.th)
    ensures u in s.th ==> Step(s, t, c).th[u].act == s.th[u].act
  {
  }

  lemma {:induction false} PoolSize(pages: nat, ids: set<Tid>, picks: seq<Pick>)
    ensures |Run(Init(pages, ids), picks).used| == pages && Run(Init(pages, ids), picks).th.Keys == ids
    decreases |picks|
  {
    if picks != [] {
      PoolSize(pages, ids, picks[..|picks| - 1]);
    }
  }

  lemma CallStep(pages: nat, ids: set<Tid>, picks: seq<Pick>, p: Pick, call: Option<Call>)
    requires var r := Run(Init(pages, ids), picks);
      p.t in r.th && |r.used| == pages && CallOk(pages, ids, picks, r.th[p.t].act, call)
    ensures var r := Run(Init(pages, ids), picks); var a := r.th[p.t].act;
      var begins := a.Idle? && p.choice.Get? && p.choice.n > 0;
      var call' := if begins then Some(Call(p.choice.n, |picks|)) else call;
      p.t in Step(r, p.t, p.choice).th ==> CallOk(pages, ids, picks + [p], Step(r, p.t, p.choice).th[p.t].act, call')
  {
    var r := Run(Init(pages, ids), picks);
    var s := Step(r, p.t, p.choice);
    if p.t in s.th && Gets(s.th[p.t].act) {
      StepCall(r, p.t, p.choice);
      var a, a' := r.th[p.t].act, s.th[p.t].act;
      if !a.Idle? {
        var since := call.value.since;
        hide Step, Run, Init, WasBusy;
        forall j: nat | j < Passed(pages, a') ensures WasBusy(pages, ids, picks + [p], since, j, a.n) {
          if j < Passed(pages, a) {
            BusyLonger(pages, ids, picks, p, since, j, a.n);
          } else {
            BusyNow(pages, ids, picks, p, since, j, a.n, a.x);
          }
        }
      }
    }
  }

  lemma CallStays(pages: nat, ids: set<Tid>, picks: seq<Pick>, p: Pick, a: Act, call: Option<Call>)
    requires CallOk(pages, ids, picks, a, call)
    ensures CallOk(pages, ids, picks + [p], a, call)
  {
    if Gets(a) {
      hide WasBusy, Passed;
      forall j: nat | j < Passed(pages, a) ensures WasBusy(pages, ids, picks + [p], call.value.since, j, a.n) {
        BusyLonger(pages, ids, picks, p, call.value.since, j, a.n);
      }
    }
  }

  lemma {:induction false} RunCalls(pages: nat, ids: set<Tid>, picks: seq<Pick>, t: Tid)
    ensures var s := Run(Init(pages, ids), picks);
      t in s.th ==> CallOk(pages, ids, picks, s.th[t].act, LastGet(pages, ids, picks, t))
    decreases |picks|
  {
    if picks != [] {
      var before, p := picks[..|picks| - 1], picks[|picks| - 1];
      var r := Run(Init(pages, ids), before);
      RunCalls(pages, ids, before, t);
      PoolSize(pages, ids, before);
      assert picks == before + [p];
      hide CallOk, Step;
      if p.t == t && t in r.th {
        CallStep(pages, ids, before, p, LastGet(pages, ids, before, t));
      } else {
        if p.t in r.th {
          StepOther(r, p.t, p.choice, t);
        }
        if t in r.th {
          CallStays(pages, ids, before, p, r.th[t].act, LastGet(pages, ids, before, t));
        }
      }
    }
  }

  /** In every interleaving: a successful palloc_get_multiple() is about to give its caller as many contiguous pages
      of the pool as it asked for, which it did not hold before; one about to fail has found, for every group of as
      many pages, a page of the group in use at some time since the call began. */
  lemma GetMeans(pages: nat, ids: set<Tid>, picks: seq<Pick>, t: Tid)
    ensures var s := Run(Init(pages, ids), picks);
      t in s.th && s.th[t].act.Release? ==>
        var call := LastGet(pages, ids, picks, t);
        && call.Some?
        && var n := call.value.n; var r := Step(s, t, Go);
           && t in r.th
           && match s.th[t].act.r
              case Some(i) => i + n <= pages && r.th[t].pages == s.th[t].pages + Range(i, n) && s.th[t].pages !! Range(i, n)
              case None =>
                r.th[t].pages == s.th[t].pages
                && forall j: nat :: j + n <= pages ==> WasBusy(pages, ids, picks, call.value.since, j, n)
  {
    RunCalls(pages, ids, picks, t);
    RunInv(pages, ids, picks);
    PoolSize(pages, ids, picks);
    var s := Run(Init(pages, ids), picks);
    hide Run, Init, WasBusy, BitInv, LockInv;
    if t in s.th && s.th[t].act.Release? {
      ReleaseMeans(s, t);
    }
  }

  lemma ReleaseMeans(s: Pool, t: Tid)
    requires ClaimInv(s) && ActInv(s) && t in s.th && s.th[t].act.Release?
    ensures var r := Step(s, t, Go); var a := s.th[t].act;
      && t in r.th
      && match a.r
         case Some(i) => i + a.n <= |s.used| && r.th[t].pages == s.th[t].pages + Range(i, a.n) && s.th[t].pages !! Range(i, a.n)
         case None => r.th[t].pages == s.th[t].pages
  {
    assert ActOk(s.used, s.th[t].act);
    forall p | p in s.th[t].pages ensures !Doing(s.th[t].act, p) {
    }
  }
}
