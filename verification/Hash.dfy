/** The chained hash table of lib/kernel/hash.c. */
module Hash {
  /*
   hash.c: a chained hash table whose number of buckets is a power of two that follows the number of
   elements. Two elements are equal if neither is less than the other; as hash.h demands, equal
   elements have equal hashes. A bucket is the sequence of its list's elements.
   */

  import opened Common

  // ---------------------------------------------------------------- bits of a size_t

  /** a & b. */
  function And(a: nat, b: nat): nat
    decreases a
  {
    if a == 0 then 0 else (if a % 2 == 1 && b % 2 == 1 then 1 else 0) + 2 * And(a / 2, b / 2)
  }

  /** turn_off_least_1bit(). */
  function TurnOff(x: nat): nat
    requires x > 0
  {
    And(x, x - 1)
  }

  predicate IsPower(x: nat) {
    x == 1 || (x > 0 && x % 2 == 0 && IsPower(x / 2))
  }

  /** The largest power of two that is no larger than x. */
  function Top(x: nat): nat
    requires x > 0
  {
    if x == 1 then 1 else 2 * Top(x / 2)
  }

  lemma {:induction false} TopIs(x: nat)
    requires x > 0
    ensures IsPower(Top(x)) && Top(x) <= x < 2 * Top(x)
  {
    if x > 1 {
      TopIs(x / 2);
      assert Top(x) / 2 == Top(x / 2);
    }
  }

  lemma {:induction false} AndSelf(x: nat)
    ensures And(x, x) == x
  {
    if x > 0 {
      AndSelf(x / 2);
    }
  }

  /** x & (x - 1), one bit at a time. */
  lemma TurnOffStep(x: nat)
    requires x > 1
    ensures TurnOff(x) == if x % 2 == 1 then x - 1 else 2 * TurnOff(x / 2)
  {
    if x % 2 == 1 {
      assert (x - 1) / 2 == x / 2;
      AndSelf(x / 2);
    } else {
      assert (x - 1) / 2 == x / 2 - 1;
    }
  }

  /** is_power_of_2() tells powers of two, and turning a bit off keeps the top one otherwise. */
  lemma {:induction false} TurnOffIs(x: nat)
    requires x > 0
    ensures TurnOff(x) == 0 <==> IsPower(x)
    ensures TurnOff(x) < x
    ensures TurnOff(x) != 0 ==> Top(TurnOff(x)) == Top(x)
  {
    if x > 1 {
      TurnOffIs(x / 2);
      TurnOffStep(x);
      if x % 2 == 1 {
        assert (x - 1) / 2 == x / 2;
      } else {
        assert (2 * TurnOff(x / 2)) / 2 == TurnOff(x / 2);
      }
    }
  }

  lemma {:induction false} PowerIsTop(x: nat)
    requires IsPower(x)
    ensures x > 0 && Top(x) == x
  {
    if x > 1 {
      PowerIsTop(x / 2);
    }
  }

  /** With n a power of two, h & (n - 1) is h mod n. */
  lemma {:induction false} MaskIsMod(h: nat, n: nat)
    requires IsPower(n)
    ensures n > 0 && And(h, n - 1) == h % n
    decreases n
  {
    if n == 1 {
      AndZero(h);
    } else if h == 0 {
    } else {
      MaskIsMod(h / 2, n / 2);
      assert (n - 1) / 2 == n / 2 - 1 && (n - 1) % 2 == 1;
      HalfMod(h, n / 2);
    }
  }

  lemma {:induction false} AndZero(h: nat)
    ensures And(h, 0) == 0
  {
    if h > 0 {
      AndZero(h / 2);
    }
  }

  lemma HalfMod(h: nat, m: nat)
    requires m > 0
    ensures h % (2 * m) == h % 2 + 2 * (h / 2 % m)
  {
    var q, r := h / 2 / m, h / 2 % m;
    assert h / 2 == q * m + r;
    assert h == q * (2 * m) + (h % 2 + 2 * r);
    DivUnique(h, q, 2 * m, h % 2 + 2 * r);
  }

  /** The number of buckets that rehash() wants. */
  function Target(cnt: nat): nat {
    Top(if cnt / 2 < 4 then 4 else cnt / 2)
  }

  /** The loop of rehash(): the largest power of two that is at most max(4, cnt / 2). */
  method BestCount(cnt: nat) returns (n: nat)
    ensures n == Target(cnt) && IsPower(n) && n >= 4
    ensures n <= (if cnt / 2 < 4 then 4 else cnt / 2) < 2 * n
  {
    n := cnt / 2;
    if n < 4 {
      n := 4;
    }
    ghost var m := n;
    while TurnOff(n) != 0
      invariant 0 < n <= m && Top(n) == Top(m)
      decreases n
    {
      TurnOffIs(n);
      n := TurnOff(n);
    }
    TurnOffIs(n);
    PowerIsTop(n);
    TopIs(m);
    AtLeastFour(m);
  }

  lemma AtLeastFour(m: nat)
    requires m >= 4
    ensures Top(m) >= 4
  {
    assert Top(m) == 2 * Top(m / 2) && Top(m / 2) == 2 * Top(m / 2 / 2);
  }

  // ---------------------------------------------------------------- tables

  /** hash_hash_func and hash_less_func. */
  datatype Rules<!E> = Rules(hash: E -> nat, less: (E, E) -> bool)

  predicate Eq<E>(o: Rules<E>, a: E, b: E) {
    !o.less(a, b) && !o.less(b, a)
  }

  /** What hash.h demands of the two functions. */
  ghost predicate Lawful<E(!new)>(o: Rules<E>) {
    && (forall a :: Eq(o, a, a))
    && (forall a, b, c :: Eq(o, a, b) && Eq(o, b, c) ==> Eq(o, a, c))
    && (forall a, b :: Eq(o, a, b) ==> o.hash(a) == o.hash(b))
  }

  type Buckets<E> = seq<seq<E>>

  /** find_bucket(). */
  function BucketOf<E>(o: Rules<E>, e: E, n: nat): nat
    requires n > 0
  {
    And(o.hash(e), n - 1)
  }

  /** All elements, and how many there are. */
  function All<E>(b: Buckets<E>): multiset<E> {
    if b == [] then multiset{} else All(b[..|b| - 1]) + multiset(b[|b| - 1])
  }

  /** Elements of a bucket are pairwise unequal. */
  ghost predicate Unequal<E>(o: Rules<E>, q: seq<E>) {
    forall i, j :: 0 <= i < j < |q| ==> !Eq(o, q[i], q[j])
  }

  /** Every element is in the bucket of its hash. */
  ghost predicate Placed<E>(o: Rules<E>, b: Buckets<E>) {
    |b| > 0 && forall i: nat, e :: i < |b| && e in b[i] ==> BucketOf(o, e, |b|) == i
  }

  ghost predicate Valid<E>(o: Rules<E>, b: Buckets<E>, cnt: nat) {
    && IsPower(|b|) && |b| >= 4 && Placed(o, b) && cnt == |All(b)|
    && forall i: nat :: i < |b| ==> Unequal(o, b[i])
  }

  lemma {:induction false} AllUpdate<E>(b: Buckets<E>, i: nat, q: seq<E>)
    requires i < |b|
    ensures All(b[i := q]) + multiset(b[i]) == All(b) + multiset(q)
    decreases |b|
  {
    var c := b[i := q];
    if i < |b| - 1 {
      AllUpdate(b[..|b| - 1], i, q);
      assert c[..|b| - 1] == b[..|b| - 1][i := q];
      assert All(c) + multiset(b[i]) == (All(c[..|b| - 1]) + multiset(b[i])) + multiset(b[|b| - 1]);
    } else {
      assert c[..|b| - 1] == b[..|b| - 1];
    }
  }

  lemma {:induction false} AllIn<E>(b: Buckets<E>, e: E)
    ensures e in All(b) <==> exists i: nat :: i < |b| && e in b[i]
    decreases |b|
  {
    if b != [] {
      var c := b[..|b| - 1];
      AllIn(c, e);
      if e in All(c) {
        var i: nat :| i < |c| && e in c[i];
        assert i < |b| && e in b[i];
      }
      if e in b[|b| - 1] {
        assert |b| - 1 < |b| && e in b[|b| - 1];
      }
      if i: nat :| i < |b| && e in b[i] {
        if i < |c| {
          assert i < |c| && e in c[i];
        }
      }
    }
  }

  /** An equal element can only be in the bucket where find_elem() looks. */
  lemma OnlyThere<E(!new)>(o: Rules<E>, b: Buckets<E>, e: E, x: E)
    requires Lawful(o) && Placed(o, b) && x in All(b) && Eq(o, x, e)
    ensures BucketOf(o, e, |b|) < |b| && x in b[BucketOf(o, e, |b|)]
  {
    AllIn(b, x);
    var i: nat :| i < |b| && x in b[i];
    assert BucketOf(o, x, |b|) == i;
  }

  lemma InRange<E>(o: Rules<E>, e: E, n: nat)
    requires IsPower(n)
    ensures n > 0 && BucketOf(o, e, n) < n && BucketOf(o, e, n) == o.hash(e) % n
  {
    MaskIsMod(o.hash(e), n);
  }

  lemma SplitBucket<E>(q: seq<E>, k: nat)
    requires k < |q|
    ensures multiset(q) == multiset(q[..k] + q[k + 1..]) + multiset{q[k]}
  {
    assert q == q[..k] + [q[k]] + q[k + 1..];
  }

  /** The buckets after b lost the elements of its first i buckets and the first j of the next, which
      are now in c, each in its place. */
  ghost predicate Moving<E>(o: Rules<E>, b: Buckets<E>, i: nat, j: nat, c: Buckets<E>) {
    && i < |b| && j <= |b[i]|
    && All(c) == All(b[..i]) + multiset(b[i][..j])
    && Placed(o, c) && forall k: nat :: k < |c| ==> Unequal(o, c[k])
  }

  /** Push on a bucket. */
  function Pushed<E>(o: Rules<E>, c: Buckets<E>, e: E): Buckets<E>
    requires |c| > 0 && BucketOf(o, e, |c|) < |c|
  {
    var k := BucketOf(o, e, |c|);
    c[k := [e] + c[k]]
  }

  lemma PushedAll<E>(o: Rules<E>, c: Buckets<E>, e: E)
    requires |c| > 0 && BucketOf(o, e, |c|) < |c|
    ensures All(Pushed(o, c, e)) == All(c) + multiset{e}
  {
    var k := BucketOf(o, e, |c|);
    AllUpdate(c, k, [e] + c[k]);
    assert multiset([e] + c[k]) == multiset{e} + multiset(c[k]);
    Cancel(All(Pushed(o, c, e)), All(c) + multiset{e}, multiset(c[k]));
  }

  /** A push of an element that equals none keeps the table in order. */
  lemma PushedOk<E(!new)>(o: Rules<E>, c: Buckets<E>, e: E)
    requires Lawful(o) && Placed(o, c) && BucketOf(o, e, |c|) < |c| && forall k: nat :: k < |c| ==> Unequal(o, c[k])
    requires forall x :: x in All(c) ==> !Eq(o, x, e)
    ensures var d := Pushed(o, c, e); Placed(o, d) && forall k: nat :: k < |d| ==> Unequal(o, d[k])
  {
    var k := BucketOf(o, e, |c|);
    var d := Pushed(o, c, e);
    assert forall x :: x in d[k] <==> x == e || x in c[k];
    forall x | x in c[k] ensures !Eq(o, e, x) {
      AllIn(c, x);
    }
  }

  /** The next element to move equals none of those that have moved. */
  lemma NextIsNew<E(!new)>(o: Rules<E>, b: Buckets<E>, i: nat, j: nat, x: E)
    requires Lawful(o) && Placed(o, b) && i < |b| && j < |b[i]| && Unequal(o, b[i])
    requires x in All(b[..i]) + multiset(b[i][..j])
    ensures !Eq(o, x, b[i][j])
  {
    if x in All(b[..i]) {
      AllIn(b[..i], x);
      var k: nat :| k < i && x in b[..i][k];
      assert x in b[k];
      var e := b[i][j];
      assert BucketOf(o, x, |b|) == k && BucketOf(o, e, |b|) == i;
      assert Eq(o, x, e) ==> o.hash(x) == o.hash(e);
    } else {
      var m :| 0 <= m < j && b[i][m] == x;
    }
  }

  lemma MoveOne<E(!new)>(o: Rules<E>, b: Buckets<E>, i: nat, j: nat, c: Buckets<E>)
    requires Lawful(o) && Moving(o, b, i, j, c) && Placed(o, b) && Unequal(o, b[i]) && j < |b[i]| && IsPower(|c|)
    ensures BucketOf(o, b[i][j], |c|) < |c| && Moving(o, b, i, j + 1, Pushed(o, c, b[i][j]))
  {
    var e := b[i][j];
    InRange(o, e, |c|);
    forall x | x in All(c) ensures !Eq(o, x, e) {
      NextIsNew(o, b, i, j, x);
    }
    PushedAll(o, c, e);
    PushedOk(o, c, e);
    hide All, Placed, Unequal, Pushed, BucketOf, Eq;
    OneMore(b[i], j);
    assert All(b[..i]) + multiset(b[i][..j + 1]) == (All(b[..i]) + multiset(b[i][..j])) + multiset{e};
  }

  lemma OneMore<E>(q: seq<E>, j: nat)
    requires j < |q|
    ensures multiset(q[..j + 1]) == multiset(q[..j]) + multiset{q[j]}
  {
    assert q[..j + 1] == q[..j] + [q[j]];
  }

  lemma MoveBucket<E>(o: Rules<E>, b: Buckets<E>, i: nat, c: Buckets<E>)
    requires i < |b| && Moving(o, b, i, |b[i]|, c)
    ensures All(c) == All(b[..i + 1])
  {
    assert b[i][..|b[i]|] == b[i];
    assert b[..i + 1][..i] == b[..i];
  }

  /** Empty buckets. */
  lemma {:induction false} EmptyAll<E>(c: Buckets<E>)
    requires forall k :: 0 <= k < |c| ==> c[k] == []
    ensures All(c) == multiset{}
    decreases |c|
  {
    if c != [] {
      EmptyAll(c[..|c| - 1]);
    }
  }

  /** find_elem()'s answer, over the whole table: an equal element that is there, or none is. */
  ghost predicate Answer<E(!new)>(o: Rules<E>, m: multiset<E>, e: E, r: Option<E>) {
    match r
    case None => forall x :: x in m ==> !Eq(o, x, e)
    case Some(x) => x in m && Eq(o, x, e)
  }

  lemma TakenAll<E>(b: Buckets<E>, i: nat, k: nat)
    requires i < |b| && k < |b[i]|
    ensures All(b) == All(b[i := b[i][..k] + b[i][k + 1..]]) + multiset{b[i][k]}
  {
    var q, r := b[i], b[i][..k] + b[i][k + 1..];
    SplitBucket(q, k);
    AllUpdate(b, i, r);
    Cancel(All(b[i := r]) + multiset{q[k]}, All(b), multiset(r));
  }

  lemma Taken<E(!new)>(o: Rules<E>, b: Buckets<E>, cnt: nat, i: nat, k: nat)
    requires Valid(o, b, cnt) && i < |b| && k < |b[i]|
    ensures var c := b[i := b[i][..k] + b[i][k + 1..]];
      cnt > 0 && All(b) == All(c) + multiset{b[i][k]} && Valid(o, c, cnt - 1)
  {
    var q, r := b[i], b[i][..k] + b[i][k + 1..];
    TakenAll(b, i, k);
    TakenUnequal(o, q, k);
    assert forall e :: e in r ==> e in q;
    hide BucketOf, IsPower, Eq, All, Unequal;
  }

  lemma TakenUnequal<E>(o: Rules<E>, q: seq<E>, k: nat)
    requires Unequal(o, q) && k < |q|
    ensures Unequal(o, q[..k] + q[k + 1..])
  {
    var r := q[..k] + q[k + 1..];
    forall i, j | 0 <= i < j < |r| ensures !Eq(o, r[i], r[j]) {
      var i', j' := if i < k then i else i + 1, if j < k then j else j + 1;
      assert r[i] == q[i'] && r[j] == q[j'];
    }
  }

  class HashTable<E(!new)> {
    const o: Rules<E>
    var buckets: Buckets<E>
    var cnt: nat

    ghost predicate Ok()
      reads this
    {
      Valid(o, buckets, cnt)
    }

    /** hash_init(). */
    constructor (o': Rules<E>)
      ensures o == o' && Ok() && All(buckets) == multiset{}
    {
      o := o';
      buckets := [[], [], [], []];
      cnt := 0;
      new;
      EmptyAll(buckets);
      hide All, BucketOf;
      assert IsPower(4) by { assert IsPower(1) && IsPower(2); }
    }

    /** find_elem(): the position in the bucket. */
    method FindElem(i: nat, e: E) returns (k: Option<nat>)
      requires i < |buckets|
      ensures k.Some? ==> k.value < |buckets[i]| && Eq(o, buckets[i][k.value], e)
      ensures k == None ==> forall x :: x in buckets[i] ==> !Eq(o, x, e)
    {
      for j := 0 to |buckets[i]|
        invariant forall m :: 0 <= m < j ==> !Eq(o, buckets[i][m], e)
      {
        if !o.less(buckets[i][j], e) && !o.less(e, buckets[i][j]) {
          return Some(j);
        }
      }
      return None;
    }

    /** rehash(): with memory, the ideal number of buckets; without, the old one; the same elements
        either way. */
    method Rehash(memory: bool)
      requires Lawful(o) && Ok()
      modifies this`buckets
      ensures Ok() && All(buckets) == old(All(buckets))
      ensures |buckets| == if memory then Target(cnt) else old(|buckets|)
    {
      var n := BestCount(cnt);
      if n == |buckets| || !memory {
        return;
      }
      var before := buckets;
      buckets := seq(n, _ => []);
      EmptyAll(buckets);
      hide Lawful, IsPower, Unequal, BucketOf, Target;
      for i := 0 to |before|
        invariant |buckets| == n && All(buckets) == All(before[..i]) && Placed(o, buckets)
        invariant forall k: nat :: k < n ==> Unequal(o, buckets[k])
      {
        assert before[i][..0] == [];
        for j := 0 to |before[i]|
          invariant |buckets| == n && Moving(o, before, i, j, buckets)
        {
          MoveOne(o, before, i, j, buckets);
          buckets := Pushed(o, buckets, before[i][j]);
        }
        MoveBucket(o, before, i, buckets);
      }
      assert before[..|before|] == before;
    }

    /** hash_find(). */
    method Find(e: E) returns (r: Option<E>)
      requires Lawful(o) && Ok()
      ensures Answer(o, All(buckets), e, r)
    {
      InRange(o, e, |buckets|);
      var i := BucketOf(o, e, |buckets|);
      var k := FindElem(i, e);
      Answered(o, buckets, cnt, e, k);
      r := if k.Some? then Some(buckets[i][k.value]) else None;
    }

    /** hash_insert(): an equal element stays and is returned; otherwise the new one goes in. */
    method Insert(e: E, memory: bool) returns (r: Option<E>)
      requires Lawful(o) && Ok()
      modifies this
      ensures Ok() && Answer(o, old(All(buckets)), e, r)
      ensures All(buckets) == old(All(buckets)) + (if r.Some? then multiset{} else multiset{e})
      ensures memory ==> |buckets| == Target(cnt)
    {
      InRange(o, e, |buckets|);
      var i := BucketOf(o, e, |buckets|);
      var k := FindElem(i, e);
      Answered(o, buckets, cnt, e, k);
      if k.Some? {
        r := Some(buckets[i][k.value]);
      } else {
        r := None;
        InsertElem(e);
      }
      Rehash(memory);
    }

    /** hash_replace(): the new element goes in, in place of an equal one, which is returned. */
    method Replace(e: E, memory: bool) returns (r: Option<E>)
      requires Lawful(o) && Ok()
      modifies this
      ensures Ok() && Answer(o, old(All(buckets)), e, r)
      ensures All(buckets) + (if r.Some? then multiset{r.value} else multiset{}) == old(All(buckets)) + multiset{e}
      ensures memory ==> |buckets| == Target(cnt)
    {
      hide Lawful, Valid, All, Eq, Answer;
      r := TakeEqual(e);
      InsertElem(e);
      Rehash(memory);
    }

    /** The first half of hash_replace(): afterwards no element equals e. */
    method TakeEqual(e: E) returns (r: Option<E>)
      requires Lawful(o) && Ok()
      modifies this
      ensures Ok() && Answer(o, old(All(buckets)), e, r) && forall x :: x in All(buckets) ==> !Eq(o, x, e)
      ensures All(buckets) + (if r.Some? then multiset{r.value} else multiset{}) == old(All(buckets))
    {
      InRange(o, e, |buckets|);
      var i := BucketOf(o, e, |buckets|);
      var k := FindElem(i, e);
      Answered(o, buckets, cnt, e, k);
      r := None;
      hide Valid, Lawful, All, BucketOf, Eq;
      if k.Some? {
        r := Some(buckets[i][k.value]);
        RemovedNone(o, buckets, cnt, e, k.value);
        RemoveElem(i, k.value);
      }
    }

    /** hash_delete(): an equal element goes and is returned; otherwise nothing happens. */
    method Delete(e: E, memory: bool) returns (r: Option<E>)
      requires Lawful(o) && Ok()
      modifies this
      ensures Ok() && Answer(o, old(All(buckets)), e, r)
      ensures All(buckets) + (if r.Some? then multiset{r.value} else multiset{}) == old(All(buckets))
      ensures memory && r.Some? ==> |buckets| == Target(cnt)
      ensures r == None ==> buckets == old(buckets) && cnt == old(cnt)
    {
      InRange(o, e, |buckets|);
      var i := BucketOf(o, e, |buckets|);
      var k := FindElem(i, e);
      Answered(o, buckets, cnt, e, k);
      r := None;
      if k.Some? {
        r := Some(buckets[i][k.value]);
        RemoveElem(i, k.value);
        Rehash(memory);
      }
    }

    /** insert_elem(). */
    method InsertElem(e: E)
      requires Lawful(o) && Ok() && forall x :: x in All(buckets) ==> !Eq(o, x, e)
      modifies this
      ensures Ok() && All(buckets) == old(All(buckets)) + multiset{e}
    {
      InRange(o, e, |buckets|);
      PushedAll(o, buckets, e);
      PushedOk(o, buckets, e);
      cnt := cnt + 1;
      buckets := Pushed(o, buckets, e);
    }

    /** remove_elem(). */
    method RemoveElem(i: nat, k: nat)
      requires Ok() && i < |buckets| && k < |buckets[i]|
      modifies this
      ensures Ok() && All(buckets) + multiset{old(buckets[i][k])} == old(All(buckets))
      ensures buckets == old(buckets)[i := old(buckets)[i][..k] + old(buckets)[i][k + 1..]]
    {
      Taken(o, buckets, cnt, i, k);
      cnt := cnt - 1;
      buckets := buckets[i := buckets[i][..k] + buckets[i][k + 1..]];
    }
  }

  lemma Answered<E(!new)>(o: Rules<E>, b: Buckets<E>, cnt: nat, e: E, k: Option<nat>)
    requires Lawful(o) && Valid(o, b, cnt) && BucketOf(o, e, |b|) < |b|
    requires var q := b[BucketOf(o, e, |b|)];
      if k.Some? then k.value < |q| && Eq(o, q[k.value], e) else forall x :: x in q ==> !Eq(o, x, e)
    ensures Answer(o, All(b), e, if k.Some? then Some(b[BucketOf(o, e, |b|)][k.value]) else None)
  {
    var i := BucketOf(o, e, |b|);
    if k.Some? {
      AllIn(b, b[i][k.value]);
    } else {
      forall x | x in All(b) ensures !Eq(o, x, e) {
        if Eq(o, x, e) {
          OnlyThere(o, b, e, x);
        }
      }
    }
  }

  /** Without the element that equals e, no element does. */
  lemma RemovedNone<E(!new)>(o: Rules<E>, b: Buckets<E>, cnt: nat, e: E, k: nat)
    requires Lawful(o) && Valid(o, b, cnt) && BucketOf(o, e, |b|) < |b|
    requires var q := b[BucketOf(o, e, |b|)]; k < |q| && Eq(o, q[k], e)
    ensures var i := BucketOf(o, e, |b|);
      forall x :: x in All(b[i := b[i][..k] + b[i][k + 1..]]) ==> !Eq(o, x, e)
  {
    var i := BucketOf(o, e, |b|);
    var q, r := b[i], b[i][..k] + b[i][k + 1..];
    var c := b[i := r];
    Taken(o, b, cnt, i, k);
    forall x | x in All(c) ensures !Eq(o, x, e) {
      if Eq(o, x, e) {
        OnlyThere(o, c, e, x);
        TwiceEqual(o, q, k, e, x);
      }
    }
  }

  lemma TwiceEqual<E(!new)>(o: Rules<E>, q: seq<E>, k: nat, e: E, x: E)
    requires Lawful(o) && Unequal(o, q) && k < |q| && Eq(o, q[k], e) && x in q[..k] + q[k + 1..]
    ensures !Eq(o, x, e)
  {
    var r := q[..k] + q[k + 1..];
    var j :| 0 <= j < |r| && r[j] == x;
    var j' := if j < k then j else j + 1;
    assert q[j'] == x;
    if Eq(o, x, e) {
      assert Eq(o, e, x) && Eq(o, e, q[k]);
    }
  }

  /** At most one element of each class: Unequal within buckets is unequal throughout. */
  lemma OneOfEach<E(!new)>(o: Rules<E>, b: Buckets<E>, cnt: nat, i: nat, j: nat, k: nat, l: nat)
    requires Lawful(o) && Valid(o, b, cnt) && i < |b| && j < |b[i]| && k < |b| && l < |b[k]|
    requires Eq(o, b[i][j], b[k][l])
    ensures i == k && j == l
  {
    assert b[i][j] in b[i] && b[k][l] in b[k];
    assert BucketOf(o, b[i][j], |b|) == i && BucketOf(o, b[k][l], |b|) == k;
    assert Eq(o, b[k][l], b[i][j]);
  }

  // ---------------------------------------------------------------- iteration

  /** The elements of the buckets from i on, in order. */
  function Flat<E>(b: Buckets<E>, i: nat): seq<E>
    requires i <= |b|
    decreases |b| - i
  {
    if i == |b| then [] else b[i] + Flat(b, i + 1)
  }

  lemma {:induction false} FlatIsAll<E>(b: Buckets<E>, i: nat)
    requires i <= |b|
    ensures All(b[..i]) + multiset(Flat(b, i)) == All(b)
    decreases |b| - i
  {
    if i == |b| {
      assert b[..i] == b;
    } else {
      FlatIsAll(b, i + 1);
      assert b[..i + 1][..i] == b[..i];
    }
  }

  /** The elements from position p of bucket i on. */
  function From<E>(b: Buckets<E>, i: nat, p: nat): seq<E>
    requires i < |b| && p <= |b[i]|
  {
    b[i][p..] + Flat(b, i + 1)
  }

  lemma FromNext<E>(b: Buckets<E>, i: nat, p: nat)
    requires i < |b| && p <= |b[i]|
    ensures p < |b[i]| ==> From(b, i, p) == [b[i][p]] + From(b, i, p + 1)
    ensures p == |b[i]| ==> From(b, i, p) == if i + 1 == |b| then [] else From(b, i + 1, 0)
  {
  }

  /** struct hash_iterator: the bucket and the position in it of the current element; position 0 is
      the head of the bucket's list. */
  class HashIterator<E> {
    const buckets: Buckets<E>
    var bucket: nat
    var pos: nat
    var end: bool

    ghost predicate Ok()
      reads this
    {
      (if end then bucket == |buckets| else bucket < |buckets| && pos <= |buckets[bucket]|)
    }

    /** What is still to come. */
    ghost function Rest(): seq<E>
      reads this
      requires Ok()
    {
      if end then [] else From(buckets, bucket, pos)
    }

    /** hash_first(): everything is to come, each element as often as the table holds it. */
    constructor (b: Buckets<E>)
      requires |b| > 0
      ensures buckets == b && Ok() && Rest() == Flat(b, 0) && multiset(Rest()) == All(b)
    {
      buckets := b;
      bucket := 0;
      pos := 0;
      end := false;
      new;
      FlatIsAll(b, 0);
    }

    /** hash_next(): the first of what is to come, which then is no longer to come. */
    method Next() returns (r: Option<E>)
      requires Ok() && !end
      modifies this
      ensures Ok() && (r == None <==> end)
      ensures r == None <==> old(Rest()) == []
      ensures r.Some? ==> old(Rest()) == [r.value] + Rest()
    {
      hide From, Flat;
      pos := pos + 1;
      SkipEnds(old(Rest()));
      if end {
        return None;
      }
      FromNext(buckets, bucket, pos - 1);
      return Some(buckets[bucket][pos - 1]);
    }

    /** The loop in hash_next(). */
    method SkipEnds(ghost was: seq<E>)
      requires Passed(was)
      modifies this
      ensures Passed(was) && (!end ==> pos <= |buckets[bucket]|)
    {
      hide From, Flat;
      while !end && pos == |buckets[bucket]| + 1
        invariant Passed(was)
        decreases |buckets| - bucket
      {
        FromNext(buckets, bucket, pos - 1);
        bucket := bucket + 1;
        if bucket >= |buckets| {
          end := true;
        } else {
          pos := 1;
        }
      }
    }

    /** Inside hash_next(): the search has come to this position and passed only ends of buckets. */
    ghost predicate Passed(was: seq<E>)
      reads this
    {
      if end then bucket == |buckets| && was == []
      else bucket < |buckets| && 1 <= pos <= |buckets[bucket]| + 1 && was == From(buckets, bucket, pos - 1)
    }
  }
}
