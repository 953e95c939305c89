/** The order theory behind list_sort(). */
module MergeSort {
  /*
   The order theory behind list_sort() in lib/kernel/list.c: a natural, iterative, stable merge
   sort. The functions give, on sequences, what the loops over linked elements compute; the lemmas
   show that it is a stable sort for every strict weak order and that every pass halves the number
   of runs. LinkedList proves that the code on linked elements computes these functions.
   */

  import opened Common

  // ---------------------------------------------------------------- orders

  /** The comparison is a strict weak order on the elements of s. */
  ghost predicate StrictWeak<T>(less: (T, T) -> bool, s: seq<T>) {
    && (forall x, y :: x in s && y in s && less(x, y) ==> !less(y, x))
    && (forall x, y, z :: x in s && y in s && z in s && less(x, z) ==> less(x, y) || less(y, z))
  }

  /** No element is less than its predecessor: what is_sorted() checks. */
  ghost predicate IsRun<T>(less: (T, T) -> bool, s: seq<T>) {
    forall i :: 0 <= i < |s| - 1 ==> !less(s[i + 1], s[i])
  }

  /** No element is less than any element before it. */
  ghost predicate Sorted<T>(less: (T, T) -> bool, s: seq<T>) {
    forall i, j :: 0 <= i < j < |s| ==> !less(s[j], s[i])
  }

  predicate Equivalent<T>(less: (T, T) -> bool, x: T, y: T) {
    !less(x, y) && !less(y, x)
  }

  /** The elements of s that the order does not tell apart from x, in the order of s. */
  function Class<T>(less: (T, T) -> bool, s: seq<T>, x: T): seq<T> {
    if s == [] then []
    else if Equivalent(less, s[0], x) then [s[0]] + Class(less, s[1..], x)
    else Class(less, s[1..], x)
  }

  /** t is a rearrangement of s that keeps equivalent elements in their order. */
  ghost predicate StableRearrangement<T>(less: (T, T) -> bool, s: seq<T>, t: seq<T>) {
    && multiset(t) == multiset(s)
    && forall x :: x in s ==> Class(less, t, x) == Class(less, s, x)
  }

  // ---------------------------------------------------------------- what the loops compute

  /** inplace_merge(). */
  function Merge<T>(less: (T, T) -> bool, a: seq<T>, b: seq<T>): seq<T>
    decreases |a| + |b|
  {
    if a == [] then b
    else if b == [] then a
    else if !less(b[0], a[0]) then [a[0]] + Merge(less, a[1..], b)
    else [b[0]] + Merge(less, a, b[1..])
  }

  /** find_end_of_run(): the length of the run at the front of s. */
  function RunLength<T>(less: (T, T) -> bool, s: seq<T>): (n: nat)
    ensures n <= |s| && (s != [] ==> n > 0)
  {
    if |s| <= 1 then |s|
    else if less(s[1], s[0]) then 1
    else 1 + RunLength(less, s[1..])
  }

  /** One pass of list_sort() over the list. */
  function Pass<T>(less: (T, T) -> bool, s: seq<T>): seq<T>
    decreases |s|
  {
    var k := RunLength(less, s);
    if k == |s| then s
    else
      var m := k + RunLength(less, s[k..]);
      Merge(less, s[..k], s[k..m]) + Pass(less, s[m..])
  }

  /** output_run_cnt at the end of the pass. */
  function OutputRuns<T>(less: (T, T) -> bool, s: seq<T>): nat
    decreases |s|
  {
    if s == [] then 0
    else
      var k := RunLength(less, s);
      if k == |s| then 1
      else 1 + OutputRuns(less, s[k + RunLength(less, s[k..])..])
  }

  /** The number of natural runs in s. */
  function Runs<T>(less: (T, T) -> bool, s: seq<T>): nat
    decreases |s|
  {
    if s == [] then 0 else 1 + Runs(less, s[RunLength(less, s)..])
  }

  /** list_sort(). */
  function Sort<T>(less: (T, T) -> bool, s: seq<T>): seq<T>
    requires StrictWeak(less, s)
    decreases Runs(less, s)
  {
    var p := Pass(less, s);
    if OutputRuns(less, s) <= 1 then p
    else
      PassRearranges(less, s);
      PassHalves(less, s);
      StrictWeakKept(less, s, p);
      Sort(less, p)
  }

  /** The number of passes list_sort() makes. */
  ghost function Passes<T>(less: (T, T) -> bool, s: seq<T>): nat
    requires StrictWeak(less, s)
    decreases Runs(less, s)
  {
    var p := Pass(less, s);
    if OutputRuns(less, s) <= 1 then 1
    else
      PassRearranges(less, s);
      PassHalves(less, s);
      StrictWeakKept(less, s, p);
      1 + Passes(less, p)
  }

  // ---------------------------------------------------------------- merging

  lemma {:induction false} MergeMultiset<T>(less: (T, T) -> bool, a: seq<T>, b: seq<T>)
    ensures multiset(Merge(less, a, b)) == multiset(a) + multiset(b)
    decreases |a| + |b|
  {
    if a != [] && b != [] {
      assert a == [a[0]] + a[1..] && b == [b[0]] + b[1..];
      if !less(b[0], a[0]) {
        MergeMultiset(less, a[1..], b);
      } else {
        MergeMultiset(less, a, b[1..]);
      }
    }
  }

  /** Merging two runs gives one run. */
  lemma {:induction false} MergeIsRun<T>(less: (T, T) -> bool, a: seq<T>, b: seq<T>)
    requires StrictWeak(less, a + b) && IsRun(less, a) && IsRun(less, b)
    ensures IsRun(less, Merge(less, a, b))
    ensures a != [] && b != [] ==>
      Merge(less, a, b) != [] && Merge(less, a, b)[0] == if !less(b[0], a[0]) then a[0] else b[0]
    decreases |a| + |b|
  {
    if a != [] && b != [] {
      assert a[0] in a + b && b[0] in a + b;
      if !less(b[0], a[0]) {
        StrictWeakKept(less, a + b, a[1..] + b);
        MergeIsRun(less, a[1..], b);
        RunPrepended(less, a[0], Merge(less, a[1..], b));
      } else {
        StrictWeakKept(less, a + b, a + b[1..]);
        MergeIsRun(less, a, b[1..]);
        RunPrepended(less, b[0], Merge(less, a, b[1..]));
      }
    }
  }

  lemma RunPrepended<T>(less: (T, T) -> bool, x: T, s: seq<T>)
    requires IsRun(less, s) && (s != [] ==> !less(s[0], x))
    ensures IsRun(less, [x] + s)
  {
  }

  lemma StrictWeakKept<T>(less: (T, T) -> bool, s: seq<T>, t: seq<T>)
    requires StrictWeak(less, s) && forall x :: x in t ==> x in s
    ensures StrictWeak(less, t)
  {
  }

  lemma {:induction false} ClassConcat<T>(less: (T, T) -> bool, a: seq<T>, b: seq<T>, x: T)
    ensures Class(less, a + b, x) == Class(less, a, x) + Class(less, b, x)
  {
    if a == [] {
      assert a + b == b;
    } else {
      assert (a + b)[1..] == a[1..] + b;
      ClassConcat(less, a[1..], b, x);
    }
  }

  /** A run of a strict weak order is sorted. */
  lemma {:induction false} RunIsSorted<T>(less: (T, T) -> bool, s: seq<T>)
    requires StrictWeak(less, s) && IsRun(less, s)
    ensures Sorted(less, s)
  {
    if |s| > 1 {
      var t := s[1..];
      assert forall i :: 0 <= i < |t| ==> t[i] == s[i + 1];
      StrictWeakKept(less, s, t);
      RunIsSorted(less, t);
      forall j | 1 <= j < |s| ensures !less(s[j], s[0]) {
        assert s[j] in s && s[1] in s && s[0] in s;
        assert s[1] == t[0] && s[j] == t[j - 1];
      }
    }
  }

  /** If b0 is less than the first element of a run, it is equivalent to none of the run. */
  lemma {:induction false} ClassAbove<T>(less: (T, T) -> bool, a: seq<T>, b0: T, x: T, s: seq<T>)
    requires StrictWeak(less, s) && b0 in s && x in s && forall y :: y in a ==> y in s
    requires Equivalent(less, b0, x) && forall y :: y in a ==> less(b0, y)
    ensures Class(less, a, x) == []
  {
    if a != [] {
      assert a[0] in a && less(b0, a[0]);
      assert less(b0, x) || less(x, a[0]);
      ClassAbove(less, a[1..], b0, x, s);
    }
  }

  /** Merging is stable: equivalent elements of a stay before those of b. */
  lemma {:induction false} MergeIsStable<T>(less: (T, T) -> bool, a: seq<T>, b: seq<T>, x: T, s: seq<T>)
    requires StrictWeak(less, s) && x in s && (forall y :: y in a || y in b ==> y in s)
    requires Sorted(less, a)
    ensures Class(less, Merge(less, a, b), x) == Class(less, a, x) + Class(less, b, x)
    decreases |a| + |b|
  {
    if a == [] || b == [] {
    } else if !less(b[0], a[0]) {
      MergeIsStable(less, a[1..], b, x, s);
      ClassConcat(less, [a[0]], Merge(less, a[1..], b), x);
    } else {
      MergeIsStable(less, a, b[1..], x, s);
      if Equivalent(less, b[0], x) {
        forall y | y in a ensures less(b[0], y) {
          assert b[0] in b && a[0] in a;
          assert less(b[0], a[0]) && !less(y, a[0]);
        }
        ClassAbove(less, a, b[0], x, s);
      }
    }
  }

  // ---------------------------------------------------------------- runs

  /** The run at the front is a run, and the longest one. */
  lemma {:induction false} RunLengthIsRun<T>(less: (T, T) -> bool, s: seq<T>)
    ensures IsRun(less, s[..RunLength(less, s)])
    ensures 0 < RunLength(less, s) < |s| ==> less(s[RunLength(less, s)], s[RunLength(less, s) - 1])
  {
    if |s| > 1 && !less(s[1], s[0]) {
      var n := RunLength(less, s[1..]);
      RunLengthIsRun(less, s[1..]);
      assert s[..n + 1] == [s[0]] + s[1..][..n];
      RunPrepended(less, s[0], s[1..][..n]);
    }
  }

  lemma {:induction false} RunLengthOfRun<T>(less: (T, T) -> bool, s: seq<T>)
    requires IsRun(less, s)
    ensures RunLength(less, s) == |s|
  {
    if |s| > 1 {
      assert !less(s[0 + 1], s[0]);
      var t := s[1..];
      assert forall i :: 0 <= i < |t| ==> t[i] == s[i + 1];
      RunLengthOfRun(less, t);
    }
  }

  lemma {:induction false} RunLengthConcat<T>(less: (T, T) -> bool, a: seq<T>, b: seq<T>)
    requires a != []
    ensures var n := RunLength(less, a + b);
      if RunLength(less, a) < |a| then n == RunLength(less, a)
      else n == |a| || n == |a| + RunLength(less, b)
  {
    if |a| == 1 {
      assert b != [] ==> (a + b)[1..] == b;
      assert b == [] ==> a + b == a;
    } else {
      assert (a + b)[1..] == a[1..] + b;
      RunLengthConcat(less, a[1..], b);
    }
  }

  lemma {:induction false} RunsConcat<T>(less: (T, T) -> bool, a: seq<T>, b: seq<T>)
    ensures Runs(less, a + b) <= Runs(less, a) + Runs(less, b)
    decreases |a|
  {
    if a == [] {
      assert a + b == b;
    } else {
      var k := RunLength(less, a);
      RunLengthConcat(less, a, b);
      if k < |a| {
        assert (a + b)[k..] == a[k..] + b;
        RunsConcat(less, a[k..], b);
      } else {
        var n := RunLength(less, a + b);
        assert n == |a| ==> (a + b)[n..] == b;
        assert n == |a| + RunLength(less, b) ==> (a + b)[n..] == b[RunLength(less, b)..];
        assert a[k..] == [];
      }
    }
  }

  lemma RunsOfRun<T>(less: (T, T) -> bool, s: seq<T>)
    requires IsRun(less, s)
    ensures Runs(less, s) <= 1
  {
    RunLengthOfRun(less, s);
  }

  // ---------------------------------------------------------------- passes

  /** The two runs at the front of s and what follows them. */
  lemma PassParts<T>(less: (T, T) -> bool, s: seq<T>, k: nat, m: nat)
    requires k == RunLength(less, s) < |s| && m == k + RunLength(less, s[k..])
    ensures 0 < k < m <= |s|
    ensures s == s[..k] + s[k..m] + s[m..]
    ensures IsRun(less, s[..k]) && IsRun(less, s[k..m])
  {
    hide RunLength, IsRun;
    RunLengthIsRun(less, s);
    RunLengthIsRun(less, s[k..]);
    Cut(s, k, m);
  }

  lemma Cut<T>(s: seq<T>, k: nat, m: nat)
    requires k <= m <= |s|
    ensures s[k..][..m - k] == s[k..m] && s == s[..k] + s[k..m] + s[m..]
  {
  }

  lemma PassUnfold<T>(less: (T, T) -> bool, s: seq<T>, k: nat, m: nat)
    requires k == RunLength(less, s) < |s| && m == k + RunLength(less, s[k..])
    ensures Pass(less, s) == Merge(less, s[..k], s[k..m]) + Pass(less, s[m..])
    ensures OutputRuns(less, s) == 1 + OutputRuns(less, s[m..])
  {
    hide RunLength, Merge;
  }

  lemma RunsUnfold<T>(less: (T, T) -> bool, s: seq<T>, k: nat, m: nat)
    requires k == RunLength(less, s) < |s| && m == k + RunLength(less, s[k..])
    ensures Runs(less, s) == 2 + Runs(less, s[m..])
  {
    hide RunLength;
    assert Runs(less, s) == 1 + Runs(less, s[k..]);
    assert s[k..][m - k..] == s[m..];
  }

  lemma {:induction false} PassMultiset<T>(less: (T, T) -> bool, s: seq<T>)
    ensures multiset(Pass(less, s)) == multiset(s)
    decreases |s|
  {
    var k := RunLength(less, s);
    if k < |s| {
      var m := k + RunLength(less, s[k..]);
      PassParts(less, s, k, m);
      PassUnfold(less, s, k, m);
      MergeMultiset(less, s[..k], s[k..m]);
      PassMultiset(less, s[m..]);
      calc {
        multiset(Pass(less, s));
        multiset(s[..k]) + multiset(s[k..m]) + multiset(s[m..]);
        multiset(s[..k] + s[k..m] + s[m..]);
      }
    }
  }

  lemma {:induction false} PassClass<T>(less: (T, T) -> bool, s: seq<T>, x: T, u: seq<T>)
    requires StrictWeak(less, u) && x in u && forall y :: y in s ==> y in u
    ensures Class(less, Pass(less, s), x) == Class(less, s, x)
    decreases |s|
  {
    var k := RunLength(less, s);
    if k < |s| {
      var m := k + RunLength(less, s[k..]);
      PassParts(less, s, k, m);
      PassUnfold(less, s, k, m);
      var a, b, c := s[..k], s[k..m], s[m..];
      StrictWeakKept(less, u, a);
      RunIsSorted(less, a);
      MergeIsStable(less, a, b, x, u);
      PassClass(less, c, x, u);
      ClassConcat(less, Merge(less, a, b), Pass(less, c), x);
      ClassConcat(less, a + b, c, x);
      ClassConcat(less, a, b, x);
    }
  }

  /** A pass is a stable rearrangement. */
  lemma PassRearranges<T>(less: (T, T) -> bool, s: seq<T>)
    requires StrictWeak(less, s)
    ensures StableRearrangement(less, s, Pass(less, s))
    ensures forall x :: x in Pass(less, s) ==> x in s
  {
    PassMultiset(less, s);
    forall x | x in s ensures Class(less, Pass(less, s), x) == Class(less, s, x) {
      PassClass(less, s, x, s);
    }
    forall x | x in Pass(less, s) ensures x in s {
      assert x in multiset(Pass(less, s));
    }
  }

  lemma {:induction false} OutputRunsHalf<T>(less: (T, T) -> bool, s: seq<T>)
    ensures OutputRuns(less, s) == (Runs(less, s) + 1) / 2
    decreases |s|
  {
    var k := RunLength(less, s);
    if k < |s| {
      var m := k + RunLength(less, s[k..]);
      PassUnfold(less, s, k, m);
      RunsUnfold(less, s, k, m);
      OutputRunsHalf(less, s[m..]);
    } else if s != [] {
      assert s[k..] == [];
    }
  }

  lemma {:induction false} PassRuns<T>(less: (T, T) -> bool, s: seq<T>)
    requires StrictWeak(less, s)
    ensures Runs(less, Pass(less, s)) <= OutputRuns(less, s)
    decreases |s|
  {
    var k := RunLength(less, s);
    if k < |s| {
      var m := k + RunLength(less, s[k..]);
      PassParts(less, s, k, m);
      PassUnfold(less, s, k, m);
      var a, b, c := s[..k], s[k..m], s[m..];
      StrictWeakKept(less, s, a + b);
      StrictWeakKept(less, s, c);
      MergeIsRun(less, a, b);
      RunsOfRun(less, Merge(less, a, b));
      PassRuns(less, c);
      RunsConcat(less, Merge(less, a, b), Pass(less, c));
    } else if s != [] {
      assert s[k..] == [];
    }
  }

  /** Each pass leaves at most half of the natural runs, rounded up, and counts them. */
  lemma PassHalves<T>(less: (T, T) -> bool, s: seq<T>)
    requires StrictWeak(less, s)
    ensures Runs(less, Pass(less, s)) <= OutputRuns(less, s) == (Runs(less, s) + 1) / 2
  {
    PassRuns(less, s);
    OutputRunsHalf(less, s);
  }

  // ---------------------------------------------------------------- sorting

  lemma SortUnfold<T>(less: (T, T) -> bool, s: seq<T>)
    requires StrictWeak(less, s)
    ensures StrictWeak(less, Pass(less, s))
    ensures forall x :: x in Pass(less, s) <==> x in s
    ensures OutputRuns(less, s) <= 1 ==> Sort(less, s) == Pass(less, s) && Passes(less, s) == 1
    ensures OutputRuns(less, s) > 1 ==>
      Sort(less, s) == Sort(less, Pass(less, s)) && Passes(less, s) == 1 + Passes(less, Pass(less, s))
  {
    hide Pass, OutputRuns;
    PassRearranges(less, s);
    StrictWeakKept(less, s, Pass(less, s));
    forall x ensures x in Pass(less, s) <==> x in s {
      assert x in s <==> x in multiset(s);
      assert x in Pass(less, s) <==> x in multiset(Pass(less, s));
    }
  }

  lemma FewRunsIsSorted<T>(less: (T, T) -> bool, s: seq<T>)
    requires StrictWeak(less, s) && Runs(less, s) <= 1
    ensures Sorted(less, s)
  {
    var n := RunLength(less, s);
    RunLengthIsRun(less, s);
    assert n == |s|;
    assert s[..n] == s;
    RunIsSorted(less, s);
  }

  lemma RearrangementsCompose<T>(less: (T, T) -> bool, s: seq<T>, t: seq<T>, u: seq<T>)
    requires StableRearrangement(less, s, t) && StableRearrangement(less, t, u)
    ensures StableRearrangement(less, s, u)
  {
    forall x | x in s ensures Class(less, u, x) == Class(less, s, x) {
      assert x in multiset(s);
      assert x in multiset(t);
      assert x in t;
    }
  }

  /** For every sequence and every strict weak order on it, list_sort() is a stable sort. */
  lemma {:induction false} SortIsStable<T>(less: (T, T) -> bool, s: seq<T>)
    requires StrictWeak(less, s)
    ensures Sorted(less, Sort(less, s))
    ensures StableRearrangement(less, s, Sort(less, s))
    decreases Runs(less, s)
  {
    var p := Pass(less, s);
    PassRearranges(less, s);
    PassHalves(less, s);
    StrictWeakKept(less, s, p);
    if OutputRuns(less, s) <= 1 {
      FewRunsIsSorted(less, p);
    } else {
      SortIsStable(less, p);
      RearrangementsCompose(less, s, p, Sort(less, p));
    }
  }

  /** The passes are at most one more than the binary logarithm of the number of runs. */
  lemma {:induction false} PassesLogarithmic<T>(less: (T, T) -> bool, s: seq<T>)
    requires StrictWeak(less, s)
    ensures Passes(less, s) >= 1
    ensures Passes(less, s) >= 2 ==> Pow2(Passes(less, s) - 1) <= Runs(less, s) - 1
    decreases Runs(less, s)
  {
    if OutputRuns(less, s) > 1 {
      var p := Pass(less, s);
      PassRearranges(less, s);
      PassHalves(less, s);
      StrictWeakKept(less, s, p);
      PassesLogarithmic(less, p);
      hide Pass, OutputRuns, Runs;
    }
  }

  /** A sort is determined by sortedness and stability: there is no other. */
  lemma {:induction false} StableSortUnique<T>(less: (T, T) -> bool, s: seq<T>, t: seq<T>)
    requires StrictWeak(less, s) && Sorted(less, s) && Sorted(less, t) && StableRearrangement(less, s, t)
    ensures s == t
  {
    assert |multiset(s)| == |multiset(t)|;
    if s != [] {
      assert s[0] in multiset(s) && t[0] in multiset(t);
      assert s[0] in multiset(t) && t[0] in multiset(s);
      FirstsAgree(less, s, t);
      assert s == [s[0]] + s[1..] && t == [s[0]] + t[1..];
      TailsRearranged(less, s, t);
      StrictWeakKept(less, s, s[1..]);
      StableSortUnique(less, s[1..], t[1..]);
    }
  }

  lemma FirstsAgree<T>(less: (T, T) -> bool, s: seq<T>, t: seq<T>)
    requires StrictWeak(less, s) && Sorted(less, s) && Sorted(less, t) && StableRearrangement(less, s, t)
    requires s != [] && t != [] && s[0] in t && t[0] in s
    ensures s[0] == t[0]
  {
    assert !less(t[0], s[0]);
    assert !less(s[0], t[0]);
    assert s[0] in s;
    assert Equivalent(less, s[0], s[0]);
    assert Class(less, s, s[0]) == [s[0]] + Class(less, s[1..], s[0]);
    assert Class(less, t, s[0]) == [t[0]] + Class(less, t[1..], s[0]);
    assert Class(less, s, s[0]) == Class(less, t, s[0]);
    assert Class(less, s, s[0])[0] == s[0];
    assert Class(less, t, s[0])[0] == t[0];
  }

  lemma TailsRearranged<T>(less: (T, T) -> bool, s: seq<T>, t: seq<T>)
    requires StableRearrangement(less, s, t) && s != [] && t != [] && s[0] == t[0]
    ensures StableRearrangement(less, s[1..], t[1..])
  {
    assert s == [s[0]] + s[1..] && t == [s[0]] + t[1..];
    assert multiset(s) == multiset{s[0]} + multiset(s[1..]);
    assert multiset(t) == multiset{s[0]} + multiset(t[1..]);
    assert multiset(s[1..]) == multiset(s) - multiset{s[0]};
    assert multiset(t[1..]) == multiset(t) - multiset{s[0]};
    forall x | x in s[1..] ensures Class(less, t[1..], x) == Class(less, s[1..], x) {
      assert x in s;
      var c := if Equivalent(less, s[0], x) then [s[0]] else [];
      assert Class(less, s, x) == c + Class(less, s[1..], x);
      assert Class(less, t, x) == c + Class(less, t[1..], x);
      assert Class(less, s[1..], x) == (c + Class(less, s[1..], x))[|c|..];
      assert Class(less, t[1..], x) == (c + Class(less, t[1..], x))[|c|..];
    }
  }
}
