/** Doubly linked lists and their sort. */
module LinkedList {
  /*
   The doubly linked lists of lib/kernel/list.c and their in-place natural merge sort. Elements
   carry their own prev and next pointers; the sort moves elements by rewriting pointers and uses no
   other memory. Each method is proved to compute, on the sequence of linked elements, the function
   of MergeSort that describes it.
   */

  import opened Common
  import opened MergeSort

  /** struct list_elem. */
  class Elem {
    var prev: Elem?
    var next: Elem?

    constructor ()
      ensures prev == null && next == null
    {
      prev, next := null, null;
    }
  }

  ghost predicate Distinct(c: seq<Elem>) {
    forall i, j :: 0 <= i < j < |c| ==> c[i] != c[j]
  }

  /** Neighbours in c point at each other. */
  ghost predicate Joined(c: seq<Elem>)
    reads c
  {
    forall i :: 0 <= i < |c| - 1 ==> c[i].next == c[i + 1] && c[i + 1].prev == c[i]
  }

  /** c is a chain of linked elements. */
  ghost predicate Linked(c: seq<Elem>)
    reads c
  {
    Distinct(c) && Joined(c)
  }

  lemma Neighbours(c: seq<Elem>, i: nat)
    requires Linked(c) && 0 < i < |c|
    ensures c[i].prev == c[i - 1] && c[i - 1].next == c[i]
  {
    assert c[i - 1].next == c[i - 1 + 1];
  }

  // ---------------------------------------------------------------- list_splice

  /** c with its elements f to l moved before element b. */
  function Moved<T>(c: seq<T>, b: nat, f: nat, l: nat): seq<T>
    requires b <= f <= l <= |c|
  {
    c[..b] + c[f..l] + c[b..f] + c[l..]
  }

  lemma JoinedConcat(a: seq<Elem>, b: seq<Elem>)
    requires Joined(a) && Joined(b)
    requires a != [] && b != [] ==> a[|a| - 1].next == b[0] && b[0].prev == a[|a| - 1]
    ensures Joined(a + b)
  {
  }

  lemma JoinedSlice(c: seq<Elem>, lo: nat, hi: nat)
    requires lo <= hi <= |c|
    requires forall i :: lo <= i < hi - 1 ==> c[i].next == c[i + 1] && c[i + 1].prev == c[i]
    ensures Joined(c[lo..hi])
  {
    var d := c[lo..hi];
    forall x | 0 <= x < |d| - 1 ensures d[x].next == d[x + 1] && d[x + 1].prev == d[x] {
      assert d[x] == c[lo + x] && d[x + 1] == c[lo + x + 1];
    }
  }

  lemma MovedDistinct(c: seq<Elem>, b: nat, f: nat, l: nat)
    requires b <= f <= l <= |c| && Distinct(c)
    ensures Distinct(Moved(c, b, f, l))
  {
    var d := Moved(c, b, f, l);
    forall i, j | 0 <= i < j < |d| ensures d[i] != d[j] {
      MovedAt(c, b, f, l, i);
      MovedAt(c, b, f, l, j);
      FromInjective(b, f, l, i, j);
    }
  }

  lemma MovedAt<T>(c: seq<T>, b: nat, f: nat, l: nat, i: nat)
    requires b <= f <= l <= |c| && i < |c|
    ensures |Moved(c, b, f, l)| == |c| && From(b, f, l, i) < |c| && Moved(c, b, f, l)[i] == c[From(b, f, l, i)]
  {
  }

  lemma FromInjective(b: nat, f: nat, l: nat, i: nat, j: nat)
    requires b <= f <= l && i != j
    ensures From(b, f, l, i) != From(b, f, l, j)
  {
  }

  /** Where the element at position i of Moved(c, b, f, l) comes from. */
  function From(b: nat, f: nat, l: nat, i: nat): nat
    requires b <= f <= l
  {
    if i < b then i else if i < b + (l - f) then i - b + f else if i < l then i - (l - f) else i
  }

  /** The pointers that list_splice() leaves make the moved sequence a chain. */
  lemma MovedLinked(c: seq<Elem>, b: nat, f: nat, l: nat)
    requires 0 < b < f < l < |c| && Distinct(c)
    requires forall i :: 0 <= i < |c| - 1 && i != b - 1 && i != f - 1 && i != l - 1 ==>
      c[i].next == c[i + 1] && c[i + 1].prev == c[i]
    requires c[b - 1].next == c[f] && c[f].prev == c[b - 1]
    requires c[l - 1].next == c[b] && c[b].prev == c[l - 1]
    requires c[f - 1].next == c[l] && c[l].prev == c[f - 1]
    ensures Linked(Moved(c, b, f, l))
  {
    MovedDistinct(c, b, f, l);
    hide Distinct;
    JoinedSlice(c, 0, b);
    JoinedSlice(c, f, l);
    JoinedSlice(c, b, f);
    JoinedSlice(c, l, |c|);
    assert c[0..b] == c[..b] && c[l..|c|] == c[l..];
    JoinedConcat(c[..b], c[f..l]);
    JoinedConcat(c[..b] + c[f..l], c[b..f]);
    JoinedConcat(c[..b] + c[f..l] + c[b..f], c[l..]);
  }

  /** Moves the elements from "first" up to "last" (exclusive) before "before", which precedes them
      in the chain c; b, f and l are their positions. */
  method ListSplice(before: Elem, first: Elem, last: Elem, ghost c: seq<Elem>, ghost b: nat, ghost f: nat, ghost l: nat)
    requires Linked(c) && 0 < b < f <= l < |c|
    requires c[b] == before && c[f] == first && c[l] == last
    modifies c
    ensures Linked(Moved(c, b, f, l))
    ensures c[0].prev == old(c[0].prev) && c[|c| - 1].next == old(c[|c| - 1].next)
  {
    if first == last {
      assert f == l;
      assert Moved(c, b, f, l) == c;
      return;
    }
    Neighbours(c, b);
    Neighbours(c, f);
    Neighbours(c, l);
    var end := last.prev;
    first.prev.next := end.next;
    end.next.prev := first.prev;
    first.prev := before.prev;
    end.next := before;
    before.prev.next := first;
    before.prev := end;
    forall i | 0 <= i < |c| - 1 && i != b - 1 && i != f - 1 && i != l - 1
      ensures c[i].next == c[i + 1] && c[i + 1].prev == c[i]
    {
      assert old(c[i].next) == c[i + 1] && old(c[i + 1].prev) == c[i];
    }
    MovedLinked(c, b, f, l);
  }

  // ---------------------------------------------------------------- find_end_of_run

  /** The end of the run that starts at "from" and ends not after "to", at positions i and j of c. */
  method FindEndOfRun(from: Elem, to: Elem, less: (Elem, Elem) -> bool, ghost c: seq<Elem>, ghost i: nat, ghost j: nat)
    returns (end: Elem, ghost k: nat)
    requires Linked(c) && i < j < |c| && c[i] == from && c[j] == to
    ensures i < k <= j && end == c[k]
    ensures k - i == RunLength(less, c[i..j])
    ensures end == c[i + RunLength(less, c[i..j])]
  {
    Neighbours(c, i + 1);
    end, k := from.next, i + 1;
    while end != to && !less(end, end.prev)
      invariant i < k <= j && end == c[k]
      invariant RunLength(less, c[i..j]) == k - 1 - i + RunLength(less, c[k - 1..j])
      decreases j - k
    {
      assert k < j;
      Neighbours(c, k);
      Neighbours(c, k + 1);
      RunStep(less, c, k, j);
      end, k := end.next, k + 1;
    }
    if end == to {
      assert k == j;
    } else {
      Neighbours(c, k);
    }
  }

  lemma RunStep(less: (Elem, Elem) -> bool, c: seq<Elem>, k: nat, j: nat)
    requires 0 < k < j <= |c| && !less(c[k], c[k - 1])
    ensures RunLength(less, c[k - 1..j]) == 1 + RunLength(less, c[k..j])
  {
    assert c[k - 1..j][1..] == c[k..j];
  }

  // ---------------------------------------------------------------- inplace_merge

  /** c with its elements i to k replaced by m. */
  function Patched<T>(c: seq<T>, i: nat, k: nat, m: seq<T>): seq<T>
    requires i <= k <= |c|
  {
    c[..i] + m + c[k..]
  }

  lemma MergeTakesLeft<T>(less: (T, T) -> bool, d: seq<T>, i: nat, p: nat, q: nat, k: nat, m: seq<T>)
    requires i <= p < q < k <= |d| && !less(d[q], d[p])
    requires d[i..p] + Merge(less, d[p..q], d[q..k]) == m
    ensures d[i..p + 1] + Merge(less, d[p + 1..q], d[q..k]) == m
  {
    assert d[p..q][1..] == d[p + 1..q];
    assert d[i..p + 1] == d[i..p] + [d[p]];
  }

  /** Moving element q back to position p, slice by slice. */
  lemma MovedOne<T>(d: seq<T>, i: nat, p: nat, q: nat, k: nat)
    requires i <= p < q < k < |d|
    ensures var e := Moved(d, p, q, q + 1);
      && |e| == |d|
      && e[..i] == d[..i] && e[i..p + 1] == d[i..p] + [d[q]] && e[p + 1..q + 1] == d[p..q]
      && e[q + 1..k] == d[q + 1..k] && e[k..] == d[k..]
      && e[p + 1] == d[p] && e[q + 1] == d[q + 1]
      && forall x :: 0 <= x < |e| ==> e[x] in d
  {
    var e := Moved(d, p, q, q + 1);
    hide Moved;
    assert |e| == |d| && forall x :: 0 <= x < |e| ==> e[x] == d[From(p, q, q + 1, x)] by {
      MovedAt(d, p, q, q + 1, 0);
      forall x | 0 <= x < |d| ensures e[x] == d[From(p, q, q + 1, x)] {
        MovedAt(d, p, q, q + 1, x);
      }
    }
  }

  lemma MergeTakesRight<T>(less: (T, T) -> bool, d: seq<T>, i: nat, p: nat, q: nat, k: nat, m: seq<T>)
    requires i <= p < q < k < |d| && less(d[q], d[p])
    requires d[i..p] + Merge(less, d[p..q], d[q..k]) == m
    ensures |Moved(d, p, q, q + 1)| == |d|
    ensures var e := Moved(d, p, q, q + 1); e[i..p + 1] + Merge(less, e[p + 1..q + 1], e[q + 1..k]) == m
  {
    hide Moved;
    MovedOne(d, i, p, q, k);
    assert d[q..k][1..] == d[q + 1..k];
  }

  /** The branch of the merge loop that takes an element of the second run: it moves from position
      q to position p, and the next element of the second run is returned. */
  method TakeRight(a0: Elem, a1b0: Elem, ghost d: seq<Elem>, ghost p: nat, ghost q: nat) returns (rest: Elem)
    requires Linked(d) && 0 < p < q < |d| - 1 && d[p] == a0 && d[q] == a1b0
    modifies d
    ensures rest == d[q + 1] && Linked(Moved(d, p, q, q + 1))
    ensures d[0].prev == old(d[0].prev) && d[|d| - 1].next == old(d[|d| - 1].next)
  {
    hide Linked, Moved;
    Neighbours(d, q + 1);
    rest := a1b0.next;
    assert rest == d[q + 1] && rest.prev == d[q];
    ListSplice(a0, rest.prev, rest, d, p, q, q + 1);
  }

  /** Merges the adjacent runs at positions i to j and j to k of the chain c. */
  method InplaceMerge(a: Elem, m: Elem, b1: Elem, less: (Elem, Elem) -> bool,
                      ghost c: seq<Elem>, ghost i: nat, ghost j: nat, ghost k: nat)
    returns (ghost d: seq<Elem>)
    requires Linked(c) && 0 < i <= j <= k < |c|
    requires c[i] == a && c[j] == m && c[k] == b1
    modifies c
    ensures d == Patched(c, i, k, Merge(less, c[i..j], c[j..k])) && Linked(d)
    ensures c[0].prev == old(c[0].prev) && c[|c| - 1].next == old(c[|c| - 1].next)
  {
    hide Linked, Moved, Merge;
    var a0, a1b0 := a, m;
    d := c;
    ghost var p, q := i, j;
    ghost var goal := Merge(less, c[i..j], c[j..k]);
    assert d[i..p] == [];
    while a0 != a1b0 && a1b0 != b1
      invariant i <= p <= q <= k && |d| == |c| && Linked(d)
      invariant a0 == d[p] && a1b0 == d[q]
      invariant d[..i] == c[..i] && d[k..] == c[k..]
      invariant d[i..p] + Merge(less, d[p..q], d[q..k]) == goal
      invariant forall x :: 0 <= x < |d| ==> d[x] in c
      invariant c[0].prev == old(c[0].prev) && c[|c| - 1].next == old(c[|c| - 1].next)
      decreases k - p, k - q
    {
      assert d[k] == d[k..][0] == b1;
      assert p < q < k;
      if !less(a1b0, a0) {
        Neighbours(d, p + 1);
        MergeTakesLeft(less, d, i, p, q, k, goal);
        a0 := a0.next;
        p := p + 1;
      } else {
        MergeTakesRight(less, d, i, p, q, k, goal);
        MovedOne(d, i, p, q, k);
        assert d[0] == d[..i][0] == c[0] && d[|d| - 1] == d[k..][|d| - 1 - k] == c[|c| - 1];
        a1b0 := TakeRight(a0, a1b0, d, p, q);
        d := Moved(d, p, q, q + 1);
        p, q := p + 1, q + 1;
      }
    }
    MergeEnds(less, c, d, i, p, q, k, goal);
  }

  lemma MergeEnds(less: (Elem, Elem) -> bool, c: seq<Elem>, d: seq<Elem>, i: nat, p: nat, q: nat, k: nat, goal: seq<Elem>)
    requires i <= p <= q <= k < |c| == |d| && Linked(d)
    requires d[p] == d[q] || d[q] == d[k]
    requires d[..i] == c[..i] && d[k..] == c[k..]
    requires d[i..p] + Merge(less, d[p..q], d[q..k]) == goal
    ensures d == Patched(c, i, k, goal)
  {
    assert p == q || q == k;
    assert d[i..p] + d[p..k] == d[i..k];
    assert p == q ==> d[p..q] == [];
    assert q == k ==> d[q..k] == [];
    assert d == d[..i] + d[i..k] + d[k..];
  }

  // ---------------------------------------------------------------- list_sort

  /** A merge changes neither the length of the chain nor its elements. */
  lemma PatchedKeeps(less: (Elem, Elem) -> bool, c: seq<Elem>, i: nat, j: nat, k: nat)
    requires i <= j <= k < |c|
    ensures var m := Merge(less, c[i..j], c[j..k]); var d := Patched(c, i, k, m);
      && |m| == k - i && |d| == |c|
      && (forall x :: 0 <= x < |d| ==> d[x] in c)
      && (forall x :: 0 <= x < i || k <= x < |d| ==> d[x] == c[x])
  {
    hide Merge;
    var m := Merge(less, c[i..j], c[j..k]);
    MergeMultiset(less, c[i..j], c[j..k]);
    assert |multiset(m)| == |m|;
    forall x | x in m ensures x in c {
      assert x in multiset(m);
      assert x in c[i..j] || x in c[j..k];
    }
  }

  /** What one turn of the loop over the list does to the result of the pass. */
  lemma PassTurn(less: (Elem, Elem) -> bool, c: seq<Elem>, i: nat, j: nat, k: nat, goal: seq<Elem>, runs: nat, cnt: nat)
    requires 0 < i < j < k < |c|
    requires j - i == RunLength(less, c[i..|c| - 1]) && k - j == RunLength(less, c[j..|c| - 1])
    requires c[1..i] + Pass(less, c[i..|c| - 1]) == goal
    requires cnt + OutputRuns(less, c[i..|c| - 1]) == runs
    ensures var d := Patched(c, i, k, Merge(less, c[i..j], c[j..k]));
      && |d| == |c|
      && d[1..k] + Pass(less, d[k..|d| - 1]) == goal
      && cnt + 1 + OutputRuns(less, d[k..|d| - 1]) == runs
  {
    hide Merge, Pass, RunLength, OutputRuns;
    var n := |c| - 1;
    var s := c[i..n];
    assert s[j - i..] == c[j..n] && s[..j - i] == c[i..j] && s[j - i..k - i] == c[j..k] && s[k - i..] == c[k..n];
    PassUnfold(less, s, j - i, k - i);
    PatchedKeeps(less, c, i, j, k);
    var m := Merge(less, c[i..j], c[j..k]);
    var d := Patched(c, i, k, m);
    assert d[1..k] == c[1..i] + m;
    assert d[k..n] == c[k..n];
  }

  lemma PassEnds(less: (Elem, Elem) -> bool, c: seq<Elem>, i: nat, goal: seq<Elem>, runs: nat, cnt: nat)
    requires 0 < i < |c| && RunLength(less, c[i..|c| - 1]) == |c| - 1 - i
    requires c[1..i] + Pass(less, c[i..|c| - 1]) == goal
    requires cnt + OutputRuns(less, c[i..|c| - 1]) == runs
    ensures c[1..|c| - 1] == goal && runs == if i < |c| - 1 then cnt + 1 else cnt
  {
    hide RunLength;
    assert Pass(less, c[i..|c| - 1]) == c[i..|c| - 1];
  }

  /** One turn of the loop over the list: finds the run at position i and, unless it reaches the
      end, the run after it, and merges the two. */
  method MergeTwoRuns(a0: Elem, end: Elem, less: (Elem, Elem) -> bool, ghost c: seq<Elem>, ghost i: nat)
    returns (merged: bool, b1: Elem, ghost d: seq<Elem>, ghost j: nat, ghost k: nat)
    requires Linked(c) && 0 < i < |c| - 1 && c[i] == a0 && c[|c| - 1] == end
    modifies c
    ensures merged ==>
      && i < j < k < |c| && b1 == c[k]
      && j - i == RunLength(less, c[i..|c| - 1]) && k - j == RunLength(less, c[j..|c| - 1])
      && d == Patched(c, i, k, Merge(less, c[i..j], c[j..k]))
    ensures !merged ==> d == c && RunLength(less, c[i..|c| - 1]) == |c| - 1 - i
    ensures Linked(d)
    ensures c[0].prev == old(c[0].prev) && c[|c| - 1].next == old(c[|c| - 1].next)
  {
    hide Linked, Merge, RunLength;
    ghost var n := |c| - 1;
    var a1b0;
    a1b0, j := FindEndOfRun(a0, end, less, c, i, n);
    if a1b0 == end {
      Unique(c, j, n);
      merged, b1, d, k := false, end, c, n;
      return;
    }
    b1, k := FindEndOfRun(a1b0, end, less, c, j, n);
    d := InplaceMerge(a0, a1b0, b1, less, c, i, j, k);
    merged := true;
  }

  /** The loop of one pass over the chain c, whose first and last elements are the sentinels. */
  method PassOver(first: Elem, end: Elem, less: (Elem, Elem) -> bool, ghost c: seq<Elem>) returns (cnt: nat, ghost d: seq<Elem>)
    requires Linked(c) && |c| >= 2 && c[1] == first && c[|c| - 1] == end
    modifies c
    ensures Linked(d) && |d| == |c| && d[0] == c[0] && d[|d| - 1] == end
    ensures d[1..|d| - 1] == Pass(less, c[1..|c| - 1]) && cnt == OutputRuns(less, c[1..|c| - 1])
    ensures forall x :: x in d <==> x in c
    ensures c[0].prev == old(c[0].prev) && c[|c| - 1].next == old(c[|c| - 1].next)
  {
    hide Linked, Pass, OutputRuns, Merge, RunLength, Patched;
    ghost var n := |c| - 1;
    var a0 := first;
    ghost var i := 1;
    cnt, d := 0, c;
    ghost var goal, runs := Pass(less, c[1..n]), OutputRuns(less, c[1..n]);
    while a0 != end
      invariant 0 < i <= n == |d| - 1 && Linked(d)
      invariant d[0] == c[0] && d[n] == end && a0 == d[i]
      invariant d[1..i] + Pass(less, d[i..n]) == goal && cnt + OutputRuns(less, d[i..n]) == runs
      invariant forall x :: 0 <= x < |d| ==> d[x] in c
      invariant c[0].prev == old(c[0].prev) && c[|c| - 1].next == old(c[|c| - 1].next)
      decreases n - i
    {
      ghost var e, j, k;
      var merged, b1;
      cnt := cnt + 1;
      merged, b1, e, j, k := MergeTwoRuns(a0, end, less, d, i);
      if !merged {
        break;
      }
      PassTurn(less, d, i, j, k, goal, runs, cnt - 1);
      PatchedKeeps(less, d, i, j, k);
      d, a0, i := e, b1, k;
    }
    if a0 == end {
      Unique(d, i, n);
      RunOfNothing(less, d[i..n]);
    }
    PassEnds(less, d, i, goal, runs, if i < n then cnt - 1 else cnt);
    PassMembers(less, c, d);
  }

  lemma PassMembers(less: (Elem, Elem) -> bool, c: seq<Elem>, d: seq<Elem>)
    requires |c| == |d| >= 2 && d[0] == c[0] && d[|d| - 1] == c[|c| - 1]
    requires d[1..|d| - 1] == Pass(less, c[1..|c| - 1])
    ensures forall x :: x in d <==> x in c
  {
    hide Pass;
    PassMultiset(less, c[1..|c| - 1]);
    assert c == [c[0]] + c[1..|c| - 1] + [c[|c| - 1]];
    assert d == [c[0]] + d[1..|d| - 1] + [c[|c| - 1]];
    assert multiset(d) == multiset(c);
    forall x ensures x in d <==> x in c {
      assert x in d <==> x in multiset(d);
      assert x in c <==> x in multiset(c);
    }
  }

  /** struct list: two sentinels around the elements. */
  class List {
    const head: Elem
    const tail: Elem
    ghost var elems: seq<Elem>

    ghost function Chain(): seq<Elem>
      reads this
    {
      [head] + elems + [tail]
    }

    ghost function Footprint(): set<Elem>
      reads this
    {
      set x | x in Chain()
    }

    /** Sentinels and elements form a chain whose ends point nowhere. */
    ghost predicate Valid()
      reads this, Chain(), head, tail
    {
      Linked(Chain()) && head.prev == null && tail.next == null
    }

    /** list_init(). */
    constructor ()
      ensures Valid() && elems == [] && fresh(head) && fresh(tail)
    {
      var h := new Elem();
      var t := new Elem();
      h.next, t.prev := t, h;
      head, tail, elems := h, t, [];
    }

    /** One pass of list_sort(), which returns output_run_cnt. */
    method SortPass(less: (Elem, Elem) -> bool) returns (cnt: nat)
      requires Valid()
      modifies this`elems, Footprint()
      ensures Valid() && elems == Pass(less, old(elems)) && cnt == OutputRuns(less, old(elems))
      ensures Footprint() == old(Footprint())
    {
      hide Linked, Pass, OutputRuns;
      ghost var c := Chain();
      Neighbours(c, 1);
      assert c[1..|c| - 1] == elems;
      ghost var d;
      cnt, d := PassOver(head.next, tail, less, c);
      elems := d[1..|d| - 1];
      assert Chain() == d;
    }

    /** Sorts the list: the elements end up linked in the order of the unique stable sort. */
    method ListSort(less: (Elem, Elem) -> bool) returns (ghost passes: nat)
      requires Valid() && StrictWeak(less, elems)
      modifies this`elems, Footprint()
      ensures Valid() && Footprint() == old(Footprint()) && elems == Sort(less, old(elems))
      ensures Sorted(less, elems) && StableRearrangement(less, old(elems), elems)
      ensures passes == Passes(less, old(elems))
      ensures passes >= 2 ==> Pow2(passes - 1) <= Runs(less, old(elems)) - 1
    {
      hide *;
      SortIsStable(less, elems);
      PassesLogarithmic(less, elems);
      ghost var goal, total := Sort(less, elems), Passes(less, elems);
      passes := 0;
      var outputRunCnt := 2;
      while outputRunCnt > 1
        invariant Valid() && StrictWeak(less, elems)
        invariant Footprint() == old(Footprint())
        invariant if outputRunCnt > 1
          then Sort(less, elems) == goal && Passes(less, elems) + passes == total
          else elems == goal && passes == total
        decreases total - passes
      {
        SortUnfold(less, elems);
        PassesLogarithmic(less, elems);
        outputRunCnt := SortPass(less);
        passes := passes + 1;
      }
    }
  }

  lemma RunOfNothing(less: (Elem, Elem) -> bool, s: seq<Elem>)
    requires s == []
    ensures RunLength(less, s) == 0
  {
  }

  lemma Unique(c: seq<Elem>, i: nat, j: nat)
    requires Linked(c) && i < |c| && j < |c| && c[i] == c[j]
    ensures i == j
  {
  }
}
