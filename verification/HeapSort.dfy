/** sort() and binary_search() of stdlib.c, on an array whose elements are compared by strcmp-type
    results. Indexes into the heap count from 1, as in the code. */
module HeapSort {
  import opened Common

  /** What the callers of sort() must guarantee: a total preorder. */
  ghost predicate Lawful<T(!new)>(cmp: (T, T) -> int) {
    && (forall a, b :: cmp(a, b) > 0 <==> cmp(b, a) < 0)
    && (forall a, b, c :: cmp(a, b) <= 0 && cmp(b, c) <= 0 ==> cmp(a, c) <= 0)
  }

  predicate Le<T>(cmp: (T, T) -> int, a: T, b: T) {
    cmp(a, b) <= 0
  }

  ghost predicate Sorted<T>(cmp: (T, T) -> int, s: seq<T>) {
    forall i, j :: 0 <= i < j < |s| ==> Le(cmp, s[i], s[j])
  }

  /** Child c is no larger than its parent. */
  predicate Below<T>(cmp: (T, T) -> int, s: seq<T>, c: nat)
    requires 2 <= c <= |s|
  {
    Le(cmp, s[c - 1], s[c / 2 - 1])
  }

  /** Nodes from lo on are no smaller than their children, among the first n. */
  ghost predicate Heap<T>(cmp: (T, T) -> int, s: seq<T>, lo: nat, n: nat) {
    1 <= lo && n <= |s| && forall c: nat :: 2 * lo <= c <= n ==> Below(cmp, s, c)
  }

  /** The same, but for node j, whose children are no larger than its parent. */
  ghost predicate HeapBut<T>(cmp: (T, T) -> int, s: seq<T>, lo: nat, n: nat, j: nat) {
    && 1 <= lo <= j && n <= |s| && (j == lo || 2 * lo <= j <= n)
    && (forall c: nat :: 2 * lo <= c <= n && c / 2 != j ==> Below(cmp, s, c))
    && (forall c: nat :: 2 * lo <= c <= n && c / 2 == j && j > lo ==> Le(cmp, s[c - 1], s[j / 2 - 1]))
  }

  /** The children of node j are no larger than x. */
  predicate ChildrenLe<T>(cmp: (T, T) -> int, s: seq<T>, n: nat, j: nat, x: T)
    requires 1 <= j && n <= |s|
  {
    (2 * j <= n ==> Le(cmp, s[2 * j - 1], x)) && (2 * j + 1 <= n ==> Le(cmp, s[2 * j], x))
  }

  function Swapped<T>(s: seq<T>, i: nat, j: nat): seq<T>
    requires 1 <= i <= |s| && 1 <= j <= |s|
  {
    s[i - 1 := s[j - 1]][j - 1 := s[i - 1]]
  }

  lemma SwapPermutes<T>(s: seq<T>, i: nat, j: nat, n: nat)
    requires 1 <= i <= n <= |s| && 1 <= j <= n
    ensures multiset(Swapped(s, i, j)[..n]) == multiset(s[..n]) && Swapped(s, i, j)[n..] == s[n..]
  {
    assert Swapped(s, i, j)[..n] == s[..n][i - 1 := s[j - 1]][j - 1 := s[i - 1]];
  }

  /** The child with the largest value trades places with node j. */
  lemma FloatStep<T>(cmp: (T, T) -> int, s: seq<T>, lo: nat, n: nat, j: nat, max: nat)
    requires HeapBut(cmp, s, lo, n, j) && (max == 2 * j || max == 2 * j + 1) && max <= n
    requires Le(cmp, s[j - 1], s[max - 1])
    requires ChildrenLe(cmp, s, n, j, s[max - 1])
    ensures HeapBut(cmp, Swapped(s, j, max), lo, n, max)
  {
    var t := Swapped(s, j, max);
    forall c: nat | 2 * lo <= c <= n && c / 2 != max ensures Below(cmp, t, c) {
      FloatBelow(cmp, s, lo, n, j, max, c);
    }
    forall c: nat | 2 * lo <= c <= n && c / 2 == max ensures Le(cmp, t[c - 1], t[max / 2 - 1]) {
      assert Below(cmp, s, c);
    }
  }

  lemma FloatBelow<T>(cmp: (T, T) -> int, s: seq<T>, lo: nat, n: nat, j: nat, max: nat, c: nat)
    requires HeapBut(cmp, s, lo, n, j) && (max == 2 * j || max == 2 * j + 1) && max <= n
    requires Le(cmp, s[j - 1], s[max - 1]) && ChildrenLe(cmp, s, n, j, s[max - 1])
    requires 2 * lo <= c <= n && c / 2 != max
    ensures Below(cmp, Swapped(s, j, max), c)
  {
    hide Le;
    if c / 2 == j {
      assert c == 2 * j || c == 2 * j + 1;
    } else if c == j {
      assert j > lo && max / 2 == j && Swapped(s, j, max)[c - 1] == s[max - 1];
      assert Le(cmp, s[max - 1], s[j / 2 - 1]);
    } else {
      assert Below(cmp, s, c);
    }
  }

  /** Node j is no smaller than its children: the heap is whole. */
  lemma FloatEnds<T>(cmp: (T, T) -> int, s: seq<T>, lo: nat, n: nat, j: nat)
    requires HeapBut(cmp, s, lo, n, j)
    requires j <= n && ChildrenLe(cmp, s, n, j, s[j - 1])
    ensures Heap(cmp, s, lo, n)
  {
    forall c: nat | 2 * lo <= c <= n ensures Below(cmp, s, c) {
      if c / 2 == j {
        assert c == 2 * j || c == 2 * j + 1;
      }
    }
  }

  /** heapify(): with the subtrees below i in order, the heap from i on is in order; the first cnt
      elements are rearranged and the rest untouched. */
  method Heapify<T(!new)>(cmp: (T, T) -> int, a: array<T>, i: nat, cnt: nat)
    requires Lawful(cmp) && cnt <= a.Length && 1 <= i <= cnt && Heap(cmp, a[..], i + 1, cnt)
    modifies a
    ensures Heap(cmp, a[..], i, cnt)
    ensures multiset(a[..cnt]) == multiset(old(a[..cnt])) && a[cnt..] == old(a[cnt..])
  {
    var j := i;
    ghost var s := a[..];
    Starts(cmp, s, i, cnt);
    assert a[..cnt] == s[..cnt] && a[cnt..] == s[cnt..];
    hide Lawful, Heap, HeapBut;
    while true
      invariant 1 <= j <= cnt && HeapBut(cmp, a[..], i, cnt, j)
      invariant multiset(a[..][..cnt]) == multiset(s[..cnt]) && a[..][cnt..] == s[cnt..]
      decreases cnt - j
    {
      ghost var t := a[..];
      var max := Largest(cmp, a, j, cnt);
      if max == j {
        FloatEnds(cmp, t, i, cnt, j);
        break;
      }
      FloatStep(cmp, t, i, cnt, j, max);
      SwapPermutes(t, j, max, cnt);
      a[j - 1], a[max - 1] := a[max - 1], a[j - 1];
      assert a[..] == Swapped(t, j, max);
      j := max;
    }
    assert a[..cnt] == a[..][..cnt] && a[cnt..] == a[..][cnt..];
  }

  lemma Starts<T>(cmp: (T, T) -> int, s: seq<T>, i: nat, n: nat)
    requires Heap(cmp, s, i + 1, n) && 1 <= i
    ensures HeapBut(cmp, s, i, n, i)
  {
    forall c: nat | 2 * i <= c <= n && c / 2 != i ensures Below(cmp, s, c) {
      assert 2 * (i + 1) <= c;
    }
  }

  /** The index of the largest of node j and its children. */
  method Largest<T(!new)>(cmp: (T, T) -> int, a: array<T>, j: nat, cnt: nat) returns (max: nat)
    requires Lawful(cmp) && 1 <= j <= cnt <= a.Length
    ensures max == j || (max <= cnt && (max == 2 * j || max == 2 * j + 1))
    ensures Le(cmp, a[j - 1], a[max - 1])
    ensures ChildrenLe(cmp, a[..], cnt, j, a[max - 1])
  {
    var left, right := 2 * j, 2 * j + 1;
    max := j;
    assert cmp(a[j - 1], a[j - 1]) <= 0;
    if left <= cnt && cmp(a[left - 1], a[max - 1]) > 0 {
      max := left;
    }
    assert cmp(a[max - 1], a[max - 1]) <= 0;
    if right <= cnt && cmp(a[right - 1], a[max - 1]) > 0 {
      max := right;
      assert cmp(a[max - 1], a[max - 1]) <= 0;
    }
  }

  /** The root of a heap is its largest element. */
  lemma {:induction false} RootIsLargest<T(!new)>(cmp: (T, T) -> int, s: seq<T>, n: nat, k: nat)
    requires Lawful(cmp) && Heap(cmp, s, 1, n) && 1 <= k <= n
    ensures Le(cmp, s[k - 1], s[0])
    decreases k
  {
    if k == 1 {
      assert cmp(s[0], s[0]) <= 0;
    } else {
      assert Below(cmp, s, k);
      RootIsLargest(cmp, s, n, k / 2);
    }
  }

  /** The heap in the first i elements, the largest ones sorted after it. */
  ghost predicate Half<T>(cmp: (T, T) -> int, s: seq<T>, i: nat) {
    && i <= |s| && Sorted(cmp, s[i..])
    && forall x, y :: x in s[..i] && y in s[i..] ==> Le(cmp, x, y)
  }

  /** One round: the root goes behind the heap, which closes up again. */
  lemma Round<T(!new)>(cmp: (T, T) -> int, s: seq<T>, t: seq<T>, u: seq<T>, i: nat)
    requires Lawful(cmp) && Heap(cmp, s, 1, i) && Half(cmp, s, i) && 1 < i && |t| == |u| == |s|
    requires t == Swapped(s, 1, i) && multiset(u[..i - 1]) == multiset(t[..i - 1]) && u[i - 1..] == t[i - 1..]
    ensures Half(cmp, u, i - 1)
  {
    var root := s[0];
    assert u[i - 1..] == [root] + s[i..];
    assert root in s[..i];
    forall x | x in u[..i - 1] ensures Le(cmp, x, root) && x in s[..i] {
      assert x in multiset(t[..i - 1]);
      var k :| 0 <= k < i - 1 && t[k] == x;
      RootIsLargest(cmp, s, i, (if k == 0 then i - 1 else k) + 1);
      assert x == s[if k == 0 then i - 1 else k];
    }
  }

  lemma SwappedHeap<T>(cmp: (T, T) -> int, s: seq<T>, i: nat)
    requires Heap(cmp, s, 1, i) && 1 < i
    ensures Heap(cmp, Swapped(s, 1, i), 2, i - 1)
  {
    forall c: nat | 4 <= c <= i - 1 ensures Below(cmp, Swapped(s, 1, i), c) {
      assert Below(cmp, s, c);
    }
  }

  /** sort(): a sorted rearrangement, for every array and every total preorder. */
  method Sort<T(!new)>(cmp: (T, T) -> int, a: array<T>)
    requires Lawful(cmp)
    modifies a
    ensures Sorted(cmp, a[..]) && multiset(a[..]) == multiset(old(a[..]))
  {
    var cnt := a.Length;
    BuildHeap(cmp, a);
    ghost var all := multiset(a[..]);
    var i := cnt;
    hide Lawful, Heap, Half;
    Whole(cmp, a[..]);
    while i > 1
      invariant 0 <= i <= cnt && Heap(cmp, a[..], 1, i) && Half(cmp, a[..], i) && multiset(a[..]) == all
    {
      RoundOnce(cmp, a, i);
      i := i - 1;
    }
    Finished(cmp, a[..], i);
  }

  lemma Whole<T>(cmp: (T, T) -> int, s: seq<T>)
    ensures Half(cmp, s, |s|)
  {
  }

  lemma Finished<T>(cmp: (T, T) -> int, s: seq<T>, i: nat)
    requires Half(cmp, s, i) && i <= 1
    ensures Sorted(cmp, s)
  {
    if i == 1 {
      assert s == [s[0]] + s[1..] && s[0] in s[..1];
      forall j | 1 <= j < |s| ensures Le(cmp, s[0], s[j]) {
        assert s[j] == s[1..][j - 1];
      }
    } else {
      assert s[0..] == s;
    }
  }

  lemma PartsWhole<T>(s: seq<T>, t: seq<T>, n: nat)
    requires n <= |s| == |t| && multiset(t[..n]) == multiset(s[..n]) && t[n..] == s[n..]
    ensures multiset(t) == multiset(s)
  {
    assert s == s[..n] + s[n..] && t == t[..n] + t[n..];
  }

  /** One round of the second loop. */
  method RoundOnce<T(!new)>(cmp: (T, T) -> int, a: array<T>, i: nat)
    requires Lawful(cmp) && 1 < i <= a.Length && Heap(cmp, a[..], 1, i) && Half(cmp, a[..], i)
    modifies a
    ensures Heap(cmp, a[..], 1, i - 1) && Half(cmp, a[..], i - 1) && multiset(a[..]) == multiset(old(a[..]))
  {
    ghost var s := a[..];
    hide Lawful, Heap, Half;
    SwappedHeap(cmp, s, i);
    SwapPermutes(s, 1, i, |s|);
    a[0], a[i - 1] := a[i - 1], a[0];
    ghost var t := a[..];
    assert t == Swapped(s, 1, i);
    assert t[..|s|] == t && s[..|s|] == s;
    Heapify(cmp, a, 1, i - 1);
    ghost var u := a[..];
    assert u[..i - 1] == a[..i - 1] && u[i - 1..] == a[i - 1..];
    assert multiset(u[..i - 1]) == multiset(t[..i - 1]) && u[i - 1..] == t[i - 1..];
    Round(cmp, s, t, u, i);
    PartsWhole(t, u, i - 1);
  }

  /** The first loop of sort(). */
  method BuildHeap<T(!new)>(cmp: (T, T) -> int, a: array<T>)
    requires Lawful(cmp)
    modifies a
    ensures Heap(cmp, a[..], 1, a.Length) && multiset(a[..]) == multiset(old(a[..]))
  {
    var cnt := a.Length;
    ghost var s := a[..];
    var i := cnt / 2;
    while i > 0
      invariant 0 <= i <= cnt / 2 && Heap(cmp, a[..], i + 1, cnt) && multiset(a[..]) == multiset(s)
    {
      assert a[..cnt] == a[..];
      Heapify(cmp, a, i, cnt);
      assert a[..cnt] == a[..];
      i := i - 1;
    }
  }

  /** binary_search() on a sorted array finds an element that compares equal exactly if there is one. */
  method BinarySearch<T(!new)>(cmp: (T, T) -> int, key: T, a: array<T>) returns (r: Option<nat>)
    requires Lawful(cmp) && Sorted(cmp, a[..])
    ensures r.Some? ==> r.value < a.Length && cmp(key, a[r.value]) == 0
    ensures r == None ==> forall k :: 0 <= k < a.Length ==> cmp(key, a[k]) != 0
  {
    var first, last := 0, a.Length;
    ghost var s := a[..];
    while first < last
      invariant 0 <= first <= last <= a.Length
      invariant forall k :: 0 <= k < first ==> cmp(key, s[k]) > 0
      invariant forall k :: last <= k < |s| ==> cmp(key, s[k]) < 0
    {
      var middle := first + (last - first) / 2;
      var c := cmp(key, a[middle]);
      if c < 0 {
        Above(cmp, key, s, middle);
        last := middle;
      } else if c > 0 {
        Under(cmp, key, s, middle);
        first := middle + 1;
      } else {
        return Some(middle);
      }
    }
    return None;
  }

  lemma Above<T(!new)>(cmp: (T, T) -> int, key: T, s: seq<T>, m: nat)
    requires Lawful(cmp) && Sorted(cmp, s) && m < |s| && cmp(key, s[m]) < 0
    ensures forall k :: m <= k < |s| ==> cmp(key, s[k]) < 0
  {
    forall k | m <= k < |s| ensures cmp(key, s[k]) < 0 {
      if k > m {
        var x, y := s[m], s[k];
        assert Le(cmp, x, y);
        assert cmp(y, key) <= 0 ==> cmp(x, key) <= 0;
      }
    }
  }

  lemma Under<T(!new)>(cmp: (T, T) -> int, key: T, s: seq<T>, m: nat)
    requires Lawful(cmp) && Sorted(cmp, s) && m < |s| && cmp(key, s[m]) > 0
    ensures forall k :: 0 <= k <= m ==> cmp(key, s[k]) > 0
  {
    forall k | 0 <= k <= m ensures cmp(key, s[k]) > 0 {
      if k < m {
        var x, y := s[k], s[m];
        assert Le(cmp, x, y);
        assert cmp(key, x) <= 0 ==> cmp(key, y) <= 0;
      }
    }
  }
}
