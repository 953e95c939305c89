/** Definitions that several modules share. */
module Common {
  /** A value that may be missing. */
  datatype Option<+T> = None | Some(value: T)

  type Byte = x: nat | x < 256
  type U32 = x: nat | x < 0x1_0000_0000

  /** A thread identifier. */
  type Tid = nat

  function Min(a: int, b: int): int {
    if a < b then a else b
  }

  function Max(a: int, b: int): int {
    if a < b then b else a
  }

  function Abs(x: int): nat {
    if x < 0 then -x else x
  }

  function Pow2(n: nat): (p: nat)
    ensures p > 0
  {
    if n == 0 then 1 else 2 * Pow2(n - 1)
  }

  /** The range of a 32-bit int. */
  predicate InInt(v: int) {
    -0x8000_0000 <= v < 0x8000_0000
  }

  ghost predicate NoDup<T>(q: seq<T>) {
    forall i, j :: 0 <= i < j < |q| ==> q[i] != q[j]
  }

  lemma TailNoDup<T>(q: seq<T>)
    requires NoDup(q) && q != []
    ensures NoDup(q[1..])
    ensures forall u :: u in q[1..] <==> u in q && u != q[0]
  {
    assert q == [q[0]] + q[1..];
  }

  function ToSet<T(==)>(q: seq<T>): set<T> {
    set x | x in q
  }

  lemma {:induction false} NoDupSize<T>(q: seq<T>)
    requires NoDup(q)
    ensures |ToSet(q)| == |q|
    decreases |q|
  {
    if q != [] {
      var r := q[..|q| - 1];
      NoDupSize(r);
      assert ToSet(q) == ToSet(r) + {q[|q| - 1]};
      assert q[|q| - 1] !in r;
    }
  }

  lemma SubsetSize<T>(a: set<T>, b: set<T>)
    requires a <= b
    ensures |a| <= |b| && (|a| == |b| ==> a == b)
  {
    var c := b - a;
    assert b == a + c;
  }

  lemma MulLe(a: nat, b: nat, c: nat)
    requires a <= b
    ensures a * c <= b * c
  {
  }

  /** The only way to write k as i * n + r. */
  lemma DivUnique(k: nat, i: nat, n: nat, r: nat)
    requires r < n && k == i * n + r
    ensures k / n == i && k % n == r
  {
    var j := k / n;
    assert k == j * n + k % n;
    if j < i {
      MulLe(j + 1, i, n);
    } else if i < j {
      MulLe(i + 1, j, n);
    }
  }

  lemma Cancel<T>(x: multiset<T>, y: multiset<T>, z: multiset<T>)
    requires x + z == y + z
    ensures x == y
  {
    assert x == (x + z) - z;
    assert y == (y + z) - z;
  }
}
