/**
 * Byte strings as the tree sees them: the byte type, Go's `bytes.Compare`
 * (lexicographic order), and small facts about finite sets of small
 * integers that the node invariants count with.
 */
module Bytes {

  /** A Go `byte`: an unsigned 8-bit value. */
  type byte = b: int | 0 <= b < 256

  datatype Option<T> = None | Some(value: T)

  /** Go's `bytes.Compare(a, b)`: -1, 0 or 1 by lexicographic order. */
  function Compare(a: seq<byte>, b: seq<byte>): (r: int)
    ensures -1 <= r <= 1
    ensures r == 0 <==> a == b
  {
    if a == [] && b == [] then 0
    else if a == [] then -1
    else if b == [] then 1
    else if a[0] < b[0] then -1
    else if a[0] > b[0] then 1
    else
      var r := Compare(a[1..], b[1..]);
      assert r == 0 ==> a == [a[0]] + a[1..] == [b[0]] + b[1..] == b;
      r
  }

  /** `a` sorts before or equal to `b` under `bytes.Compare`. */
  predicate LexLe(a: seq<byte>, b: seq<byte>) {
    Compare(a, b) <= 0
  }

  /** Two keys that agree below position `d` and differ at `d` compare as their bytes at `d`. */
  lemma {:induction false} CompareAtFirstDifference(a: seq<byte>, b: seq<byte>, d: nat)
    requires d < |a| && d < |b|
    requires a[..d] == b[..d]
    requires a[d] < b[d]
    ensures Compare(a, b) == -1
  {
    if d > 0 {
      assert a[0] == a[..d][0] == b[..d][0] == b[0];
      assert a[1..][..d - 1] == a[1..d] == a[..d][1..] == b[..d][1..] == b[1..d] == b[1..][..d - 1];
      CompareAtFirstDifference(a[1..], b[1..], d - 1);
    }
  }

  /** `bytes.Compare` reverses when its arguments are swapped. */
  lemma {:induction false} CompareAntisymmetric(a: seq<byte>, b: seq<byte>)
    ensures Compare(b, a) == -Compare(a, b)
  {
    if a != [] && b != [] && a[0] == b[0] {
      CompareAntisymmetric(a[1..], b[1..]);
    }
  }

  /** The least member of `s` in `lo <= i < hi`, or `hi` when there is none. */
  function FirstIn(s: set<int>, lo: int, hi: int): (r: int)
    requires lo <= hi
    ensures lo <= r <= hi
    ensures r < hi ==> r in s
    ensures forall j :: lo <= j < r ==> j !in s
    decreases hi - lo
  {
    if lo == hi then hi
    else if lo in s then lo
    else FirstIn(s, lo + 1, hi)
  }

  /** The greatest member of `s` in `lo <= i < hi`, or `lo - 1` when there is none. */
  function LastIn(s: set<int>, lo: int, hi: int): (r: int)
    requires lo <= hi
    ensures lo - 1 <= r < hi
    ensures lo <= r ==> r in s
    ensures forall j :: r < j < hi ==> j !in s
    decreases hi - lo
  {
    if lo == hi then lo - 1
    else if hi - 1 in s then hi - 1
    else LastIn(s, lo, hi - 1)
  }

  /** The integers `0 <= i < n`. */
  function Range(n: nat): (r: set<int>)
    ensures forall i :: i in r <==> 0 <= i < n
    ensures |r| == n
  {
    if n == 0 then {} else
      var r := Range(n - 1);
      assert n - 1 !in r;
      r + {n - 1}
  }

  /** A set drawn from `0 <= i < n` has at most `n` members. */
  lemma {:induction false} BoundedCard(s: set<int>, n: nat)
    requires forall i :: i in s ==> 0 <= i < n
    ensures |s| <= n
  {
    assert s <= Range(n);
    SubsetCard(s, Range(n));
  }

  /** A set drawn from `0 <= i < n` with fewer than `n` members misses one of them. */
  lemma {:induction false} FreeIndex(s: set<int>, n: nat) returns (k: int)
    requires forall i :: i in s ==> 0 <= i < n
    requires |s| < n
    ensures 0 <= k < n && k !in s
  {
    k := FirstIn(Range(n) - s, 0, n);
    if k == n {
      forall j | j in Range(n) ensures j in s {
        assert j !in Range(n) - s;
      }
      SubsetCard(Range(n), s);
      assert false;
    }
  }

  lemma {:induction false} SubsetCard<X>(a: set<X>, b: set<X>)
    requires a <= b
    ensures |a| <= |b|
  {
    assert b == a + (b - a);
    assert a * (b - a) == {};
  }
}
