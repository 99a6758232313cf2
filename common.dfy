/** Small shared vocabulary: optional values, error results, and Python's
    truncating `int(...)` conversion of a float. */
module Common {

  datatype Option<+T> = None | Some(value: T)

  datatype Result<+R, +E> = Success(value: R) | Failure(error: E)

  /** A point with real coordinates, as the landmark model and the frame
      geometry use them. */
  datatype Point = Point(x: real, y: real)

  function Min(a: int, b: int): int { if a <= b then a else b }

  function Max(a: int, b: int): int { if a >= b then a else b }

  /** Python's `int(r)` on a float: rounds toward zero, so it is the floor for
      non-negative values and the ceiling for negative ones. */
  function Trunc(r: real): (n: int)
    ensures r >= 0.0 ==> n as real <= r < n as real + 1.0
    ensures r < 0.0 ==> n as real - 1.0 < r <= n as real
  {
    if r >= 0.0 then r.Floor else -((-r).Floor)
  }

  /** For a negative value that is not a whole number, truncation lands one
      above the floor: `int(-0.5) == 0` where `floor(-0.5) == -1`. */
  lemma TruncAboveFloorForNegatives(r: real)
    requires r < 0.0 && r.Floor as real != r
    ensures Trunc(r) == r.Floor + 1
  {
  }

  /** Scaling by a factor between 0 and 1 lands between 0 and the value
      scaled. */
  lemma ScaleWithin(x: real, w: real)
    requires 0.0 <= x <= 1.0 && w >= 0.0
    ensures 0.0 <= x * w <= w
  {
    assert w - x * w == (1.0 - x) * w;
  }

  /** A ratio with a positive divisor: ordered like its numerators, zero
      exactly with a zero numerator, and one exactly when the numerator
      equals the divisor. */
  lemma RatioBounds(a: real, b: real, d: real)
    requires 0.0 <= a <= b && d > 0.0
    ensures 0.0 <= a / d <= b / d
    ensures a / d == 0.0 <==> a == 0.0
    ensures a / d == 1.0 <==> a == d
  {
    assert (b - a) / d >= 0.0;
    assert b / d - a / d == (b - a) / d;
  }

  /** No duplicates in a sequence. */
  predicate Distinct<T(==)>(s: seq<T>)
  {
    forall i, j :: 0 <= i < j < |s| ==> s[i] != s[j]
  }

  /** The values a sequence holds. */
  function Elems(s: seq<nat>): set<nat>
  {
    set x | x in s
  }

  lemma {:induction false} DistinctElems(s: seq<nat>)
    requires Distinct(s)
    ensures |Elems(s)| == |s|
  {
    if |s| > 0 {
      DistinctElems(s[1..]);
      assert Elems(s) == {s[0]} + Elems(s[1..]);
      assert s[0] !in Elems(s[1..]);
    }
  }

  /** The values below `n`. */
  function Below(n: nat): (r: set<nat>)
    ensures forall x: nat :: x in r <==> x < n
    ensures |r| == n
  {
    if n == 0 then {} else Below(n - 1) + {n - 1}
  }

  lemma SubsetSize(a: set<nat>, b: set<nat>)
    requires a <= b
    ensures |a| <= |b|
    decreases b
  {
    if a != {} {
      var x :| x in a;
      SubsetSize(a - {x}, b - {x});
    }
  }

  /** Pigeonhole: `n` distinct values below `n` are all of them. */
  lemma InjectiveCovers(s: seq<nat>, n: nat)
    requires |s| == n && Distinct(s)
    requires forall k :: 0 <= k < |s| ==> s[k] < n
    ensures forall j :: 0 <= j < n ==> j in s
  {
    DistinctElems(s);
    forall j | 0 <= j < n ensures j in s {
      if j !in s {
        SubsetSize(Elems(s), Below(n) - {j});
        assert false;
      }
    }
  }
}
