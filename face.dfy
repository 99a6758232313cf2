/** face.py: greedy suppression of overlapping face boxes, the conversion of
    dlib rectangles to boxes, and the padding/clamping of a kept box before
    it is stored. */
module Face {
  import opened Common

  /** A candidate face `(x, y, w, h)` in pixel coordinates. */
  datatype Box = Box(x: int, y: int, w: int, h: int)
  {
    function X2(): int { x + w }
    function Y2(): int { y + h }
    function Area(): int { w * h }
    /** Detectors report boxes with a positive size. */
    predicate Valid() { w > 0 && h > 0 }
  }

  lemma MulMonotone(a: int, b: int, c: int, d: int)
    requires 0 <= a <= c && 0 <= b <= d
    ensures a * b <= c * d
  {
    assert a * b <= c * b;
    assert c * b <= c * d;
  }

  /** Area of the overlap of two boxes, with negative extents clamped to 0
      (the `np.maximum(0, xx2 - xx1)` of the source). */
  function Intersection(a: Box, b: Box): (r: int)
    ensures r >= 0
    ensures b.Valid() ==> r <= b.Area()
  {
    var iw := Max(0, Min(a.X2(), b.X2()) - Max(a.x, b.x));
    var ih := Max(0, Min(a.Y2(), b.Y2()) - Max(a.y, b.y));
    if b.Valid() then MulMonotone(iw, ih, b.w, b.h); iw * ih else iw * ih
  }

  lemma IntersectionSymmetric(a: Box, b: Box)
    ensures Intersection(a, b) == Intersection(b, a)
  {
  }

  /** The ratio the source compares with the threshold: the overlap divided
      by the area of the OTHER box, not by the union. */
  function Overlap(keep: Box, other: Box): (r: real)
    requires other.Valid()
    ensures 0.0 <= r <= 1.0
  {
    var inter, area := Intersection(keep, other), other.Area();
    assert 0 < area by { MulMonotone(1, 1, other.w, other.h); }
    RatioBounds(inter as real, area as real, area as real);
    inter as real / area as real
  }

  /** `overlap > overlapThresh`: `keep` suppresses `other`. */
  predicate Suppresses(keep: Box, other: Box, thresh: real)
    requires other.Valid()
  {
    Overlap(keep, other) > thresh
  }

  /** No box is suppressed at a threshold of 1 or more, and every box is
      suppressed at a negative threshold. */
  lemma SuppressionThresholds(keep: Box, other: Box, thresh: real)
    requires other.Valid()
    ensures Suppresses(keep, other, thresh) ==> thresh < 1.0
    ensures thresh < 0.0 ==> Suppresses(keep, other, thresh)
  {
  }

  /** A box lying inside a larger box is suppressed by it whatever their
      size ratio (the asymmetry of the ratio), for any threshold below 1. */
  lemma ContainedBoxSuppressed(big: Box, small: Box, thresh: real)
    requires small.Valid() && thresh < 1.0
    requires big.x <= small.x && small.X2() <= big.X2()
    requires big.y <= small.y && small.Y2() <= big.Y2()
    ensures Suppresses(big, small, thresh)
  {
    assert Intersection(big, small) == small.Area();
    assert small.Area() > 0 by { MulMonotone(1, 1, small.w, small.h); }
    assert Overlap(big, small) == 1.0;
  }

  // ---------------------------------------------------------------------
  // Index pools
  // ---------------------------------------------------------------------

  predicate AllValid(boxes: seq<Box>)
  {
    forall i :: 0 <= i < |boxes| ==> boxes[i].Valid()
  }

  predicate InRange(boxes: seq<Box>, idxs: seq<nat>)
  {
    forall k :: 0 <= k < |idxs| ==> idxs[k] < |boxes|
  }

  /** The pool is ordered by bottom edge, lowest first. */
  predicate SortedByY2(boxes: seq<Box>, idxs: seq<nat>)
    requires InRange(boxes, idxs)
  {
    forall i, j :: 0 <= i < j < |idxs| ==> boxes[idxs[i]].Y2() <= boxes[idxs[j]].Y2()
  }

  /** What `np.argsort(y2)` promises: a permutation of the box indices that
      orders them by `y2`. The order among equal `y2` is not fixed by the
      library, so it is left to the caller. */
  predicate IsArgSortByY2(boxes: seq<Box>, order: seq<nat>)
  {
    |order| == |boxes| && InRange(boxes, order) && Distinct(order) && SortedByY2(boxes, order)
  }

  /** One round of deletion: the indices of `rest` whose box `last` does not
      suppress, in their pool order. */
  function Survivors(boxes: seq<Box>, last: nat, rest: seq<nat>, thresh: real): (r: seq<nat>)
    requires AllValid(boxes) && last < |boxes| && InRange(boxes, rest)
    ensures |r| <= |rest|
    ensures InRange(boxes, r)
  {
    if |rest| == 0 then []
    else
      var tail := Survivors(boxes, last, rest[1..], thresh);
      if Suppresses(boxes[last], boxes[rest[0]], thresh) then tail else [rest[0]] + tail
  }

  /** A pool entry survives the round exactly when `last` does not
      suppress it. */
  lemma {:induction false} SurvivorsMembers(boxes: seq<Box>, last: nat, rest: seq<nat>, thresh: real)
    requires AllValid(boxes) && last < |boxes| && InRange(boxes, rest)
    ensures forall j :: j in Survivors(boxes, last, rest, thresh) <==>
      j in rest && !Suppresses(boxes[last], boxes[j], thresh)
  {
    if |rest| > 0 {
      SurvivorsMembers(boxes, last, rest[1..], thresh);
      assert rest == [rest[0]] + rest[1..];
    }
  }

  /** Deleting entries keeps a pool free of duplicates. */
  lemma {:induction false} SurvivorsDistinct(boxes: seq<Box>, last: nat, rest: seq<nat>, thresh: real)
    requires AllValid(boxes) && last < |boxes| && InRange(boxes, rest) && Distinct(rest)
    ensures Distinct(Survivors(boxes, last, rest, thresh))
  {
    if |rest| > 0 {
      assert Distinct(rest[1..]) by {
        forall i, j | 0 <= i < j < |rest| - 1
          ensures rest[1..][i] != rest[1..][j]
        {
          assert rest[1..][i] == rest[i + 1] && rest[1..][j] == rest[j + 1];
        }
      }
      SurvivorsDistinct(boxes, last, rest[1..], thresh);
      SurvivorsMembers(boxes, last, rest[1..], thresh);
      var tail := Survivors(boxes, last, rest[1..], thresh);
      forall k | 0 <= k < |tail|
        ensures tail[k] != rest[0]
      {
        assert tail[k] in rest[1..];
      }
    }
  }

  /** Deleting entries keeps a pool ordered by `y2`. */
  lemma {:induction false} SurvivorsSorted(boxes: seq<Box>, last: nat, rest: seq<nat>, thresh: real)
    requires AllValid(boxes) && last < |boxes| && InRange(boxes, rest) && SortedByY2(boxes, rest)
    ensures SortedByY2(boxes, Survivors(boxes, last, rest, thresh))
  {
    if |rest| > 0 {
      SurvivorsSorted(boxes, last, rest[1..], thresh);
      SurvivorsMembers(boxes, last, rest[1..], thresh);
      var tail := Survivors(boxes, last, rest[1..], thresh);
      forall k | 0 <= k < |tail|
        ensures boxes[rest[0]].Y2() <= boxes[tail[k]].Y2()
      {
        assert tail[k] in rest[1..];
        var m :| 0 <= m < |rest| - 1 && rest[1..][m] == tail[k];
        assert rest[m + 1] == tail[k];
      }
    }
  }

  /** `r` lists entries of `pool` in the pool's own order: two entries of
      `r` stand in the order their positions in `pool` have. */
  predicate KeepsOrderOf(r: seq<nat>, pool: seq<nat>)
  {
    forall x, y, a, b :: 0 <= x < |r| && 0 <= y < |r| && 0 <= a < b < |pool| && r[x] == pool[a] && r[y] == pool[b] ==> x < y
  }

  /** `r` lists entries of `pool` in the reverse of the pool's order. */
  predicate ReversesOrderOf(r: seq<nat>, pool: seq<nat>)
  {
    forall x, y, a, b :: 0 <= x < |r| && 0 <= y < |r| && 0 <= a < b < |pool| && r[x] == pool[a] && r[y] == pool[b] ==> y < x
  }

  /** Dropping the head keeps a sequence free of duplicates. */
  lemma DistinctTail(s: seq<nat>)
    requires Distinct(s) && |s| > 0
    ensures Distinct(s[1..])
    ensures forall k :: 0 <= k < |s| - 1 ==> s[1..][k] != s[0]
  {
    forall i, j | 0 <= i < j < |s| - 1
      ensures s[1..][i] != s[1..][j]
    {
      assert s[1..][i] == s[i + 1] && s[1..][j] == s[j + 1];
    }
  }

  /** One pair of survivors: entries at pool positions `a < b` stand at
      positions `x < y` of the survivors. */
  lemma {:induction false} SurvivorsKeepOrderAt(boxes: seq<Box>, last: nat, rest: seq<nat>, thresh: real,
                                                x: nat, y: nat, a: nat, b: nat)
    requires AllValid(boxes) && last < |boxes| && InRange(boxes, rest) && Distinct(rest)
    requires x < |Survivors(boxes, last, rest, thresh)| && y < |Survivors(boxes, last, rest, thresh)|
    requires a < b < |rest|
    requires Survivors(boxes, last, rest, thresh)[x] == rest[a] && Survivors(boxes, last, rest, thresh)[y] == rest[b]
    ensures x < y
  {
    var rest' := rest[1..];
    DistinctTail(rest);
    SurvivorsMembers(boxes, last, rest', thresh);
    var tail := Survivors(boxes, last, rest', thresh);
    var r := Survivors(boxes, last, rest, thresh);
    assert rest[b] == rest'[b - 1];
    if Suppresses(boxes[last], boxes[rest[0]], thresh) {
      assert r[x] in rest';
      assert a > 0;
      assert rest[a] == rest'[a - 1];
      SurvivorsKeepOrderAt(boxes, last, rest', thresh, x, y, a - 1, b - 1);
    } else {
      assert r == [rest[0]] + tail;
      assert y > 0;
      if x > 0 {
        assert r[x] == tail[x - 1] && tail[x - 1] in rest';
        assert a > 0;
        assert rest[a] == rest'[a - 1];
        SurvivorsKeepOrderAt(boxes, last, rest', thresh, x - 1, y - 1, a - 1, b - 1);
      }
    }
  }

  /** A deletion round keeps the survivors in their pool order (`np.delete`
      keeps the order of what it does not delete). */
  lemma SurvivorsKeepOrder(boxes: seq<Box>, last: nat, rest: seq<nat>, thresh: real)
    requires AllValid(boxes) && last < |boxes| && InRange(boxes, rest) && Distinct(rest)
    ensures KeepsOrderOf(Survivors(boxes, last, rest, thresh), rest)
  {
    var r := Survivors(boxes, last, rest, thresh);
    forall x, y, a, b | 0 <= x < |r| && 0 <= y < |r| && 0 <= a < b < |rest| && r[x] == rest[a] && r[y] == rest[b]
      ensures x < y
    {
      SurvivorsKeepOrderAt(boxes, last, rest, thresh, x, y, a, b);
    }
  }

  /** The indices picked from a pool, in pick order: the last index of the
      pool (largest `y2`) is kept, it and every box it suppresses leave the
      pool, and the rest is processed again. */
  function Picks(boxes: seq<Box>, idxs: seq<nat>, thresh: real): (r: seq<nat>)
    requires AllValid(boxes) && InRange(boxes, idxs)
    decreases |idxs|
  {
    if |idxs| == 0 then []
    else
      var last := idxs[|idxs| - 1];
      [last] + Picks(boxes, Survivors(boxes, last, idxs[..|idxs| - 1], thresh), thresh)
  }

  /** Every pick is an entry of the pool. */
  lemma {:induction false} PicksInPool(boxes: seq<Box>, idxs: seq<nat>, thresh: real)
    requires AllValid(boxes) && InRange(boxes, idxs)
    ensures InRange(boxes, Picks(boxes, idxs, thresh))
    ensures forall k :: 0 <= k < |Picks(boxes, idxs, thresh)| ==> Picks(boxes, idxs, thresh)[k] in idxs
    decreases |idxs|
  {
    if |idxs| > 0 {
      var last := idxs[|idxs| - 1];
      var front := idxs[..|idxs| - 1];
      var pool := Survivors(boxes, last, front, thresh);
      PicksInPool(boxes, pool, thresh);
      SurvivorsMembers(boxes, last, front, thresh);
      var tail := Picks(boxes, pool, thresh);
      forall k | 0 <= k < |tail| ensures tail[k] in idxs {
        assert tail[k] in front;
      }
    }
  }

  /** No index is picked twice, and there are at most as many picks as
      pool entries. */
  lemma {:induction false} PicksDistinct(boxes: seq<Box>, idxs: seq<nat>, thresh: real)
    requires AllValid(boxes) && InRange(boxes, idxs) && Distinct(idxs)
    ensures |Picks(boxes, idxs, thresh)| <= |idxs|
    ensures Distinct(Picks(boxes, idxs, thresh))
    decreases |idxs|
  {
    if |idxs| > 0 {
      var last := idxs[|idxs| - 1];
      var front := idxs[..|idxs| - 1];
      var pool := Survivors(boxes, last, front, thresh);
      SurvivorsDistinct(boxes, last, front, thresh);
      PicksDistinct(boxes, pool, thresh);
      PicksInPool(boxes, pool, thresh);
      SurvivorsMembers(boxes, last, front, thresh);
      var tail := Picks(boxes, pool, thresh);
      assert last !in front;
      forall k | 0 <= k < |tail| ensures tail[k] != last {
        assert tail[k] in front;
      }
    }
  }

  /** Dropping the last entry keeps a sequence free of duplicates. */
  lemma DistinctFront(s: seq<nat>)
    requires Distinct(s) && |s| > 0
    ensures Distinct(s[..|s| - 1])
    ensures s[|s| - 1] !in s[..|s| - 1]
  {
  }

  /** A pick after the first is an entry of the pool left by the first
      round, and differs from the first pick. */
  lemma LaterPickFromPool(boxes: seq<Box>, idxs: seq<nat>, thresh: real, k: nat)
    requires AllValid(boxes) && InRange(boxes, idxs) && Distinct(idxs) && |idxs| > 0
    requires k < |Picks(boxes, Survivors(boxes, idxs[|idxs| - 1], idxs[..|idxs| - 1], thresh), thresh)|
    ensures Picks(boxes, Survivors(boxes, idxs[|idxs| - 1], idxs[..|idxs| - 1], thresh), thresh)[k]
      in Survivors(boxes, idxs[|idxs| - 1], idxs[..|idxs| - 1], thresh)
    ensures Picks(boxes, Survivors(boxes, idxs[|idxs| - 1], idxs[..|idxs| - 1], thresh), thresh)[k] != idxs[|idxs| - 1]
  {
    var last := idxs[|idxs| - 1];
    var front := idxs[..|idxs| - 1];
    var pool := Survivors(boxes, last, front, thresh);
    DistinctFront(idxs);
    SurvivorsMembers(boxes, last, front, thresh);
    PicksInPool(boxes, pool, thresh);
  }

  /** Two later picks, of pool entries at positions `a < b`, stand at
      positions `pa < pb` of the pool the first round leaves. */
  lemma LaterPicksInPoolOrder(boxes: seq<Box>, idxs: seq<nat>, thresh: real, x: nat, y: nat, a: nat, b: nat)
    returns (pa: nat, pb: nat)
    requires AllValid(boxes) && InRange(boxes, idxs) && Distinct(idxs)
    requires 0 < x < |Picks(boxes, idxs, thresh)| && 0 < y < |Picks(boxes, idxs, thresh)|
    requires a < b < |idxs|
    requires Picks(boxes, idxs, thresh)[x] == idxs[a] && Picks(boxes, idxs, thresh)[y] == idxs[b]
    ensures Distinct(Survivors(boxes, idxs[|idxs| - 1], idxs[..|idxs| - 1], thresh))
    ensures pa < pb < |Survivors(boxes, idxs[|idxs| - 1], idxs[..|idxs| - 1], thresh)|
    ensures x - 1 < |Picks(boxes, Survivors(boxes, idxs[|idxs| - 1], idxs[..|idxs| - 1], thresh), thresh)|
    ensures y - 1 < |Picks(boxes, Survivors(boxes, idxs[|idxs| - 1], idxs[..|idxs| - 1], thresh), thresh)|
    ensures Picks(boxes, Survivors(boxes, idxs[|idxs| - 1], idxs[..|idxs| - 1], thresh), thresh)[x - 1]
      == Survivors(boxes, idxs[|idxs| - 1], idxs[..|idxs| - 1], thresh)[pa]
    ensures Picks(boxes, Survivors(boxes, idxs[|idxs| - 1], idxs[..|idxs| - 1], thresh), thresh)[y - 1]
      == Survivors(boxes, idxs[|idxs| - 1], idxs[..|idxs| - 1], thresh)[pb]
  {
    var n := |idxs|;
    var last := idxs[n - 1];
    var front := idxs[..n - 1];
    var pool := Survivors(boxes, last, front, thresh);
    var tail := Picks(boxes, pool, thresh);
    assert Picks(boxes, idxs, thresh) == [last] + tail;
    LaterPickFromPool(boxes, idxs, thresh, x - 1);
    LaterPickFromPool(boxes, idxs, thresh, y - 1);
    assert b < n - 1;
    assert front[a] == idxs[a] && front[b] == idxs[b];
    pa :| 0 <= pa < |pool| && pool[pa] == idxs[a];
    pb :| 0 <= pb < |pool| && pool[pb] == idxs[b];
    DistinctFront(idxs);
    SurvivorsKeepOrderAt(boxes, last, front, thresh, pa, pb, a, b);
    SurvivorsDistinct(boxes, last, front, thresh);
  }

  /** One pair of picks: pool entries at positions `a < b` are picked in
      the order `b` first, then `a`. */
  lemma {:induction false} PicksReverseOrderAt(boxes: seq<Box>, idxs: seq<nat>, thresh: real,
                                               x: nat, y: nat, a: nat, b: nat)
    requires AllValid(boxes) && InRange(boxes, idxs) && Distinct(idxs)
    requires x < |Picks(boxes, idxs, thresh)| && y < |Picks(boxes, idxs, thresh)|
    requires a < b < |idxs|
    requires Picks(boxes, idxs, thresh)[x] == idxs[a] && Picks(boxes, idxs, thresh)[y] == idxs[b]
    ensures y < x
    decreases |idxs|
  {
    var n := |idxs|;
    assert idxs[a] != idxs[b] && idxs[a] != idxs[n - 1];
    assert Picks(boxes, idxs, thresh)[0] == idxs[n - 1];
    if y > 0 {
      var pool := Survivors(boxes, idxs[n - 1], idxs[..n - 1], thresh);
      var pa, pb := LaterPicksInPoolOrder(boxes, idxs, thresh, x, y, a, b);
      PicksReverseOrderAt(boxes, pool, thresh, x - 1, y - 1, pa, pb);
    }
  }

  /** Picks come out in the reverse of the pool order: of two picked
      entries, the later one in the pool is picked first. In particular,
      among boxes of equal `y2` the later index of the argsort order wins. */
  lemma PicksReversePoolOrder(boxes: seq<Box>, idxs: seq<nat>, thresh: real)
    requires AllValid(boxes) && InRange(boxes, idxs) && Distinct(idxs)
    ensures ReversesOrderOf(Picks(boxes, idxs, thresh), idxs)
  {
    var p := Picks(boxes, idxs, thresh);
    forall x, y, a, b | 0 <= x < |p| && 0 <= y < |p| && 0 <= a < b < |idxs| && p[x] == idxs[a] && p[y] == idxs[b]
      ensures y < x
    {
      PicksReverseOrderAt(boxes, idxs, thresh, x, y, a, b);
    }
  }

  /** Bottom edges never increase along the sequence. */
  predicate NonIncreasingY2(boxes: seq<Box>, p: seq<nat>)
    requires InRange(boxes, p)
  {
    forall i, j :: 0 <= i < j < |p| ==> boxes[p[i]].Y2() >= boxes[p[j]].Y2()
  }

  /** In a pool sorted by `y2`, the entry taken (the last one) has the
      largest `y2` of the pool. */
  lemma LastHasLargestY2(boxes: seq<Box>, idxs: seq<nat>)
    requires InRange(boxes, idxs) && SortedByY2(boxes, idxs) && |idxs| > 0
    ensures forall j :: j in idxs ==> boxes[j].Y2() <= boxes[idxs[|idxs| - 1]].Y2()
  {
    forall j | j in idxs ensures boxes[j].Y2() <= boxes[idxs[|idxs| - 1]].Y2() {
      var k :| 0 <= k < |idxs| && idxs[k] == j;
    }
  }

  /** In a pool sorted by `y2`, every later pick has a `y2` no larger than an
      earlier one: the output is in non-increasing `y2` order. */
  lemma {:induction false} PicksNonIncreasingY2(boxes: seq<Box>, idxs: seq<nat>, thresh: real)
    requires AllValid(boxes) && InRange(boxes, idxs) && SortedByY2(boxes, idxs)
    ensures InRange(boxes, Picks(boxes, idxs, thresh))
    ensures NonIncreasingY2(boxes, Picks(boxes, idxs, thresh))
    decreases |idxs|
  {
    PicksInPool(boxes, idxs, thresh);
    if |idxs| > 0 {
      var last := idxs[|idxs| - 1];
      var front := idxs[..|idxs| - 1];
      var pool := Survivors(boxes, last, front, thresh);
      SurvivorsSorted(boxes, last, front, thresh);
      PicksNonIncreasingY2(boxes, pool, thresh);
      LastHasLargestY2(boxes, idxs);
      var tail := Picks(boxes, pool, thresh);
      var p := Picks(boxes, idxs, thresh);
      assert p == [last] + tail;
      forall k | 0 <= k < |p| ensures boxes[p[k]].Y2() <= boxes[last].Y2() {
        assert p[k] in idxs;
      }
    }
  }

  /** No suppressed pair survives: a later pick is never suppressed by an
      earlier one. */
  lemma {:induction false} PicksNotSuppressed(boxes: seq<Box>, idxs: seq<nat>, thresh: real)
    requires AllValid(boxes) && InRange(boxes, idxs)
    ensures InRange(boxes, Picks(boxes, idxs, thresh))
    ensures forall i, j :: 0 <= i < j < |Picks(boxes, idxs, thresh)| ==>
      !Suppresses(boxes[Picks(boxes, idxs, thresh)[i]], boxes[Picks(boxes, idxs, thresh)[j]], thresh)
    decreases |idxs|
  {
    PicksInPool(boxes, idxs, thresh);
    if |idxs| > 0 {
      var last := idxs[|idxs| - 1];
      var front := idxs[..|idxs| - 1];
      var pool := Survivors(boxes, last, front, thresh);
      PicksNotSuppressed(boxes, pool, thresh);
      PicksInPool(boxes, pool, thresh);
      SurvivorsMembers(boxes, last, front, thresh);
      var tail := Picks(boxes, pool, thresh);
      var p := Picks(boxes, idxs, thresh);
      assert p == [last] + tail;
      forall k | 0 <= k < |tail| ensures !Suppresses(boxes[last], boxes[tail[k]], thresh) {
        assert tail[k] in pool;
      }
    }
  }

  /** Every pool entry that is not picked was suppressed by an earlier pick. */
  lemma {:induction false} UnpickedAreSuppressed(boxes: seq<Box>, idxs: seq<nat>, thresh: real)
    requires AllValid(boxes) && InRange(boxes, idxs)
    ensures InRange(boxes, Picks(boxes, idxs, thresh))
    ensures forall j :: j in idxs && j !in Picks(boxes, idxs, thresh) ==>
      exists k :: 0 <= k < |Picks(boxes, idxs, thresh)|
        && Suppresses(boxes[Picks(boxes, idxs, thresh)[k]], boxes[j], thresh)
    decreases |idxs|
  {
    PicksInPool(boxes, idxs, thresh);
    if |idxs| > 0 {
      var last := idxs[|idxs| - 1];
      var front := idxs[..|idxs| - 1];
      var pool := Survivors(boxes, last, front, thresh);
      UnpickedAreSuppressed(boxes, pool, thresh);
      SurvivorsMembers(boxes, last, front, thresh);
      var p := Picks(boxes, idxs, thresh);
      var tail := Picks(boxes, pool, thresh);
      assert p == [last] + tail;
      forall j | j in idxs && j !in p
        ensures exists k :: 0 <= k < |p| && Suppresses(boxes[p[k]], boxes[j], thresh)
      {
        assert j in front by {
          var i :| 0 <= i < |idxs| && idxs[i] == j;
          assert i != |idxs| - 1;
        }
        if j in pool {
          assert j !in tail;
          var k :| 0 <= k < |tail| && Suppresses(boxes[tail[k]], boxes[j], thresh);
          assert p[k + 1] == tail[k];
        } else {
          assert p[0] == last;
        }
      }
    }
  }

  /** Over the whole argsort order, every input box that is not picked was
      suppressed by some pick. */
  lemma EveryBoxUnpickedIsSuppressed(boxes: seq<Box>, order: seq<nat>, thresh: real)
    requires AllValid(boxes) && IsArgSortByY2(boxes, order)
    ensures InRange(boxes, Picks(boxes, order, thresh))
    ensures forall j :: 0 <= j < |boxes| && j !in Picks(boxes, order, thresh) ==>
      exists k :: 0 <= k < |Picks(boxes, order, thresh)| && Suppresses(boxes[Picks(boxes, order, thresh)[k]], boxes[j], thresh)
  {
    InjectiveCovers(order, |boxes|);
    UnpickedAreSuppressed(boxes, order, thresh);
  }

  /** The `while len(idxs) > 0` loop of `non_max_suppression`: `pick`
      collects the taken index of each round, and `idxs` shrinks by the taken
      index and every index it suppresses. */
  method PickLoop(boxes: seq<Box>, order: seq<nat>, thresh: real) returns (pick: seq<nat>)
    requires AllValid(boxes) && InRange(boxes, order)
    ensures pick == Picks(boxes, order, thresh)
  {
    var idxs := order;
    pick := [];
    while |idxs| > 0
      invariant InRange(boxes, idxs)
      invariant pick + Picks(boxes, idxs, thresh) == Picks(boxes, order, thresh)
      decreases |idxs|
    {
      var last := idxs[|idxs| - 1];
      var pool := Survivors(boxes, last, idxs[..|idxs| - 1], thresh);
      assert Picks(boxes, idxs, thresh) == [last] + Picks(boxes, pool, thresh);
      assert pick + [last] + Picks(boxes, pool, thresh) == pick + ([last] + Picks(boxes, pool, thresh));
      pick := pick + [last];
      idxs := pool;
    }
    assert pick + [] == pick;
  }

  /** An empty pool yields no picks and keeps no boxes. */
  lemma NothingPickedFromEmptyPool(boxes: seq<Box>, order: seq<nat>, thresh: real)
    requires AllValid(boxes) && InRange(boxes, order) && |order| == 0
    ensures Picks(boxes, order, thresh) == []
    ensures KeptBoxes(boxes, order, thresh) == []
  {
  }

  /** The picks index the boxes, number at most the boxes, and their boxes
      are the kept ones. */
  lemma PicksGatherToKept(boxes: seq<Box>, order: seq<nat>, thresh: real, pick: seq<nat>)
    requires AllValid(boxes) && IsArgSortByY2(boxes, order)
    requires pick == Picks(boxes, order, thresh)
    ensures InRange(boxes, pick) && |pick| <= |boxes|
    ensures Gather(boxes, pick) == KeptBoxes(boxes, order, thresh)
  {
    PicksDistinct(boxes, order, thresh);
    PicksInPool(boxes, order, thresh);
  }

  /** `boxes[pick]`: the boxes at the given indices, in that order. */
  function Gather(boxes: seq<Box>, idxs: seq<nat>): (r: seq<Box>)
    requires InRange(boxes, idxs)
    ensures |r| == |idxs|
    ensures forall k :: 0 <= k < |idxs| ==> r[k] == boxes[idxs[k]]
  {
    seq(|idxs|, k requires 0 <= k < |idxs| => boxes[idxs[k]])
  }

  /** The boxes greedy suppression keeps: those of the picks, in pick
      order. */
  function KeptBoxes(boxes: seq<Box>, order: seq<nat>, thresh: real): (r: seq<Box>)
    requires AllValid(boxes) && InRange(boxes, order)
    ensures |r| == |Picks(boxes, order, thresh)|
  {
    PicksInPool(boxes, order, thresh);
    Gather(boxes, Picks(boxes, order, thresh))
  }

  /** What the kept boxes promise: at most one per box, each the box of its
      pick, the picks never repeat and run from the largest `y2` down, in
      the reverse of the argsort order (so among equal `y2` the index later
      in `order` is picked first), no kept box suppresses a later one, and
      every box left out is suppressed by a kept one. */
  lemma KeptBoxesProperties(boxes: seq<Box>, order: seq<nat>, thresh: real)
    requires AllValid(boxes) && IsArgSortByY2(boxes, order)
    ensures InRange(boxes, Picks(boxes, order, thresh))
    ensures |KeptBoxes(boxes, order, thresh)| <= |boxes|
    ensures forall k :: 0 <= k < |KeptBoxes(boxes, order, thresh)| ==>
      KeptBoxes(boxes, order, thresh)[k] == boxes[Picks(boxes, order, thresh)[k]]
    ensures Distinct(Picks(boxes, order, thresh))
    ensures NonIncreasingY2(boxes, Picks(boxes, order, thresh))
    ensures ReversesOrderOf(Picks(boxes, order, thresh), order)
    ensures forall i, j :: 0 <= i < j < |KeptBoxes(boxes, order, thresh)| ==>
      !Suppresses(KeptBoxes(boxes, order, thresh)[i], KeptBoxes(boxes, order, thresh)[j], thresh)
    ensures forall j :: 0 <= j < |boxes| && j !in Picks(boxes, order, thresh) ==>
      exists k :: 0 <= k < |KeptBoxes(boxes, order, thresh)| &&
        Suppresses(KeptBoxes(boxes, order, thresh)[k], boxes[j], thresh)
  {
    var p := Picks(boxes, order, thresh);
    var kept := KeptBoxes(boxes, order, thresh);
    PicksDistinct(boxes, order, thresh);
    PicksNonIncreasingY2(boxes, order, thresh);
    PicksReversePoolOrder(boxes, order, thresh);
    PicksNotSuppressed(boxes, order, thresh);
    EveryBoxUnpickedIsSuppressed(boxes, order, thresh);
    forall i, j | 0 <= i < j < |kept|
      ensures !Suppresses(kept[i], kept[j], thresh)
    {
      assert kept[i] == boxes[p[i]] && kept[j] == boxes[p[j]];
    }
    forall j | 0 <= j < |boxes| && j !in p
      ensures exists k :: 0 <= k < |kept| && Suppresses(kept[k], boxes[j], thresh)
    {
      var k :| 0 <= k < |p| && Suppresses(boxes[p[k]], boxes[j], thresh);
      assert kept[k] == boxes[p[k]];
    }
  }

  /** `non_max_suppression(boxes, overlapThresh)`. `order` is the result of
      `np.argsort(y2)`. Returns the kept boxes in pick order, the number kept
      and the number removed. */
  method NonMaxSuppression(boxes: seq<Box>, order: seq<nat>, thresh: real)
    returns (kept: seq<Box>, keptCount: nat, removedCount: nat)
    requires AllValid(boxes) && IsArgSortByY2(boxes, order)
    ensures |boxes| == 0 ==> kept == [] && keptCount == 0 && removedCount == 0
    ensures kept == KeptBoxes(boxes, order, thresh)
    ensures keptCount == |kept| && keptCount + removedCount == |boxes|
  {
    if |boxes| == 0 {
      NothingPickedFromEmptyPool(boxes, order, thresh);
      return [], 0, 0;
    }
    var pick := PickLoop(boxes, order, thresh);
    PicksGatherToKept(boxes, order, thresh, pick);
    kept := Gather(boxes, pick);
    keptCount := |kept|;
    removedCount := |boxes| - keptCount;
  }

  // ---------------------------------------------------------------------
  // Detector output and storage
  // ---------------------------------------------------------------------

  /** A dlib rectangle, given by its edges. */
  datatype Rect = Rect(left: int, top: int, right: int, bottom: int)

  /** `detect_faces_dlib`'s loop: one `(x, y, w, h)` box per rectangle, in
      order, with the same four edges. */
  method DlibBoxes(rects: seq<Rect>) returns (faces: seq<Box>)
    ensures |faces| == |rects|
    ensures forall k :: 0 <= k < |rects| ==>
      faces[k].x == rects[k].left && faces[k].y == rects[k].top
      && faces[k].X2() == rects[k].right && faces[k].Y2() == rects[k].bottom
  {
    faces := [];
    for k := 0 to |rects|
      invariant |faces| == k
      invariant forall i :: 0 <= i < k ==>
        faces[i].x == rects[i].left && faces[i].y == rects[i].top
        && faces[i].X2() == rects[i].right && faces[i].Y2() == rects[i].bottom
    {
      var rect := rects[k];
      var x := rect.left;
      var y := rect.top;
      var w := rect.right - x;
      var h := rect.bottom - y;
      faces := faces + [Box(x, y, w, h)];
    }
  }

  /** The stored bounding box for a kept face in an image of `imgW` x `imgH`
      pixels: grown by 10% of its size on every side (`int(...)` truncates),
      with its top-left corner clamped at 0 and its far edges at the image
      border. */
  function PaddedBox(b: Box, imgW: nat, imgH: nat): (r: Box)
    ensures r.x >= 0 && r.y >= 0
    ensures r.X2() <= imgW && r.Y2() <= imgH
    ensures b.w >= 0 && b.x <= imgW ==> r.w >= 0
    ensures b.h >= 0 && b.y <= imgH ==> r.h >= 0
    ensures r.w <= Trunc(b.w as real * 1.2) && r.h <= Trunc(b.h as real * 1.2)
  {
    var x := Max(0, Trunc(b.x as real - b.w as real * 0.1));
    var y := Max(0, Trunc(b.y as real - b.h as real * 0.1));
    var w := Trunc(b.w as real * (1.0 + 2.0 * 0.1));
    var h := Trunc(b.h as real * (1.0 + 2.0 * 0.1));
    var x2 := Min(x + w, imgW);
    var y2 := Min(y + h, imgH);
    Box(x, y, x2 - x, y2 - y)
  }

  /** A face at least 20 pixels on each side that lies inside the image is
      still covered completely by its padded, clamped box. */
  lemma PaddedBoxCovers(b: Box, imgW: nat, imgH: nat)
    requires b.w >= 20 && b.h >= 20
    requires 0 <= b.x && b.X2() <= imgW && 0 <= b.y && b.Y2() <= imgH
    ensures var r := PaddedBox(b, imgW, imgH);
      r.x <= b.x && b.X2() <= r.X2() && r.y <= b.y && b.Y2() <= r.Y2()
  {
    var left := Trunc(b.x as real - b.w as real * 0.1);
    var top := Trunc(b.y as real - b.h as real * 0.1);
    assert left as real > b.x as real - b.w as real * 0.1 - 1.0;
    assert top as real > b.y as real - b.h as real * 0.1 - 1.0;
  }
}
