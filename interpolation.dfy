/** Stage 2 of the chapter splitter: completing the sparse visible-to-physical
    page map by linear interpolation between neighbouring anchors. */
module Interpolation {
  import opened Outcomes

  /** Default of `max_interpolation_range`. */
  const MaxInterpolationRange: int := 100

  function Min(a: int, b: int): int { if a <= b then a else b }
  function Max(a: int, b: int): int { if a <= b then b else a }

  lemma MulLe(x: int, y: int, d: int)
    requires x <= y && d >= 0
    ensures x * d <= y * d
  {
    assert y * d - x * d == (y - x) * d;
  }

  lemma Distrib(x: int, d: int)
    ensures (x + 1) * d == x * d + d
  {
  }

  /** Python's `round` (ties to even) applied to the exact rational `n / d`. */
  function RoundHalfEven(n: int, d: int): int
    requires d > 0
  {
    var q, rem := n / d, n % d;
    if 2 * rem < d then q
    else if 2 * rem > d then q + 1
    else if q % 2 == 0 then q
    else q + 1
  }

  /** The rounded value is a nearest integer to `n / d`, and an even one on a tie. */
  lemma RoundNearest(n: int, d: int)
    requires d > 0
    ensures var r := RoundHalfEven(n, d);
      && 2 * (n - r * d) <= d && 2 * (r * d - n) <= d
      && ((2 * (n - r * d) == d || 2 * (r * d - n) == d) ==> r % 2 == 0)
  {
    var q, rem := n / d, n % d;
    assert n == q * d + rem && 0 <= rem < d;
    Distrib(q, d);
  }

  /** Rounding a quotient that lies between two integers stays between them. */
  lemma RoundBetween(n: int, d: int, a: int, b: int)
    requires d > 0 && a * d <= n <= b * d
    ensures a <= RoundHalfEven(n, d) <= b
  {
    RoundNearest(n, d);
    RoundBetweenCore(n, d, a, b, RoundHalfEven(n, d));
  }

  lemma RoundBetweenCore(n: int, d: int, a: int, b: int, r: int)
    requires d > 0 && a * d <= n <= b * d
    requires 2 * (n - r * d) <= d && 2 * (r * d - n) <= d
    ensures a <= r <= b
  {
    if r < a {
      MulLe(r, a - 1, d);
      Distrib(a - 1, d);
      assert false;
    }
    if r > b {
      MulLe(b + 1, r, d);
      Distrib(b, d);
      assert false;
    }
  }

  /** `round(int1 + (int2 - int1) / (vis2 - vis1) * (v - vis1))`, computed exactly. */
  function Interp(vis1: int, int1: int, vis2: int, int2: int, v: int): int
    requires vis1 < vis2
  {
    RoundHalfEven(int1 * (vis2 - vis1) + (int2 - int1) * (v - vis1), vis2 - vis1)
  }

  /** The left anchor of a segment is reproduced exactly. */
  lemma InterpAtAnchor(vis1: int, int1: int, vis2: int, int2: int)
    requires vis1 < vis2
    ensures Interp(vis1, int1, vis2, int2, vis1) == int1
  {
    var d := vis2 - vis1;
    var r := Interp(vis1, int1, vis2, int2, vis1);
    assert r == RoundHalfEven(int1 * d, d);
    RoundBetween(int1 * d, d, int1, int1);
  }

  /** Every interpolated value lies between the two anchors' values. */
  lemma InterpBetween(vis1: int, int1: int, vis2: int, int2: int, v: int)
    requires vis1 < vis2 && vis1 <= v <= vis2
    ensures Min(int1, int2) <= Interp(vis1, int1, vis2, int2, v) <= Max(int1, int2)
  {
    var d, t := vis2 - vis1, v - vis1;
    var n := int1 * d + (int2 - int1) * t;
    if int1 <= int2 {
      NumeratorRising(int1, int2, d, t);
      RoundBetween(n, d, int1, int2);
    } else {
      NumeratorFalling(int1, int2, d, t);
      RoundBetween(n, d, int2, int1);
    }
  }

  /** The numerator of a rising segment lies between its ends, scaled by `d`. */
  lemma NumeratorRising(int1: int, int2: int, d: int, t: int)
    requires int1 <= int2 && 0 <= t <= d
    ensures int1 * d <= int1 * d + (int2 - int1) * t <= int2 * d
  {
    MulLe(0, t, int2 - int1);
    MulLe(t, d, int2 - int1);
    assert int1 * d + (int2 - int1) * d == int2 * d;
  }

  /** The numerator of a falling segment lies between its ends, scaled by `d`. */
  lemma NumeratorFalling(int1: int, int2: int, d: int, t: int)
    requires int2 < int1 && 0 <= t <= d
    ensures int2 * d <= int1 * d + (int2 - int1) * t <= int1 * d
  {
    MulLe(0, t, int1 - int2);
    MulLe(t, d, int1 - int2);
    assert (int2 - int1) * t == -((int1 - int2) * t);
    assert int1 * d - (int1 - int2) * d == int2 * d;
  }

  /** `a` and `b` are keys of `m` with no key in between. */
  ghost predicate Adjacent(m: map<int, int>, a: int, b: int)
  {
    a in m && b in m && a < b && forall c :: c in m ==> !(a < c < b)
  }

  ghost predicate IsMaxKey(m: map<int, int>, k: int)
  {
    k in m && forall c :: c in m ==> c <= k
  }

  /** `v` lies in a segment between adjacent anchors whose gap is within the cap. */
  ghost predicate Covered(m: map<int, int>, cap: int, v: int)
  {
    exists a, b :: Adjacent(m, a, b) && b - a <= cap && a <= v < b
  }

  /** The largest anchor is kept with its own physical page. */
  ghost predicate KeepsLastAnchor(m: map<int, int>, full: map<int, int>)
  {
    forall k :: IsMaxKey(m, k) ==> k in full && full[k] == m[k]
  }

  /** Every visible number in a segment whose gap is at most `cap` is mapped
      to its interpolated value. */
  ghost predicate FillsSegments(m: map<int, int>, cap: int, full: map<int, int>)
  {
    forall a, b, v :: Adjacent(m, a, b) && b - a <= cap && a <= v < b ==>
      v in full && full[v] == Interp(a, m[a], b, m[b], v)
  }

  /** Nothing but the largest anchor and the interpolated segments is mapped. */
  ghost predicate OnlyCovered(m: map<int, int>, cap: int, full: map<int, int>)
  {
    forall v :: v in full ==> IsMaxKey(m, v) || Covered(m, cap, v)
  }

  /** What `interpolate_visible_to_internal_map` returns for a non-empty map
      (so a skipped segment loses its left anchor too). */
  ghost predicate InterpolationOf(m: map<int, int>, cap: int, full: map<int, int>)
  {
    KeepsLastAnchor(m, full) && FillsSegments(m, cap, full) && OnlyCovered(m, cap, full)
  }

  ghost predicate KeysIncreasing(known: seq<(int, int)>)
  {
    forall i, j :: 0 <= i < j < |known| ==> known[i].0 < known[j].0
  }

  /** `known` lists exactly the items of `m`. */
  ghost predicate ItemsOf(m: map<int, int>, known: seq<(int, int)>)
  {
    && (forall i :: 0 <= i < |known| ==> known[i].0 in m && m[known[i].0] == known[i].1)
    && (forall k :: k in m ==> exists i :: 0 <= i < |known| && known[i].0 == k)
  }

  lemma MinKey(s: set<int>) returns (k: int)
    requires s != {}
    ensures k in s && forall y :: y in s ==> k <= y
  {
    if forall x :: x !in s { assert false; }
    var x :| x in s;
    if s == {x} {
      k := x;
    } else {
      var rest := s - {x};
      var k' := MinKey(rest);
      assert forall y :: y in s ==> y == x || y in rest;
      k := if x < k' then x else k';
    }
  }
  lemma MinKeyExists(s: set<int>)
    requires s != {}
    ensures exists k :: k in s && forall y :: y in s ==> k <= y
  {
    var k := MinKey(s);
  }
  /** `sorted(visible_to_internal.items())` (keys are distinct). */
  function SortedItems(m: map<int, int>): (known: seq<(int, int)>)
    ensures KeysIncreasing(known) && ItemsOf(m, known)
    decreases m.Keys
  {
    if m.Keys == {} then []
    else
      MinKeyExists(m.Keys);
      var k :| k in m && forall y :: y in m ==> k <= y;
      var rest := m - {k};
      var tail := SortedItems(rest);
      ConsItems(m, k, tail);
      [(k, m[k])] + tail
  }
  lemma ConsItems(m: map<int, int>, k: int, tail: seq<(int, int)>)
    requires k in m && forall y :: y in m ==> k <= y
    requires KeysIncreasing(tail) && ItemsOf(m - {k}, tail)
    ensures KeysIncreasing([(k, m[k])] + tail) && ItemsOf(m, [(k, m[k])] + tail)
  {
    ConsIncreasing(m, k, tail);
    ConsCovers(m, k, tail);
  }

  lemma ConsIncreasing(m: map<int, int>, k: int, tail: seq<(int, int)>)
    requires k in m && forall y :: y in m ==> k <= y
    requires KeysIncreasing(tail) && forall i :: 0 <= i < |tail| ==> tail[i].0 in m - {k}
    ensures KeysIncreasing([(k, m[k])] + tail)
  {
    var known := [(k, m[k])] + tail;
    forall i, j | 0 <= i < j < |known| ensures known[i].0 < known[j].0 {
      assert known[j] == tail[j - 1];
      if i > 0 {
        assert known[i] == tail[i - 1];
      }
    }
  }

  lemma ConsCovers(m: map<int, int>, k: int, tail: seq<(int, int)>)
    requires k in m && ItemsOf(m - {k}, tail)
    ensures ItemsOf(m, [(k, m[k])] + tail)
  {
    var known := [(k, m[k])] + tail;
    assert forall i :: 1 <= i < |known| ==> known[i] == tail[i - 1];
    forall c | c in m ensures exists i :: 0 <= i < |known| && known[i].0 == c {
      if c != k {
        assert c in m - {k};
        var i :| 0 <= i < |tail| && tail[i].0 == c;
        assert known[i + 1].0 == c;
      } else {
        assert known[0].0 == c;
      }
    }
  }

  /** Segment `j` of `known` is interpolated and covers `w`. */
  ghost predicate Fills(known: seq<(int, int)>, cap: int, j: int, w: int)
  {
    0 <= j < |known| - 1 && known[j + 1].0 - known[j].0 <= cap && known[j].0 <= w < known[j + 1].0
  }

  /** The value segment `j` gives to `w`. */
  function InterpAt(known: seq<(int, int)>, j: int, w: int): int
    requires 0 <= j < |known| - 1 && known[j].0 < known[j + 1].0
  {
    Interp(known[j].0, known[j].1, known[j + 1].0, known[j + 1].1, w)
  }

  /** The inner loop `for v in range(vis1, vis2): full_map[v] = ...`: writes
      the interpolated value of every `v` in `[vis1, vis2)`, leaving every
      other entry alone. */
  method FillSegment(full: map<int, int>, vis1: int, int1: int, vis2: int, int2: int)
    returns (filled: map<int, int>)
    requires vis1 < vis2
    ensures forall w :: w in filled <==> w in full || vis1 <= w < vis2
    ensures forall w :: vis1 <= w < vis2 ==> filled[w] == Interp(vis1, int1, vis2, int2, w)
    ensures forall w :: w in full && !(vis1 <= w < vis2) ==> filled[w] == full[w]
  {
    filled := full;
    var v := vis1;
    while v < vis2
      invariant vis1 <= v <= vis2
      invariant forall w :: w in filled <==> w in full || vis1 <= w < v
      invariant forall w :: vis1 <= w < v ==> filled[w] == Interp(vis1, int1, vis2, int2, w)
      invariant forall w :: w in full && !(vis1 <= w < v) ==> filled[w] == full[w]
    {
      filled := filled[v := Interp(vis1, int1, vis2, int2, v)];
      v := v + 1;
    }
  }

  /** `interpolate_visible_to_internal_map`; an empty map fails on `known[-1]`. */
  method Interpolate(visibleToInternal: map<int, int>, maxRange: int) returns (r: Result<map<int, int>>)
    ensures r.Err? <==> visibleToInternal == map[]
    ensures r.Err? ==> r.error == IndexError("list index out of range")
    ensures r.Ok? ==> InterpolationOf(visibleToInternal, maxRange, r.value)
  {
    var known := SortedItems(visibleToInternal);
    var full: map<int, int> := map[];
    var i := 0;
    while i < |known| - 1
      invariant 0 <= i <= Max(|known| - 1, 0)
      invariant forall w :: w in full <==> FilledBefore(known, maxRange, i, w)
      invariant ValuesBefore(known, maxRange, i, full)
    {
      var (vis1, int1) := known[i];
      var (vis2, int2) := known[i + 1];
      var delta := vis2 - vis1;
      if delta > maxRange {
        AdvanceSegment(known, maxRange, i, full);
        i := i + 1;
        continue;
      }
      FilledBeforeBelow(known, maxRange, i);
      full := FillSegment(full, vis1, int1, vis2, int2);
      AdvanceSegment(known, maxRange, i, full);
      i := i + 1;
    }
    if |known| == 0 {
      assert visibleToInternal == map[] by {
        forall k | k in visibleToInternal ensures false { }
      }
      return Err(IndexError("list index out of range"));
    }
    IndexFactsGiveSpec(visibleToInternal, maxRange, known, full);
    var last := known[|known| - 1];
    full := full[last.0 := last.1];
    r := Ok(full);
  }

  /** Some segment before `i` is interpolated and covers `w`. */
  ghost predicate FilledBefore(known: seq<(int, int)>, cap: int, i: int, w: int)
  {
    exists j :: 0 <= j < i && Fills(known, cap, j, w)
  }

  /** `full` holds the interpolated values of every segment before `i`. */
  ghost predicate ValuesBefore(known: seq<(int, int)>, cap: int, i: int, full: map<int, int>)
    requires KeysIncreasing(known)
  {
    forall j, w :: 0 <= j < i && Fills(known, cap, j, w) ==> w in full && full[w] == InterpAt(known, j, w)
  }

  /** Segments before `i` lie to the left of anchor `i`. */
  lemma FilledBeforeBelow(known: seq<(int, int)>, cap: int, i: int)
    requires KeysIncreasing(known) && 0 <= i < |known|
    ensures forall w :: FilledBefore(known, cap, i, w) ==> w < known[i].0
  {
    forall w | FilledBefore(known, cap, i, w) ensures w < known[i].0 {
      var j :| 0 <= j < i && Fills(known, cap, j, w);
      if j + 1 < i {
        assert known[j + 1].0 < known[i].0;
      }
    }
  }

  /** Finishing segment `i` (filled or skipped) re-establishes the outer loop invariant. */
  lemma AdvanceSegment(known: seq<(int, int)>, cap: int, i: int, full: map<int, int>)
    requires KeysIncreasing(known) && 0 <= i < |known| - 1
    requires forall w :: w in full <==> FilledBefore(known, cap, i, w) || Fills(known, cap, i, w)
    requires ValuesBefore(known, cap, i, full)
    requires forall w :: Fills(known, cap, i, w) ==> w in full && full[w] == InterpAt(known, i, w)
    ensures forall w :: w in full <==> FilledBefore(known, cap, i + 1, w)
    ensures ValuesBefore(known, cap, i + 1, full)
  {
    forall w ensures FilledBefore(known, cap, i + 1, w) <==> FilledBefore(known, cap, i, w) || Fills(known, cap, i, w) {
      if FilledBefore(known, cap, i + 1, w) {
        var j :| 0 <= j < i + 1 && Fills(known, cap, j, w);
        if j < i {
          assert FilledBefore(known, cap, i, w);
        }
      }
      if Fills(known, cap, i, w) {
        assert 0 <= i < i + 1;
      }
    }
  }

  /** Adjacent keys are exactly neighbours in the sorted item list. */
  lemma AdjacentIsNeighbour(m: map<int, int>, known: seq<(int, int)>, a: int, b: int) returns (j: int)
    requires KeysIncreasing(known) && ItemsOf(m, known)
    requires Adjacent(m, a, b)
    ensures 0 <= j < |known| - 1 && known[j].0 == a && known[j + 1].0 == b
  {
    var i :| 0 <= i < |known| && known[i].0 == a;
    var l :| 0 <= l < |known| && known[l].0 == b;
    assert i < l;
    assert known[i + 1].0 in m;
    assert l == i + 1;
    j := i;
  }

  lemma NeighbourIsAdjacent(m: map<int, int>, known: seq<(int, int)>, j: int)
    requires KeysIncreasing(known) && ItemsOf(m, known)
    requires 0 <= j < |known| - 1
    ensures Adjacent(m, known[j].0, known[j + 1].0)
  {
    forall c | c in m ensures !(known[j].0 < c < known[j + 1].0) {
      var l :| 0 <= l < |known| && known[l].0 == c;
    }
  }

  /** The index-based facts the loops establish are the specification. */
  lemma IndexFactsGiveSpec(m: map<int, int>, cap: int, known: seq<(int, int)>, filled: map<int, int>)
    requires KeysIncreasing(known) && ItemsOf(m, known) && |known| > 0
    requires forall w :: w in filled <==> FilledBefore(known, cap, |known| - 1, w)
    requires ValuesBefore(known, cap, |known| - 1, filled)
    ensures var last := known[|known| - 1]; InterpolationOf(m, cap, filled[last.0 := last.1])
  {
    var last := known[|known| - 1];
    FilledBeforeBelow(known, cap, |known| - 1);
    LastIsMaxKey(m, known);
    SegmentsGiveValues(m, cap, known, filled, last);
    NothingElseFilled(m, cap, known, filled, last);
  }

  lemma LastIsMaxKey(m: map<int, int>, known: seq<(int, int)>)
    requires KeysIncreasing(known) && ItemsOf(m, known) && |known| > 0
    ensures IsMaxKey(m, known[|known| - 1].0)
    ensures forall k :: IsMaxKey(m, k) ==> k == known[|known| - 1].0
    ensures KeepsLastAnchor(m, map[known[|known| - 1].0 := known[|known| - 1].1])
  {
    forall c | c in m ensures c <= known[|known| - 1].0 {
      var l :| 0 <= l < |known| && known[l].0 == c;
    }
  }

  lemma SegmentsGiveValues(m: map<int, int>, cap: int, known: seq<(int, int)>, filled: map<int, int>, last: (int, int))
    requires KeysIncreasing(known) && ItemsOf(m, known) && |known| > 0 && last == known[|known| - 1]
    requires ValuesBefore(known, cap, |known| - 1, filled)
    ensures FillsSegments(m, cap, filled[last.0 := last.1])
  {
    forall a, b, v | Adjacent(m, a, b) && b - a <= cap && a <= v < b
      ensures v in filled && filled[v] == Interp(a, m[a], b, m[b], v) && v < last.0
    {
      SegmentValue(m, cap, known, filled, a, b, v);
    }
  }

  /** A point of an interpolated segment got that segment's value, and lies
      left of the last anchor. */
  lemma SegmentValue(m: map<int, int>, cap: int, known: seq<(int, int)>, filled: map<int, int>, a: int, b: int, v: int)
    requires KeysIncreasing(known) && ItemsOf(m, known) && |known| > 0
    requires ValuesBefore(known, cap, |known| - 1, filled)
    requires Adjacent(m, a, b) && b - a <= cap && a <= v < b
    ensures v in filled && filled[v] == Interp(a, m[a], b, m[b], v) && v < known[|known| - 1].0
  {
    var j := AdjacentIsNeighbour(m, known, a, b);
    assert Fills(known, cap, j, v);
    assert known[j].1 == m[a] && known[j + 1].1 == m[b];
    if j + 1 < |known| - 1 {
      assert known[j + 1].0 < known[|known| - 1].0;
    }
  }

  lemma NothingElseFilled(m: map<int, int>, cap: int, known: seq<(int, int)>, filled: map<int, int>, last: (int, int))
    requires KeysIncreasing(known) && ItemsOf(m, known) && |known| > 0 && last == known[|known| - 1]
    requires forall w :: w in filled <==> FilledBefore(known, cap, |known| - 1, w)
    requires IsMaxKey(m, last.0)
    ensures OnlyCovered(m, cap, filled[last.0 := last.1])
  {
    forall v | v in filled ensures Covered(m, cap, v) {
      var j :| 0 <= j < |known| - 1 && Fills(known, cap, j, v);
      NeighbourIsAdjacent(m, known, j);
    }
  }

  /** Two adjacent pairs whose segments share a point are the same pair. */
  lemma AdjacentUnique(m: map<int, int>, a: int, b: int, a2: int, b2: int, v: int)
    requires Adjacent(m, a, b) && a <= v < b
    requires Adjacent(m, a2, b2) && a2 <= v < b2
    ensures a == a2 && b == b2
  {
  }

  /** The segment holding a key that is not the largest anchor. */
  lemma SegmentOf(m: map<int, int>, cap: int, v: int) returns (a: int, b: int)
    requires Covered(m, cap, v)
    ensures Adjacent(m, a, b) && b - a <= cap && a <= v < b
  {
    if forall a', b' :: !(Adjacent(m, a', b') && b' - a' <= cap && a' <= v < b') { assert false; }
    a, b :| Adjacent(m, a, b) && b - a <= cap && a <= v < b;
  }

  /** Two maps meeting the specification agree on every key of the first. */
  lemma AgreeAt(m: map<int, int>, cap: int, f1: map<int, int>, f2: map<int, int>, v: int)
    requires KeepsLastAnchor(m, f2) && FillsSegments(m, cap, f1) && FillsSegments(m, cap, f2)
    requires KeepsLastAnchor(m, f1) && OnlyCovered(m, cap, f1) && v in f1
    ensures v in f2 && f2[v] == f1[v]
  {
    if IsMaxKey(m, v) {
      assert f1[v] == m[v];
    } else {
      var a, b := SegmentOf(m, cap, v);
      FilledValue(m, cap, f1, a, b, v);
      FilledValue(m, cap, f2, a, b, v);
    }
  }

  lemma FilledValue(m: map<int, int>, cap: int, f: map<int, int>, a: int, b: int, v: int)
    requires FillsSegments(m, cap, f)
    requires Adjacent(m, a, b) && b - a <= cap && a <= v < b
    ensures v in f && f[v] == Interp(a, m[a], b, m[b], v)
  {
  }

  /** The specification determines the interpolated map completely. */
  lemma InterpolationUnique(m: map<int, int>, cap: int, f1: map<int, int>, f2: map<int, int>)
    requires InterpolationOf(m, cap, f1) && InterpolationOf(m, cap, f2)
    ensures f1 == f2
  {
    forall v | v in f1 ensures v in f2 && f2[v] == f1[v] {
      AgreeAt(m, cap, f1, f2, v);
    }
    forall v | v in f2 ensures v in f1 {
      AgreeAt(m, cap, f2, f1, v);
    }
  }

  /** A segment wider than the cap contributes no key at all, not even its
      own left anchor. */
  lemma SkippedSegmentUnmapped(m: map<int, int>, cap: int, full: map<int, int>, a: int, b: int, v: int)
    requires OnlyCovered(m, cap, full)
    requires Adjacent(m, a, b) && b - a > cap && a <= v < b
    ensures v !in full
  {
    if v in full && !IsMaxKey(m, v) {
      var a2, b2 := SegmentOf(m, cap, v);
      AdjacentUnique(m, a, b, a2, b2, v);
    }
  }

  /** Every output key lies between the smallest and the largest anchor. */
  lemma KeysWithinAnchors(m: map<int, int>, cap: int, full: map<int, int>, v: int)
    requires OnlyCovered(m, cap, full) && v in full
    ensures exists lo :: lo in m && lo <= v
    ensures forall k :: IsMaxKey(m, k) ==> v <= k
  {
    if !IsMaxKey(m, v) {
      var a, b := SegmentOf(m, cap, v);
      assert a in m && a <= v;
    }
  }

  /** A left anchor of an interpolated segment keeps its physical page. */
  lemma AnchorsPreserved(m: map<int, int>, cap: int, full: map<int, int>, a: int, b: int)
    requires FillsSegments(m, cap, full)
    requires Adjacent(m, a, b) && b - a <= cap
    ensures a in full && full[a] == m[a]
  {
    InterpAtAnchor(a, m[a], b, m[b]);
  }

  /** If all anchors point into `[lo, hi]`, so does every interpolated entry;
      in particular valid page indices stay valid. */
  lemma ValuesWithinRange(m: map<int, int>, cap: int, full: map<int, int>, lo: int, hi: int)
    requires InterpolationOf(m, cap, full)
    requires forall k :: k in m ==> lo <= m[k] <= hi
    ensures forall v :: v in full ==> lo <= full[v] <= hi
  {
    forall v | v in full ensures lo <= full[v] <= hi {
      if !IsMaxKey(m, v) {
        var a, b := SegmentOf(m, cap, v);
        InterpBetween(a, m[a], b, m[b], v);
      }
    }
  }

  /** With a single anchor there is nothing to interpolate. */
  lemma SingleAnchor(k: int, x: int, cap: int, full: map<int, int>)
    requires KeepsLastAnchor(map[k := x], full) && OnlyCovered(map[k := x], cap, full)
    ensures full == map[k := x]
  {
    var m := map[k := x];
    assert IsMaxKey(m, k);
    forall v | v in full ensures v == k {
      if !IsMaxKey(m, v) {
        var a, b := SegmentOf(m, cap, v);
      }
    }
  }

  lemma RoundExact(k: int, d: int)
    requires d > 0
    ensures RoundHalfEven(k * d, d) == k
  {
    RoundBetween(k * d, d, k, k);
  }

  /** Anchors {1: 0, 10: 9} fill in every page in between with step 1. */
  lemma LinearExample(full: map<int, int>)
    requires InterpolationOf(map[1 := 0, 10 := 9], MaxInterpolationRange, full)
    ensures forall v :: v in full <==> 1 <= v <= 10
    ensures forall v :: 1 <= v <= 10 ==> full[v] == v - 1
  {
    LinearFilled(full);
    LinearNothingElse(full);
  }

  lemma LinearFilled(full: map<int, int>)
    requires KeepsLastAnchor(map[1 := 0, 10 := 9], full) && FillsSegments(map[1 := 0, 10 := 9], MaxInterpolationRange, full)
    ensures forall v :: 1 <= v <= 10 ==> v in full && full[v] == v - 1
  {
    var m := map[1 := 0, 10 := 9];
    assert Adjacent(m, 1, 10);
    assert IsMaxKey(m, 10);
    forall v | 1 <= v < 10 ensures v in full && full[v] == v - 1 {
      FilledValue(m, MaxInterpolationRange, full, 1, 10, v);
      LinearStep(v);
    }
  }

  lemma LinearNothingElse(full: map<int, int>)
    requires OnlyCovered(map[1 := 0, 10 := 9], MaxInterpolationRange, full)
    ensures forall v :: v in full ==> 1 <= v <= 10
  {
    var m := map[1 := 0, 10 := 9];
    forall v | v in full ensures 1 <= v <= 10 {
      if !IsMaxKey(m, v) {
        var a, b := SegmentOf(m, MaxInterpolationRange, v);
      }
    }
  }

  lemma LinearStep(v: int)
    requires 1 <= v < 10
    ensures Interp(1, 0, 10, 9, v) == v - 1
  {
    RoundExact(v - 1, 9);
    assert 0 * 9 + (9 - 0) * (v - 1) == (v - 1) * 9;
  }

  /** Anchors {1: 0, 500: 499} are 499 apart, beyond the cap of 100: the
      segment is skipped and only the last anchor survives. */
  lemma WideGapExample(full: map<int, int>)
    requires InterpolationOf(map[1 := 0, 500 := 499], MaxInterpolationRange, full)
    ensures full == map[500 := 499]
  {
    var m := map[1 := 0, 500 := 499];
    assert IsMaxKey(m, 500);
    forall v | v in full ensures v == 500 {
      if !IsMaxKey(m, v) {
        var a, b := SegmentOf(m, MaxInterpolationRange, v);
      }
    }
  }
}
