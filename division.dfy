/**
 * Division points (`Cutter.find_division_point_x/y/z`): each weight pair
 * [n, m] becomes one plane point whose coordinate along the cut axis is
 * (n*lo + m*hi) / (n+m) and whose other two coordinates are copied from
 * the arguments.  With the pairs of `find_pairs_summing_to(C+1)` the net
 * effect is the C evenly spaced interior points of [lo, hi].
 */
module Division {
  import opened Geometry
  import opened Pairs

  /** Python raises ZeroDivisionError on a pair whose weights sum to zero. */
  predicate Divisible(pairs: seq<Pair>)
  {
    forall k :: 0 <= k < |pairs| ==> pairs[k].n + pairs[k].m != 0
  }

  /** The weighted coordinate (n*lo + m*hi) / (n+m) of one pair. */
  function Weighted(p: Pair, lo: real, hi: real): real
    requires p.n + p.m != 0
  {
    (p.n as real * lo + p.m as real * hi) / (p.n + p.m) as real
  }

  /** The weighted coordinates of all pairs, in the pairs' order. */
  function Coords(pairs: seq<Pair>, lo: real, hi: real): (r: seq<real>)
    requires Divisible(pairs)
    ensures |r| == |pairs|
  {
    seq(|pairs|, k requires 0 <= k < |pairs| => Weighted(pairs[k], lo, hi))
  }

  /** The k-th of the `count` interior points dividing [lo, hi] into
      count+1 equal segments. */
  function Position(lo: real, hi: real, count: int, k: int): real
    requires count >= 0
  {
    lo + (hi - lo) * k as real / (count + 1) as real
  }

  /** Positions k = first .. last for a division into count+1 segments. */
  function Span(lo: real, hi: real, count: int, first: int, last: int): seq<real>
    requires count >= 0
    decreases last - first
  {
    if first > last then [] else [Position(lo, hi, count, first)] + Span(lo, hi, count, first + 1, last)
  }

  /** The reference plane positions: the `count` interior points dividing
      [lo, hi] into count+1 equal segments, in increasing k. */
  function EvenPositions(lo: real, hi: real, count: int): seq<real>
  {
    if count <= 0 then [] else Span(lo, hi, count, 1, count)
  }

  // ---------------------------------------------------------------------
  // The three loops of the source.

  /** `find_division_point_x`: one point (x, y, z) per pair, x interpolated. */
  method FindDivisionPointX(x1: real, x2: real, y: real, z: real, pairs: seq<Pair>)
    returns (points: Option<seq<Vec3>>)
    ensures points.Some? <==> Divisible(pairs)
    ensures points.Some? ==> |points.value| == |pairs|
    ensures points.Some? ==> Along(points.value, X) == Coords(pairs, x1, x2)
    ensures points.Some? ==> forall p :: p in points.value ==> p.y == y && p.z == z
  {
    var acc: seq<Vec3> := [];
    var k := 0;
    while k < |pairs|
      invariant 0 <= k <= |pairs|
      invariant forall j :: 0 <= j < k ==> pairs[j].n + pairs[j].m != 0
      invariant |acc| == k
      invariant forall j :: 0 <= j < k ==> acc[j] == Vec3(Weighted(pairs[j], x1, x2), y, z)
    {
      var n, m := pairs[k].n, pairs[k].m;
      if m + n == 0 {
        return None;
      }
      var x := (n as real * x1 + m as real * x2) / (m + n) as real;
      acc := acc + [Vec3(x, y, z)];
      k := k + 1;
    }
    return Some(acc);
  }

  /** `find_division_point_y`: one point (x, y, z) per pair, y interpolated. */
  method FindDivisionPointY(x: real, y1: real, y2: real, z: real, pairs: seq<Pair>)
    returns (points: Option<seq<Vec3>>)
    ensures points.Some? <==> Divisible(pairs)
    ensures points.Some? ==> |points.value| == |pairs|
    ensures points.Some? ==> Along(points.value, Y) == Coords(pairs, y1, y2)
    ensures points.Some? ==> forall p :: p in points.value ==> p.x == x && p.z == z
  {
    var acc: seq<Vec3> := [];
    var k := 0;
    while k < |pairs|
      invariant 0 <= k <= |pairs|
      invariant forall j :: 0 <= j < k ==> pairs[j].n + pairs[j].m != 0
      invariant |acc| == k
      invariant forall j :: 0 <= j < k ==> acc[j] == Vec3(x, Weighted(pairs[j], y1, y2), z)
    {
      var n, m := pairs[k].n, pairs[k].m;
      if m + n == 0 {
        return None;
      }
      var y := (n as real * y1 + m as real * y2) / (m + n) as real;
      acc := acc + [Vec3(x, y, z)];
      k := k + 1;
    }
    return Some(acc);
  }

  /** `find_division_point_z`: one point (x, y, z) per pair, z interpolated. */
  method FindDivisionPointZ(x: real, y: real, z1: real, z2: real, pairs: seq<Pair>)
    returns (points: Option<seq<Vec3>>)
    ensures points.Some? <==> Divisible(pairs)
    ensures points.Some? ==> |points.value| == |pairs|
    ensures points.Some? ==> Along(points.value, Z) == Coords(pairs, z1, z2)
    ensures points.Some? ==> forall p :: p in points.value ==> p.x == x && p.y == y
  {
    var acc: seq<Vec3> := [];
    var k := 0;
    while k < |pairs|
      invariant 0 <= k <= |pairs|
      invariant forall j :: 0 <= j < k ==> pairs[j].n + pairs[j].m != 0
      invariant |acc| == k
      invariant forall j :: 0 <= j < k ==> acc[j] == Vec3(x, y, Weighted(pairs[j], z1, z2))
    {
      var n, m := pairs[k].n, pairs[k].m;
      if m + n == 0 {
        return None;
      }
      var z := (n as real * z1 + m as real * z2) / (m + n) as real;
      acc := acc + [Vec3(x, y, z)];
      k := k + 1;
    }
    return Some(acc);
  }

  // ---------------------------------------------------------------------
  // Where one weighted coordinate lies.

  /** The weighted formula is the point m/(n+m) of the way from lo to hi. */
  lemma WeightedIsPosition(p: Pair, lo: real, hi: real)
    requires p.n + p.m > 0
    ensures Weighted(p, lo, hi) == Position(lo, hi, p.n + p.m - 1, p.m)
  {
    var s := (p.n + p.m) as real;
    var n, m := p.n as real, p.m as real;
    assert n * lo + m * hi == s * lo + m * (hi - lo);
    assert (s * lo + m * (hi - lo)) / s == lo + m * (hi - lo) / s;
    assert m * (hi - lo) == (hi - lo) * m;
  }

  /** The sign of a product of two non-negative reals. */
  lemma ProductSign(a: real, b: real)
    requires a >= 0.0 && b >= 0.0
    ensures a * b >= 0.0
    ensures a > 0.0 && b > 0.0 ==> a * b > 0.0
  {
  }

  /** Multiplying by a positive real keeps the sign. */
  lemma SignThroughPositive(x: real, s: real)
    requires s > 0.0
    ensures x * s >= 0.0 ==> x >= 0.0
    ensures x * s > 0.0 ==> x > 0.0
  {
    if x < 0.0 {
      ProductSign(-x, s);
      assert x * s == -((-x) * s);
    }
  }

  /** (n*lo + m*hi)/(n+m) over plain reals: in [lo, hi] for non-negative
      weights, strictly inside for positive weights and lo < hi. */
  lemma InterpolateBetween(lo: real, hi: real, n: real, m: real)
    requires n >= 0.0 && m >= 0.0 && n + m > 0.0 && lo <= hi
    ensures lo <= (n * lo + m * hi) / (n + m) <= hi
    ensures n > 0.0 && m > 0.0 && lo < hi ==> lo < (n * lo + m * hi) / (n + m) < hi
  {
    var s, d := n + m, hi - lo;
    var w := (n * lo + m * hi) / s;
    var above, below := w - lo, hi - w;
    assert w * s == n * lo + m * hi;
    assert above * s == m * d;
    assert below * s == n * d;
    ProductSign(m, d);
    ProductSign(n, d);
    SignThroughPositive(above, s);
    SignThroughPositive(below, s);
  }

  /** With non-negative weights the weighted coordinate stays in [lo, hi];
      with positive weights and lo < hi it lies strictly inside. */
  lemma WeightedBetween(p: Pair, lo: real, hi: real)
    requires p.n >= 0 && p.m >= 0 && p.n + p.m > 0 && lo <= hi
    ensures lo <= Weighted(p, lo, hi) <= hi
    ensures p.n > 0 && p.m > 0 && lo < hi ==> lo < Weighted(p, lo, hi) < hi
  {
    var n, m := p.n as real, p.m as real;
    assert (p.n + p.m) as real == n + m;
    InterpolateBetween(lo, hi, n, m);
  }

  // ---------------------------------------------------------------------
  // The reference positions.

  /** Span lists its positions in order of k. */
  lemma {:induction false} SpanAt(lo: real, hi: real, t: int, first: int, last: int)
    requires t > 0
    ensures |Span(lo, hi, t, first, last)| == if first > last then 0 else last - first + 1
    ensures forall k :: 0 <= k <= last - first ==>
              Span(lo, hi, t, first, last)[k] == Position(lo, hi, t, first + k)
    decreases last - first
  {
    if first <= last {
      SpanAt(lo, hi, t, first + 1, last);
    }
  }

  /** A non-empty span is the shorter span followed by its last position. */
  lemma SpanSnoc(lo: real, hi: real, t: int, first: int, last: int)
    requires t > 0 && first <= last
    ensures Span(lo, hi, t, first, last) == Span(lo, hi, t, first, last - 1) + [Position(lo, hi, t, last)]
  {
    SpanAt(lo, hi, t, first, last);
    SpanAt(lo, hi, t, first, last - 1);
  }

  /** There are `count` reference positions (none for count <= 0), the k-th
      being position k+1, lo + (hi-lo)*(k+1)/(count+1). */
  lemma EvenPositionsAt(lo: real, hi: real, count: int)
    ensures |EvenPositions(lo, hi, count)| == if count <= 0 then 0 else count
    ensures forall k :: 0 <= k < |EvenPositions(lo, hi, count)| ==>
              EvenPositions(lo, hi, count)[k] == Position(lo, hi, count, k + 1)
  {
    if count > 0 {
      SpanAt(lo, hi, count, 1, count);
    }
  }

  /** The reference positions are exactly positions 1 .. count. */
  lemma EvenPositionsMembers(lo: real, hi: real, count: int, v: real)
    ensures v in EvenPositions(lo, hi, count) <==>
              exists k :: 1 <= k <= count && v == Position(lo, hi, count, k)
  {
    EvenPositionsAt(lo, hi, count);
    var e := EvenPositions(lo, hi, count);
    if v in e {
      var i :| 0 <= i < |e| && e[i] == v;
      assert 1 <= i + 1 <= count && v == Position(lo, hi, count, i + 1);
    }
    if exists k :: 1 <= k <= count && v == Position(lo, hi, count, k) {
      var k :| 1 <= k <= count && v == Position(lo, hi, count, k);
      assert e[k - 1] == v;
    }
  }

  // ---------------------------------------------------------------------
  // The enumerated pairs land on the reference positions.

  lemma CoordsAppend(p: seq<Pair>, q: seq<Pair>, lo: real, hi: real)
    requires Divisible(p) && Divisible(q)
    ensures Divisible(p + q)
    ensures Coords(p + q, lo, hi) == Coords(p, lo, hi) + Coords(q, lo, hi)
  {
    assert forall k :: 0 <= k < |p + q| ==> (p + q)[k] == if k < |p| then p[k] else q[k - |p|];
  }

  /** The weighted coordinates of the pairs outer iteration i appends are
      positions i and t-i of the division into t segments. */
  lemma BlockCoords(t: int, i: int, lo: real, hi: real)
    requires 1 <= i && 2 * i <= t
    ensures Divisible(Block(t, i))
    ensures Coords(Block(t, i), lo, hi) ==
              if 2 * i == t then [Position(lo, hi, t - 1, i)]
              else [Position(lo, hi, t - 1, t - i), Position(lo, hi, t - 1, i)]
  {
    WeightedIsPosition(Pair(i, t - i), lo, hi);
    WeightedIsPosition(Pair(t - i, i), lo, hi);
  }

  /** One outer iteration on the enumeration side. */
  lemma FromStepCoords(t: int, i: int, lo: real, hi: real)
    requires 1 <= i && 2 * i <= t
    requires Divisible(From(t, i + 1))
    ensures Divisible(Block(t, i)) && Divisible(From(t, i))
    ensures multiset(Coords(From(t, i), lo, hi)) ==
              multiset(Coords(Block(t, i), lo, hi)) + multiset(Coords(From(t, i + 1), lo, hi))
  {
    BlockCoords(t, i, lo, hi);
    assert From(t, i) == Block(t, i) + From(t, i + 1);
    CoordsAppend(Block(t, i), From(t, i + 1), lo, hi);
  }

  /** The same step on the reference side: positions i .. t-i are those of
      iteration i plus positions i+1 .. t-i-1. */
  lemma SpanStepCoords(t: int, i: int, lo: real, hi: real)
    requires 1 <= i && 2 * i <= t
    ensures Divisible(Block(t, i))
    ensures multiset(Span(lo, hi, t - 1, i, t - i)) ==
              multiset(Coords(Block(t, i), lo, hi)) + multiset(Span(lo, hi, t - 1, i + 1, t - i - 1))
  {
    BlockCoords(t, i, lo, hi);
    var inner := Span(lo, hi, t - 1, i + 1, t - i - 1);
    var first, last := Position(lo, hi, t - 1, i), Position(lo, hi, t - 1, t - i);
    if 2 * i == t {
      assert Span(lo, hi, t - 1, i + 1, t - i) == [] == inner;
      assert Span(lo, hi, t - 1, i, t - i) == [first];
    } else {
      SpanSnoc(lo, hi, t - 1, i + 1, t - i);
      assert Span(lo, hi, t - 1, i, t - i) == [first] + (inner + [last]);
      assert multiset([first] + (inner + [last])) == multiset([last, first]) + multiset(inner);
    }
  }

  /** Iterations i .. t-1 of the enumeration give, weighted, the positions
      i .. t-i of the division of [lo, hi] into t segments, in some order. */
  lemma {:induction false} FromCoords(t: int, i: int, lo: real, hi: real)
    requires 1 <= i && t >= 1
    ensures Divisible(From(t, i))
    ensures multiset(Coords(From(t, i), lo, hi)) == multiset(Span(lo, hi, t - 1, i, t - i))
    decreases t - i
  {
    FromLength(t, i);
    if 2 * i <= t {
      FromCoords(t, i + 1, lo, hi);
      FromStepCoords(t, i, lo, hi);
      SpanStepCoords(t, i, lo, hi);
    }
  }

  /** The property the cut planes rest on: feeding `count + 1` into the pair
      enumeration and weighting [lo, hi] by the pairs yields the `count`
      evenly spaced interior positions of [lo, hi], each exactly once. */
  lemma CutCountPositions(count: int, lo: real, hi: real)
    ensures Divisible(PairsSummingTo(count + 1))
    ensures multiset(Coords(PairsSummingTo(count + 1), lo, hi)) == multiset(EvenPositions(lo, hi, count))
  {
    if count <= 0 {
      FromLength(count + 1, 1);
      assert PairsSummingTo(count + 1) == [];
    } else {
      FromCoords(count + 1, 1, lo, hi);
    }
  }


  /** The plane coordinates along one axis for a scene cut count: the
      enumeration of pairs summing to count+1, weighted over [lo, hi]. */
  function AxisPositions(count: int, lo: real, hi: real): seq<real>
  {
    CutCountPositions(count, lo, hi);
    Coords(PairsSummingTo(count + 1), lo, hi)
  }

  /** Two sequences with the same multiset have the same length and members. */
  lemma SameMultiset(c: seq<real>, e: seq<real>, v: real)
    requires multiset(c) == multiset(e)
    ensures |c| == |e|
    ensures v in c <==> v in e
  {
    assert |c| == |multiset(c)| == |multiset(e)| == |e|;
    assert v in c <==> v in multiset(c);
    assert v in e <==> v in multiset(e);
  }

  /** A scene count yields max(count, 0) plane coordinates. */
  lemma AxisPositionsCount(count: int, lo: real, hi: real)
    ensures |AxisPositions(count, lo, hi)| == if count <= 0 then 0 else count
  {
    CutCountPositions(count, lo, hi);
    EvenPositionsAt(lo, hi, count);
    SameMultiset(AxisPositions(count, lo, hi), EvenPositions(lo, hi, count), lo);
  }

  /** As a set, the plane coordinates are exactly lo + (hi-lo)*k/(count+1)
      for k = 1 .. count; there are max(count, 0) of them. */
  lemma AxisPositionsMembers(count: int, lo: real, hi: real, v: real)
    ensures |AxisPositions(count, lo, hi)| == if count <= 0 then 0 else count
    ensures v in AxisPositions(count, lo, hi) <==>
              exists k :: 1 <= k <= count && v == Position(lo, hi, count, k)
  {
    AxisPositionsCount(count, lo, hi);
    CutCountPositions(count, lo, hi);
    SameMultiset(AxisPositions(count, lo, hi), EvenPositions(lo, hi, count), v);
    EvenPositionsMembers(lo, hi, count, v);
  }

  /** Three cuts over [0, 10] in the order the source produces them: the
      point nearest the maximum first, then the one nearest the minimum,
      then the middle one. */
  lemma AxisPositionsExample()
    ensures AxisPositions(3, 0.0, 10.0) == [7.5, 2.5, 5.0]
  {
    assert PairsSummingTo(4) == [Pair(1, 3), Pair(3, 1), Pair(2, 2)] by {
      assert From(4, 3) == [] && From(4, 2) == [Pair(2, 2)];
    }
  }

  /** Every plane coordinate lies in [lo, hi] when lo <= hi, and strictly
      inside when lo < hi. */
  lemma AxisPositionsInside(count: int, lo: real, hi: real)
    requires lo <= hi
    ensures forall k :: 0 <= k < |AxisPositions(count, lo, hi)| ==> lo <= AxisPositions(count, lo, hi)[k] <= hi
    ensures lo < hi ==> forall k :: 0 <= k < |AxisPositions(count, lo, hi)| ==> lo < AxisPositions(count, lo, hi)[k] < hi
  {
    var pairs := PairsSummingTo(count + 1);
    PairsWellFormed(count + 1);
    var c := AxisPositions(count, lo, hi);
    forall k | 0 <= k < |c| ensures lo <= c[k] <= hi && (lo < hi ==> lo < c[k] < hi) {
      assert pairs[k] in pairs;
      WeightedBetween(pairs[k], lo, hi);
    }
  }
}
