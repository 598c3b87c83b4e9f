/**
 * The integer-pair enumeration the cutter uses to place its planes
 * (`Cutter.find_pairs_summing_to`).  For a target t it yields every pair
 * [n, m] of positive integers with n + m == t: the outer loop walks
 * i = 1 .. t-1, the inner j = i .. t-1, and each hit i + j == t appends
 * [i, j] and then [j, i] unless the reverse is already in the list.
 */
module Pairs {

  /** A weight pair [n, m]; the source builds it as a two-element list. */
  datatype Pair = Pair(n: int, m: int)

  /** What outer iteration i appends for target t: [i, t-i], then its reverse
      unless the two coincide.  Iterations with 2*i > t find no j >= i. */
  function Block(t: int, i: int): seq<Pair>
  {
    if 2 * i > t then []
    else if 2 * i == t then [Pair(i, i)]
    else [Pair(i, t - i), Pair(t - i, i)]
  }

  /** What outer iterations i, i+1, ..., t-1 append, in order. */
  function From(t: int, i: int): seq<Pair>
    decreases t - i
  {
    if i >= t then [] else Block(t, i) + From(t, i + 1)
  }

  /** The list `find_pairs_summing_to(t)` returns. */
  function PairsSummingTo(t: int): seq<Pair>
  {
    From(t, 1)
  }

  /** `find_pairs_summing_to`: nested loops over a growing list, with the
      membership test on the reversed pair. */
  method FindPairsSummingTo(target: int) returns (pairs: seq<Pair>)
    ensures pairs == PairsSummingTo(target)
  {
    pairs := [];
    var i := 1;
    while i < target
      invariant 1 <= i
      invariant pairs + From(target, i) == PairsSummingTo(target)
      invariant forall q :: q in pairs ==> q.n < i || q.m < i
    {
      ghost var before := pairs;
      var j := i;
      while j < target
        invariant i <= j
        invariant pairs == before + (if target - i < j then Block(target, i) else [])
      {
        if i + j == target {
          pairs := pairs + [Pair(i, j)];
          ReverseCheck(before, i, j);
          if Pair(j, i) !in pairs {
            pairs := pairs + [Pair(j, i)];
          }
          assert pairs == before + Block(target, i);
        }
        j := j + 1;
      }
      BlockStep(before, pairs, target, i);
      i := i + 1;
    }
  }

  /** The membership test on the reverse of [i, j] fails exactly when i == j,
      given that every pair already listed has a component below i. */
  lemma ReverseCheck(before: seq<Pair>, i: int, j: int)
    requires i <= j
    requires forall q :: q in before ==> q.n < i || q.m < i
    ensures Pair(j, i) in before + [Pair(i, j)] <==> i == j
  {
    if i != j {
      assert Pair(j, i) !in before;
    }
  }

  /** Closing one outer iteration keeps the loop invariant. */
  lemma BlockStep(before: seq<Pair>, pairs: seq<Pair>, t: int, i: int)
    requires 1 <= i < t
    requires pairs == before + Block(t, i)
    requires forall q :: q in before ==> q.n < i || q.m < i
    ensures pairs + From(t, i + 1) == before + From(t, i)
    ensures forall q :: q in pairs ==> q.n < i + 1 || q.m < i + 1
  {
    assert From(t, i) == Block(t, i) + From(t, i + 1);
  }

  // ---------------------------------------------------------------------
  // What the enumeration yields.

  /** Outer iterations i .. t-1 append t - 2*i + 1 pairs (none once 2*i > t). */
  lemma {:induction false} FromLength(t: int, i: int)
    requires 1 <= i
    ensures |From(t, i)| == if 2 * i > t then 0 else t - 2 * i + 1
    decreases t - i
  {
    if i < t {
      FromLength(t, i + 1);
    }
  }

  /** A pair is appended by iterations i .. t-1 exactly when it sums to t and
      neither of its components is below i. */
  lemma {:induction false} FromMembers(t: int, i: int, p: Pair)
    requires 1 <= i
    ensures p in From(t, i) <==> p.n + p.m == t && i <= p.n && i <= p.m
    decreases t - i
  {
    if i < t {
      FromMembers(t, i + 1, p);
    }
  }

  /** Iterations i .. t-1 never append the same pair twice. */
  lemma {:induction false} FromDistinct(t: int, i: int)
    requires 1 <= i
    ensures forall a, b :: 0 <= a < b < |From(t, i)| ==> From(t, i)[a] != From(t, i)[b]
    decreases t - i
  {
    if i < t {
      FromDistinct(t, i + 1);
      var head, tail := Block(t, i), From(t, i + 1);
      forall q | q in tail ensures q !in head {
        FromMembers(t, i + 1, q);
      }
      forall a, b | 0 <= a < b < |head + tail| ensures (head + tail)[a] != (head + tail)[b] {
        if b >= |head| && a < |head| {
          assert (head + tail)[b] in tail;
        }
      }
    }
  }

  /** Iteration k (with 2*k < t) places [k, t-k] and then [t-k, k] at
      positions 2*(k-i) and 2*(k-i)+1 of what iterations i .. t-1 append. */
  lemma {:induction false} FromAt(t: int, i: int, k: int)
    requires 1 <= i <= k && 2 * k < t
    ensures 2 * (k - i) + 1 < |From(t, i)|
    ensures From(t, i)[2 * (k - i)] == Pair(k, t - k)
    ensures From(t, i)[2 * (k - i) + 1] == Pair(t - k, k)
    decreases k - i
  {
    FromLength(t, i);
    if i < k {
      FromAt(t, i + 1, k);
    }
  }

  /** The middle pair [t/2, t/2] of an even target is appended once, last. */
  lemma {:induction false} FromMiddle(t: int, i: int)
    requires 1 <= i && 2 * i <= t && t % 2 == 0
    ensures |From(t, i)| == t - 2 * i + 1
    ensures From(t, i)[t - 2 * i] == Pair(t / 2, t / 2)
    decreases t - 2 * i
  {
    FromLength(t, i);
    if 2 * i < t {
      FromMiddle(t, i + 1);
    }
  }

  /** The enumeration returns t-1 pairs for t >= 1 and none otherwise. */
  lemma PairsCount(t: int)
    ensures |PairsSummingTo(t)| == if t >= 1 then t - 1 else 0
  {
    FromLength(t, 1);
  }

  /** Its members are exactly the pairs [i, t-i] with 1 <= i <= t-1. */
  lemma PairsMembers(t: int, p: Pair)
    ensures p in PairsSummingTo(t) <==> 1 <= p.n <= t - 1 && p.m == t - p.n
  {
    FromMembers(t, 1, p);
  }

  /** Every returned pair sums to the target and has both weights in 1 .. t-1. */
  lemma PairsWellFormed(t: int)
    ensures forall p :: p in PairsSummingTo(t) ==>
              p.n + p.m == t && 1 <= p.n <= t - 1 && 1 <= p.m <= t - 1
  {
    forall p | p in PairsSummingTo(t)
      ensures p.n + p.m == t && 1 <= p.n <= t - 1 && 1 <= p.m <= t - 1
    {
      PairsMembers(t, p);
    }
  }

  /** No pair is returned twice. */
  lemma PairsDistinct(t: int)
    ensures forall a, b :: 0 <= a < b < |PairsSummingTo(t)| ==>
              PairsSummingTo(t)[a] != PairsSummingTo(t)[b]
  {
    FromDistinct(t, 1);
  }

  /** The order: [i, t-i] at position 2*(i-1) immediately followed by its
      reverse [t-i, i], for i ascending while 2*i < t, and for an even
      target the middle pair [t/2, t/2] last. */
  lemma PairsOrder(t: int)
    ensures |PairsSummingTo(t)| == if t >= 1 then t - 1 else 0
    ensures forall i :: 1 <= i && 2 * i < t ==>
              PairsSummingTo(t)[2 * i - 2] == Pair(i, t - i) &&
              PairsSummingTo(t)[2 * i - 1] == Pair(t - i, i)
    ensures t >= 2 && t % 2 == 0 ==> PairsSummingTo(t)[t - 2] == Pair(t / 2, t / 2)
  {
    PairsCount(t);
    forall i | 1 <= i && 2 * i < t
      ensures PairsSummingTo(t)[2 * i - 2] == Pair(i, t - i) &&
              PairsSummingTo(t)[2 * i - 1] == Pair(t - i, i)
    {
      FromAt(t, 1, i);
    }
    if t >= 2 && t % 2 == 0 {
      FromMiddle(t, 1);
    }
  }
}
