/** Throughput estimation and the choice of a bitrate. */
module Bitrate {

  // ----- sorted lists

  predicate IsSorted(s: seq<int>) {
    forall i, j :: 0 <= i < j < |s| ==> s[i] <= s[j]
  }

  function Insert(x: int, s: seq<int>): seq<int> {
    if s == [] then [x]
    else if x <= s[0] then [x] + s
    else [s[0]] + Insert(x, s[1..])
  }

  /** The library's `sort`. */
  function Sort(s: seq<int>): seq<int> {
    if s == [] then [] else Insert(s[0], Sort(s[1..]))
  }

  lemma {:induction false} InsertContents(x: int, s: seq<int>)
    ensures multiset(Insert(x, s)) == multiset(s) + multiset{x} && |Insert(x, s)| == |s| + 1
  {
    if s != [] {
      assert s == [s[0]] + s[1..];
      if x > s[0] {
        InsertContents(x, s[1..]);
      }
    }
  }

  lemma {:induction false} InsertSorted(x: int, s: seq<int>)
    requires IsSorted(s)
    ensures IsSorted(Insert(x, s))
    ensures Insert(x, s)[0] == if s == [] || x <= s[0] then x else s[0]
  {
    if s != [] && x > s[0] {
      InsertSorted(x, s[1..]);
      ConsSorted(s[0], Insert(x, s[1..]));
    }
  }

  lemma ConsSorted(x: int, s: seq<int>)
    requires IsSorted(s) && (s == [] || x <= s[0])
    ensures IsSorted([x] + s)
  {
  }

  lemma {:induction false} SortContents(s: seq<int>)
    ensures multiset(Sort(s)) == multiset(s) && |Sort(s)| == |s|
  {
    if s != [] {
      SortContents(s[1..]);
      InsertContents(s[0], Sort(s[1..]));
      assert s == [s[0]] + s[1..];
    }
  }

  /** The result is the same numbers in order. */
  lemma {:induction false} SortSorts(s: seq<int>)
    ensures IsSorted(Sort(s)) && multiset(Sort(s)) == multiset(s) && |Sort(s)| == |s|
  {
    SortContents(s);
    if s != [] {
      SortSorts(s[1..]);
      InsertSorted(s[0], Sort(s[1..]));
    }
  }

  // ----- the choice

  /** A connection supports a bitrate when its estimate is at least 1.5 times the bitrate. */
  predicate Supports(estimate: real, b: int) { 1.5 * b as real <= estimate }

  /** The loop of the choice: take bitrates while they fit below the cap, stop at the first that does not. */
  function Pick(list: seq<int>, cap: real, chosen: int): int {
    if list == [] || !(list[0] as real <= cap) then chosen else Pick(list[1..], cap, list[0])
  }

  function Choose(list: seq<int>, estimate: real): int
    requires list != []
  {
    Pick(list, estimate / 1.5, list[0])
  }

  lemma {:induction false} PickIsLargest(list: seq<int>, cap: real, chosen: int)
    requires IsSorted(list)
    ensures var r := Pick(list, cap, chosen);
      (forall b :: b in list && b as real <= cap ==> b in list[..1] || list[0] as real <= cap)
      && (list != [] && list[0] as real <= cap ==> r in list && r as real <= cap && forall b :: b in list && b as real <= cap ==> b <= r)
      && (list == [] || list[0] as real > cap ==> r == chosen && forall b :: b in list ==> b as real > cap)
  {
    if list != [] {
      assert forall b :: b in list ==> list[0] <= b;
      if list[0] as real <= cap {
        PickIsLargest(list[1..], cap, list[0]);
        assert list == [list[0]] + list[1..];
      }
    }
  }

  /** The chosen bitrate is the largest listed one that the connection supports, or the lowest when
      it supports none. */
  lemma ChooseIsBest(list: seq<int>, estimate: real)
    requires list != [] && IsSorted(list)
    ensures Choose(list, estimate) in list
    ensures Supports(estimate, Choose(list, estimate)) <==> exists b :: b in list && Supports(estimate, b)
    ensures forall b :: b in list && Supports(estimate, b) ==> b <= Choose(list, estimate)
    ensures !Supports(estimate, Choose(list, estimate)) ==> forall b :: b in list ==> Choose(list, estimate) <= b
  {
    var cap := estimate / 1.5;
    PickIsLargest(list, cap, list[0]);
    assert forall b: int :: b as real <= cap <==> Supports(estimate, b);
    assert forall b :: b in list ==> list[0] <= b;
  }

  /** An estimate of 1.5 times the lowest bitrate selects exactly the lowest. */
  lemma ChooseLowest(list: seq<int>)
    requires list != [] && IsSorted(list)
    ensures Choose(list, list[0] as real * 1.5) == list[0]
  {
    ChooseIsBest(list, list[0] as real * 1.5);
    assert Supports(list[0] as real * 1.5, list[0]);
  }

  // ----- the moving average

  function Average(alpha: real, estimate: real, sample: real): real {
    alpha * sample + (1.0 - alpha) * estimate
  }

  /** The estimate after a sequence of samples. */
  function AverageAll(alpha: real, estimate: real, samples: seq<real>): real
    decreases samples
  {
    if samples == [] then estimate
    else AverageAll(alpha, Average(alpha, estimate, samples[0]), samples[1..])
  }

  function Power(x: real, n: nat): real {
    if n == 0 then 1.0 else x * Power(x, n - 1)
  }

  /** The weight of a sample after which `later` more were taken. */
  function Weight(alpha: real, later: nat): real {
    alpha * Power(1.0 - alpha, later)
  }

  /** Every sample times its weight. */
  function WeightedSum(alpha: real, samples: seq<real>): real {
    if samples == [] then 0.0
    else Weight(alpha, |samples| - 1) * samples[0] + WeightedSum(alpha, samples[1..])
  }

  lemma Distribute(p: real, alpha: real, x: real, b: real, t: real)
    ensures p * (alpha * x + b * t) == (alpha * p) * x + (b * p) * t
  {
    assert p * (alpha * x) == (alpha * p) * x;
    assert p * (b * t) == (b * p) * t;
  }

  lemma ClosedStep(p: real, alpha: real, x: real, t: real, rest: real, total: real, q: real, w: real)
    requires total == p * Average(alpha, t, x) + rest && q == (1.0 - alpha) * p && w == alpha * p
    ensures total == q * t + (w * x + rest)
  {
    Distribute(p, alpha, x, 1.0 - alpha, t);
  }

  /** Closed form: every sample keeps its weight, the initial estimate keeps the rest. */
  lemma {:induction false} AverageClosedForm(alpha: real, estimate: real, samples: seq<real>)
    ensures AverageAll(alpha, estimate, samples) == Power(1.0 - alpha, |samples|) * estimate + WeightedSum(alpha, samples)
    decreases samples
  {
    if samples != [] {
      AverageClosedForm(alpha, Average(alpha, estimate, samples[0]), samples[1..]);
      ClosedStep(Power(1.0 - alpha, |samples| - 1), alpha, samples[0], estimate, WeightedSum(alpha, samples[1..]),
                 AverageAll(alpha, estimate, samples), Power(1.0 - alpha, |samples|), Weight(alpha, |samples| - 1));
    }
  }

  /** The weights of a constant sample and of the initial estimate add up to one. */
  lemma {:induction false} WeightsSumToOne(alpha: real, ones: seq<real>)
    requires forall i :: 0 <= i < |ones| ==> ones[i] == 1.0
    ensures Power(1.0 - alpha, |ones|) + WeightedSum(alpha, ones) == 1.0
  {
    if ones != [] {
      WeightsSumToOne(alpha, ones[1..]);
      Distribute(Power(1.0 - alpha, |ones| - 1), alpha, 1.0, 1.0 - alpha, 1.0);
    }
  }

  lemma NonNegativeProduct(a: real, b: real)
    requires a >= 0.0 && b >= 0.0
    ensures a * b >= 0.0
  {
  }

  lemma Convex(alpha: real, x: real, y: real, lo: real, hi: real)
    requires 0.0 <= alpha <= 1.0 && lo <= x <= hi && lo <= y <= hi
    ensures lo <= Average(alpha, y, x) <= hi
  {
    NonNegativeProduct(alpha, x - lo);
    NonNegativeProduct(1.0 - alpha, y - lo);
    NonNegativeProduct(alpha, hi - x);
    NonNegativeProduct(1.0 - alpha, hi - y);
  }

  lemma ConvexAbove(alpha: real, x: real, y: real, lo: real)
    requires 0.0 <= alpha <= 1.0 && lo <= x && lo <= y
    ensures lo <= Average(alpha, y, x)
  {
    Convex(alpha, x, y, lo, if x < y then y else x);
  }

  /** The estimate never leaves the range of the initial value and the samples. */
  lemma {:induction false} AverageBounded(alpha: real, estimate: real, samples: seq<real>, lo: real, hi: real)
    requires 0.0 <= alpha <= 1.0 && lo <= estimate <= hi
    requires forall i :: 0 <= i < |samples| ==> lo <= samples[i] <= hi
    ensures lo <= AverageAll(alpha, estimate, samples) <= hi
    decreases samples
  {
    if samples != [] {
      Convex(alpha, samples[0], estimate, lo, hi);
      AverageBounded(alpha, Average(alpha, estimate, samples[0]), samples[1..], lo, hi);
    }
  }

  lemma Shrink(p: real, alpha: real, x: real, t: real)
    ensures p * (Average(alpha, t, x) - x) == ((1.0 - alpha) * p) * (t - x)
  {
    assert Average(alpha, t, x) - x == (1.0 - alpha) * (t - x);
    Distribute(p, 0.0, 0.0, 1.0 - alpha, t - x);
  }

  /** For a constant sample the distance to it shrinks by exactly `1 - alpha` per step. */
  lemma {:induction false} AverageContracts(alpha: real, estimate: real, x: real, samples: seq<real>)
    requires forall i :: 0 <= i < |samples| ==> samples[i] == x
    ensures AverageAll(alpha, estimate, samples) - x == Power(1.0 - alpha, |samples|) * (estimate - x)
    decreases samples
  {
    if samples != [] {
      AverageContracts(alpha, Average(alpha, estimate, samples[0]), x, samples[1..]);
      Shrink(Power(1.0 - alpha, |samples| - 1), alpha, x, estimate);
    }
  }

  lemma {:induction false} AverageConcat(alpha: real, estimate: real, a: seq<real>, b: seq<real>)
    ensures AverageAll(alpha, estimate, a + b) == AverageAll(alpha, AverageAll(alpha, estimate, a), b)
    decreases a
  {
    if a == [] {
      assert a + b == b;
    } else {
      assert (a + b)[1..] == a[1..] + b;
      AverageConcat(alpha, Average(alpha, estimate, a[0]), a[1..], b);
    }
  }
}
