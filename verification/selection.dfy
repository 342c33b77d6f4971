/** Parent selection in `src/mallows/selection.py`, for a minimised
    objective: `top_k_selection`, and the probability vectors that linear
    ranking and roulette selection hand to `np.random.choice`. The draw
    itself is left out; the weights are computed in `real`. */
module Selection {
  import opened Options
  import opened Permutations
  import opened Sorting

  // ---------------------------------------------------------------------
  // Top-k selection

  /** Length of the Python slice `s[:k]` of a sequence of length `len`: a
      negative `k` counts from the end. */
  function SliceStop(k: int, len: nat): (stop: nat)
    ensures stop <= len
    ensures k >= 0 ==> stop == if k <= len then k else len
    ensures k < 0 ==> stop == if -k <= len then len + k else 0
  {
    if k >= 0 then (if k <= len then k else len)
    else if -k <= len then len + k else 0
  }

  /** `population_objectives.argsort()[:k]`: `min(k, N)` distinct
      positions for `k >= 0` (fewer for a negative `k`), best first, none
      left out better than one chosen; with `k >= N` a whole argsort. */
  function TopK(obj: seq<real>, k: int): (sel: seq<nat>)
    ensures |sel| == SliceStop(k, |obj|)
    ensures 0 <= k <= |obj| ==> |sel| == k
    ensures k >= |obj| ==> IsArgsort(obj, sel)
    ensures forall t :: 0 <= t < |sel| ==> sel[t] < |obj|
    ensures forall s, t :: 0 <= s < t < |sel| ==> sel[s] != sel[t]
    ensures forall s, t :: 0 <= s < t < |sel| ==> obj[sel[s]] <= obj[sel[t]]
    ensures forall t, j :: 0 <= t < |sel| && 0 <= j < |obj| && j !in sel ==> obj[sel[t]] <= obj[j]
  {
    var stop := SliceStop(k, |obj|);
    ArgsortPrefix(obj, Argsort(obj), stop);
    assert k >= |obj| ==> Argsort(obj)[..stop] == Argsort(obj);
    Argsort(obj)[..stop]
  }

  /** What any argsort, with any tie order, guarantees about its first
      `stop` entries: distinct positions of `obj`, in non-decreasing order of
      objective, none worse than a position left out. */
  lemma ArgsortPrefix(obj: seq<real>, idx: seq<nat>, stop: nat)
    requires IsArgsort(obj, idx) && stop <= |obj|
    ensures forall t :: 0 <= t < stop ==> idx[..stop][t] < |obj|
    ensures forall s, t :: 0 <= s < t < stop ==> idx[..stop][s] != idx[..stop][t]
    ensures forall s, t :: 0 <= s < t < stop ==> obj[idx[..stop][s]] <= obj[idx[..stop][t]]
    ensures forall t, j :: 0 <= t < stop && 0 <= j < |obj| && j !in idx[..stop] ==>
              obj[idx[..stop][t]] <= obj[j]
  {
    ArgsortIsPerm(obj, idx);
    var sel := idx[..stop];
    forall t, j | 0 <= t < stop && 0 <= j < |obj| && j !in sel
      ensures obj[sel[t]] <= obj[j]
    {
      assert j in idx;
      var u := IndexOf(idx, j);
      assert forall s :: 0 <= s < stop ==> sel[s] != j;
      assert u >= stop;
    }
  }

  // ---------------------------------------------------------------------
  // Sums of real vectors

  function RealSum(s: seq<real>): real {
    if |s| == 0 then 0.0 else s[0] + RealSum(s[1..])
  }

  /** Every entry divided by `d`. */
  function Scaled(s: seq<real>, d: real): (r: seq<real>)
    requires d != 0.0
    ensures |r| == |s|
    ensures forall i :: 0 <= i < |s| ==> r[i] == s[i] / d
  {
    if |s| == 0 then [] else [s[0] / d] + Scaled(s[1..], d)
  }

  lemma {:induction false} RealSumScaled(s: seq<real>, d: real)
    requires d != 0.0
    ensures RealSum(Scaled(s, d)) == RealSum(s) / d
  {
    if |s| > 0 {
      RealSumScaled(s[1..], d);
      assert Scaled(s, d)[1..] == Scaled(s[1..], d);
    }
  }

  lemma {:induction false} RealSumNonNegative(s: seq<real>)
    requires forall i :: 0 <= i < |s| ==> s[i] >= 0.0
    ensures RealSum(s) >= 0.0
  {
    if |s| > 0 {
      RealSumNonNegative(s[1..]);
    }
  }

  /** A non-negative vector with one positive entry has a positive sum. */
  lemma {:induction false} RealSumPositive(s: seq<real>, k: nat)
    requires forall i :: 0 <= i < |s| ==> s[i] >= 0.0
    requires k < |s| && s[k] > 0.0
    ensures RealSum(s) > 0.0
  {
    if k == 0 {
      RealSumNonNegative(s[1..]);
    } else {
      RealSumPositive(s[1..], k - 1);
    }
  }

  /** What `np.random.choice(N, k, p=w)` accepts as `p`: one weight per
      individual, none negative, summing to one. */
  predicate IsDistribution(w: seq<real>, n: nat) {
    && |w| == n
    && (forall i :: 0 <= i < |w| ==> w[i] >= 0.0)
    && RealSum(w) == 1.0
  }

  // ---------------------------------------------------------------------
  // Linear ranking

  /** The parameters of `get_linear_ranking_selection`. */
  datatype LinearRanking = LinearRanking(alpha: real, beta: real)

  /** The factory's assertion. */
  predicate ValidLinear(alpha: real, beta: real) {
    0.0 <= alpha && alpha <= beta && beta <= 2.0 && alpha + beta <= 2.0
  }

  /** `get_linear_ranking_selection(alpha, beta)`: the closure, or `None`
      where the assertion fails. */
  function MakeLinearRanking(alpha: real, beta: real): (sel: Option<LinearRanking>)
    ensures sel.Some? <==> 0.0 <= alpha && alpha <= beta && beta <= 2.0 && alpha + beta <= 2.0
    ensures sel.Some? ==> sel.value.alpha == alpha && sel.value.beta == beta
  {
    if ValidLinear(alpha, beta) then Some(LinearRanking(alpha, beta)) else None
  }

  /** `(alpha + (rank / (N - 1)) * (beta - alpha)) / N`. */
  function RankWeight(sel: LinearRanking, n: nat, rank: nat): real
    requires n >= 2
  {
    (sel.alpha + (rank as real / (n - 1) as real) * (sel.beta - sel.alpha)) / n as real
  }

  /** The weight formula applied entrywise to a rank vector. */
  function WeightsOf(sel: LinearRanking, n: nat, ranks: seq<nat>): (w: seq<real>)
    requires n >= 2
    ensures |w| == |ranks|
    ensures forall i :: 0 <= i < |ranks| ==> w[i] == RankWeight(sel, n, ranks[i])
  {
    if |ranks| == 0 then [] else [RankWeight(sel, n, ranks[0])] + WeightsOf(sel, n, ranks[1..])
  }

  /** `argsort(x)[::-1]`. */
  function Reverse(s: seq<nat>): (r: seq<nat>)
    ensures |r| == |s|
    ensures forall i :: 0 <= i < |s| ==> r[i] == s[|s| - 1 - i]
  {
    seq(|s|, i requires 0 <= i < |s| => s[|s| - 1 - i])
  }

  /** The weights as written: individual `i` is weighted by the entry
      `argsort(obj)[N - 1 - i]`, a population index. With one individual the
      division by `N - 1 == 0` gives NaN. */
  function LinearWeightsAsWritten(sel: LinearRanking, obj: seq<real>): (w: Option<seq<real>>)
    requires ValidLinear(sel.alpha, sel.beta)
    ensures w.None? <==> |obj| == 1
    ensures w.Some? ==> |w.value| == |obj|
    ensures |obj| >= 2 ==> w == Some(WeightsOf(sel, |obj|, Reverse(Argsort(obj))))
    ensures w.Some? ==> forall i :: 0 <= i < |obj| ==>
              sel.alpha / |obj| as real <= w.value[i] <= sel.beta / |obj| as real
    ensures |obj| >= 2 ==> RealSum(w.value) == (sel.alpha + sel.beta) / 2.0
    ensures |obj| >= 2 ==> (IsDistribution(w.value, |obj|) <==> sel.alpha + sel.beta == 2.0)
  {
    if |obj| == 0 then Some([])
    else if |obj| == 1 then None
    else
      WrittenWeightsFacts(sel, obj);
      Some(WeightsOf(sel, |obj|, Reverse(Argsort(obj))))
  }

  /** The rank of every individual: `N - 1` for the best (smallest
      objective), `0` for the worst. */
  function Ranks(obj: seq<real>): (ranks: seq<nat>)
    ensures |ranks| == |obj|
    ensures forall i :: 0 <= i < |obj| ==>
              ranks[i] == |obj| - 1 - Inverse(Argsort(obj))[i]
  {
    var inv := Inverse(Argsort(obj));
    seq(|obj|, i requires 0 <= i < |obj| => RankAt(inv, i))
  }

  /** `n - 1 - inv[i]`, which is a rank because `inv[i] < n`. */
  function RankAt(inv: seq<nat>, i: nat): (r: nat)
    requires IsPerm(inv) && i < |inv|
    ensures r == |inv| - 1 - inv[i]
  {
    |inv| - 1 - inv[i]
  }

  /** The weights with the rank of each individual, as linear ranking means
      them: the best gets `beta / N`, the worst `alpha / N`, a better
      individual never gets less, and every weight lies in between. They sum
      to `(alpha + beta) / 2`, so they form a distribution exactly when
      `alpha + beta == 2`. */
  function LinearWeights(sel: LinearRanking, obj: seq<real>): (w: Option<seq<real>>)
    requires ValidLinear(sel.alpha, sel.beta)
    ensures w.None? <==> |obj| == 1
    ensures w.Some? ==> |w.value| == |obj|
    ensures |obj| >= 2 ==> w == Some(WeightsOf(sel, |obj|, Ranks(obj)))
    ensures |obj| >= 2 ==> w.value[Argsort(obj)[0]] == sel.beta / |obj| as real
    ensures |obj| >= 2 ==> w.value[Argsort(obj)[|obj| - 1]] == sel.alpha / |obj| as real
    ensures w.Some? ==> forall i, j :: 0 <= i < |obj| && 0 <= j < |obj| && obj[i] < obj[j] ==>
              w.value[i] >= w.value[j]
    ensures w.Some? ==> forall i :: 0 <= i < |obj| ==>
              sel.alpha / |obj| as real <= w.value[i] <= sel.beta / |obj| as real
    ensures |obj| >= 2 ==> RealSum(w.value) == (sel.alpha + sel.beta) / 2.0
    ensures |obj| >= 2 ==> (IsDistribution(w.value, |obj|) <==> sel.alpha + sel.beta == 2.0)
  {
    if |obj| == 0 then Some([])
    else if |obj| == 1 then None
    else
      RankedWeightsFacts(sel, obj);
      Some(WeightsOf(sel, |obj|, Ranks(obj)))
  }

  /** The facts `LinearWeights` promises, for the weights by true rank. */
  lemma RankedWeightsFacts(sel: LinearRanking, obj: seq<real>)
    requires ValidLinear(sel.alpha, sel.beta) && |obj| >= 2
    ensures WeightsOf(sel, |obj|, Ranks(obj))[Argsort(obj)[0]] == sel.beta / |obj| as real
    ensures WeightsOf(sel, |obj|, Ranks(obj))[Argsort(obj)[|obj| - 1]] == sel.alpha / |obj| as real
    ensures forall i, j :: 0 <= i < |obj| && 0 <= j < |obj| && obj[i] < obj[j] ==>
              WeightsOf(sel, |obj|, Ranks(obj))[i] >= WeightsOf(sel, |obj|, Ranks(obj))[j]
    ensures forall i :: 0 <= i < |obj| ==>
              sel.alpha / |obj| as real <= WeightsOf(sel, |obj|, Ranks(obj))[i] <= sel.beta / |obj| as real
    ensures RealSum(WeightsOf(sel, |obj|, Ranks(obj))) == (sel.alpha + sel.beta) / 2.0
    ensures IsDistribution(WeightsOf(sel, |obj|, Ranks(obj)), |obj|) <==> sel.alpha + sel.beta == 2.0
  {
    RankedWeightsBest(sel, obj);
    RankedWeightsWorst(sel, obj);
    RankedWeightsMonotone(sel, obj);
    RankedWeightsSum(sel, obj);
    NonNegativeWeights(sel, |obj|);
  }

  /** The reversed sort order is a permutation of the positions. */
  lemma ReverseIsPerm(s: seq<nat>)
    requires IsPerm(s)
    ensures IsPerm(Reverse(s))
  {
    var r := Reverse(s);
    forall v: nat | v < |r|
      ensures v in r
    {
      assert v in s;
      var j := IndexOf(s, v);
      assert r[|s| - 1 - j] == v;
    }
    forall i, j | 0 <= i < j < |r|
      ensures r[i] != r[j]
    {
      PermInjective(s, |s| - 1 - i, |s| - 1 - j);
    }
  }

  /** The true ranks are a permutation of `0..N-1`. */
  lemma RanksArePerm(obj: seq<real>)
    ensures IsPerm(Ranks(obj))
  {
    var order := Argsort(obj);
    ArgsortIsPerm(obj, order);
    var inv := Inverse(order);
    var r := Ranks(obj);
    var n := |obj|;
    forall v: nat | v < n
      ensures v in r
    {
      assert r[order[n - 1 - v]] == v;
    }
    forall i, j | 0 <= i < j < n
      ensures r[i] != r[j]
    {
      PermInjective(inv, i, j);
    }
  }

  /** Every weight of a rank in `0..N-1` lies in `[alpha / N, beta / N]`. */
  lemma RankWeightBounds(sel: LinearRanking, n: nat, rank: nat)
    requires ValidLinear(sel.alpha, sel.beta) && n >= 2 && rank <= n - 1
    ensures sel.alpha / n as real <= RankWeight(sel, n, rank) <= sel.beta / n as real
  {
    var t := rank as real / (n - 1) as real;
    var d := sel.beta - sel.alpha;
    FractionInUnit(rank as real, (n - 1) as real);
    ScaleWithin(t, d);
    var x := sel.alpha + t * d;
    assert RankWeight(sel, n, rank) == x / n as real;
    DivideMonotone(sel.alpha, x, n as real);
    DivideMonotone(x, sel.beta, n as real);
  }

  lemma FractionInUnit(x: real, m: real)
    requires 0.0 <= x <= m && m > 0.0
    ensures 0.0 <= x / m <= 1.0
  {
    DivideMonotone(x, m, m);
    DivideMonotone(0.0, x, m);
  }

  lemma ScaleWithin(t: real, d: real)
    requires 0.0 <= t <= 1.0 && d >= 0.0
    ensures 0.0 <= t * d <= d
  {
    assert d - t * d == (1.0 - t) * d;
  }

  lemma DivideMonotone(x: real, y: real, d: real)
    requires x <= y && d > 0.0
    ensures x / d <= y / d
  {
    assert y / d - x / d == (y - x) / d;
  }

  /** The weight formula is affine in the rank. */
  lemma RankWeightAffine(sel: LinearRanking, n: nat, rank: nat)
    requires n >= 2
    ensures RankWeight(sel, n, rank)
            == sel.alpha / n as real + rank as real * ((sel.beta - sel.alpha) / ((n - 1) as real * n as real))
  {
    var N := n as real;
    var M := (n - 1) as real;
    var d := sel.beta - sel.alpha;
    var r := rank as real;
    assert (r / M) * d / N == r * (d / (M * N));
  }

  /** The sum of `count` weights whose ranks add up to `total`. */
  function AffineSum(sel: LinearRanking, n: nat, count: nat, total: nat): real
    requires n >= 2
  {
    count as real * (sel.alpha / n as real)
    + total as real * ((sel.beta - sel.alpha) / ((n - 1) as real * n as real))
  }

  lemma {:induction false} WeightsOfSum(sel: LinearRanking, n: nat, ranks: seq<nat>)
    requires n >= 2
    ensures RealSum(WeightsOf(sel, n, ranks)) == AffineSum(sel, n, |ranks|, Sum(ranks))
  {
    if |ranks| > 0 {
      var w := WeightsOf(sel, n, ranks);
      assert w[1..] == WeightsOf(sel, n, ranks[1..]);
      WeightsOfSum(sel, n, ranks[1..]);
      AffineSumStep(sel, n, |ranks| - 1, Sum(ranks[1..]), ranks[0]);
    }
  }

  /** One more rank `r` adds its affine weight to the sum. */
  lemma AffineSumStep(sel: LinearRanking, n: nat, count: nat, total: nat, r: nat)
    requires n >= 2
    ensures AffineSum(sel, n, count + 1, total + r) == RankWeight(sel, n, r) + AffineSum(sel, n, count, total)
  {
    RankWeightAffine(sel, n, r);
    var a := sel.alpha / n as real;
    var slope := (sel.beta - sel.alpha) / ((n - 1) as real * n as real);
    assert (count + 1) as real * a == a + count as real * a;
    assert (total + r) as real * slope == r as real * slope + total as real * slope;
  }

  /** Weights over a permutation of the ranks `0..N-1` sum to
      `(alpha + beta) / 2`. */
  lemma WeightsOfPermSum(sel: LinearRanking, ranks: seq<nat>)
    requires |ranks| >= 2 && IsPerm(ranks)
    ensures RealSum(WeightsOf(sel, |ranks|, ranks)) == (sel.alpha + sel.beta) / 2.0
  {
    var n := |ranks|;
    var total := Sum(ranks);
    var w := WeightsOf(sel, n, ranks);
    WeightsOfSum(sel, n, ranks);
    assert 2 * total == n * (n - 1) by {
      PermMultiset(ranks);
      SumPerm(ranks);
    }
    AffineTotal(sel, n, total);
  }

  /** `N * (alpha / N) + (N(N-1)/2) * ((beta - alpha) / ((N-1) N)) == (alpha + beta) / 2`. */
  lemma AffineTotal(sel: LinearRanking, n: nat, total: nat)
    requires n >= 2 && 2 * total == n * (n - 1)
    ensures AffineSum(sel, n, n, total) == (sel.alpha + sel.beta) / 2.0
  {
    var alpha, beta := sel.alpha, sel.beta;
    var N := n as real;
    var M := (n - 1) as real;
    var P := M * N;
    assert P > 0.0;
    assert 2.0 * total as real == P by {
      assert (n * (n - 1)) as real == N * M;
    }
    assert total as real * ((beta - alpha) / P) == (total as real / P) * (beta - alpha);
    assert total as real / P == 0.5;
    assert N * (alpha / N) == alpha;
  }

  /** The facts `LinearWeightsAsWritten` promises: the reversed argsort is
      a permutation of `0..N-1`, so the weights keep the bounds and the total
      of weights by rank. */
  lemma WrittenWeightsFacts(sel: LinearRanking, obj: seq<real>)
    requires ValidLinear(sel.alpha, sel.beta) && |obj| >= 2
    ensures forall i :: 0 <= i < |obj| ==>
              sel.alpha / |obj| as real <= WeightsOf(sel, |obj|, Reverse(Argsort(obj)))[i] <= sel.beta / |obj| as real
    ensures RealSum(WeightsOf(sel, |obj|, Reverse(Argsort(obj)))) == (sel.alpha + sel.beta) / 2.0
    ensures IsDistribution(WeightsOf(sel, |obj|, Reverse(Argsort(obj))), |obj|) <==> sel.alpha + sel.beta == 2.0
  {
    var ranks := Reverse(Argsort(obj));
    ArgsortIsPerm(obj, Argsort(obj));
    ReverseIsPerm(Argsort(obj));
    WeightsOfPermSum(sel, ranks);
    forall i | 0 <= i < |obj|
      ensures sel.alpha / |obj| as real <= WeightsOf(sel, |obj|, ranks)[i] <= sel.beta / |obj| as real
    {
      RankWeightBounds(sel, |obj|, ranks[i]);
    }
    NonNegativeWeights(sel, |obj|);
  }

  lemma NonNegativeWeights(sel: LinearRanking, n: nat)
    requires ValidLinear(sel.alpha, sel.beta) && n >= 1
    ensures sel.alpha / n as real >= 0.0
  {
  }

  /** With true ranks the weights keep the bounds `[alpha / N, beta / N]`
      and the total `(alpha + beta) / 2`. */
  lemma RankedWeightsSum(sel: LinearRanking, obj: seq<real>)
    requires ValidLinear(sel.alpha, sel.beta) && |obj| >= 2
    ensures forall i :: 0 <= i < |obj| ==>
              sel.alpha / |obj| as real <= WeightsOf(sel, |obj|, Ranks(obj))[i] <= sel.beta / |obj| as real
    ensures RealSum(WeightsOf(sel, |obj|, Ranks(obj))) == (sel.alpha + sel.beta) / 2.0
  {
    var n := |obj|;
    var ranks := Ranks(obj);
    RanksArePerm(obj);
    WeightsOfPermSum(sel, ranks);
    forall i | 0 <= i < n
      ensures sel.alpha / n as real <= WeightsOf(sel, n, ranks)[i] <= sel.beta / n as real
    {
      RankWeightBounds(sel, n, ranks[i]);
    }
  }

  /** With true ranks the individual with the smallest objective gets
      `beta / N`. */
  lemma RankedWeightsBest(sel: LinearRanking, obj: seq<real>)
    requires |obj| >= 2
    ensures WeightsOf(sel, |obj|, Ranks(obj))[Argsort(obj)[0]] == sel.beta / |obj| as real
  {
    RanksAtOrder(obj, 0);
    RankWeightEnds(sel, |obj|);
  }

  /** With true ranks the individual with the largest objective gets
      `alpha / N`. */
  lemma RankedWeightsWorst(sel: LinearRanking, obj: seq<real>)
    requires |obj| >= 2
    ensures WeightsOf(sel, |obj|, Ranks(obj))[Argsort(obj)[|obj| - 1]] == sel.alpha / |obj| as real
  {
    RanksAtOrder(obj, |obj| - 1);
    RankWeightEnds(sel, |obj|);
  }

  /** The individual in sorted position `k` has rank `N - 1 - k`. */
  lemma RanksAtOrder(obj: seq<real>, k: nat)
    requires k < |obj|
    ensures Ranks(obj)[Argsort(obj)[k]] == |obj| - 1 - k
  {
    var order := Argsort(obj);
    var inv := Inverse(order);
    assert inv[order[k]] == k;
  }

  /** With true ranks a strictly better individual never gets less weight. */
  lemma RankedWeightsMonotone(sel: LinearRanking, obj: seq<real>)
    requires ValidLinear(sel.alpha, sel.beta) && |obj| >= 2
    ensures forall i, j :: 0 <= i < |obj| && 0 <= j < |obj| && obj[i] < obj[j] ==>
              WeightsOf(sel, |obj|, Ranks(obj))[i] >= WeightsOf(sel, |obj|, Ranks(obj))[j]
  {
    var n := |obj|;
    var ranks := Ranks(obj);
    forall i, j | 0 <= i < n && 0 <= j < n && obj[i] < obj[j]
      ensures WeightsOf(sel, n, ranks)[i] >= WeightsOf(sel, n, ranks)[j]
    {
      BetterRanksHigher(obj, i, j);
      RankWeightMonotone(sel, n, ranks[j], ranks[i]);
    }
  }

  lemma RankWeightEnds(sel: LinearRanking, n: nat)
    requires n >= 2
    ensures RankWeight(sel, n, n - 1) == sel.beta / n as real
    ensures RankWeight(sel, n, 0) == sel.alpha / n as real
  {
    assert (n - 1) as real / (n - 1) as real == 1.0;
  }

  lemma RankWeightMonotone(sel: LinearRanking, n: nat, r1: nat, r2: nat)
    requires ValidLinear(sel.alpha, sel.beta) && n >= 2 && r1 <= r2
    ensures RankWeight(sel, n, r1) <= RankWeight(sel, n, r2)
  {
    var M := (n - 1) as real;
    var d := sel.beta - sel.alpha;
    DivideMonotone(r1 as real, r2 as real, M);
    var t1, t2 := r1 as real / M, r2 as real / M;
    assert t2 * d - t1 * d == (t2 - t1) * d;
    DivideMonotone(sel.alpha + t1 * d, sel.alpha + t2 * d, n as real);
  }

  /** A strictly smaller objective sits earlier in the sort order, so it has
      a strictly higher rank. */
  lemma BetterRanksHigher(obj: seq<real>, i: nat, j: nat)
    requires i < |obj| && j < |obj| && obj[i] < obj[j]
    ensures Ranks(obj)[i] > Ranks(obj)[j]
  {
    var order := Argsort(obj);
    var inv := Inverse(order);
    assert order[inv[i]] == i && order[inv[j]] == j;
  }

  /** The factory's assertion admits `alpha + beta < 2`, for which the
      weights cannot be a distribution and the draw rejects them: with
      `alpha = 0` and `beta = 1` they sum to `1/2`. */
  lemma FactoryAdmitsDeficientWeights(obj: seq<real>)
    requires |obj| >= 2
    ensures MakeLinearRanking(0.0, 1.0) == Some(LinearRanking(0.0, 1.0))
    ensures RealSum(LinearWeightsAsWritten(LinearRanking(0.0, 1.0), obj).value) == 0.5
    ensures !IsDistribution(LinearWeightsAsWritten(LinearRanking(0.0, 1.0), obj).value, |obj|)
  {
  }

  /** The factory as linear ranking requires it: the expected number of
      copies of the best and the worst individual add up to two. Every
      selection it builds hands the draw a distribution, whether the weights
      are taken by true rank or as written. */
  function MakeLinearRankingChecked(alpha: real, beta: real): (sel: Option<LinearRanking>)
    ensures sel.Some? <==> 0.0 <= alpha <= beta <= 2.0 && alpha + beta == 2.0
    ensures sel.Some? ==> sel.value == LinearRanking(alpha, beta) && ValidLinear(alpha, beta)
    ensures sel.Some? ==> forall obj: seq<real> :: |obj| >= 2 ==>
              IsDistribution(LinearWeights(sel.value, obj).value, |obj|)
    ensures sel.Some? ==> forall obj: seq<real> :: |obj| >= 2 ==>
              IsDistribution(LinearWeightsAsWritten(sel.value, obj).value, |obj|)
  {
    if 0.0 <= alpha <= beta <= 2.0 && alpha + beta == 2.0 then
      CheckedFactoryWeightsAreDistributions(alpha, beta);
      Some(LinearRanking(alpha, beta))
    else None
  }

  /** With parameters the checked factory accepts, the weights by true rank
      and the weights as written are a distribution for every population of
      two or more: the deficiency of the second finding is gone, while the
      misranking of the first remains in the weights as written. */
  lemma CheckedFactoryWeightsAreDistributions(alpha: real, beta: real)
    requires 0.0 <= alpha <= beta <= 2.0 && alpha + beta == 2.0
    ensures forall obj: seq<real> :: |obj| >= 2 ==>
              IsDistribution(LinearWeights(LinearRanking(alpha, beta), obj).value, |obj|)
    ensures forall obj: seq<real> :: |obj| >= 2 ==>
              IsDistribution(LinearWeightsAsWritten(LinearRanking(alpha, beta), obj).value, |obj|)
  {
  }

  // ---------------------------------------------------------------------
  // Adaptation roulette

  /** `population_objectives.max()`, the worst objective. */
  function Max(s: seq<real>): (m: real)
    requires |s| >= 1
    ensures exists i :: 0 <= i < |s| && s[i] == m
    ensures forall i :: 0 <= i < |s| ==> s[i] <= m
  {
    if |s| == 1 then s[0]
    else
      var rest := Max(s[1..]);
      assert forall i :: 1 <= i < |s| ==> s[i] == s[1..][i - 1];
      if s[0] >= rest then s[0] else rest
  }

  /** `worst - population_objectives`: how much better than the worst.
      Never negative, zero exactly for the worst individuals, and larger for
      a better objective. */
  function RouletteRaw(obj: seq<real>): (raw: seq<real>)
    requires |obj| >= 1
    ensures |raw| == |obj|
    ensures forall i :: 0 <= i < |obj| ==> raw[i] == Max(obj) - obj[i]
    ensures forall i :: 0 <= i < |obj| ==> raw[i] >= 0.0
    ensures forall i :: 0 <= i < |obj| ==> (raw[i] == 0.0 <==> obj[i] == Max(obj))
    ensures forall i, j :: 0 <= i < |obj| && 0 <= j < |obj| ==> (obj[i] <= obj[j] <==> raw[i] >= raw[j])
  {
    seq(|obj|, i requires 0 <= i < |obj| => Max(obj) - obj[i])
  }

  predicate AllEqual(obj: seq<real>) {
    forall i, j :: 0 <= i < |obj| && 0 <= j < |obj| ==> obj[i] == obj[j]
  }

  /** The roulette probabilities, or `None` where the source fails: `max`
      of an empty array raises, and a zero total gives NaN weights, which
      happens exactly when all objectives are equal. Otherwise the draw gets
      a distribution in which the worst individuals have no chance and a
      better objective never gets less weight. */
  function RouletteWeights(obj: seq<real>): (w: Option<seq<real>>)
    ensures w.None? <==> |obj| == 0 || AllEqual(obj)
    ensures w.Some? ==> IsDistribution(w.value, |obj|)
    ensures w.Some? ==> forall i :: 0 <= i < |obj| && obj[i] == Max(obj) ==> w.value[i] == 0.0
    ensures w.Some? ==> forall i, j :: 0 <= i < |obj| && 0 <= j < |obj| && obj[i] <= obj[j] ==>
              w.value[i] >= w.value[j]
    ensures w.Some? ==> RealSum(RouletteRaw(obj)) != 0.0 && w.value == Scaled(RouletteRaw(obj), RealSum(RouletteRaw(obj)))
  {
    if |obj| == 0 then None
    else
      var raw := RouletteRaw(obj);
      RouletteTotalZeroIff(obj);
      if RealSum(raw) == 0.0 then None
      else
        NormalisedFacts(raw);
        Some(Scaled(raw, RealSum(raw)))
  }

  /** The raw roulette total vanishes exactly when all objectives are
      equal. */
  lemma RouletteTotalZeroIff(obj: seq<real>)
    requires |obj| >= 1
    ensures RealSum(RouletteRaw(obj)) == 0.0 <==> AllEqual(obj)
  {
    var raw := RouletteRaw(obj);
    RealSumNonNegative(raw);
    if AllEqual(obj) {
      RealSumZero(raw);
    } else {
      var i, j :| 0 <= i < |obj| && 0 <= j < |obj| && obj[i] != obj[j];
      var k := if obj[i] < obj[j] then i else j;
      assert raw[k] > 0.0;
      RealSumPositive(raw, k);
    }
  }

  /** Normalising a non-negative vector by its non-zero total gives a
      distribution that keeps its zeros and its order. */
  lemma NormalisedFacts(s: seq<real>)
    requires forall i :: 0 <= i < |s| ==> s[i] >= 0.0
    requires RealSum(s) != 0.0
    ensures IsDistribution(Scaled(s, RealSum(s)), |s|)
    ensures forall i :: 0 <= i < |s| && s[i] == 0.0 ==> Scaled(s, RealSum(s))[i] == 0.0
    ensures forall i, j :: 0 <= i < |s| && 0 <= j < |s| && s[i] >= s[j] ==>
              Scaled(s, RealSum(s))[i] >= Scaled(s, RealSum(s))[j]
  {
    var total := RealSum(s);
    var w := Scaled(s, total);
    RealSumNonNegative(s);
    NormalisedSum(s);
    forall i | 0 <= i < |s|
      ensures w[i] >= 0.0
    {
      DivideMonotone(0.0, s[i], total);
    }
    assert 0.0 / total == 0.0;
    forall i | 0 <= i < |s| && s[i] == 0.0
      ensures w[i] == 0.0
    {
      assert w[i] == 0.0 / total;
    }
    forall i, j | 0 <= i < |s| && 0 <= j < |s| && s[i] >= s[j]
      ensures w[i] >= w[j]
    {
      DivideMonotone(s[j], s[i], total);
    }
  }

  lemma {:induction false} RealSumZero(s: seq<real>)
    requires forall i :: 0 <= i < |s| ==> s[i] == 0.0
    ensures RealSum(s) == 0.0
  {
    if |s| > 0 {
      RealSumZero(s[1..]);
    }
  }

  /** Dividing by a non-zero total makes the entries sum to one. */
  lemma NormalisedSum(s: seq<real>)
    requires RealSum(s) != 0.0
    ensures RealSum(Scaled(s, RealSum(s))) == 1.0
  {
    var t := RealSum(s);
    RealSumScaled(s, t);
    assert t / t == 1.0;
  }

  /** The discrepancy: with objectives `[1, 0, 2, 3]`, `alpha = 0` and
      `beta = 2`, the best individual (index 1) gets weight `1/3`, below the
      `1/2` of the second best (index 0), and the third best gets nothing. */
  lemma LinearWeightsAsWrittenMisranks()
    ensures ValidLinear(0.0, 2.0)
    ensures LinearWeightsAsWritten(LinearRanking(0.0, 2.0), [1.0, 0.0, 2.0, 3.0])
            == Some([1.0 / 2.0, 1.0 / 3.0, 0.0, 1.0 / 6.0])
  {
    var obj := [1.0, 0.0, 2.0, 3.0];
    var sel := LinearRanking(0.0, 2.0);
    ExampleArgsort();
    assert Reverse([1, 0, 2, 3]) == [3, 2, 0, 1];
    ExampleWeights();
  }

  lemma ExampleArgsort()
    ensures Argsort([1.0, 0.0, 2.0, 3.0]) == [1, 0, 2, 3]
  {
    ExampleInsertions();
  }

  lemma ExampleInsertions()
    ensures SortPrefix([1.0, 0.0, 2.0, 3.0], 4) == [1, 0, 2, 3]
  {
    var obj := [1.0, 0.0, 2.0, 3.0];
    ExampleSecond();
    ExampleThird();
    ExampleFourth();
  }

  lemma ExampleSecond()
    ensures SortPrefix([1.0, 0.0, 2.0, 3.0], 2) == [1, 0]
  {
    var obj := [1.0, 0.0, 2.0, 3.0];
    assert SortPrefix(obj, 1) == [0];
    assert Insert(obj, [0], 1) == [1, 0];
  }

  lemma ExampleThird()
    ensures Insert([1.0, 0.0, 2.0, 3.0], [1, 0], 2) == [1, 0, 2]
  {
    var obj := [1.0, 0.0, 2.0, 3.0];
    assert Insert(obj, [], 2) == [2];
    assert Insert(obj, [0], 2) == [0, 2];
  }

  lemma ExampleFourth()
    ensures Insert([1.0, 0.0, 2.0, 3.0], [1, 0, 2], 3) == [1, 0, 2, 3]
  {
    var obj := [1.0, 0.0, 2.0, 3.0];
    assert Insert(obj, [], 3) == [3];
    assert Insert(obj, [2], 3) == [2, 3];
    assert Insert(obj, [0, 2], 3) == [0, 2, 3];
  }

  lemma ExampleWeights()
    ensures WeightsOf(LinearRanking(0.0, 2.0), 4, [3, 2, 0, 1]) == [1.0 / 2.0, 1.0 / 3.0, 0.0, 1.0 / 6.0]
  {
    var sel := LinearRanking(0.0, 2.0);
    assert RankWeight(sel, 4, 3) == 1.0 / 2.0;
    assert RankWeight(sel, 4, 2) == 1.0 / 3.0;
    assert RankWeight(sel, 4, 0) == 0.0;
    assert RankWeight(sel, 4, 1) == 1.0 / 6.0;
  }
}
