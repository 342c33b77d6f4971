/** The counting parts of parameter estimation in `src/mallows/utils.py`:
    the Borda consensus `estimate_mean` and the discordance statistic that
    `estimate_theta` feeds to its root finder. A sample matrix is a sequence
    of `m` rows, each of the same length `n`. */
module Estimation {
  import opened Options
  import opened Permutations
  import opened InversionCount
  import opened Sorting
  import opened Metrics
  import opened Distribution

  /** A sample matrix of shape `(m, n)`. */
  predicate Rectangular(samples: seq<seq<nat>>, n: nat) {
    forall k :: 0 <= k < |samples| ==> |samples[k]| == n
  }

  /** Sum of column `j` over the first `m` rows. */
  function ColumnSum(samples: seq<seq<nat>>, n: nat, j: nat): nat
    requires Rectangular(samples, n) && j < n
    decreases |samples|
  {
    if |samples| == 0 then 0
    else samples[0][j] + ColumnSum(samples[1..], n, j)
  }

  /** `samples + 1`: every entry shifted up by one. */
  function Shift(samples: seq<seq<nat>>, n: nat): (shifted: seq<seq<nat>>)
    requires Rectangular(samples, n)
    ensures |shifted| == |samples| && Rectangular(shifted, n)
    ensures forall k, j :: 0 <= k < |samples| && 0 <= j < n ==> shifted[k][j] == samples[k][j] + 1
  {
    seq(|samples|, k requires 0 <= k < |samples| => seq(n, j requires 0 <= j < n => samples[k][j] + 1))
  }

  /** Shifting every row by one adds the number of rows to each column
      sum. */
  lemma {:induction false} ColumnSumShift(samples: seq<seq<nat>>, n: nat, j: nat)
    requires Rectangular(samples, n) && j < n
    ensures ColumnSum(Shift(samples, n), n, j) == ColumnSum(samples, n, j) + |samples|
    decreases |samples|
  {
    if |samples| > 0 {
      assert Shift(samples, n)[1..] == Shift(samples[1..], n);
      ColumnSumShift(samples[1..], n, j);
    }
  }

  /** `np.mean(samples + 1, axis=0)`: column `j` of the shifted rows, summed
      and divided by the number of rows. It equals the plain column mean
      plus one. */
  function ColumnMeans(samples: seq<seq<nat>>, n: nat): (means: seq<real>)
    requires Rectangular(samples, n) && |samples| >= 1
    ensures |means| == n
    ensures forall j :: 0 <= j < n ==>
              means[j] == (ColumnSum(samples, n, j) + |samples|) as real / |samples| as real
  {
    var shifted := Shift(samples, n);
    assert forall j :: 0 <= j < n ==> ColumnSum(shifted, n, j) == ColumnSum(samples, n, j) + |samples| by {
      forall j | 0 <= j < n {
        ColumnSumShift(samples, n, j);
      }
    }
    seq(n, j requires 0 <= j < n => ColumnSum(shifted, n, j) as real / |samples| as real)
  }

  /** The column sums as real keys. */
  function ColumnSums(samples: seq<seq<nat>>, n: nat): (sums: seq<nat>)
    requires Rectangular(samples, n)
    ensures |sums| == n
    ensures forall j :: 0 <= j < n ==> sums[j] == ColumnSum(samples, n, j)
  {
    seq(n, j requires 0 <= j < n => ColumnSum(samples, n, j))
  }

  /** `estimate_mean(samples)`: the argsort of the shifted column means. The
      consensus is a permutation of the column indices that orders them by
      their plain sums. With no rows numpy's means are all NaN and their
      argsort is still a permutation; the model takes the argsort of `n`
      equal keys there. */
  function EstimateMean(samples: seq<seq<nat>>, n: nat): (mean: seq<nat>)
    requires Rectangular(samples, n)
    ensures |mean| == n
    ensures IsPerm(mean)
    ensures IsArgsort(Reals(ColumnSums(samples, n)), mean)
  {
    if |samples| == 0 then
      var keys := seq(n, _ => 0.0);
      ArgsortOrderInvariant(keys, Reals(ColumnSums(samples, n)), Argsort(keys));
      Argsort(keys)
    else
      ShiftedMeansSortLikeSums(samples, n);
      Argsort(ColumnMeans(samples, n))
  }

  /** The shift by one and the division by `m` keep the order of the
      columns, so the argsort of the means is one of the column sums. */
  lemma ShiftedMeansSortLikeSums(samples: seq<seq<nat>>, n: nat)
    requires Rectangular(samples, n) && |samples| >= 1
    ensures IsArgsort(Reals(ColumnSums(samples, n)), Argsort(ColumnMeans(samples, n)))
  {
    var means := ColumnMeans(samples, n);
    var sums := Reals(ColumnSums(samples, n));
    var m := |samples| as real;
    forall i, j | 0 <= i < n && 0 <= j < n
      ensures means[i] <= means[j] <==> sums[i] <= sums[j]
    {
      ShiftedMeanOrder(sums[i], sums[j], m);
    }
    ArgsortOrderInvariant(means, sums, Argsort(means));
  }

  lemma ShiftedMeanOrder(a: real, b: real, m: real)
    requires m > 0.0
    ensures (a + m) / m <= (b + m) / m <==> a <= b
  {
    if a <= b {
      assert (b + m) / m - (a + m) / m == (b - a) / m;
    } else {
      assert (a + m) / m - (b + m) / m == (a - b) / m;
    }
  }

  /** `m` copies of the same row. */
  function Copies(s: seq<nat>, m: nat): (samples: seq<seq<nat>>)
    ensures |samples| == m
    ensures forall k :: 0 <= k < m ==> samples[k] == s
  {
    seq(m, _ => s)
  }

  lemma {:induction false} ColumnSumCopies(s: seq<nat>, m: nat, j: nat)
    requires j < |s|
    ensures ColumnSum(Copies(s, m), |s|, j) == m * s[j]
  {
    if m > 0 {
      assert Copies(s, m)[1..] == Copies(s, m - 1);
      ColumnSumCopies(s, m - 1, j);
    }
  }

  /** The consensus of `m >= 1` copies of a permutation `s` is `argsort(s)`. */
  lemma EstimateMeanOfCopies(s: seq<nat>, m: nat)
    requires IsPerm(s) && m >= 1
    ensures EstimateMean(Copies(s, m), |s|) == Inverse(s)
  {
    var samples := Copies(s, m);
    var idx := EstimateMean(samples, |s|);
    var sums := Reals(ColumnSums(samples, |s|));
    forall i, j | 0 <= i < |s| && 0 <= j < |s|
      ensures sums[i] <= sums[j] <==> Reals(s)[i] <= Reals(s)[j]
    {
      ColumnSumCopies(s, m, i);
      ColumnSumCopies(s, m, j);
      ScaledOrder(s[i], s[j], m);
    }
    ArgsortOrderInvariant(sums, Reals(s), idx);
    ArgsortOfPerm(s, idx);
  }

  lemma ScaledOrder(a: nat, b: nat, m: nat)
    requires m >= 1
    ensures (m * a) as real <= (m * b) as real <==> a <= b
  {
    if a <= b {
      assert m * a <= m * b;
    } else {
      assert m * b < m * a;
    }
  }

  /** The consensus of copies of `argsort(sigma_0)` is `sigma_0` again. */
  lemma EstimateMeanRoundTrip(sigma0: seq<nat>, m: nat)
    requires IsPerm(sigma0) && m >= 1
    ensures EstimateMean(Copies(Inverse(sigma0), m), |sigma0|) == sigma0
  {
    EstimateMeanOfCopies(Inverse(sigma0), m);
    InverseInverse(sigma0);
  }

  /** The sampler's most likely draw, repeated `m` times, leads the
      consensus back to the centre the sampler was given. */
  lemma EstimateMeanOfModalDraws(sigma0: seq<nat>, m: nat)
    requires IsPerm(sigma0) && |sigma0| >= 1 && m >= 1
    ensures Sample(sigma0, ZeroChoices(|sigma0|)).Some?
    ensures EstimateMean(Copies(Sample(sigma0, ZeroChoices(|sigma0|)).value, m), |sigma0|) == sigma0
  {
    ZeroChoicesSampleInverse(sigma0);
    EstimateMeanRoundTrip(sigma0, m);
  }

  // ---------------------------------------------------------------------
  // The discordance statistic of `estimate_theta`

  /** Every row is a permutation of the centre's size. */
  predicate PermRows(samples: seq<seq<nat>>, n: nat) {
    forall k :: 0 <= k < |samples| ==> |samples[k]| == n && IsPerm(samples[k])
  }

  /** Sample `k` read at the positions `argsort(sigma_0)`: row `k` of
      `samples[:, sigma_0_inv]`. */
  function Relabelled(s: seq<nat>, sigma0: seq<nat>): (t: seq<nat>)
    requires IsPerm(sigma0) && |s| == |sigma0|
    ensures |t| == |sigma0|
  {
    Relabel(s, Inverse(sigma0))
  }

  /** Over all samples, the number of later positions `j > i` whose relabelled
      value is below the one at `i`: `V_hat[i] * m`. */
  function RowTotal(samples: seq<seq<nat>>, sigma0: seq<nat>, i: nat): nat
    requires IsPerm(sigma0) && Rectangular(samples, |sigma0|) && i < |sigma0|
    decreases |samples|
  {
    if |samples| == 0 then 0
    else RowCount(Relabelled(samples[0], sigma0), i) + RowTotal(samples[1..], sigma0, i)
  }

  /** The numerators `V_hat * m`. `np.zeros(n - 1)` rejects an empty centre. */
  function VHatNumerators(samples: seq<seq<nat>>, sigma0: seq<nat>): (counts: Option<seq<nat>>)
    requires IsPerm(sigma0) && Rectangular(samples, |sigma0|)
    ensures counts.None? <==> |sigma0| == 0
    ensures counts.Some? ==> |counts.value| == |sigma0| - 1
  {
    if |sigma0| == 0 then None
    else Some(seq(|sigma0| - 1, i requires 0 <= i < |sigma0| - 1 => RowTotal(samples, sigma0, i)))
  }

  /** `V_hat` itself. A one-position centre leaves `np.zeros(0)` untouched,
      whatever the samples; with two or more positions and no samples the
      division by `m` gives NaN. */
  function VHat(samples: seq<seq<nat>>, sigma0: seq<nat>): (vhat: Option<seq<real>>)
    requires IsPerm(sigma0) && Rectangular(samples, |sigma0|)
    ensures vhat.None? <==> |sigma0| == 0 || (|samples| == 0 && |sigma0| >= 2)
    ensures |sigma0| == 1 ==> vhat == Some([])
    ensures vhat.Some? ==> |vhat.value| == |sigma0| - 1
    ensures vhat.Some? ==> forall i :: 0 <= i < |vhat.value| ==>
              vhat.value[i] * |samples| as real == VHatNumerators(samples, sigma0).value[i] as real
  {
    if |sigma0| == 0 then None
    else if |sigma0| == 1 then Some([])
    else if |samples| == 0 then None
    else Some(Quotients(VHatNumerators(samples, sigma0).value, |samples|))
  }

  /** `counts / m` entrywise. */
  function Quotients(counts: seq<nat>, m: nat): (q: seq<real>)
    requires m >= 1
    ensures |q| == |counts|
    ensures forall i :: 0 <= i < |counts| ==> q[i] * m as real == counts[i] as real
  {
    var q := seq(|counts|, i requires 0 <= i < |counts| => counts[i] as real / m as real);
    assert forall i :: 0 <= i < |counts| ==> q[i] * m as real == counts[i] as real by {
      forall i | 0 <= i < |counts|
        ensures q[i] * m as real == counts[i] as real
      {
        DivideThenMultiply(counts[i] as real, m as real);
      }
    }
    q
  }

  lemma DivideThenMultiply(c: real, d: real)
    requires d != 0.0
    ensures (c / d) * d == c
  {
  }

  /** Each sample contributes at most `n - 1 - i` to row `i`. */
  lemma {:induction false} RowTotalBound(samples: seq<seq<nat>>, sigma0: seq<nat>, i: nat)
    requires IsPerm(sigma0) && Rectangular(samples, |sigma0|) && i < |sigma0|
    ensures RowTotal(samples, sigma0, i) <= |samples| * (|sigma0| - 1 - i)
    decreases |samples|
  {
    if |samples| > 0 {
      var c := |sigma0| - 1 - i;
      RowTotalBound(samples[1..], sigma0, i);
      assert RowCount(Relabelled(samples[0], sigma0), i) <= c;
      MultiplyStep(|samples|, c);
    }
  }

  /** `0 <= V_hat[i] <= n - 1 - i`. */
  lemma VHatBound(samples: seq<seq<nat>>, sigma0: seq<nat>, i: nat)
    requires IsPerm(sigma0) && Rectangular(samples, |sigma0|) && |samples| >= 1
    requires i + 1 < |sigma0|
    ensures 0.0 <= VHat(samples, sigma0).value[i] <= (|sigma0| - 1 - i) as real
  {
    var m := |samples|;
    var b := |sigma0| - 1 - i;
    RowTotalBound(samples, sigma0, i);
    var c := RowTotal(samples, sigma0, i);
    assert VHat(samples, sigma0).value[i] == c as real / m as real;
    RealQuotientBound(c, m, b);
  }

  lemma RealQuotientBound(c: nat, m: nat, b: nat)
    requires m >= 1 && c <= m * b
    ensures 0.0 <= c as real / m as real <= b as real
  {
    assert (m * b) as real == m as real * b as real;
    assert c as real <= m as real * b as real;
  }

  /** Sum of the Kendall-tau distances of the samples from the centre. */
  function TotalDistance(samples: seq<seq<nat>>, sigma0: seq<nat>): nat
    requires IsPerm(sigma0) && Rectangular(samples, |sigma0|)
    decreases |samples|
  {
    if |samples| == 0 then 0
    else Distance(samples[0], sigma0) + TotalDistance(samples[1..], sigma0)
  }

  /** The first `k` row totals, summed over all samples. */
  function LeadingTotal(samples: seq<seq<nat>>, sigma0: seq<nat>, k: nat): nat
    requires IsPerm(sigma0) && Rectangular(samples, |sigma0|) && k <= |sigma0|
    decreases |samples|
  {
    if |samples| == 0 then 0
    else LeadingInversions(Relabelled(samples[0], sigma0), k) + LeadingTotal(samples[1..], sigma0, k)
  }

  /** Adding one more row total: summing by rows and by samples agree. */
  lemma {:induction false} LeadingTotalStep(samples: seq<seq<nat>>, sigma0: seq<nat>, k: nat)
    requires IsPerm(sigma0) && Rectangular(samples, |sigma0|) && k < |sigma0|
    ensures LeadingTotal(samples, sigma0, k + 1) == LeadingTotal(samples, sigma0, k) + RowTotal(samples, sigma0, k)
    decreases |samples|
  {
    if |samples| > 0 {
      LeadingTotalStep(samples[1..], sigma0, k);
    }
  }

  /** The prefix sums of the numerators are the leading totals. */
  lemma {:induction false} NumeratorPrefix(samples: seq<seq<nat>>, sigma0: seq<nat>, k: nat)
    requires IsPerm(sigma0) && Rectangular(samples, |sigma0|) && |sigma0| >= 1
    requires k <= |sigma0| - 1
    ensures Sum(VHatNumerators(samples, sigma0).value[..k]) == LeadingTotal(samples, sigma0, k)
  {
    var counts := VHatNumerators(samples, sigma0).value;
    if k == 0 {
      LeadingTotalZero(samples, sigma0);
    } else {
      NumeratorPrefix(samples, sigma0, k - 1);
      var a := counts[..k - 1];
      assert counts[..k] == a + [counts[k - 1]];
      SumConcat(a, [counts[k - 1]]);
      LeadingTotalStep(samples, sigma0, k - 1);
    }
  }

  lemma {:induction false} LeadingTotalZero(samples: seq<seq<nat>>, sigma0: seq<nat>)
    requires IsPerm(sigma0) && Rectangular(samples, |sigma0|)
    ensures LeadingTotal(samples, sigma0, 0) == 0
    decreases |samples|
  {
    if |samples| > 0 {
      LeadingTotalZero(samples[1..], sigma0);
    }
  }

  /** Stopping one row short loses nothing: every sample's leading total over
      `n - 1` rows is its full distance from the centre. */
  lemma {:induction false} LeadingTotalIsDistance(samples: seq<seq<nat>>, sigma0: seq<nat>)
    requires IsPerm(sigma0) && Rectangular(samples, |sigma0|) && |sigma0| >= 1
    ensures LeadingTotal(samples, sigma0, |sigma0| - 1) == TotalDistance(samples, sigma0)
    decreases |samples|
  {
    if |samples| > 0 {
      LeadingTotalIsDistance(samples[1..], sigma0);
      InversionsLastRow(Relabelled(samples[0], sigma0));
    }
  }

  /** `V * m` is the total Kendall-tau distance of the samples from the
      centre, measured by the same `KendallTau` as the metric module. */
  lemma VNumeratorIsTotalDistance(samples: seq<seq<nat>>, sigma0: seq<nat>)
    requires IsPerm(sigma0) && Rectangular(samples, |sigma0|) && |sigma0| >= 1
    ensures Sum(VHatNumerators(samples, sigma0).value) == TotalDistance(samples, sigma0)
  {
    var counts := VHatNumerators(samples, sigma0).value;
    NumeratorPrefix(samples, sigma0, |sigma0| - 1);
    assert counts[..|sigma0| - 1] == counts;
    LeadingTotalIsDistance(samples, sigma0);
  }

  /** `V * m <= m * n(n-1)/2`. */
  lemma {:induction false} TotalDistanceBound(samples: seq<seq<nat>>, sigma0: seq<nat>)
    requires IsPerm(sigma0) && Rectangular(samples, |sigma0|)
    ensures TotalDistance(samples, sigma0) <= |samples| * (|sigma0| * (|sigma0| - 1) / 2)
    decreases |samples|
  {
    if |samples| > 0 {
      TotalDistanceBound(samples[1..], sigma0);
      DistanceBound(samples[0], sigma0);
      MultiplyStep(|samples|, |sigma0| * (|sigma0| - 1) / 2);
    }
  }

  lemma MultiplyStep(m: nat, c: nat)
    requires m >= 1
    ensures m * c == (m - 1) * c + c
  {
  }

  /** Samples that all equal the centre have zero discordance. */
  lemma {:induction false} TotalDistanceAtCentre(samples: seq<seq<nat>>, sigma0: seq<nat>)
    requires IsPerm(sigma0) && Rectangular(samples, |sigma0|)
    requires forall k :: 0 <= k < |samples| ==> samples[k] == sigma0
    ensures TotalDistance(samples, sigma0) == 0
    decreases |samples|
  {
    if |samples| > 0 {
      TotalDistanceAtCentre(samples[1..], sigma0);
      DistanceSelf(sigma0);
    }
  }

  /** `V = sum(V_hat)`, with the bounds `0 <= V <= n(n-1)/2`, and `V == 0`
      exactly when every sample equals the centre. */
  lemma VBounds(samples: seq<seq<nat>>, sigma0: seq<nat>)
    requires IsPerm(sigma0) && PermRows(samples, |sigma0|) && |sigma0| >= 1
    ensures Sum(VHatNumerators(samples, sigma0).value) <= |samples| * (|sigma0| * (|sigma0| - 1) / 2)
    ensures Sum(VHatNumerators(samples, sigma0).value) == 0 <==>
              forall k :: 0 <= k < |samples| ==> samples[k] == sigma0
  {
    VNumeratorIsTotalDistance(samples, sigma0);
    TotalDistanceBound(samples, sigma0);
    TotalDistanceZeroIff(samples, sigma0);
  }

  lemma {:induction false} TotalDistanceZeroIff(samples: seq<seq<nat>>, sigma0: seq<nat>)
    requires IsPerm(sigma0) && PermRows(samples, |sigma0|)
    ensures TotalDistance(samples, sigma0) == 0 <==>
              forall k :: 0 <= k < |samples| ==> samples[k] == sigma0
    decreases |samples|
  {
    if |samples| > 0 {
      TotalDistanceZeroIff(samples[1..], sigma0);
      DistanceZeroIff(samples[0], sigma0);
      if forall k :: 0 <= k < |samples| ==> samples[k] == sigma0 {
        assert forall k :: 0 <= k < |samples| - 1 ==> samples[1..][k] == samples[k + 1];
      } else {
        var k :| 0 <= k < |samples| && samples[k] != sigma0;
        if k > 0 {
          assert samples[1..][k - 1] != sigma0;
        }
      }
    }
  }
}
