/** The deterministic skeleton of `Mallows.sample` in
    `src/mallows/distribution.py`. The random draw of stage `j` is an input:
    a choice vector `r` with `r[j] < n - j`. Stage `j` takes the `r[j]`-th
    smallest value still in the pool, deletes it and appends it to `pi`; the
    last value left fills `pi[n-1]`; the sample is `pi[argsort(sigma_0)]`.
    Decoding a choice vector this way is Lehmer-code decoding. */
module Distribution {
  import opened Options
  import opened Permutations
  import opened InversionCount
  import opened Metrics

  /** One choice per stage `j` in `0..n-2`, each below the `n - j` values
      still in the pool: the support of `np.random.choice(np.arange(0, n - j))`. */
  predicate ValidChoices(r: seq<nat>, n: nat) {
    && |r| == (if n == 0 then 0 else n - 1)
    && forall j :: 0 <= j < |r| ==> r[j] < n - j
  }

  /** Strictly ascending values. */
  predicate Increasing(s: seq<nat>) {
    forall i, j :: 0 <= i < j < |s| ==> s[i] < s[j]
  }

  /** Deleting from the pool keeps it ascending and shrinks it by one. */
  lemma RemoveKeepsIncreasing(pool: seq<nat>, k: nat)
    requires Increasing(pool) && k < |pool|
    ensures Increasing(Remove(pool, k))
    ensures |Remove(pool, k)| == |pool| - 1
  {
    var r := Remove(pool, k);
    forall i, j | 0 <= i < j < |r|
      ensures r[i] < r[j]
    {
      var i' := if i < k then i else i + 1;
      var j' := if j < k then j else j + 1;
      assert r[i] == pool[i'] && r[j] == pool[j'];
    }
  }

  /** Stage-by-stage decoding from a pool of remaining values. */
  function DecodeFrom(pool: seq<nat>, r: seq<nat>): (pi: seq<nat>)
    requires |pool| == |r| + 1
    requires forall j :: 0 <= j < |r| ==> r[j] < |pool| - j
    ensures |pi| == |pool|
    decreases |r|
  {
    if |r| == 0 then [pool[0]]
    else [pool[r[0]]] + DecodeFrom(Remove(pool, r[0]), r[1..])
  }

  /** One stage of decoding: place the chosen value, decode the rest. */
  lemma DecodeStep(pool: seq<nat>, r: seq<nat>)
    requires |pool| == |r| + 1 && |r| > 0
    requires forall j :: 0 <= j < |r| ==> r[j] < |pool| - j
    ensures DecodeFrom(pool, r) == [pool[r[0]]] + DecodeFrom(Remove(pool, r[0]), r[1..])
  {
  }

  /** Decoding uses every value of the pool exactly once. */
  lemma {:induction false} DecodeFromMultiset(pool: seq<nat>, r: seq<nat>)
    requires |pool| == |r| + 1
    requires forall j :: 0 <= j < |r| ==> r[j] < |pool| - j
    ensures multiset(DecodeFrom(pool, r)) == multiset(pool)
    decreases |r|
  {
    if |r| == 0 {
      assert pool == [pool[0]];
    } else {
      var rest := Remove(pool, r[0]);
      DecodeFromMultiset(rest, r[1..]);
      assert DecodeFrom(pool, r) == [pool[r[0]]] + DecodeFrom(rest, r[1..]);
    }
  }

  /** The intermediate ranking `pi` for size `n >= 1`. */
  function Decode(r: seq<nat>, n: nat): (pi: seq<nat>)
    requires n >= 1 && ValidChoices(r, n)
    ensures |pi| == n
    ensures IsPerm(pi)
  {
    var pi := DecodeFrom(Range(n), r);
    DecodeFromMultiset(Range(n), r);
    MultisetPerm(pi);
    pi
  }

  /** In an ascending pool, exactly `k` values are below `pool[k]`, and
      that stays so once `pool[k]` itself is deleted. */
  lemma CountBelowInPool(pool: seq<nat>, k: nat)
    requires Increasing(pool) && k < |pool|
    ensures CountLess(pool, pool[k]) == k
    ensures CountLess(Remove(pool, k), pool[k]) == k
  {
    var v := pool[k];
    var a, b, c := pool[..k], pool[k..], pool[k + 1..];
    PrefixBelow(pool, k);
    SuffixAbove(pool, k);
    assert pool == a + b;
    CountLessConcat(a, b, v);
    assert Remove(pool, k) == a + c;
    CountLessConcat(a, c, v);
  }

  /** Every value before position `k` of an ascending pool is below `pool[k]`. */
  lemma PrefixBelow(pool: seq<nat>, k: nat)
    requires Increasing(pool) && k < |pool|
    ensures CountLess(pool[..k], pool[k]) == k
  {
    var a := pool[..k];
    forall j | 0 <= j < |a|
      ensures a[j] < pool[k]
    {
      assert a[j] == pool[j];
    }
    CountLessAll(a, pool[k]);
  }

  /** No value from position `k` on is below `pool[k]`. */
  lemma SuffixAbove(pool: seq<nat>, k: nat)
    requires Increasing(pool) && k < |pool|
    ensures CountLess(pool[k..], pool[k]) == 0
    ensures CountLess(pool[k + 1..], pool[k]) == 0
  {
    var b, c := pool[k..], pool[k + 1..];
    forall j | 0 <= j < |b|
      ensures pool[k] <= b[j]
    {
      assert b[j] == pool[k + j];
    }
    forall j | 0 <= j < |c|
      ensures pool[k] <= c[j]
    {
      assert c[j] == pool[k + 1 + j];
    }
    CountLessNone(b, pool[k]);
    CountLessNone(c, pool[k]);
  }

  /** The Lehmer code of `pi`: for each position but the last, how many later
      entries are smaller. */
  function LehmerCode(pi: seq<nat>): (code: seq<nat>)
    ensures |code| == if |pi| == 0 then 0 else |pi| - 1
  {
    if |pi| <= 1 then [] else [CountLess(pi[1..], pi[0])] + LehmerCode(pi[1..])
  }

  /** The Lehmer code lists the row counts of the inversion count. */
  lemma {:induction false} LehmerCodeRows(pi: seq<nat>, j: nat)
    requires j + 1 < |pi|
    ensures LehmerCode(pi)[j] == RowCount(pi, j)
  {
    if j > 0 {
      LehmerCodeRows(pi[1..], j - 1);
      assert pi[1..][j..] == pi[j + 1..];
    }
  }

  /** Lehmer property: `pi[j]` has exactly `r[j]` smaller values after it, so
      decoding and then encoding gives the choices back. */
  lemma {:induction false} LehmerOfDecode(pool: seq<nat>, r: seq<nat>)
    requires Increasing(pool)
    requires |pool| == |r| + 1
    requires forall j :: 0 <= j < |r| ==> r[j] < |pool| - j
    ensures LehmerCode(DecodeFrom(pool, r)) == r
    decreases |r|
  {
    if |r| > 0 {
      var v := pool[r[0]];
      var pool' := Remove(pool, r[0]);
      var rest := DecodeFrom(pool', r[1..]);
      var pi := DecodeFrom(pool, r);
      assert pi == [v] + rest;
      RemoveKeepsIncreasing(pool, r[0]);
      LehmerOfDecode(pool', r[1..]);
      DecodeFromMultiset(pool', r[1..]);
      CountLessMultiset(rest, pool', v);
      CountBelowInPool(pool, r[0]);
      assert pi[1..] == rest && pi[0] == v;
      assert LehmerCode(pi) == [r[0]] + r[1..];
    }
  }

  /** Every choice vector is the Lehmer code of its decoding. */
  lemma DecodeLehmer(r: seq<nat>, n: nat)
    requires n >= 1 && ValidChoices(r, n)
    ensures LehmerCode(Decode(r, n)) == r
  {
    LehmerOfDecode(Range(n), r);
  }

  /** The Lehmer code of a permutation is a valid choice vector. */
  lemma LehmerCodeValid(pi: seq<nat>)
    requires |pi| >= 1
    ensures ValidChoices(LehmerCode(pi), |pi|)
  {
    var code := LehmerCode(pi);
    forall j | 0 <= j < |code|
      ensures code[j] < |pi| - j
    {
      LehmerCodeRows(pi, j);
    }
  }

  /** Decoding the Lehmer code of any arrangement of the pool rebuilds it. */
  lemma {:induction false} DecodeOfLehmer(pool: seq<nat>, pi: seq<nat>)
    requires Increasing(pool) && |pool| >= 1
    requires multiset(pi) == multiset(pool)
    ensures |pi| == |pool|
    ensures forall j :: 0 <= j < |LehmerCode(pi)| ==> LehmerCode(pi)[j] < |pool| - j
    ensures DecodeFrom(pool, LehmerCode(pi)) == pi
    decreases |pool|
  {
    assert |pi| == |multiset(pi)| == |pool|;
    LehmerCodeValid(pi);
    if |pi| > 1 {
      var k := LehmerHead(pool, pi);
      var pool' := Remove(pool, k);
      var code := LehmerCode(pi);
      RemoveKeepsIncreasing(pool, k);
      DecodeOfLehmer(pool', pi[1..]);
      assert code == [k] + LehmerCode(pi[1..]);
      assert code[0] == k && code[1..] == LehmerCode(pi[1..]);
      DecodeStep(pool, code);
      assert pi == [pi[0]] + pi[1..];
    } else {
      assert pool == [pool[0]] && pi == [pi[0]];
      assert pi[0] in multiset(pool);
    }
  }

  /** The head of an arrangement of the pool sits at pool position `k`, which
      is also its first Lehmer digit; the tail arranges the rest of the pool. */
  lemma LehmerHead(pool: seq<nat>, pi: seq<nat>) returns (k: nat)
    requires Increasing(pool) && |pi| >= 1
    requires multiset(pi) == multiset(pool)
    ensures k < |pool| && pool[k] == pi[0]
    ensures CountLess(pi[1..], pi[0]) == k
    ensures multiset(pi[1..]) == multiset(Remove(pool, k))
  {
    var x := pi[0];
    assert x in multiset(pool);
    k := IndexOf(pool, x);
    CountBelowInPool(pool, k);
    assert pi == [x] + pi[1..];
    assert multiset(pi[1..]) == multiset(pi) - multiset{x};
    CountLessConcat([x], pi[1..], x);
    CountLessMultiset(pi, pool, x);
  }

  /** Every permutation is the decoding of exactly one choice vector: its
      Lehmer code. */
  lemma EncodeDecode(pi: seq<nat>)
    requires IsPerm(pi) && |pi| >= 1
    ensures ValidChoices(LehmerCode(pi), |pi|)
    ensures Decode(LehmerCode(pi), |pi|) == pi
  {
    LehmerCodeValid(pi);
    PermMultiset(pi);
    DecodeOfLehmer(Range(|pi|), pi);
  }

  /** Distinct valid choice vectors decode to distinct rankings. */
  lemma DecodeInjective(r1: seq<nat>, r2: seq<nat>, n: nat)
    requires n >= 1 && ValidChoices(r1, n) && ValidChoices(r2, n)
    ensures Decode(r1, n) == Decode(r2, n) ==> r1 == r2
  {
    DecodeLehmer(r1, n);
    DecodeLehmer(r2, n);
  }

  /** `inversions(pi) == sum of r`. */
  lemma {:induction false} InversionsOfDecodeFrom(pool: seq<nat>, r: seq<nat>)
    requires Increasing(pool)
    requires |pool| == |r| + 1
    requires forall j :: 0 <= j < |r| ==> r[j] < |pool| - j
    ensures Inversions(DecodeFrom(pool, r)) == Sum(r)
    decreases |r|
  {
    var pi := DecodeFrom(pool, r);
    if |r| == 0 {
      assert pi == [pool[0]] && pi[1..] == [];
      assert Inversions(pi) == LeadingInversions(pi, 0) + RowCount(pi, 0);
      assert Sum(r) == 0;
    } else {
      var pool' := Remove(pool, r[0]);
      RemoveKeepsIncreasing(pool, r[0]);
      InversionsOfDecodeFrom(pool', r[1..]);
      assert pi == [pool[r[0]]] + DecodeFrom(pool', r[1..]);
      InversionsCons(pool[r[0]], DecodeFrom(pool', r[1..]));
      DecodeFromMultiset(pool', r[1..]);
      CountLessMultiset(DecodeFrom(pool', r[1..]), pool', pool[r[0]]);
      CountBelowInPool(pool, r[0]);
    }
  }

  lemma InversionsOfDecode(r: seq<nat>, n: nat)
    requires n >= 1 && ValidChoices(r, n)
    ensures Inversions(Decode(r, n)) == Sum(r)
  {
    InversionsOfDecodeFrom(Range(n), r);
  }

  /** `Mallows.sample` with the stage choices supplied. With an empty
      centre the list of possible values is empty, so reading its first
      element for the last position raises `IndexError`. */
  function Sample(sigma0: seq<nat>, r: seq<nat>): (sigma: Option<seq<nat>>)
    requires IsPerm(sigma0) && ValidChoices(r, |sigma0|)
    ensures sigma.None? <==> |sigma0| == 0
    ensures sigma.Some? ==> |sigma.value| == |sigma0| && IsPerm(sigma.value)
  {
    if |sigma0| == 0 then None
    else
      var pi := Decode(r, |sigma0|);
      RelabelPerm(pi, Inverse(sigma0));
      Some(Relabel(pi, Inverse(sigma0)))
  }

  /** The state of the sampling loop before stage `j`: `pi` holds the
      first `j` decoded values and `pool` the values still to place. */
  predicate Stage(r: seq<nat>, n: nat, j: nat, pi: seq<nat>, pool: seq<nat>) {
    && n >= 1 && ValidChoices(r, n) && j <= n - 1
    && |pool| == n - j && |pi| == n
    && pi[..j] + DecodeFrom(pool, r[j..]) == Decode(r, n)
  }

  lemma StageStep(r: seq<nat>, n: nat, j: nat, pi: seq<nat>, pool: seq<nat>)
    requires Stage(r, n, j, pi, pool) && j < n - 1
    ensures Stage(r, n, j + 1, pi[j := pool[r[j]]], Remove(pool, r[j]))
  {
    var v := pool[r[j]];
    DecodeStep(pool, r[j..]);
    assert r[j..][1..] == r[j + 1..];
    assert pi[j := v][..j + 1] == pi[..j] + [v];
  }

  lemma StageLast(r: seq<nat>, n: nat, pi: seq<nat>, pool: seq<nat>)
    requires n >= 1 && Stage(r, n, n - 1, pi, pool)
    ensures pi[n - 1 := pool[0]] == Decode(r, n)
  {
    assert r[n - 1..] == [];
    assert pi[n - 1 := pool[0]] == pi[..n - 1] + [pool[0]];
  }

  /** The loop of `Mallows.sample` as written: a pool of possible values,
      one deletion per stage, the last value placed at the end. */
  method SampleByDeletion(sigma0: seq<nat>, r: seq<nat>) returns (sigma: Option<seq<nat>>)
    requires IsPerm(sigma0) && ValidChoices(r, |sigma0|)
    ensures sigma == Sample(sigma0, r)
  {
    var n := |sigma0|;
    if n == 0 {
      return None;
    }
    var possibleValues := Range(n);
    var pi: seq<nat> := seq(n, _ => 0);
    assert r[0..] == r && pi[..0] == [];
    for j := 0 to n - 1
      invariant Stage(r, n, j, pi, possibleValues)
    {
      StageStep(r, n, j, pi, possibleValues);
      pi := pi[j := possibleValues[r[j]]];
      possibleValues := Remove(possibleValues, r[j]);
    }
    StageLast(r, n, pi, possibleValues);
    pi := pi[n - 1 := possibleValues[0]];
    return Some(Relabel(pi, Inverse(sigma0)));
  }

  /** Reading the sample through the centre gives back `pi`: `sigma[sigma_0] == pi`. */
  lemma SampleThroughCentre(sigma0: seq<nat>, r: seq<nat>)
    requires IsPerm(sigma0) && |sigma0| >= 1 && ValidChoices(r, |sigma0|)
    ensures Relabel(Sample(sigma0, r).value, sigma0) == Decode(r, |sigma0|)
  {
    var pi := Decode(r, |sigma0|);
    RelabelAssoc(pi, Inverse(sigma0), sigma0);
    RelabelInverse(sigma0);
    RelabelRange(pi);
  }

  /** The sample lies at Kendall-tau distance `sum of r` from
      `argsort(sigma_0)`. */
  lemma SampleDistance(sigma0: seq<nat>, r: seq<nat>)
    requires IsPerm(sigma0) && |sigma0| >= 1 && ValidChoices(r, |sigma0|)
    ensures Distance(Sample(sigma0, r).value, Inverse(sigma0)) == Sum(r)
  {
    InverseInverse(sigma0);
    SampleThroughCentre(sigma0, r);
    InversionsOfDecode(r, |sigma0|);
  }

  /** Every permutation of the centre's size can be sampled, by the Lehmer
      code of `sigma[sigma_0]`. */
  lemma SampleSurjective(sigma0: seq<nat>, sigma: seq<nat>)
    requires IsPerm(sigma0) && IsPerm(sigma) && |sigma| == |sigma0| >= 1
    ensures ValidChoices(LehmerCode(Relabel(sigma, sigma0)), |sigma0|)
    ensures Sample(sigma0, LehmerCode(Relabel(sigma, sigma0))) == Some(sigma)
  {
    var pi := Relabel(sigma, sigma0);
    RelabelPerm(sigma, sigma0);
    EncodeDecode(pi);
    RelabelAssoc(sigma, sigma0, Inverse(sigma0));
    RelabelInverse(sigma0);
    RelabelRange(sigma);
  }

  /** Distinct valid choice vectors give distinct samples. */
  lemma SampleInjective(sigma0: seq<nat>, r1: seq<nat>, r2: seq<nat>)
    requires IsPerm(sigma0) && ValidChoices(r1, |sigma0|) && ValidChoices(r2, |sigma0|)
    requires |sigma0| >= 1
    ensures Sample(sigma0, r1) == Sample(sigma0, r2) ==> r1 == r2
  {
    if Sample(sigma0, r1) == Sample(sigma0, r2) {
      SampleThroughCentre(sigma0, r1);
      SampleThroughCentre(sigma0, r2);
      DecodeInjective(r1, r2, |sigma0|);
    }
  }

  /** The all-zero choice vector of size `n`. */
  function ZeroChoices(n: nat): (r: seq<nat>)
    ensures ValidChoices(r, n)
  {
    seq(if n == 0 then 0 else n - 1, _ => 0)
  }

  lemma {:induction false} DecodeZeros(pool: seq<nat>, r: seq<nat>)
    requires |pool| == |r| + 1
    requires forall j :: 0 <= j < |r| ==> r[j] == 0
    ensures DecodeFrom(pool, r) == pool
    decreases |r|
  {
    if |r| > 0 {
      DecodeStep(pool, r);
      var rest := Remove(pool, 0);
      assert rest == pool[1..];
      DecodeZeros(rest, r[1..]);
      assert pool == [pool[0]] + pool[1..];
    } else {
      assert pool == [pool[0]];
    }
  }

  /** With every stage choosing the smallest value, `pi` is the identity and
      the sample is `argsort(sigma_0)`, the inverse of the centre. */
  lemma ZeroChoicesSampleInverse(sigma0: seq<nat>)
    requires IsPerm(sigma0) && |sigma0| >= 1
    ensures Decode(ZeroChoices(|sigma0|), |sigma0|) == Range(|sigma0|)
    ensures Sample(sigma0, ZeroChoices(|sigma0|)) == Some(Inverse(sigma0))
  {
    DecodeZeros(Range(|sigma0|), ZeroChoices(|sigma0|));
    RelabelRange(Inverse(sigma0));
  }

  /** The likelihood `probability` measures distance from `sigma_0` itself,
      while the most likely draw (all choices zero) is `argsort(sigma_0)`:
      the two agree exactly when the centre is an involution. */
  lemma SampleCentreMismatch(sigma0: seq<nat>)
    requires IsPerm(sigma0) && |sigma0| >= 1
    ensures Sample(sigma0, ZeroChoices(|sigma0|)) == Some(sigma0) <==> IsInvolution(sigma0)
  {
    ZeroChoicesSampleInverse(sigma0);
    InvolutionIffSelfInverse(sigma0);
  }

  /** A centre that is not an involution: the all-zero draw lands at distance
      2 from the centre that `probability` uses. */
  lemma CentreMismatchWitness()
    ensures IsPerm([1, 2, 0])
    ensures Sample([1, 2, 0], [0, 0]) == Some([2, 0, 1])
    ensures Distance([2, 0, 1], [1, 2, 0]) == 2
  {
    var c: seq<nat> := [1, 2, 0];
    WitnessInverse();
    assert ZeroChoices(3) == [0, 0];
    ZeroChoicesSampleInverse(c);
    WitnessRelabel();
    WitnessInversions();
  }

  lemma WitnessInverse()
    ensures IsPerm([1, 2, 0])
    ensures Inverse([1, 2, 0]) == [2, 0, 1]
  {
    var c: seq<nat> := [1, 2, 0];
    assert c[2] == 0 && c[0] == 1 && c[1] == 2;
    assert IsPerm(c);
    var ci: seq<nat> := [2, 0, 1];
    assert ci[c[0]] == 0 && ci[c[1]] == 1 && ci[c[2]] == 2;
    InverseUnique(c, ci);
  }

  lemma WitnessRelabel()
    ensures Relabel([2, 0, 1], [2, 0, 1]) == [1, 2, 0]
  {
  }

  lemma WitnessInversions()
    ensures Inversions([1, 2, 0]) == 2
  {
    var s: seq<nat> := [1, 2, 0];
    assert s[1..] == [2, 0] && s[2..] == [0] && s[3..] == [];
    assert CountLess([2, 0], 1) == 1 by {
      assert [2, 0][1..] == [0] && [0][1..] == [];
    }
    assert CountLess([0], 2) == 1 by {
      assert [0][1..] == [];
    }
    assert Inversions(s) == RowCount(s, 0) + RowCount(s, 1) + RowCount(s, 2);
  }

  /** `sample_n(k)` with one choice vector per sample: `k` samples of the
      centre's size. With `k == 0` nothing is drawn, so an empty centre only
      raises when at least one sample is requested. */
  function SampleN(sigma0: seq<nat>, rs: seq<seq<nat>>): (samples: Option<seq<seq<nat>>>)
    requires IsPerm(sigma0)
    requires forall k :: 0 <= k < |rs| ==> ValidChoices(rs[k], |sigma0|)
    ensures samples.None? <==> |rs| > 0 && |sigma0| == 0
    ensures samples.Some? ==> |samples.value| == |rs|
    ensures samples.Some? ==> forall k :: 0 <= k < |rs| ==>
              |samples.value[k]| == |sigma0| && IsPerm(samples.value[k])
              && Some(samples.value[k]) == Sample(sigma0, rs[k])
  {
    if |rs| == 0 then Some([])
    else if |sigma0| == 0 then None
    else Some(seq(|rs|, k requires 0 <= k < |rs| => Sample(sigma0, rs[k]).value))
  }
}
