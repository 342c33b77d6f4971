/** The Kendall-tau metric of `src/mallows/metrics.py`: invert `q`, read `p`
    through that inverse, and count the inversions of the result. */
module Metrics {
  import opened Options
  import opened Permutations
  import opened InversionCount
  import Sorting

  /** The metric object; its size `n` is fixed at construction and bounds the
      rows the call counts. */
  datatype KendallTau = KendallTau(n: nat)

  /** Kendall-tau distance between `p` and a permutation `q` of the same size:
      the inversions of `p[argsort(q)]`. */
  function Distance(p: seq<nat>, q: seq<nat>): nat
    requires IsPerm(q) && |p| == |q|
  {
    Inversions(Relabel(p, Inverse(q)))
  }

  /** `np.sum(s[i+1:] < s[i])` as the loop numpy runs. */
  method CountRow(s: seq<nat>, i: nat) returns (c: nat)
    requires i < |s|
    ensures c == RowCount(s, i)
    ensures c <= |s| - 1 - i
  {
    c := 0;
    for j := i + 1 to |s|
      invariant c == CountLess(s[i + 1..j], s[i])
    {
      assert s[i + 1..j + 1] == s[i + 1..j] + [s[j]];
      CountLessConcat(s[i + 1..j], [s[j]], s[i]);
      if s[j] < s[i] {
        c := c + 1;
      }
    }
    assert s[i + 1..|s|] == s[i + 1..];
  }

  /** `KendallTau(n)(p, q)`. The call reads `p` at the positions `argsort(q)`
      (an IndexError when `p` is shorter than `q`) and then sums the rows
      `0..n-1` of the result (an IndexError when `n` exceeds its length).
      On a permutation `q` of `p`'s size with `n == |q|` this is the
      Kendall-tau distance. */
  method Call(metric: KendallTau, p: seq<nat>, q: seq<nat>) returns (value: Option<nat>)
    ensures value.None? <==> |p| < |q| || |q| < metric.n
    ensures value.Some? ==> value.value == LeadingInversions(Relabel(p, Sorting.Argsort(Sorting.Reals(q))), metric.n)
    ensures value.Some? ==> 2 * value.value <= metric.n * (2 * |q| - metric.n - 1)
    ensures IsPerm(q) && metric.n == |p| == |q| ==> value == Some(Distance(p, q))
  {
    if |p| < |q| {
      return None;
    }
    var qInv := Sorting.Argsort(Sorting.Reals(q));
    var pqInv := Relabel(p, qInv);
    if |pqInv| < metric.n {
      return None;
    }
    var v := SumRows(pqInv, metric.n);
    LeadingInversionsBound(pqInv, metric.n);
    if IsPerm(q) {
      Sorting.ArgsortPermIsInverse(q);
    }
    return Some(v);
  }

  /** `sum(np.sum(s[i+1:] < s[i]) for i in range(k))`. */
  method SumRows(s: seq<nat>, k: nat) returns (v: nat)
    requires k <= |s|
    ensures v == LeadingInversions(s, k)
  {
    v := 0;
    for i := 0 to k
      invariant v == LeadingInversions(s, i)
    {
      var c := CountRow(s, i);
      v := v + c;
    }
  }

  /** The ordered pairs of items that `p` and `q` rank in opposite orders:
      `q` puts `x` before `y` and `p` puts `y` before `x`. */
  ghost function DiscordantPairs(p: seq<nat>, q: seq<nat>): set<(nat, nat)>
    requires |p| == |q|
  {
    set x: nat, y: nat | x < |p| && y < |p| && q[x] < q[y] && p[y] < p[x] :: (x, y)
  }

  /** `(s[x], s[y])` for a pair of positions of `s`. */
  function PairThrough(s: seq<nat>, t: (nat, nat)): (nat, nat) {
    if t.0 < |s| && t.1 < |s| then (s[t.0], s[t.1]) else t
  }

  lemma PairThroughInjective(s: seq<nat>, a: set<(nat, nat)>)
    requires IsPerm(s)
    requires forall t :: t in a ==> t.0 < |s| && t.1 < |s|
    ensures |set t | t in a :: PairThrough(s, t)| == |a|
    decreases |a|
  {
    if a != {} {
      var t0 :| t0 in a;
      var a' := a - {t0};
      PairThroughInjective(s, a');
      var img' := set t | t in a' :: PairThrough(s, t);
      var x0 := PairThrough(s, t0);
      assert (set t | t in a :: PairThrough(s, t)) == img' + {x0};
      forall u | u in a'
        ensures PairThrough(s, u) != x0
      {
        PermInjective(s, u.0, t0.0);
        PermInjective(s, u.1, t0.1);
      }
      assert x0 !in img';
    }
  }

  lemma InversionsThroughInverse(p: seq<nat>, q: seq<nat>)
    requires IsPerm(q) && |p| == |q|
    ensures (set t | t in InversionPairs(Relabel(p, Inverse(q))) :: PairThrough(Inverse(q), t))
            == DiscordantPairs(p, q)
  {
    var qi := Inverse(q);
    var a := InversionPairs(Relabel(p, qi));
    var image := set t | t in a :: PairThrough(qi, t);
    var d := DiscordantPairs(p, q);
    forall u | u in a
      ensures PairThrough(qi, u) in d
    {
      InversionIsDiscordant(p, q, u);
    }
    forall t | t in d
      ensures t in image
    {
      DiscordantIsInversion(p, q, t);
    }
  }

  /** An inversion `(i, j)` of `p[argsort(q)]` names the discordant pair of
      the items `q` ranks `i`-th and `j`-th. */
  lemma InversionIsDiscordant(p: seq<nat>, q: seq<nat>, u: (nat, nat))
    requires IsPerm(q) && |p| == |q|
    requires u in InversionPairs(Relabel(p, Inverse(q)))
    ensures PairThrough(Inverse(q), u) in DiscordantPairs(p, q)
  {
    var qi := Inverse(q);
    var pq := Relabel(p, qi);
    var x, y := qi[u.0], qi[u.1];
    assert q[x] == u.0 && q[y] == u.1;
    assert pq[u.0] == p[x] && pq[u.1] == p[y];
  }

  /** A discordant pair `(x, y)` comes from the inversion at the ranks `q`
      gives `x` and `y`. */
  lemma DiscordantIsInversion(p: seq<nat>, q: seq<nat>, t: (nat, nat))
    requires IsPerm(q) && |p| == |q|
    requires t in DiscordantPairs(p, q)
    ensures exists u :: u in InversionPairs(Relabel(p, Inverse(q))) && PairThrough(Inverse(q), u) == t
  {
    var qi := Inverse(q);
    var pq := Relabel(p, qi);
    var x, y := t.0, t.1;
    var u := (q[x], q[y]);
    assert qi[q[x]] == x && qi[q[y]] == y;
    assert pq[q[x]] == p[x] && pq[q[y]] == p[y];
    assert u in InversionPairs(pq);
    assert PairThrough(qi, u) == t;
  }

  /** The distance counts the discordant pairs: the computation through
      `argsort(q)` agrees with the textbook definition. */
  lemma DistanceIsDiscordance(p: seq<nat>, q: seq<nat>)
    requires IsPerm(q) && |p| == |q|
    ensures Distance(p, q) == |DiscordantPairs(p, q)|
  {
    var pq := Relabel(p, Inverse(q));
    InversionsArePairs(pq);
    PairThroughInjective(Inverse(q), InversionPairs(pq));
    InversionsThroughInverse(p, q);
  }

  /** `distance(p, p) == 0`: `p[argsort(p)]` is the identity. */
  lemma DistanceSelf(p: seq<nat>)
    requires IsPerm(p)
    ensures Distance(p, p) == 0
  {
    RelabelInverse(p);
    RangeInversions(|p|);
  }

  /** The distance to the identity is the number of inversions. */
  lemma DistanceToIdentity(p: seq<nat>)
    ensures IsPerm(Range(|p|))
    ensures Distance(p, Range(|p|)) == Inversions(p)
  {
    InverseRange(|p|);
    assert Relabel(p, Range(|p|)) == p;
  }

  /** The distance vanishes only between equal permutations. */
  lemma DistanceZeroIff(p: seq<nat>, q: seq<nat>)
    requires IsPerm(p) && IsPerm(q) && |p| == |q|
    ensures Distance(p, q) == 0 <==> p == q
  {
    if p == q {
      DistanceSelf(p);
    }
    if Distance(p, q) == 0 {
      var qi := Inverse(q);
      var pq := Relabel(p, qi);
      RelabelPerm(p, qi);
      InversionsZeroIffSorted(pq);
      SortedPermIsRange(pq);
      forall x | 0 <= x < |p|
        ensures p[x] == q[x]
      {
        assert pq[q[x]] == q[x];
      }
    }
  }

  lemma SwapCard(a: set<(nat, nat)>)
    ensures |set t | t in a :: (t.1, t.0)| == |a|
    decreases |a|
  {
    if a != {} {
      var t0 :| t0 in a;
      var a' := a - {t0};
      SwapCard(a');
      assert (set t | t in a :: (t.1, t.0)) == (set t | t in a' :: (t.1, t.0)) + {(t0.1, t0.0)};
    }
  }

  lemma SwapImage(p: seq<nat>, q: seq<nat>)
    requires |p| == |q|
    ensures (set t | t in DiscordantPairs(p, q) :: (t.1, t.0)) == DiscordantPairs(q, p)
  {
    var d := DiscordantPairs(p, q);
    forall t | t in DiscordantPairs(q, p)
      ensures t in (set t | t in d :: (t.1, t.0))
    {
      assert (t.1, t.0) in d;
    }
  }

  lemma DistanceSymmetric(p: seq<nat>, q: seq<nat>)
    requires IsPerm(p) && IsPerm(q) && |p| == |q|
    ensures Distance(p, q) == Distance(q, p)
  {
    DistanceIsDiscordance(p, q);
    DistanceIsDiscordance(q, p);
    SwapCard(DiscordantPairs(p, q));
    SwapImage(p, q);
  }

  /** Every pair discordant between `p` and `q` is discordant between `p`
      and `r` or between `r` and `q`. */
  lemma DistanceTriangle(p: seq<nat>, q: seq<nat>, r: seq<nat>)
    requires IsPerm(p) && IsPerm(q) && IsPerm(r) && |p| == |q| == |r|
    ensures Distance(p, q) <= Distance(p, r) + Distance(r, q)
  {
    DistanceIsDiscordance(p, q);
    DistanceIsDiscordance(p, r);
    DistanceIsDiscordance(r, q);
    var a := DiscordantPairs(p, r);
    var b := DiscordantPairs(r, q);
    forall t | t in DiscordantPairs(p, q)
      ensures t in a + b
    {
    }
    SubsetCard(DiscordantPairs(p, q), a + b);
  }

  lemma RelabelledPairsImage(p: seq<nat>, q: seq<nat>, r: seq<nat>)
    requires IsPerm(q) && IsPerm(r) && |p| == |q| == |r|
    ensures (set t | t in DiscordantPairs(Relabel(p, r), Relabel(q, r)) :: PairThrough(r, t))
            == DiscordantPairs(p, q)
  {
    var d := DiscordantPairs(Relabel(p, r), Relabel(q, r));
    var image := set t | t in d :: PairThrough(r, t);
    forall u | u in d
      ensures PairThrough(r, u) in DiscordantPairs(p, q)
    {
      RelabelledPairIsDiscordant(p, q, r, u);
    }
    forall t | t in DiscordantPairs(p, q)
      ensures t in image
    {
      DiscordantPairIsRelabelled(p, q, r, t);
    }
  }

  /** A pair discordant after relabelling by `r` is, read through `r`, a
      discordant pair of the originals. */
  lemma RelabelledPairIsDiscordant(p: seq<nat>, q: seq<nat>, r: seq<nat>, u: (nat, nat))
    requires IsPerm(q) && IsPerm(r) && |p| == |q| == |r|
    requires u in DiscordantPairs(Relabel(p, r), Relabel(q, r))
    ensures PairThrough(r, u) in DiscordantPairs(p, q)
  {
    assert u.0 < |r| && u.1 < |r|;
  }

  /** Every discordant pair of the originals comes from one after
      relabelling: the pair of its positions under `r`'s inverse. */
  lemma DiscordantPairIsRelabelled(p: seq<nat>, q: seq<nat>, r: seq<nat>, t: (nat, nat))
    requires IsPerm(q) && IsPerm(r) && |p| == |q| == |r|
    requires t in DiscordantPairs(p, q)
    ensures exists u :: u in DiscordantPairs(Relabel(p, r), Relabel(q, r)) && PairThrough(r, u) == t
  {
    var ri := Inverse(r);
    var u := (ri[t.0], ri[t.1]);
    assert r[u.0] == t.0 && r[u.1] == t.1;
    assert u in DiscordantPairs(Relabel(p, r), Relabel(q, r));
  }

  /** Reading both arguments through the same permutation `r` leaves the
      distance unchanged: only `p ∘ q⁻¹` is inspected. */
  lemma DistanceRightInvariant(p: seq<nat>, q: seq<nat>, r: seq<nat>)
    requires IsPerm(q) && IsPerm(r) && |p| == |q| == |r|
    ensures IsPerm(Relabel(q, r))
    ensures Distance(Relabel(p, r), Relabel(q, r)) == Distance(p, q)
  {
    RelabelPerm(q, r);
    DistanceIsDiscordance(p, q);
    DistanceIsDiscordance(Relabel(p, r), Relabel(q, r));
    PairThroughInjective(r, DiscordantPairs(Relabel(p, r), Relabel(q, r)));
    RelabelledPairsImage(p, q, r);
  }

  /** `0 <= distance(p, q) <= n(n-1)/2`. */
  lemma DistanceBound(p: seq<nat>, q: seq<nat>)
    requires IsPerm(q) && |p| == |q|
    ensures Distance(p, q) <= |p| * (|p| - 1) / 2
  {
    InversionsBound(Relabel(p, Inverse(q)));
  }
}
