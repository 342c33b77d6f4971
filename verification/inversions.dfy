/** Inversion counting: for each position, how many later entries are
    smaller. This is the inner computation of the Kendall-tau metric and of
    the empirical discordance statistic of the dispersion estimator. */
module InversionCount {
  import opened Permutations

  /** Number of entries of `s` strictly below `v`, numpy's `np.sum(s < v)`. */
  function CountLess(s: seq<nat>, v: nat): (c: nat)
    ensures c <= |s|
  {
    if |s| == 0 then 0 else (if s[0] < v then 1 else 0) + CountLess(s[1..], v)
  }

  lemma {:induction false} CountLessConcat(a: seq<nat>, b: seq<nat>, v: nat)
    ensures CountLess(a + b, v) == CountLess(a, v) + CountLess(b, v)
    decreases |a|
  {
    if |a| == 0 {
      assert a + b == b;
    } else {
      assert (a + b)[1..] == a[1..] + b;
      CountLessConcat(a[1..], b, v);
    }
  }

  /** Deleting one entry removes exactly its own contribution. */
  lemma CountLessRemove(s: seq<nat>, k: nat, v: nat)
    requires k < |s|
    ensures CountLess(s, v) == CountLess(Remove(s, k), v) + (if s[k] < v then 1 else 0)
  {
    assert s == s[..k] + [s[k]] + s[k + 1..];
    CountLessConcat(s[..k] + [s[k]], s[k + 1..], v);
    CountLessConcat(s[..k], [s[k]], v);
    CountLessConcat(s[..k], s[k + 1..], v);
  }

  /** The count depends only on the multiset of entries. */
  lemma {:induction false} CountLessMultiset(a: seq<nat>, b: seq<nat>, v: nat)
    requires multiset(a) == multiset(b)
    ensures CountLess(a, v) == CountLess(b, v)
    decreases |a|
  {
    if |a| == 0 {
      assert |b| == |multiset(b)| == 0;
    } else {
      var x := a[0];
      assert x in multiset(b);
      var k := IndexOf(b, x);
      var b' := Remove(b, k);
      assert a == [x] + a[1..];
      assert multiset(a) == multiset{x} + multiset(a[1..]);
      assert multiset(a[1..]) == multiset(a) - multiset{x};
      assert multiset(b') == multiset(b) - multiset{x};
      CountLessMultiset(a[1..], b', v);
      CountLessRemove(b, k, v);
    }
  }

  /** All entries at least `v`: nothing is counted. */
  lemma {:induction false} CountLessNone(s: seq<nat>, v: nat)
    requires forall j :: 0 <= j < |s| ==> v <= s[j]
    ensures CountLess(s, v) == 0
    decreases |s|
  {
    if |s| > 0 {
      CountLessNone(s[1..], v);
    }
  }

  /** All entries below `v`: everything is counted. */
  lemma {:induction false} CountLessAll(s: seq<nat>, v: nat)
    requires forall j :: 0 <= j < |s| ==> s[j] < v
    ensures CountLess(s, v) == |s|
    decreases |s|
  {
    if |s| > 0 {
      CountLessAll(s[1..], v);
    }
  }

  /** Later entries smaller than `s[i]`: `np.sum(s[i+1:] < s[i])`. */
  function RowCount(s: seq<nat>, i: nat): nat
    requires i < |s|
  {
    CountLess(s[i + 1..], s[i])
  }

  /** The sum of `RowCount(s, i)` over the first `k` positions. */
  function LeadingInversions(s: seq<nat>, k: nat): nat
    requires k <= |s|
  {
    if k == 0 then 0 else LeadingInversions(s, k - 1) + RowCount(s, k - 1)
  }

  /** The number of inversions of `s`: pairs `i < j` with `s[j] < s[i]`. */
  function Inversions(s: seq<nat>): nat {
    LeadingInversions(s, |s|)
  }

  /** The last row counts nothing, so stopping one short changes nothing. */
  lemma InversionsLastRow(s: seq<nat>)
    requires |s| > 0
    ensures Inversions(s) == LeadingInversions(s, |s| - 1)
  {
  }

  lemma {:induction false} LeadingInversionsCons(x: nat, t: seq<nat>, k: nat)
    requires k <= |t|
    ensures LeadingInversions([x] + t, k + 1) == CountLess(t, x) + LeadingInversions(t, k)
  {
    var s := [x] + t;
    if k == 0 {
      assert s[1..] == t;
    } else {
      LeadingInversionsCons(x, t, k - 1);
      assert s[k + 1..] == t[k..];
    }
  }

  /** Peeling off the head: its row plus the inversions of the tail. */
  lemma InversionsCons(x: nat, t: seq<nat>)
    ensures Inversions([x] + t) == CountLess(t, x) + Inversions(t)
  {
    LeadingInversionsCons(x, t, |t|);
  }

  /** Row `i` counts at most the `|s| - 1 - i` later positions, so the first
      `k` rows sum to at most `k(2|s| - k - 1) / 2`. */
  lemma {:induction false} LeadingInversionsBound(s: seq<nat>, k: nat)
    requires k <= |s|
    ensures 2 * LeadingInversions(s, k) <= k * (2 * |s| - k - 1)
  {
    if k > 0 {
      LeadingInversionsBound(s, k - 1);
      assert RowCount(s, k - 1) <= |s| - k;
      BoundStep(|s|, k);
    }
  }

  /** The row bound grows by `2(n - k)` from `k - 1` rows to `k`. */
  lemma BoundStep(n: int, k: int)
    ensures k * (2 * n - k - 1) == (k - 1) * (2 * n - (k - 1) - 1) + 2 * (n - k)
  {
  }

  /** At most `n(n-1)/2` inversions. */
  lemma InversionsBound(s: seq<nat>)
    ensures Inversions(s) <= |s| * (|s| - 1) / 2
  {
    LeadingInversionsBound(s, |s|);
  }

  // ---------------------------------------------------------------------
  // Inversions as a set of index pairs

  /** The inversion pairs themselves. */
  ghost function InversionPairs(s: seq<nat>): set<(nat, nat)> {
    set i: nat, j: nat | i < j < |s| && s[j] < s[i] :: (i, j)
  }

  ghost function LeadingPairs(s: seq<nat>, k: nat): set<(nat, nat)> {
    set i: nat, j: nat | i < k && i < j < |s| && s[j] < s[i] :: (i, j)
  }

  ghost function RowPairsFrom(s: seq<nat>, i: nat, lo: nat): set<(nat, nat)>
    requires i < |s|
  {
    set j: nat | lo <= j < |s| && s[j] < s[i] :: (i, j)
  }

  lemma {:induction false} RowPairsFromCard(s: seq<nat>, i: nat, lo: nat)
    requires i < |s| && lo <= |s|
    ensures |RowPairsFrom(s, i, lo)| == CountLess(s[lo..], s[i])
    decreases |s| - lo
  {
    if lo == |s| {
      assert RowPairsFrom(s, i, lo) == {};
    } else {
      RowPairsFromCard(s, i, lo + 1);
      assert s[lo..][1..] == s[lo + 1..];
      if s[lo] < s[i] {
        assert RowPairsFrom(s, i, lo) == RowPairsFrom(s, i, lo + 1) + {(i, lo)};
      } else {
        assert RowPairsFrom(s, i, lo) == RowPairsFrom(s, i, lo + 1);
      }
    }
  }

  lemma {:induction false} LeadingPairsCard(s: seq<nat>, k: nat)
    requires k <= |s|
    ensures |LeadingPairs(s, k)| == LeadingInversions(s, k)
  {
    if k == 0 {
      assert LeadingPairs(s, k) == {} by {
        forall t | t in LeadingPairs(s, k)
          ensures false
        {
        }
      }
    } else {
      var a := LeadingPairs(s, k - 1);
      var b := RowPairsFrom(s, k - 1, k);
      LeadingPairsCard(s, k - 1);
      RowPairsFromCard(s, k - 1, k);
      LeadingPairsSplit(s, k - 1);
      DisjointUnionCard(a, b);
      assert |LeadingPairs(s, k)| == |a| + |b|;
    }
  }

  lemma LeadingPairsSplit(s: seq<nat>, k: nat)
    requires k < |s|
    ensures LeadingPairs(s, k + 1) == LeadingPairs(s, k) + RowPairsFrom(s, k, k + 1)
    ensures LeadingPairs(s, k) * RowPairsFrom(s, k, k + 1) == {}
  {
    var a := LeadingPairs(s, k);
    var b := RowPairsFrom(s, k, k + 1);
    forall t | t in LeadingPairs(s, k + 1)
      ensures t in a + b
    {
      if t.0 < k {
        assert t in a;
      } else {
        assert t in b;
      }
    }
    forall t | t in b
      ensures t !in a
    {
    }
  }

  /** The counting definition agrees with the set of inversion pairs. */
  lemma InversionsArePairs(s: seq<nat>)
    ensures Inversions(s) == |InversionPairs(s)|
  {
    LeadingPairsCard(s, |s|);
    assert LeadingPairs(s, |s|) == InversionPairs(s);
  }

  /** No inversions exactly when `s` is non-decreasing. */
  lemma InversionsZeroIffSorted(s: seq<nat>)
    ensures Inversions(s) == 0 <==> forall i, j :: 0 <= i < j < |s| ==> s[i] <= s[j]
  {
    InversionsArePairs(s);
    if exists i, j :: 0 <= i < j < |s| && s[j] < s[i] {
      var i, j :| 0 <= i < j < |s| && s[j] < s[i];
      assert (i as nat, j as nat) in InversionPairs(s);
    } else {
      assert InversionPairs(s) == {};
    }
  }

  /** The identity permutation has no inversions. */
  lemma RangeInversions(n: nat)
    ensures Inversions(Range(n)) == 0
  {
    InversionsZeroIffSorted(Range(n));
  }

  // ---------------------------------------------------------------------
  // Cardinality helpers

  /** An injective map preserves the size of a finite set. */
  lemma InjectiveImageCard<T, U>(a: set<T>, f: T -> U)
    requires forall x, y :: x in a && y in a && f(x) == f(y) ==> x == y
    ensures |set x | x in a :: f(x)| == |a|
    decreases |a|
  {
    if a != {} {
      var x0 :| x0 in a;
      var a' := a - {x0};
      InjectiveImageCard(a', f);
      assert (set x | x in a :: f(x)) == (set x | x in a' :: f(x)) + {f(x0)};
    }
  }

  lemma DisjointUnionCard<T>(a: set<T>, b: set<T>)
    requires a * b == {}
    ensures |a + b| == |a| + |b|
  {
  }

  lemma SubsetCard<T>(a: set<T>, b: set<T>)
    requires a <= b
    ensures |a| <= |b|
  {
    assert b == a + (b - a);
  }
}
