/** Permutations of `0..n-1` as sequences, with numpy-style fancy indexing
    (`p[idx]`, here `Relabel`) and the inverse permutation (what `np.argsort`
    returns on a permutation). */
module Permutations {

  /** `[0, 1, ..., n-1]`, Python's `range(n)` / numpy's `arange(n)`. */
  function Range(n: nat): (r: seq<nat>)
    ensures |r| == n
    ensures forall i :: 0 <= i < n ==> r[i] == i
  {
    seq(n, i => i)
  }

  /** `p` is a bijection on `0..|p|-1`: every entry is in range, no entry
      repeats, and every value in range occurs. */
  predicate IsPerm(p: seq<nat>) {
    && (forall i :: 0 <= i < |p| ==> p[i] < |p|)
    && (forall i, j :: 0 <= i < j < |p| ==> p[i] != p[j])
    && (forall v: nat :: v < |p| ==> v in p)
  }

  /** Distinct positions of a permutation hold distinct values. */
  lemma PermInjective(p: seq<nat>, i: nat, j: nat)
    requires IsPerm(p) && i < |p| && j < |p|
    ensures p[i] == p[j] <==> i == j
  {
  }

  /** Position of the first occurrence of `v` in `p`. */
  function IndexOf(p: seq<nat>, v: nat): (i: nat)
    requires v in p
    ensures i < |p| && p[i] == v
    ensures forall j :: 0 <= j < i ==> p[j] != v
  {
    if p[0] == v then 0 else 1 + IndexOf(p[1..], v)
  }

  lemma IndexOfPerm(p: seq<nat>, i: nat)
    requires IsPerm(p) && i < |p|
    ensures IndexOf(p, p[i]) == i
  {
  }

  /** The inverse permutation: `q[v]` is the position of `v` in `p`. */
  function Inverse(p: seq<nat>): (q: seq<nat>)
    requires IsPerm(p)
    ensures |q| == |p|
    ensures forall v :: 0 <= v < |p| ==> q[v] < |p| && p[q[v]] == v
    ensures forall i :: 0 <= i < |p| ==> q[p[i]] == i
    ensures IsPerm(q)
  {
    var q := seq(|p|, v requires 0 <= v < |p| => IndexOf(p, v));
    forall i | 0 <= i < |p|
      ensures q[p[i]] == i
    {
      IndexOfPerm(p, i);
    }
    assert forall v: nat :: v < |q| ==> v in q by {
      forall v: nat | v < |q|
        ensures v in q
      {
        assert q[p[v]] == v;
      }
    }
    q
  }

  /** numpy fancy indexing `p[idx]`: the entries of `p` read at the positions
      listed in `idx`. */
  function Relabel(p: seq<nat>, idx: seq<nat>): (r: seq<nat>)
    requires forall i :: 0 <= i < |idx| ==> idx[i] < |p|
    ensures |r| == |idx|
    ensures forall i :: 0 <= i < |idx| ==> r[i] == p[idx[i]]
  {
    seq(|idx|, i requires 0 <= i < |idx| => p[idx[i]])
  }

  /** Composing two permutations of the same size gives a permutation. */
  lemma RelabelPerm(p: seq<nat>, q: seq<nat>)
    requires IsPerm(p) && IsPerm(q) && |p| == |q|
    ensures IsPerm(Relabel(p, q))
  {
    var r := Relabel(p, q);
    forall v: nat | v < |r|
      ensures v in r
    {
      var ip := Inverse(p);
      var iq := Inverse(q);
      assert r[iq[ip[v]]] == v;
    }
  }

  lemma RelabelAssoc(a: seq<nat>, b: seq<nat>, c: seq<nat>)
    requires forall i :: 0 <= i < |b| ==> b[i] < |a|
    requires forall i :: 0 <= i < |c| ==> c[i] < |b|
    ensures Relabel(Relabel(a, b), c) == Relabel(a, Relabel(b, c))
  {
  }

  /** Indexing by the identity changes nothing, and indexing the identity by
      `p` gives `p`. */
  lemma RelabelRange(p: seq<nat>)
    requires forall i :: 0 <= i < |p| ==> p[i] < |p|
    ensures Relabel(p, Range(|p|)) == p
    ensures Relabel(Range(|p|), p) == p
  {
  }

  /** `p[argsort(p)]` and `argsort(p)[p]` are both the identity. */
  lemma RelabelInverse(p: seq<nat>)
    requires IsPerm(p)
    ensures Relabel(p, Inverse(p)) == Range(|p|)
    ensures Relabel(Inverse(p), p) == Range(|p|)
  {
  }

  /** Two permutations agreeing on `Relabel(_, p)` are equal. */
  lemma InverseUnique(p: seq<nat>, q: seq<nat>)
    requires IsPerm(p) && |q| == |p|
    requires forall i :: 0 <= i < |p| ==> q[p[i]] == i
    ensures q == Inverse(p)
  {
    var ip := Inverse(p);
    forall v | 0 <= v < |p|
      ensures q[v] == ip[v]
    {
      assert p[ip[v]] == v;
    }
  }

  lemma InverseInverse(p: seq<nat>)
    requires IsPerm(p)
    ensures Inverse(Inverse(p)) == p
  {
    InverseUnique(Inverse(p), p);
  }

  lemma InverseRange(n: nat)
    ensures IsPerm(Range(n))
    ensures Inverse(Range(n)) == Range(n)
  {
    var r := Range(n);
    assert forall v: nat :: v < n ==> v in r by {
      forall v: nat | v < n
        ensures v in r
      {
        assert r[v] == v;
      }
    }
    InverseUnique(r, r);
  }

  /** The inverse of a composition is the composition of the inverses, in
      the opposite order. */
  lemma InverseRelabel(p: seq<nat>, q: seq<nat>)
    requires IsPerm(p) && IsPerm(q) && |p| == |q|
    ensures IsPerm(Relabel(p, q))
    ensures Inverse(Relabel(p, q)) == Relabel(Inverse(q), Inverse(p))
  {
    RelabelPerm(p, q);
    var pq := Relabel(p, q);
    var c := Relabel(Inverse(q), Inverse(p));
    forall i | 0 <= i < |pq|
      ensures c[pq[i]] == i
    {
    }
    InverseUnique(pq, c);
  }

  /** A permutation that is its own inverse: `p[p[i]] == i` for every `i`. */
  predicate IsInvolution(p: seq<nat>)
    requires IsPerm(p)
  {
    forall i :: 0 <= i < |p| ==> p[p[i]] == i
  }

  lemma InvolutionIffSelfInverse(p: seq<nat>)
    requires IsPerm(p)
    ensures Inverse(p) == p <==> IsInvolution(p)
  {
    if IsInvolution(p) {
      InverseUnique(p, p);
    }
  }

  /** Each value below `n` occurs exactly once in `Range(n)`. */
  lemma RangeMultiplicity(n: nat, v: nat)
    ensures multiset(Range(n))[v] == if v < n then 1 else 0
  {
    if n > 0 {
      assert Range(n) == Range(n - 1) + [n - 1];
      RangeMultiplicity(n - 1, v);
    }
  }

  /** A sequence holding the same multiset as `Range(|s|)` is a permutation. */
  lemma MultisetPerm(s: seq<nat>)
    requires multiset(s) == multiset(Range(|s|))
    ensures IsPerm(s)
  {
    forall i | 0 <= i < |s|
      ensures s[i] < |s|
    {
      assert s[i] in multiset(Range(|s|));
    }
    forall i, j | 0 <= i < j < |s|
      ensures s[i] != s[j]
    {
      if s[i] == s[j] {
        assert s == s[..j] + s[j..];
        assert s[i] in s[..j];
        assert multiset(s)[s[i]] == multiset(s[..j])[s[i]] + multiset(s[j..])[s[i]];
        assert s[j..][0] == s[j];
        RangeMultiplicity(|s|, s[i]);
      }
    }
    forall v: nat | v < |s|
      ensures v in s
    {
      assert Range(|s|)[v] == v;
      assert v in multiset(Range(|s|));
    }
  }

  lemma {:induction false} IncreasingAtLeastIndex(s: seq<nat>, i: nat)
    requires forall k :: 0 < k < |s| ==> s[k - 1] < s[k]
    requires i < |s|
    ensures i <= s[i]
  {
    if i > 0 {
      IncreasingAtLeastIndex(s, i - 1);
    }
  }

  lemma {:induction false} IncreasingAtMostIndex(s: seq<nat>, i: nat)
    requires forall k :: 0 < k < |s| ==> s[k - 1] < s[k]
    requires forall k :: 0 <= k < |s| ==> s[k] < |s|
    requires i < |s|
    ensures s[i] <= i
    decreases |s| - i
  {
    if i + 1 < |s| {
      IncreasingAtMostIndex(s, i + 1);
    }
  }

  /** The only non-decreasing permutation is the identity. */
  lemma SortedPermIsRange(s: seq<nat>)
    requires IsPerm(s)
    requires forall i, j :: 0 <= i < j < |s| ==> s[i] <= s[j]
    ensures s == Range(|s|)
  {
    forall k | 0 < k < |s|
      ensures s[k - 1] < s[k]
    {
      assert s[k - 1] != s[k];
    }
    forall i | 0 <= i < |s|
      ensures s[i] == i
    {
      IncreasingAtLeastIndex(s, i);
      IncreasingAtMostIndex(s, i);
    }
  }

  lemma {:induction false} DistinctMultiplicity(s: seq<nat>, v: nat)
    requires forall i, j :: 0 <= i < j < |s| ==> s[i] != s[j]
    ensures multiset(s)[v] == if v in s then 1 else 0
  {
    if |s| > 0 {
      assert s == [s[0]] + s[1..];
      DistinctMultiplicity(s[1..], v);
      assert multiset(s) == multiset{s[0]} + multiset(s[1..]);
    }
  }

  /** A permutation holds the same multiset as `Range(|p|)`. */
  lemma PermMultiset(p: seq<nat>)
    requires IsPerm(p)
    ensures multiset(p) == multiset(Range(|p|))
  {
    forall v: nat
      ensures multiset(p)[v] == multiset(Range(|p|))[v]
    {
      DistinctMultiplicity(p, v);
      RangeMultiplicity(|p|, v);
    }
  }

  /** Sum of the entries. */
  function Sum(s: seq<nat>): nat {
    if |s| == 0 then 0 else s[0] + Sum(s[1..])
  }

  lemma {:induction false} SumConcat(a: seq<nat>, b: seq<nat>)
    ensures Sum(a + b) == Sum(a) + Sum(b)
    decreases |a|
  {
    if |a| == 0 {
      assert a + b == b;
    } else {
      assert (a + b)[1..] == a[1..] + b;
      SumConcat(a[1..], b);
    }
  }

  /** The sum depends only on the multiset of entries. */
  lemma {:induction false} SumMultiset(a: seq<nat>, b: seq<nat>)
    requires multiset(a) == multiset(b)
    ensures Sum(a) == Sum(b)
    decreases |a|
  {
    if |a| == 0 {
      assert |b| == |multiset(b)| == 0;
    } else {
      var x := a[0];
      assert x in multiset(b);
      var k := IndexOf(b, x);
      var b' := Remove(b, k);
      assert a == [x] + a[1..];
      assert multiset(a) == multiset{x} + multiset(a[1..]);
      assert multiset(a[1..]) == multiset(a) - multiset{x};
      assert multiset(b') == multiset(b) - multiset{x};
      SumMultiset(a[1..], b');
      SumRemove(b, k);
    }
  }

  /** Deleting one entry removes exactly its own contribution. */
  lemma SumRemove(s: seq<nat>, k: nat)
    requires k < |s|
    ensures Sum(s) == Sum(Remove(s, k)) + s[k]
  {
    var a, x, b := s[..k], s[k], s[k + 1..];
    var ax := a + [x];
    assert s == ax + b;
    SumConcat(ax, b);
    SumConcat(a, [x]);
    assert Sum(ax) == Sum(a) + x;
    SumConcat(a, b);
  }

  /** `0 + 1 + ... + (n-1) == n(n-1)/2`. */
  lemma {:induction false} SumRange(n: nat)
    ensures 2 * Sum(Range(n)) == n * (n - 1)
  {
    if n > 0 {
      assert Range(n) == Range(n - 1) + [n - 1];
      SumConcat(Range(n - 1), [n - 1]);
      SumRange(n - 1);
    }
  }

  /** Every permutation of size `n` sums to `n(n-1)/2`. */
  lemma SumPerm(p: seq<nat>)
    requires multiset(p) == multiset(Range(|p|))
    ensures 2 * Sum(p) == |p| * (|p| - 1)
  {
    SumMultiset(p, Range(|p|));
    SumRange(|p|);
  }

  /** Removing position `k`: Python's `del s[k]`. */
  function Remove(s: seq<nat>, k: nat): (r: seq<nat>)
    requires k < |s|
    ensures |r| == |s| - 1
    ensures multiset(r) + multiset{s[k]} == multiset(s)
  {
    assert s == s[..k] + [s[k]] + s[k + 1..];
    s[..k] + s[k + 1..]
  }
}
