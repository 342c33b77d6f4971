/** `np.argsort` on real-valued keys (objective values, column means). numpy's
    default sort is not stable, so the contract `IsArgsort` says nothing about
    the order of equal keys; `Argsort` is one stable realisation of it. */
module Sorting {
  import opened Permutations

  /** Every entry of `idx` is a position of `a`, and reading `a` along `idx`
      gives non-decreasing values. */
  predicate SortedBy(a: seq<real>, idx: seq<nat>) {
    && (forall i :: 0 <= i < |idx| ==> idx[i] < |a|)
    && (forall i, j :: 0 <= i < j < |idx| ==> a[idx[i]] <= a[idx[j]])
  }

  /** What `np.argsort(a)` promises: each position of `a` exactly once, in
      non-decreasing order of value. */
  predicate IsArgsort(a: seq<real>, idx: seq<nat>) {
    && |idx| == |a|
    && multiset(idx) == multiset(Range(|a|))
    && SortedBy(a, idx)
  }

  /** Inserts position `i` after every listed position whose value does not
      exceed `a[i]` (so equal keys keep their positional order). */
  function Insert(a: seq<real>, idx: seq<nat>, i: nat): (r: seq<nat>)
    requires i < |a|
    ensures |r| == |idx| + 1
    ensures multiset(r) == multiset(idx) + multiset{i}
  {
    if |idx| == 0 then [i]
    else if idx[0] < |a| && a[i] < a[idx[0]] then [i] + idx
    else
      assert idx == [idx[0]] + idx[1..];
      [idx[0]] + Insert(a, idx[1..], i)
  }

  /** Every inserted entry is the new position or one already listed. */
  lemma {:induction false} InsertMembers(a: seq<real>, idx: seq<nat>, i: nat)
    requires i < |a|
    ensures forall t :: 0 <= t < |Insert(a, idx, i)| ==> Insert(a, idx, i)[t] == i || Insert(a, idx, i)[t] in idx
    decreases |idx|
  {
    if |idx| > 0 && !(idx[0] < |a| && a[i] < a[idx[0]]) {
      InsertMembers(a, idx[1..], i);
      var rest := Insert(a, idx[1..], i);
      forall t | 0 <= t < |rest|
        ensures rest[t] == i || rest[t] in idx
      {
        if rest[t] != i {
          var u :| 0 <= u < |idx[1..]| && idx[1..][u] == rest[t];
          assert idx[1 + u] == rest[t];
        }
      }
    }
  }

  /** A head no larger than anything after it extends a sorted listing. */
  lemma SortedCons(a: seq<real>, x: nat, s: seq<nat>)
    requires x < |a| && SortedBy(a, s)
    requires forall t :: 0 <= t < |s| ==> a[x] <= a[s[t]]
    ensures SortedBy(a, [x] + s)
  {
    var r := [x] + s;
    forall u, v | 0 <= u < v < |r|
      ensures a[r[u]] <= a[r[v]]
    {
      assert r[v] == s[v - 1];
      if u > 0 {
        assert r[u] == s[u - 1];
      }
    }
  }

  lemma {:induction false} InsertSortedBy(a: seq<real>, idx: seq<nat>, i: nat)
    requires i < |a| && SortedBy(a, idx)
    ensures SortedBy(a, Insert(a, idx, i))
    decreases |idx|
  {
    if |idx| == 0 {
      assert Insert(a, idx, i) == [i];
    } else if a[i] < a[idx[0]] {
      forall t | 0 <= t < |idx|
        ensures a[i] <= a[idx[t]]
      {
        if t > 0 {
          assert a[idx[0]] <= a[idx[t]];
        }
      }
      SortedCons(a, i, idx);
    } else {
      var tail := idx[1..];
      assert SortedBy(a, tail) by {
        forall u, v | 0 <= u < v < |tail|
          ensures a[tail[u]] <= a[tail[v]]
        {
          assert tail[u] == idx[u + 1] && tail[v] == idx[v + 1];
        }
      }
      var rest := Insert(a, tail, i);
      InsertSortedBy(a, tail, i);
      InsertMembers(a, tail, i);
      forall t | 0 <= t < |rest|
        ensures a[idx[0]] <= a[rest[t]]
      {
        if rest[t] != i {
          var u :| 0 <= u < |tail| && tail[u] == rest[t];
          assert idx[1 + u] == rest[t];
        }
      }
      SortedCons(a, idx[0], rest);
    }
  }

  /** The positions `0..k-1` sorted by value. */
  function SortPrefix(a: seq<real>, k: nat): (r: seq<nat>)
    requires k <= |a|
    ensures |r| == k
    ensures SortedBy(a, r)
  {
    if k == 0 then []
    else
      var prev := SortPrefix(a, k - 1);
      InsertSortedBy(a, prev, k - 1);
      Insert(a, prev, k - 1)
  }

  /** The sorted prefix lists each of the positions `0..k-1` once. */
  lemma {:induction false} SortPrefixMultiset(a: seq<real>, k: nat)
    requires k <= |a|
    ensures multiset(SortPrefix(a, k)) == multiset(Range(k))
  {
    if k > 0 {
      SortPrefixMultiset(a, k - 1);
      RangeSnoc(k);
    }
  }

  lemma RangeSnoc(k: nat)
    requires k >= 1
    ensures multiset(Range(k)) == multiset(Range(k - 1)) + multiset{(k - 1) as nat}
  {
    assert Range(k) == Range(k - 1) + [k - 1];
  }

  /** A stable argsort of `a`. */
  function Argsort(a: seq<real>): (idx: seq<nat>)
    ensures IsArgsort(a, idx)
    ensures IsPerm(idx)
  {
    var idx := SortPrefix(a, |a|);
    SortPrefixMultiset(a, |a|);
    MultisetPerm(idx);
    idx
  }

  /** An argsort is a permutation of the positions. */
  lemma ArgsortIsPerm(a: seq<real>, idx: seq<nat>)
    requires IsArgsort(a, idx)
    ensures IsPerm(idx)
  {
    MultisetPerm(idx);
  }

  /** Only the comparisons between keys matter: two key vectors that compare
      alike have the same argsorts. */
  lemma ArgsortOrderInvariant(a: seq<real>, b: seq<real>, idx: seq<nat>)
    requires |a| == |b|
    requires forall i, j :: 0 <= i < |a| && 0 <= j < |a| ==> (a[i] <= a[j] <==> b[i] <= b[j])
    ensures IsArgsort(a, idx) <==> IsArgsort(b, idx)
  {
  }

  /** Natural numbers as real keys. */
  function Reals(p: seq<nat>): (r: seq<real>)
    ensures |r| == |p|
    ensures forall i :: 0 <= i < |p| ==> r[i] == p[i] as real
  {
    seq(|p|, i requires 0 <= i < |p| => p[i] as real)
  }

  /** On a permutation every argsort is the inverse permutation: ties cannot
      occur, so numpy's tie order is irrelevant. */
  lemma ArgsortOfPerm(p: seq<nat>, idx: seq<nat>)
    requires IsPerm(p) && IsArgsort(Reals(p), idx)
    ensures idx == Inverse(p)
  {
    ArgsortIsPerm(Reals(p), idx);
    var s := Relabel(p, idx);
    RelabelPerm(p, idx);
    SortedPermIsRange(s);
    var q := Inverse(p);
    forall v | 0 <= v < |p|
      ensures idx[v] == q[v]
    {
      assert p[idx[v]] == s[v] == v == p[q[v]];
    }
  }

  /** The stable argsort of a permutation is its inverse. */
  lemma ArgsortPermIsInverse(p: seq<nat>)
    requires IsPerm(p)
    ensures Argsort(Reals(p)) == Inverse(p)
  {
    ArgsortOfPerm(p, Argsort(Reals(p)));
  }
}
