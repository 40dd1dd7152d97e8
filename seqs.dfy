/** Row filters over sequences: the shape of a boolean mask applied to a data frame. */
module Seqs {
  import opened Wrappers

  /** The elements of `s` that satisfy `keep`, in their original order. */
  function Filter<T(!new)>(s: seq<T>, keep: T -> bool): (r: seq<T>)
    ensures |r| <= |s|
    ensures forall x :: x in r <==> x in s && keep(x)
    ensures multiset(r) <= multiset(s)
  {
    if s == [] then []
    else
      var rest := Filter(s[..|s| - 1], keep);
      assert s == s[..|s| - 1] + [s[|s| - 1]];
      if keep(s[|s| - 1]) then rest + [s[|s| - 1]] else rest
  }

  /** A mask that every row passes leaves the frame unchanged. */
  lemma {:induction false} FilterKeepsAll<T(!new)>(s: seq<T>, keep: T -> bool)
    requires forall i :: 0 <= i < |s| ==> keep(s[i])
    ensures Filter(s, keep) == s
  {
    if s != [] {
      FilterKeepsAll(s[..|s| - 1], keep);
      assert s == s[..|s| - 1] + [s[|s| - 1]];
    }
  }

  /** Filtering distributes over concatenation. */
  lemma {:induction false} FilterAppend<T(!new)>(a: seq<T>, b: seq<T>, keep: T -> bool)
    ensures Filter(a + b, keep) == Filter(a, keep) + Filter(b, keep)
  {
    if b == [] {
      assert a + b == a;
    } else {
      var b' := b[..|b| - 1];
      assert (a + b)[..|a + b| - 1] == a + b';
      FilterAppend(a, b', keep);
    }
  }


  /** Filtering keeps every copy of a kept element and no copy of a dropped one. */
  lemma {:induction false} FilterCounts<T(!new)>(s: seq<T>, keep: T -> bool, x: T)
    ensures multiset(Filter(s, keep))[x] == if keep(x) then multiset(s)[x] else 0
  {
    if s != [] {
      var n := |s| - 1;
      FilterCounts(s[..n], keep, x);
      assert s == s[..n] + [s[n]];
    }
  }

  /** Filtering a prefix one element longer. */
  lemma FilterSnoc<T(!new)>(s: seq<T>, keep: T -> bool, i: nat)
    requires i < |s|
    ensures Filter(s[..i + 1], keep) == if keep(s[i]) then Filter(s[..i], keep) + [s[i]] else Filter(s[..i], keep)
  {
    assert s[..i + 1][..i] == s[..i];
  }

  /** The elements kept from a prefix are a prefix of the elements kept from the whole. */
  lemma FilterPrefix<T(!new)>(s: seq<T>, keep: T -> bool, i: nat)
    requires i <= |s|
    ensures |Filter(s[..i], keep)| <= |Filter(s, keep)|
    ensures Filter(s, keep)[..|Filter(s[..i], keep)|] == Filter(s[..i], keep)
  {
    assert s == s[..i] + s[i..];
    FilterAppend(s[..i], s[i..], keep);
  }

  /** Every element kept by `Filter(s, keep)` relates to a later `x` when every element of `s` does. */
  lemma FilterBefore<T(!new)>(s: seq<T>, keep: T -> bool, rel: (T, T) -> bool, x: T)
    requires forall k :: 0 <= k < |s| ==> rel(s[k], x)
    ensures forall i :: 0 <= i < |Filter(s, keep)| ==> rel(Filter(s, keep)[i], x)
  {
    var f := Filter(s, keep);
    forall i | 0 <= i < |f|
      ensures rel(f[i], x)
    {
      assert f[i] in s;
    }
  }

  /** A relation that holds between every element and every later one still holds after filtering. */
  lemma {:induction false} FilterKeepsPairwise<T(!new)>(s: seq<T>, keep: T -> bool, rel: (T, T) -> bool)
    requires forall i, j :: 0 <= i < j < |s| ==> rel(s[i], s[j])
    ensures forall i, j :: 0 <= i < j < |Filter(s, keep)| ==> rel(Filter(s, keep)[i], Filter(s, keep)[j])
  {
    if s != [] {
      var n := |s| - 1;
      var before := Filter(s[..n], keep);
      FilterKeepsPairwise(s[..n], keep, rel);
      if keep(s[n]) {
        FilterBefore(s[..n], keep, rel, s[n]);
        var r := before + [s[n]];
        assert Filter(s, keep) == r;
        forall i, j | 0 <= i < j < |r|
          ensures rel(r[i], r[j])
        {
          if j < |before| {
            assert r[i] == before[i] && r[j] == before[j];
            assert rel(before[i], before[j]);
          } else {
            assert r[i] == before[i] && r[j] == s[n];
            assert rel(before[i], s[n]);
          }
        }
      } else {
        assert Filter(s, keep) == before;
      }
    }
  }

  /** No two elements share a key. */
  predicate DistinctBy<T, K(==)>(s: seq<T>, key: T -> K) {
    forall i, j :: 0 <= i < j < |s| ==> key(s[i]) != key(s[j])
  }

  lemma {:induction false} DistinctByCountsOnce<T(!new), K>(s: seq<T>, key: T -> K, e: T)
    requires DistinctBy(s, key)
    ensures multiset(s)[e] <= 1
  {
    if s != [] {
      var n := |s| - 1;
      assert s == s[..n] + [s[n]];
      DistinctByCountsOnce(s[..n], key, e);
      if s[n] == e {
        assert forall p :: 0 <= p < n ==> s[..n][p] != e;
        assert e !in s[..n];
      }
    }
  }

  lemma RepeatedCountsTwice<T>(s: seq<T>, i: nat, j: nat)
    requires i < j < |s| && s[i] == s[j]
    ensures multiset(s)[s[i]] >= 2
  {
    assert s == s[..j] + [s[j]] + s[j + 1..];
    assert s[i] in s[..j];
  }

  /** Reordering a sequence cannot create two elements with the same key. */
  lemma PermutationKeepsDistinctBy<T(!new), K>(a: seq<T>, b: seq<T>, key: T -> K)
    requires multiset(a) == multiset(b)
    requires DistinctBy(a, key)
    ensures DistinctBy(b, key)
  {
    forall i, j | 0 <= i < j < |b|
      ensures key(b[i]) != key(b[j])
    {
      if key(b[i]) == key(b[j]) {
        assert b[i] in multiset(a) && b[j] in multiset(a);
        var p :| 0 <= p < |a| && a[p] == b[i];
        var q :| 0 <= q < |a| && a[q] == b[j];
        assert p == q;
        RepeatedCountsTwice(b, i, j);
        DistinctByCountsOnce(a, key, b[i]);
      }
    }
  }

  /** The present results of `f` over `xs`, in order (a filter-map). */
  function Collect<A, B>(xs: seq<A>, f: A -> Option<B>): (ys: seq<B>)
    ensures |ys| <= |xs|
  {
    if xs == [] then []
    else
      Collect(xs[..|xs| - 1], f) +
        match f(xs[|xs| - 1])
        case Some(y) => [y]
        case None => []
  }

  /** Collecting over a prefix one element longer. */
  lemma CollectStep<A, B>(xs: seq<A>, k: nat, f: A -> Option<B>)
    requires k < |xs|
    ensures f(xs[k]).None? ==> Collect(xs[..k + 1], f) == Collect(xs[..k], f)
    ensures f(xs[k]).Some? ==> Collect(xs[..k + 1], f) == Collect(xs[..k], f) + [f(xs[k]).value]
  {
    assert xs[..k + 1][..k] == xs[..k];
  }

  /** Everything collected is the result of some element. */
  lemma {:induction false} CollectedFrom<A, B>(xs: seq<A>, f: A -> Option<B>, y: B)
    requires y in Collect(xs, f)
    ensures exists k :: 0 <= k < |xs| && f(xs[k]) == Some(y)
  {
    var n := |xs| - 1;
    var before := xs[..n];
    CollectStep(xs, n, f);
    assert xs[..n + 1] == xs;
    if y in Collect(before, f) {
      CollectedFrom(before, f, y);
      var k :| 0 <= k < |before| && f(before[k]) == Some(y);
      assert xs[k] == before[k];
    }
  }

  /** Every present result of an element is collected. */
  lemma {:induction false} CollectedAt<A, B>(xs: seq<A>, f: A -> Option<B>, k: nat)
    requires k < |xs| && f(xs[k]).Some?
    ensures f(xs[k]).value in Collect(xs, f)
  {
    var n := |xs| - 1;
    var before := xs[..n];
    CollectStep(xs, n, f);
    assert xs[..n + 1] == xs;
    if k < n {
      assert before[k] == xs[k];
      CollectedAt(before, f, k);
    }
  }

  /** `y` is collected exactly when some element of `xs` maps to it. */
  lemma CollectMembership<A, B>(xs: seq<A>, f: A -> Option<B>, y: B)
    ensures y in Collect(xs, f) <==> exists k :: 0 <= k < |xs| && f(xs[k]) == Some(y)
  {
    if y in Collect(xs, f) {
      CollectedFrom(xs, f, y);
    }
    if exists k :: 0 <= k < |xs| && f(xs[k]) == Some(y) {
      var k :| 0 <= k < |xs| && f(xs[k]) == Some(y);
      CollectedAt(xs, f, k);
    }
  }

  /** When `f` keeps the integer key of what it maps and the keys of `xs` strictly increase,
      the keys of the collected results strictly increase too. */
  lemma {:induction false} CollectKeepsIncreasing<A, B>(xs: seq<A>, f: A -> Option<B>, key: A -> int, key': B -> int)
    requires forall k, l :: 0 <= k < l < |xs| ==> key(xs[k]) < key(xs[l])
    requires forall k :: 0 <= k < |xs| && f(xs[k]).Some? ==> key'(f(xs[k]).value) == key(xs[k])
    ensures forall i, j :: 0 <= i < j < |Collect(xs, f)| ==> key'(Collect(xs, f)[i]) < key'(Collect(xs, f)[j])
  {
    if xs != [] {
      var n := |xs| - 1;
      var before := xs[..n];
      CollectKeepsIncreasing(before, f, key, key');
      var prev := Collect(before, f);
      var ys := Collect(xs, f);
      if f(xs[n]).Some? {
        var y := f(xs[n]).value;
        assert ys == prev + [y];
        forall i | 0 <= i < |prev|
          ensures key'(prev[i]) < key'(y)
        {
          assert prev[i] in prev;
          CollectMembership(before, f, prev[i]);
          var k :| 0 <= k < |before| && f(before[k]) == Some(prev[i]);
          assert xs[k] == before[k];
        }
        forall i, j | 0 <= i < j < |ys|
          ensures key'(ys[i]) < key'(ys[j])
        {
          if j < |prev| {
            assert ys[i] == prev[i] && ys[j] == prev[j];
          } else {
            assert ys[i] == prev[i] && ys[j] == y;
          }
        }
      } else {
        assert ys == prev;
      }
    }
  }
}
