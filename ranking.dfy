/** Ranking one year's eligible pool by term premium and taking the top N
    (backtest.py lines 51-52: `sort_values('term_premium', ascending=False).head(top_n)`). */
module Ranking {
  import opened Seqs
  import Sorting

  /** A country-year that passed the completeness check, with the fields the strategy reads. */
  datatype Candidate = Candidate(
    country: string,
    termPremium: real,
    bondTr: real,
    billRate: real,
    fxReturn: real)

  /** The USD-converted bond excess return of holding the candidate for its year
      (backtest.py line 60). */
  function PositionReturn(c: Candidate): real {
    (c.bondTr - c.billRate) * c.fxReturn
  }

  function CountryOf(c: Candidate): string {
    c.country
  }

  /** The comparison of a descending sort: `a` may come before `b`. */
  predicate PremiumAtLeast(a: Candidate, b: Candidate) {
    a.termPremium >= b.termPremium
  }

  lemma PremiumAtLeastIsTotalPreorder()
    ensures Sorting.TotalPreorder(PremiumAtLeast)
  {
  }

  /** The pool ordered by term premium, highest first. pandas' default sort does not
      promise an order among equal premiums; this model's insertion sort fixes one. */
  function Rank(pool: seq<Candidate>): (r: seq<Candidate>)
    ensures |r| == |pool|
  {
    Sorting.InsertionSort(PremiumAtLeast, pool)
  }

  /** The first `n` candidates of the ranking. */
  function TopN(pool: seq<Candidate>, n: nat): (top: seq<Candidate>)
    requires n <= |pool|
  {
    Rank(pool)[..n]
  }

  /** The candidates the ranking leaves out. */
  function Unselected(pool: seq<Candidate>, n: nat): seq<Candidate>
    requires n <= |pool|
  {
    Rank(pool)[n..]
  }

  /** The ranking is a descending reordering of the pool. */
  lemma RankIsDescendingPermutation(pool: seq<Candidate>)
    ensures multiset(Rank(pool)) == multiset(pool)
    ensures forall i, j :: 0 <= i < j < |pool| ==> Rank(pool)[i].termPremium >= Rank(pool)[j].termPremium
  {
    PremiumAtLeastIsTotalPreorder();
    Sorting.InsertionSortSorted(PremiumAtLeast, pool);
  }

  /** In a descending sequence, each of the first `n` is at least each of the rest. */
  lemma PrefixDominates(r: seq<Candidate>, n: nat)
    requires n <= |r|
    requires forall i, j :: 0 <= i < j < |r| ==> r[i].termPremium >= r[j].termPremium
    ensures forall x, y :: x in r[..n] && y in r[n..] ==> x.termPremium >= y.termPremium
  {
    forall x, y | x in r[..n] && y in r[n..]
      ensures x.termPremium >= y.termPremium
    {
      var i :| 0 <= i < n && r[..n][i] == x;
      var j :| 0 <= j < |r[n..]| && r[n..][j] == y;
      assert r[i] == x && r[n + j] == y;
    }
  }

  /** `TopN` is a top-N of the pool by term premium: exactly `n` candidates of the pool, in
      descending order, each with a premium at least that of every candidate left out, and
      together with the left-out ones they make up the pool. */
  lemma TopNIsTopByPremium(pool: seq<Candidate>, n: nat)
    requires n <= |pool|
    ensures |TopN(pool, n)| == n
    ensures multiset(TopN(pool, n)) + multiset(Unselected(pool, n)) == multiset(pool)
    ensures forall x :: x in TopN(pool, n) ==> x in pool
    ensures forall i, j :: 0 <= i < j < n ==> TopN(pool, n)[i].termPremium >= TopN(pool, n)[j].termPremium
    ensures forall x, y :: x in TopN(pool, n) && y in Unselected(pool, n) ==> x.termPremium >= y.termPremium
  {
    var r := Rank(pool);
    RankIsDescendingPermutation(pool);
    assert r == r[..n] + r[n..];
    assert multiset(r) == multiset(r[..n]) + multiset(r[n..]);
    PrefixDominates(r, n);
    forall x | x in r[..n]
      ensures x in pool
    {
      assert x in multiset(r);
    }
  }

  /** When no two pool candidates share a country, neither do the selected ones. */
  lemma TopNDistinctCountries(pool: seq<Candidate>, n: nat)
    requires n <= |pool|
    requires DistinctBy(pool, CountryOf)
    ensures DistinctBy(TopN(pool, n), CountryOf)
  {
    RankIsDescendingPermutation(pool);
    PermutationKeepsDistinctBy(pool, Rank(pool), CountryOf);
  }
}
