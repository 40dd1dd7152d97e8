/** The US bond benchmark (backtest.py lines 33-35), the inner join of the strategy track
    with it and the column renames (lines 83-91), and the whole backtest pipeline. */
module Report {
  import opened Wrappers
  import opened Seqs
  import opened Compounding
  import opened Frame
  import opened Panel
  import opened Strategy
  import opened StrategyFacts

  // ---------------------------------------------------------------------------
  // The benchmark (lines 33-35)
  // ---------------------------------------------------------------------------

  /** One row of the benchmark frame: the year, `bond_tr` after `fillna(0)`, and `index`. */
  datatype BenchPoint = BenchPoint(year: int, bondTr: real, index: real)

  predicate IsReferenceRow(p: PanelRow) {
    p.country == Reference
  }

  /** `df[df['country'] == 'USA']`, in panel order. */
  function ReferenceRows(panel: seq<PanelRow>): seq<PanelRow> {
    Filter(panel, IsReferenceRow)
  }

  /** `benchmark['bond_tr'].fillna(0)`. */
  function FilledBondReturns(rows: seq<PanelRow>): (rs: seq<real>)
    ensures |rs| == |rows|
  {
    ZeroFilled(seq(|rows|, k requires 0 <= k < |rows| => rows[k].bondTr))
  }

  /** The benchmark frame: one point per reference-country row, with the running product
      `(1 + bond_tr).cumprod()`. */
  function Benchmark(panel: seq<PanelRow>): (bench: seq<BenchPoint>)
    ensures |bench| == |ReferenceRows(panel)|
  {
    var rows := ReferenceRows(panel);
    var rs := FilledBondReturns(rows);
    var idx := CumProd(rs);
    seq(|rows|, k requires 0 <= k < |rows| => BenchPoint(rows[k].year, rs[k], idx[k]))
  }

  /** The `bond_tr` column of benchmark points. */
  function BondReturns(bench: seq<BenchPoint>): (rs: seq<real>)
    ensures |rs| == |bench|
    ensures forall k :: 0 <= k < |bench| ==> rs[k] == bench[k].bondTr
  {
    seq(|bench|, k requires 0 <= k < |bench| => bench[k].bondTr)
  }

  /** The k-th benchmark point is the k-th reference-country row: its year, its `bond_tr`
      with a missing cell counted as 0, and an index equal to the product of `1 + bond_tr`
      over the first k + 1 points. */
  lemma BenchmarkCorrect(panel: seq<PanelRow>)
    ensures forall k :: 0 <= k < |Benchmark(panel)| ==>
      && Benchmark(panel)[k].year == ReferenceRows(panel)[k].year
      && Benchmark(panel)[k].bondTr == ReferenceRows(panel)[k].bondTr.GetOr(0.0)
      && Benchmark(panel)[k].index == Compound(BondReturns(Benchmark(panel)[..k + 1]))
  {
    var bench := Benchmark(panel);
    var rs := FilledBondReturns(ReferenceRows(panel));
    CumProdIsCompound(rs);
    forall k | 0 <= k < |bench|
      ensures bench[k].index == Compound(BondReturns(bench[..k + 1]))
    {
      assert BondReturns(bench[..k + 1]) == rs[..k + 1];
    }
  }

  /** On the backtest panel the `fillna(0)` of line 34 changes nothing: every reference-country
      row of the panel has its `bond_tr`. */
  lemma BenchmarkFillRedundant(raw: seq<RawRow>, initYear: int, endYear: int)
    requires NonZeroRates(raw)
    ensures forall k :: 0 <= k < |ReferenceRows(BuildPanel(raw, initYear, endYear))| ==>
      && ReferenceRows(BuildPanel(raw, initYear, endYear))[k].bondTr.Some?
      && Benchmark(BuildPanel(raw, initYear, endYear))[k].bondTr == ReferenceRows(BuildPanel(raw, initYear, endYear))[k].bondTr.value
  {
    var panel := BuildPanel(raw, initYear, endYear);
    var rows := ReferenceRows(panel);
    PanelMembership(raw, initYear, endYear);
    BenchmarkCorrect(panel);
    forall k | 0 <= k < |rows|
      ensures rows[k].bondTr.Some?
    {
      assert rows[k] in panel;
    }
  }

  /** On a panel with one row per (country, year), the benchmark years strictly increase. */
  lemma BenchmarkYearsIncreasing(raw: seq<RawRow>, initYear: int, endYear: int)
    requires NonZeroRates(raw)
    requires DistinctBy(raw, RawKey)
    ensures forall i, j :: 0 <= i < j < |Benchmark(BuildPanel(raw, initYear, endYear))| ==>
      Benchmark(BuildPanel(raw, initYear, endYear))[i].year < Benchmark(BuildPanel(raw, initYear, endYear))[j].year
  {
    var panel := BuildPanel(raw, initYear, endYear);
    PanelSortedByCountryYear(raw, initYear, endYear);
    PanelKeepsUniqueKeys(raw, initYear, endYear);
    var later := (a: PanelRow, b: PanelRow) => a.country == b.country ==> a.year < b.year;
    forall i, j | 0 <= i < j < |panel|
      ensures later(panel[i], panel[j])
    {
      assert PanelLe(panel[i], panel[j]);
      assert PanelKey(panel[i]) != PanelKey(panel[j]);
    }
    FilterKeepsPairwise(panel, IsReferenceRow, later);
    var rows := ReferenceRows(panel);
    BenchmarkCorrect(panel);
    forall i, j | 0 <= i < j < |rows|
      ensures rows[i].year < rows[j].year
    {
      assert rows[i] in rows && rows[j] in rows;
      assert later(rows[i], rows[j]);
    }
  }

  /** Three reference-country years with returns 5%, missing and 3% give the index
      1.05, 1.05 (the missing year counts as 0) and 1.05 * 1.03 = 1.0815. */
  lemma BenchmarkExample()
    ensures Benchmark([
      PanelRow(2000, Reference, Some(0.01), Some(0.05), Some(0.06), Some(0.02), Some(1.0), Some(0.1)),
      PanelRow(2001, Reference, Some(0.01), None, Some(0.06), Some(0.02), Some(1.0), Some(0.1)),
      PanelRow(2002, Reference, Some(0.01), Some(0.03), Some(0.06), Some(0.02), Some(1.0), Some(0.1))])
      == [BenchPoint(2000, 0.05, 1.05), BenchPoint(2001, 0.0, 1.05), BenchPoint(2002, 0.03, 1.0815)]
  {
    var panel := [
      PanelRow(2000, Reference, Some(0.01), Some(0.05), Some(0.06), Some(0.02), Some(1.0), Some(0.1)),
      PanelRow(2001, Reference, Some(0.01), None, Some(0.06), Some(0.02), Some(1.0), Some(0.1)),
      PanelRow(2002, Reference, Some(0.01), Some(0.03), Some(0.06), Some(0.02), Some(1.0), Some(0.1))];
    FilterKeepsAll(panel, IsReferenceRow);
    var rs := FilledBondReturns(panel);
    assert rs == [0.05, 0.0, 0.03];
    CumProdExample();
    var bench := Benchmark(panel);
    assert ReferenceRows(panel) == panel;
    assert bench[0] == BenchPoint(2000, 0.05, 1.05);
    assert bench[1] == BenchPoint(2001, 0.0, 1.05);
    assert bench[2] == BenchPoint(2002, 0.03, 1.0815);
  }

  // ---------------------------------------------------------------------------
  // The inner join and the renames (lines 85-91)
  // ---------------------------------------------------------------------------

  /** One row of the combined output, after the renames: `index` becomes `strategy_index`,
      the benchmark `bond_tr` becomes `benchmark_return`, and the benchmark `index`
      becomes `benchmark_index`. */
  datatype CombinedRow = CombinedRow(
    year: int,
    strategyReturn: real,
    strategyIndex: real,
    countries: seq<string>,
    benchmarkReturn: real,
    benchmarkIndex: real)

  function Combine(r: Record, b: BenchPoint): CombinedRow {
    CombinedRow(r.year, r.strategyReturn, r.index, r.countries, b.bondTr, b.index)
  }

  /** The benchmark points of the record's year, in benchmark order, each combined with it. */
  function Matches(r: Record, bench: seq<BenchPoint>): (rows: seq<CombinedRow>)
    ensures |rows| <= |bench|
  {
    if bench == [] then []
    else
      var b := bench[|bench| - 1];
      Matches(r, bench[..|bench| - 1]) + if b.year == r.year then [Combine(r, b)] else []
  }

  /** `pd.merge(strategy, benchmark, on='year', how='inner')`: for each record in order, its
      matching benchmark points in order. */
  function Join(records: seq<Record>, bench: seq<BenchPoint>): seq<CombinedRow> {
    if records == [] then []
    else Join(records[..|records| - 1], bench) + Matches(records[|records| - 1], bench)
  }

  lemma {:induction false} MatchesMembership(r: Record, bench: seq<BenchPoint>, c: CombinedRow)
    ensures c in Matches(r, bench) <==> exists j :: 0 <= j < |bench| && bench[j].year == r.year && c == Combine(r, bench[j])
  {
    if bench != [] {
      var n := |bench| - 1;
      MatchesMembership(r, bench[..n], c);
      if exists j :: 0 <= j < n && bench[..n][j].year == r.year && c == Combine(r, bench[..n][j]) {
        var j :| 0 <= j < n && bench[..n][j].year == r.year && c == Combine(r, bench[..n][j]);
        assert bench[j] == bench[..n][j];
      }
      if exists j :: 0 <= j < |bench| && bench[j].year == r.year && c == Combine(r, bench[j]) {
        var j :| 0 <= j < |bench| && bench[j].year == r.year && c == Combine(r, bench[j]);
        if j < n {
          assert bench[..n][j] == bench[j];
        }
      }
    }
  }

  /** Every combined row comes from a record and a benchmark point of the same year. */
  lemma {:induction false} JoinedFromPair(records: seq<Record>, bench: seq<BenchPoint>, c: CombinedRow)
    requires c in Join(records, bench)
    ensures exists i, j :: 0 <= i < |records| && 0 <= j < |bench| && records[i].year == bench[j].year && c == Combine(records[i], bench[j])
  {
    var n := |records| - 1;
    var before := records[..n];
    if c in Join(before, bench) {
      JoinedFromPair(before, bench, c);
      var i, j :| 0 <= i < |before| && 0 <= j < |bench| && before[i].year == bench[j].year && c == Combine(before[i], bench[j]);
      assert records[i] == before[i];
    } else {
      MatchesMembership(records[n], bench, c);
    }
  }

  /** Every record and benchmark point of the same year give a combined row. */
  lemma {:induction false} PairIsJoined(records: seq<Record>, bench: seq<BenchPoint>, i: nat, j: nat)
    requires i < |records| && j < |bench| && records[i].year == bench[j].year
    ensures Combine(records[i], bench[j]) in Join(records, bench)
  {
    var n := |records| - 1;
    var before := records[..n];
    var c := Combine(records[i], bench[j]);
    assert Join(records, bench) == Join(before, bench) + Matches(records[n], bench);
    if i < n {
      assert before[i] == records[i];
      PairIsJoined(before, bench, i, j);
      assert c in Join(before, bench);
    } else {
      MatchesMembership(records[n], bench, c);
      assert c in Matches(records[n], bench);
    }
  }

  /** A combined row is the combination of a record and a benchmark point of the same year,
      and every such pair gives one. */
  lemma JoinMembership(records: seq<Record>, bench: seq<BenchPoint>, c: CombinedRow)
    ensures c in Join(records, bench) <==>
      exists i, j :: 0 <= i < |records| && 0 <= j < |bench| && records[i].year == bench[j].year && c == Combine(records[i], bench[j])
  {
    if c in Join(records, bench) {
      JoinedFromPair(records, bench, c);
    }
    if exists i, j :: 0 <= i < |records| && 0 <= j < |bench| && records[i].year == bench[j].year && c == Combine(records[i], bench[j]) {
      var i, j :| 0 <= i < |records| && 0 <= j < |bench| && records[i].year == bench[j].year && c == Combine(records[i], bench[j]);
      PairIsJoined(records, bench, i, j);
    }
  }

  /** The number of combined rows of year `y`. */
  function Occurrences(rows: seq<CombinedRow>, y: int): nat {
    if rows == [] then 0
    else Occurrences(rows[..|rows| - 1], y) + if rows[|rows| - 1].year == y then 1 else 0
  }

  lemma {:induction false} OccurrencesAppend(a: seq<CombinedRow>, b: seq<CombinedRow>, y: int)
    ensures Occurrences(a + b, y) == Occurrences(a, y) + Occurrences(b, y)
  {
    if b == [] {
      assert a + b == a;
    } else {
      var n := |b| - 1;
      assert (a + b)[..|a + b| - 1] == a + b[..n];
      OccurrencesAppend(a, b[..n], y);
    }
  }

  predicate DistinctYears(bench: seq<BenchPoint>) {
    forall i, j :: 0 <= i < j < |bench| ==> bench[i].year != bench[j].year
  }

  predicate HasYear(bench: seq<BenchPoint>, y: int) {
    exists j :: 0 <= j < |bench| && bench[j].year == y
  }

  /** With one benchmark point per year, a record matches once if the benchmark has its
      year and not at all otherwise. */
  lemma {:induction false} MatchesOnce(r: Record, bench: seq<BenchPoint>, y: int)
    requires DistinctYears(bench)
    ensures Occurrences(Matches(r, bench), y) == if r.year == y && HasYear(bench, y) then 1 else 0
  {
    if bench != [] {
      var n := |bench| - 1;
      var before := bench[..n];
      assert DistinctYears(before);
      MatchesOnce(r, before, y);
      var tail := if bench[n].year == r.year then [Combine(r, bench[n])] else [];
      OccurrencesAppend(Matches(r, before), tail, y);
      assert Occurrences(tail, y) == if bench[n].year == r.year && r.year == y then 1 else 0 by {
        if tail != [] {
          assert tail[..0] == [];
        }
      }
      if HasYear(before, y) {
        var j :| 0 <= j < |before| && before[j].year == y;
        assert bench[j].year == y;
      }
      if HasYear(bench, y) {
        var j :| 0 <= j < |bench| && bench[j].year == y;
        if j < n {
          assert before[j].year == y;
        }
      }
    }
  }

  predicate RecordHasYear(records: seq<Record>, y: int) {
    exists i :: 0 <= i < |records| && records[i].year == y
  }

  /** With one record and one benchmark point per year, every year of both appears exactly
      once in the join, and no other year appears. */
  lemma {:induction false} JoinOnce(records: seq<Record>, bench: seq<BenchPoint>, y: int)
    requires forall i, j :: 0 <= i < j < |records| ==> records[i].year != records[j].year
    requires DistinctYears(bench)
    ensures Occurrences(Join(records, bench), y) == if RecordHasYear(records, y) && HasYear(bench, y) then 1 else 0
  {
    if records != [] {
      var n := |records| - 1;
      var before := records[..n];
      JoinOnce(before, bench, y);
      MatchesOnce(records[n], bench, y);
      OccurrencesAppend(Join(before, bench), Matches(records[n], bench), y);
      if RecordHasYear(before, y) {
        var i :| 0 <= i < |before| && before[i].year == y;
        assert records[i].year == y;
        assert records[n].year != y;
      }
      if RecordHasYear(records, y) {
        var i :| 0 <= i < |records| && records[i].year == y;
        if i < n {
          assert before[i].year == y;
        }
      }
    }
  }

  /** A record's matches all carry its year and, with one benchmark point per year, number at most one. */
  lemma {:induction false} MatchesOfYear(r: Record, bench: seq<BenchPoint>)
    requires DistinctYears(bench)
    ensures forall c :: c in Matches(r, bench) ==> c.year == r.year
    ensures |Matches(r, bench)| <= 1
  {
    forall c | c in Matches(r, bench)
      ensures c.year == r.year
    {
      MatchesMembership(r, bench, c);
    }
    if |Matches(r, bench)| > 1 {
      var m := Matches(r, bench);
      MatchesOnce(r, bench, r.year);
      OccurrencesAppend(m[..2], m[2..], r.year);
    }
  }

  /** Records in strictly ascending year order and one benchmark point per year give a join in
      strictly ascending year order. */
  lemma {:induction false} JoinYearsIncreasing(records: seq<Record>, bench: seq<BenchPoint>)
    requires forall i, j :: 0 <= i < j < |records| ==> records[i].year < records[j].year
    requires DistinctYears(bench)
    ensures forall i, j :: 0 <= i < j < |Join(records, bench)| ==> Join(records, bench)[i].year < Join(records, bench)[j].year
  {
    if records != [] {
      var n := |records| - 1;
      var before := records[..n];
      JoinYearsIncreasing(before, bench);
      MatchesOfYear(records[n], bench);
      var prev := Join(before, bench);
      var m := Matches(records[n], bench);
      var all := Join(records, bench);
      assert all == prev + m;
      forall i | 0 <= i < |prev|
        ensures prev[i].year < records[n].year
      {
        assert prev[i] in prev;
        JoinMembership(before, bench, prev[i]);
        var a, b :| 0 <= a < |before| && 0 <= b < |bench| && before[a].year == bench[b].year && prev[i] == Combine(before[a], bench[b]);
        assert records[a] == before[a];
      }
      forall i, j | 0 <= i < j < |all|
        ensures all[i].year < all[j].year
      {
        if j < |prev| {
          assert all[i] == prev[i] && all[j] == prev[j];
        } else {
          assert m[j - |prev|] in m;
          assert all[i] == prev[i];
        }
      }
    }
  }

  // ---------------------------------------------------------------------------
  // The pipeline
  // ---------------------------------------------------------------------------

  /** backtest.py lines 12-91 without the file I/O: prepare the panel, run the strategy, build
      the benchmark and join the two. With no accepted year the strategy frame has no `year`
      column and the merge fails, which is the `None` result. */
  method Backtest(raw: seq<RawRow>, initYear: int, endYear: int, topN: nat)
    returns (records: seq<Record>, combined: Option<seq<CombinedRow>>)
    requires NonZeroRates(raw) && topN >= 1
    ensures IsTrack(records, Accepted(GroupByYear(BuildPanel(raw, initYear, endYear)), topN))
    ensures records == [] ==> combined == None
    ensures records != [] ==> combined == Some(Join(records, Benchmark(BuildPanel(raw, initYear, endYear))))
  {
    var panel := BuildPanel(raw, initYear, endYear);
    var benchmark := Benchmark(panel);
    records := RunStrategy(panel, topN);
    if records == [] {
      combined := None;
    } else {
      combined := Some(Join(records, benchmark));
    }
  }

  /** Records with strictly increasing years in [lo, hi] and one benchmark point per year
      give a join with one row per shared year, in strictly increasing year order, within
      [lo, hi]. */
  lemma JoinRows(records: seq<Record>, bench: seq<BenchPoint>, lo: int, hi: int)
    requires forall i, j :: 0 <= i < j < |records| ==> records[i].year < records[j].year
    requires forall k :: 0 <= k < |records| ==> lo <= records[k].year <= hi
    requires DistinctYears(bench)
    ensures forall y :: Occurrences(Join(records, bench), y) == if RecordHasYear(records, y) && HasYear(bench, y) then 1 else 0
    ensures forall i, j :: 0 <= i < j < |Join(records, bench)| ==> Join(records, bench)[i].year < Join(records, bench)[j].year
    ensures forall c :: c in Join(records, bench) ==> lo <= c.year <= hi
  {
    forall y
      ensures Occurrences(Join(records, bench), y) == if RecordHasYear(records, y) && HasYear(bench, y) then 1 else 0
    {
      JoinOnce(records, bench, y);
    }
    JoinYearsIncreasing(records, bench);
    forall c | c in Join(records, bench)
      ensures lo <= c.year <= hi
    {
      JoinedFromPair(records, bench, c);
    }
  }

  /** On a raw panel with one row per (country, year), the combined output has one row per
      year that both the strategy and the benchmark have, and no other row; its years
      strictly increase and lie in [init_year, end_year]. */
  lemma BacktestRows(raw: seq<RawRow>, initYear: int, endYear: int, topN: nat, records: seq<Record>)
    requires NonZeroRates(raw) && topN >= 1
    requires DistinctBy(raw, RawKey)
    requires IsTrack(records, Accepted(GroupByYear(BuildPanel(raw, initYear, endYear)), topN))
    ensures forall y :: (Occurrences(Join(records, Benchmark(BuildPanel(raw, initYear, endYear))), y) ==
      if RecordHasYear(records, y) && HasYear(Benchmark(BuildPanel(raw, initYear, endYear)), y) then 1 else 0)
    ensures forall i, j :: 0 <= i < j < |Join(records, Benchmark(BuildPanel(raw, initYear, endYear)))| ==>
      Join(records, Benchmark(BuildPanel(raw, initYear, endYear)))[i].year < Join(records, Benchmark(BuildPanel(raw, initYear, endYear)))[j].year
    ensures forall c :: c in Join(records, Benchmark(BuildPanel(raw, initYear, endYear))) ==> initYear <= c.year <= endYear
  {
    var panel := BuildPanel(raw, initYear, endYear);
    var bench := Benchmark(panel);
    PanelKeepsUniqueKeys(raw, initYear, endYear);
    TrackRecords(panel, topN, records);
    TrackYearsInRange(raw, initYear, endYear, topN, records);
    BenchmarkYearsIncreasing(raw, initYear, endYear);
    assert DistinctYears(bench);
    JoinRows(records, bench, initYear, endYear);
  }
}
