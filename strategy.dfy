/** The yearly ranking-and-compounding loop of backtest.py (lines 38-80): group the panel
    by year, skip years without a usable pool, rank the rest by term premium, hold the
    top N with equal weights, and compound the year's return into a running index. */
module Strategy {
  import opened Wrappers
  import opened Seqs
  import opened Panel
  import opened Ranking
  import opened Compounding

  /** The country whose bill rate is the risk-free leg, and whose presence a year needs. */
  const Reference: string := "USA"

  // ---------------------------------------------------------------------------
  // One year (lines 45-65)
  // ---------------------------------------------------------------------------

  /** The row survives `dropna(subset=['term_premium', 'bond_tr', 'bill_rate', 'fx_return'])`. */
  predicate HasSignal(p: PanelRow) {
    p.termPremium.Some? && p.bondTr.Some? && p.billRate.Some? && p.fxReturn.Some?
  }

  function ToCandidate(p: PanelRow): Candidate
    requires HasSignal(p)
  {
    Candidate(p.country, p.termPremium.value, p.bondTr.value, p.billRate.value, p.fxReturn.value)
  }

  /** The year's sample: its rows with a complete signal, in group order. */
  function Eligible(rows: seq<PanelRow>): (pool: seq<Candidate>)
    ensures |pool| <= |rows|
  {
    var kept := Filter(rows, HasSignal);
    seq(|kept|, i requires 0 <= i < |kept| => ToCandidate(kept[i]))
  }

  /** `'USA' in sample['country'].values`. */
  predicate HasReference(pool: seq<Candidate>) {
    exists i :: 0 <= i < |pool| && pool[i].country == Reference
  }

  /** The bill rate of the first reference-country row of the pool
      (`sample[sample['country'] == 'USA'].iloc[0]['bill_rate']`). */
  function ReferenceBill(pool: seq<Candidate>): (bill: real)
    requires HasReference(pool)
    ensures exists i :: (0 <= i < |pool| && pool[i].country == Reference && bill == pool[i].billRate
      && forall k :: 0 <= k < i ==> pool[k].country != Reference)
  {
    if pool[0].country == Reference then pool[0].billRate
    else
      assert forall i :: 1 <= i < |pool| ==> pool[i] == pool[1..][i - 1];
      ReferenceBill(pool[1..])
  }

  /** The sum of the position returns of `top`. */
  function ExcessSum(top: seq<Candidate>): real {
    if top == [] then 0.0 else ExcessSum(top[..|top| - 1]) + PositionReturn(top[|top| - 1])
  }

  function CountriesOf(cs: seq<Candidate>): (names: seq<string>)
    ensures |names| == |cs|
    ensures forall i :: 0 <= i < |cs| ==> names[i] == cs[i].country
  {
    seq(|cs|, i requires 0 <= i < |cs| => cs[i].country)
  }

  /** The equal weight of each selected country. */
  function Weight(topN: nat): real
    requires topN >= 1
  {
    1.0 / topN as real
  }

  /** The year's strategy return: the equal-weighted position returns plus the bill rate. */
  function YearReturn(top: seq<Candidate>, topN: nat, bill: real): real
    requires topN >= 1
  {
    Weight(topN) * ExcessSum(top) + bill
  }

  /** The candidates held in a year, in rank order, and the year's strategy return. */
  datatype Selection = Selection(chosen: seq<Candidate>, strategyReturn: real)

  /** What one year's group yields: nothing when the sample lacks the reference country or
      has fewer than `topN` rows; otherwise the top `topN` by term premium and the return
      `(1/topN) * sum of their position returns + the reference bill rate`. */
  function EvaluateYear(rows: seq<PanelRow>, topN: nat): Option<Selection>
    requires topN >= 1
  {
    var pool := Eligible(rows);
    if !HasReference(pool) || |pool| < topN then None
    else
      var top := TopN(pool, topN);
      Some(Selection(top, YearReturn(top, topN, ReferenceBill(pool))))
  }

  // ---------------------------------------------------------------------------
  // groupby('year')
  // ---------------------------------------------------------------------------

  predicate StrictlyIncreasing(ys: seq<int>) {
    forall i, j :: 0 <= i < j < |ys| ==> ys[i] < ys[j]
  }

  /** Adds `y` to an ascending list of distinct years. */
  function InsertYear(y: int, ys: seq<int>): (r: seq<int>)
    requires StrictlyIncreasing(ys)
    ensures StrictlyIncreasing(r)
    ensures forall x :: x in r <==> x == y || x in ys
  {
    if ys == [] then [y]
    else if y < ys[0] then [y] + ys
    else if y == ys[0] then ys
    else
      var rest := InsertYear(y, ys[1..]);
      assert forall j :: 0 <= j < |rest| ==> ys[0] < rest[j] by {
        forall j | 0 <= j < |rest|
          ensures ys[0] < rest[j]
        {
          assert rest[j] in rest;
        }
      }
      [ys[0]] + rest
  }

  /** The distinct years of the panel, ascending. */
  function Years(panel: seq<PanelRow>): (ys: seq<int>)
    ensures StrictlyIncreasing(ys)
    ensures forall y :: y in ys <==> exists i :: 0 <= i < |panel| && panel[i].year == y
  {
    if panel == [] then []
    else
      var n := |panel| - 1;
      assert forall i :: 0 <= i < n ==> panel[..n][i] == panel[i];
      InsertYear(panel[n].year, Years(panel[..n]))
  }

  function InYear(y: int): PanelRow -> bool {
    (p: PanelRow) => p.year == y
  }

  /** The rows of year `y`, in panel order. */
  function RowsOfYear(panel: seq<PanelRow>, y: int): seq<PanelRow> {
    Filter(panel, InYear(y))
  }

  /** One group of `groupby('year')`. */
  datatype YearGroup = YearGroup(year: int, rows: seq<PanelRow>)

  /** `df.groupby('year')`: one group per distinct year, ascending. */
  function GroupByYear(panel: seq<PanelRow>): (groups: seq<YearGroup>)
  {
    var ys := Years(panel);
    seq(|ys|, k requires 0 <= k < |ys| => YearGroup(ys[k], RowsOfYear(panel, ys[k])))
  }

  /** The groups come in strictly ascending year order, every group is non-empty and holds
      exactly the panel's rows of its year, and every panel row's year has a group. */
  lemma GroupByYearCorrect(panel: seq<PanelRow>)
    ensures forall k, l :: 0 <= k < l < |GroupByYear(panel)| ==> GroupByYear(panel)[k].year < GroupByYear(panel)[l].year
    ensures forall k :: 0 <= k < |GroupByYear(panel)| ==>
      GroupByYear(panel)[k].rows == RowsOfYear(panel, GroupByYear(panel)[k].year) && GroupByYear(panel)[k].rows != []
    ensures forall i :: 0 <= i < |panel| ==> exists k :: 0 <= k < |GroupByYear(panel)| && GroupByYear(panel)[k].year == panel[i].year
  {
    var groups := GroupByYear(panel);
    var ys := Years(panel);
    forall k | 0 <= k < |groups|
      ensures groups[k].rows != []
    {
      assert ys[k] in ys;
      var i :| 0 <= i < |panel| && panel[i].year == ys[k];
      assert panel[i] in groups[k].rows;
    }
    forall i | 0 <= i < |panel|
      ensures exists k :: 0 <= k < |groups| && groups[k].year == panel[i].year
    {
      assert panel[i].year in ys;
      var k :| 0 <= k < |ys| && ys[k] == panel[i].year;
      assert groups[k].year == ys[k];
    }
  }

  // ---------------------------------------------------------------------------
  // The accepted years and the strategy track (lines 38-80)
  // ---------------------------------------------------------------------------

  /** An accepted year and what it selected. */
  datatype Outcome = Outcome(year: int, selection: Selection)

  /** The outcome of one group: its year and selection when the year is accepted. */
  function Judge(topN: nat): YearGroup -> Option<Outcome>
    requires topN >= 1
  {
    (g: YearGroup) =>
      match EvaluateYear(g.rows, topN)
      case Some(s) => Some(Outcome(g.year, s))
      case None => None
  }

  /** The accepted years of `groups`, in group order. */
  function Accepted(groups: seq<YearGroup>, topN: nat): seq<Outcome>
    requires topN >= 1
  {
    Collect(groups, Judge(topN))
  }

  /** One row of the strategy output: the year, its return, the index after it, and the
      `country_1 .. country_N` labels in rank order. */
  datatype Record = Record(year: int, strategyReturn: real, index: real, countries: seq<string>)

  function ReturnsOf(records: seq<Record>): (rs: seq<real>)
    ensures |rs| == |records|
    ensures forall k :: 0 <= k < |records| ==> rs[k] == records[k].strategyReturn
  {
    seq(|records|, k requires 0 <= k < |records| => records[k].strategyReturn)
  }

  /** `records` is the strategy track of the accepted years `acc`: one record per accepted
      year, in order, with its return and selected countries, and an index equal to the
      product of `1 + return` over every record up to and including it. */
  ghost predicate IsTrack(records: seq<Record>, acc: seq<Outcome>) {
    && |records| == |acc|
    && (forall k :: 0 <= k < |acc| ==>
          && records[k].year == acc[k].year
          && records[k].strategyReturn == acc[k].selection.strategyReturn
          && records[k].countries == CountriesOf(acc[k].selection.chosen))
    && (forall k :: 0 <= k < |records| ==> records[k].index == Compound(ReturnsOf(records[..k + 1])))
  }

  /** One step of the fold: the accepted years of one more group. */
  lemma AcceptedStep(groups: seq<YearGroup>, k: nat, topN: nat)
    requires topN >= 1 && k < |groups|
    ensures EvaluateYear(groups[k].rows, topN).None? ==> Accepted(groups[..k + 1], topN) == Accepted(groups[..k], topN)
    ensures EvaluateYear(groups[k].rows, topN).Some? ==> (Accepted(groups[..k + 1], topN) ==
      Accepted(groups[..k], topN) + [Outcome(groups[k].year, EvaluateYear(groups[k].rows, topN).value)])
  {
    CollectStep(groups, k, Judge(topN));
  }

  /** The record a track holds for the accepted year `o`. */
  predicate RecordOf(r: Record, o: Outcome) {
    r.year == o.year && r.strategyReturn == o.selection.strategyReturn
    && r.countries == CountriesOf(o.selection.chosen)
  }

  /** The running value after the records: 1.0 before the first, else the last index. */
  function LastIndex(records: seq<Record>): real {
    if records == [] then 1.0 else records[|records| - 1].index
  }

  /** The track as the loop builds it: each record follows the previous one, with the
      running value multiplied by one plus its return. */
  ghost predicate IsRunningTrack(records: seq<Record>, acc: seq<Outcome>) {
    && |records| == |acc|
    && (records != [] ==>
          var n := |records| - 1;
          && IsRunningTrack(records[..n], acc[..n])
          && RecordOf(records[n], acc[n])
          && records[n].index == Grow(LastIndex(records[..n]), records[n].strategyReturn))
  }

  lemma RunningTrackExtend(records: seq<Record>, acc: seq<Outcome>, r: Record, o: Outcome)
    requires IsRunningTrack(records, acc)
    requires RecordOf(r, o) && r.index == Grow(LastIndex(records), r.strategyReturn)
    ensures IsRunningTrack(records + [r], acc + [o])
  {
    assert (records + [r])[..|records|] == records;
    assert (acc + [o])[..|acc|] == acc;
  }

  /** The last running value is the compounded product of all the returns. */
  lemma {:induction false} RunningTrackCompounds(records: seq<Record>, acc: seq<Outcome>)
    requires IsRunningTrack(records, acc)
    ensures LastIndex(records) == Compound(ReturnsOf(records))
  {
    if records != [] {
      var n := |records| - 1;
      RunningTrackCompounds(records[..n], acc[..n]);
      var rs := ReturnsOf(records);
      assert rs[..n] == ReturnsOf(records[..n]);
      assert Compound(rs) == Grow(Compound(rs[..n]), rs[n]);
    }
  }

  /** Each record of a running track is the record of its accepted year, and its index is
      the compounded product of the returns up to and including it. */
  lemma {:induction false} RunningTrackAt(records: seq<Record>, acc: seq<Outcome>, k: nat)
    requires IsRunningTrack(records, acc) && k < |records|
    ensures RecordOf(records[k], acc[k])
    ensures records[k].index == Compound(ReturnsOf(records[..k + 1]))
  {
    var n := |records| - 1;
    if k == n {
      RunningTrackCompounds(records, acc);
      assert records[..k + 1] == records;
    } else {
      RunningTrackAt(records[..n], acc[..n], k);
      assert records[..n][..k + 1] == records[..k + 1];
    }
  }

  /** A track built step by step, each index the previous one grown by the year's return,
      is a track. */
  lemma RunningTrackIsTrack(records: seq<Record>, acc: seq<Outcome>)
    requires IsRunningTrack(records, acc)
    ensures IsTrack(records, acc)
  {
    forall k | 0 <= k < |records|
      ensures RecordOf(records[k], acc[k])
      ensures records[k].index == Compound(ReturnsOf(records[..k + 1]))
    {
      RunningTrackAt(records, acc, k);
    }
  }

  lemma YearSkipped(rows: seq<PanelRow>, topN: nat)
    requires topN >= 1
    requires !HasReference(Eligible(rows)) || |Eligible(rows)| < topN
    ensures EvaluateYear(rows, topN) == None
  {
  }

  lemma YearTaken(rows: seq<PanelRow>, topN: nat, ret: real)
    requires topN >= 1
    requires HasReference(Eligible(rows)) && |Eligible(rows)| >= topN
    requires ret == YearReturn(TopN(Eligible(rows), topN), topN, ReferenceBill(Eligible(rows)))
    ensures EvaluateYear(rows, topN) == Some(Selection(TopN(Eligible(rows), topN), ret))
  {
  }

  /** The return the loop accumulates is the year's return. */
  lemma PnlPlusBill(top: seq<Candidate>, topN: nat, pnl: real, bill: real)
    requires topN >= 1
    requires pnl == Weight(topN) * ExcessSum(top)
    ensures pnl + bill == YearReturn(top, topN, bill)
  {
  }

  /** Lines 55-62: the equal-weighted sum of the selected position returns, and the
      selected countries in rank order. */
  method Allocate(top: seq<Candidate>, topN: nat) returns (strategyPnl: real, selected: seq<string>)
    requires topN >= 1
    ensures strategyPnl == Weight(topN) * ExcessSum(top)
    ensures selected == CountriesOf(top)
  {
    var weight := 1.0 / topN as real;
    strategyPnl := 0.0;
    selected := [];
    for i := 0 to |top|
      invariant strategyPnl == weight * ExcessSum(top[..i])
      invariant selected == CountriesOf(top[..i])
    {
      var row := top[i];
      assert top[..i + 1][..i] == top[..i];
      var positionPnl := (row.bondTr - row.billRate) * row.fxReturn;
      strategyPnl := strategyPnl + weight * positionPnl;
      selected := selected + [row.country];
    }
    assert top[..|top|] == top;
  }

  /** One pass of the loop keeps the records a running track of the groups seen so far. */
  lemma TrackStep(groups: seq<YearGroup>, k: nat, topN: nat, previous: seq<Record>,
                  result: Option<Selection>, selected: seq<string>, records: seq<Record>)
    requires topN >= 1 && k < |groups|
    requires IsRunningTrack(previous, Accepted(groups[..k], topN))
    requires result == EvaluateYear(groups[k].rows, topN)
    requires result.Some? ==> selected == CountriesOf(result.value.chosen)
    requires records == if result.None? then previous else
      var r := result.value.strategyReturn;
      previous + [Record(groups[k].year, r, Grow(LastIndex(previous), r), selected)]
    ensures IsRunningTrack(records, Accepted(groups[..k + 1], topN))
  {
    AcceptedStep(groups, k, topN);
    if result.Some? {
      var r := result.value.strategyReturn;
      RunningTrackExtend(previous, Accepted(groups[..k], topN),
        Record(groups[k].year, r, Grow(LastIndex(previous), r), selected), Outcome(groups[k].year, result.value));
    }
  }

  /** Lines 45-65, one group of the loop: the year's sample, the skip test, the ranking,
      the allocation and the year's return; `selected` lists the held countries in rank order. */
  method EvaluateGroup(rows: seq<PanelRow>, topN: nat) returns (result: Option<Selection>, selected: seq<string>)
    requires topN >= 1
    ensures result == EvaluateYear(rows, topN)
    ensures result.Some? ==> selected == CountriesOf(result.value.chosen)
  {
    var sample := Eligible(rows);
    if !HasReference(sample) || |sample| < topN {
      YearSkipped(rows, topN);
      return None, [];
    }
    var top := TopN(sample, topN);
    var strategyPnl;
    strategyPnl, selected := Allocate(top, topN);
    var usBillRate := ReferenceBill(sample);
    var strategyReturn := strategyPnl + usBillRate;
    PnlPlusBill(top, topN, strategyPnl, usBillRate);
    YearTaken(rows, topN, strategyReturn);
    result := Some(Selection(top, strategyReturn));
  }

  /** Lines 67-80: an accepted year grows the running value by its return and appends a
      record of the year, its return, the new value and the selected countries; a skipped
      year changes nothing. */
  method RecordYear(records: seq<Record>, cumulativeValue: real, year: int,
                    result: Option<Selection>, selected: seq<string>)
    returns (records': seq<Record>, cumulativeValue': real)
    requires cumulativeValue == LastIndex(records)
    ensures records' == if result.None? then records else
      var r := result.value.strategyReturn;
      records + [Record(year, r, Grow(LastIndex(records), r), selected)]
    ensures cumulativeValue' == LastIndex(records')
  {
    records', cumulativeValue' := records, cumulativeValue;
    if result.Some? {
      var strategyReturn := result.value.strategyReturn;
      cumulativeValue' := Grow(cumulativeValue', strategyReturn);
      records' := records' + [Record(year, strategyReturn, cumulativeValue', selected)];
    }
  }

  /** Lines 38-80 over the groups of `groupby('year')`: visits the groups in order, skips a
      year whose sample lacks the reference country or has fewer than `topN` rows, and
      otherwise records the year's equal-weighted top-`topN` return and compounds it into the
      running value. */
  method CompoundYears(groups: seq<YearGroup>, topN: nat) returns (records: seq<Record>)
    requires topN >= 1
    ensures IsTrack(records, Accepted(groups, topN))
  {
    var cumulativeValue := 1.0;
    records := [];
    var k := 0;
    while k < |groups|
      invariant 0 <= k <= |groups|
      invariant IsRunningTrack(records, Accepted(groups[..k], topN))
      invariant cumulativeValue == LastIndex(records)
    {
      var group := groups[k];
      var result, selected := EvaluateGroup(group.rows, topN);
      ghost var previous := records;
      records, cumulativeValue := RecordYear(records, cumulativeValue, group.year, result, selected);
      TrackStep(groups, k, topN, previous, result, selected, records);
      k := k + 1;
    }
    assert groups[..|groups|] == groups;
    RunningTrackIsTrack(records, Accepted(groups, topN));
  }

  /** The strategy track of a panel: its years grouped in ascending order, then folded. */
  method RunStrategy(panel: seq<PanelRow>, topN: nat) returns (records: seq<Record>)
    requires topN >= 1
    ensures IsTrack(records, Accepted(GroupByYear(panel), topN))
  {
    var grouped := GroupByYear(panel);
    records := CompoundYears(grouped, topN);
  }
}
