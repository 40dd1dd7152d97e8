/** What the strategy track of backtest.py (lines 38-80) promises: which years are
    recorded, in what order, what each year selects and what it earns. */
module StrategyFacts {
  import opened Wrappers
  import opened Seqs
  import opened Frame
  import opened Panel
  import opened Ranking
  import opened Strategy
  import opened Compounding

  // ---------------------------------------------------------------------------
  // The sample of one year
  // ---------------------------------------------------------------------------

  /** A candidate is in the year's sample exactly when it comes from a row of the group
      with a complete signal. */
  lemma EligibleMembership(rows: seq<PanelRow>, c: Candidate)
    ensures c in Eligible(rows) <==> exists p :: p in rows && HasSignal(p) && c == ToCandidate(p)
  {
    var kept := Filter(rows, HasSignal);
    var pool := Eligible(rows);
    if c in pool {
      var i :| 0 <= i < |pool| && pool[i] == c;
      assert kept[i] in kept;
    }
    if exists p :: p in rows && HasSignal(p) && c == ToCandidate(p) {
      var p :| p in rows && HasSignal(p) && c == ToCandidate(p);
      assert p in kept;
      var i :| 0 <= i < |kept| && kept[i] == p;
      assert pool[i] == c;
    }
  }

  /** `'USA' in sample['country'].values` holds exactly when the group has a reference-country
      row with a complete signal. */
  lemma HasReferenceIff(rows: seq<PanelRow>)
    ensures HasReference(Eligible(rows)) <==> exists p :: p in rows && HasSignal(p) && p.country == Reference
  {
    var pool := Eligible(rows);
    if HasReference(pool) {
      var i :| 0 <= i < |pool| && pool[i].country == Reference;
      EligibleMembership(rows, pool[i]);
    }
    if exists p :: p in rows && HasSignal(p) && p.country == Reference {
      var p :| p in rows && HasSignal(p) && p.country == Reference;
      EligibleMembership(rows, ToCandidate(p));
      var i :| 0 <= i < |pool| && pool[i] == ToCandidate(p);
    }
  }

  /** The re-check at line 45 is redundant on the panel: every panel row already has all
      four signal cells, so the sample of a year is its whole group. */
  lemma SignalCheckRedundant(raw: seq<RawRow>, initYear: int, endYear: int, y: int)
    requires NonZeroRates(raw)
    ensures Filter(RowsOfYear(BuildPanel(raw, initYear, endYear), y), HasSignal)
         == RowsOfYear(BuildPanel(raw, initYear, endYear), y)
  {
    var panel := BuildPanel(raw, initYear, endYear);
    var rows := RowsOfYear(panel, y);
    PanelMembership(raw, initYear, endYear);
    forall i | 0 <= i < |rows|
      ensures HasSignal(rows[i])
    {
      assert rows[i] in panel;
    }
    FilterKeepsAll(rows, HasSignal);
  }

  // ---------------------------------------------------------------------------
  // One accepted year
  // ---------------------------------------------------------------------------

  /** A year yields a selection exactly when its sample has a reference-country row and at
      least `topN` rows. */
  lemma AcceptedIff(rows: seq<PanelRow>, topN: nat)
    requires topN >= 1
    ensures EvaluateYear(rows, topN).Some? <==>
      (exists p :: p in rows && HasSignal(p) && p.country == Reference) && |Filter(rows, HasSignal)| >= topN
  {
    HasReferenceIff(rows);
  }

  /** What an accepted year selects and earns: exactly `topN` candidates of the sample, in
      descending term-premium order, none ranked below a candidate left out; the return is
      the equal-weighted sum of the position returns plus the bill rate of the sample's first
      reference-country row. */
  lemma SelectionCorrect(rows: seq<PanelRow>, topN: nat, sel: Selection)
    requires topN >= 1
    requires EvaluateYear(rows, topN) == Some(sel)
    ensures |sel.chosen| == topN
    ensures multiset(sel.chosen) <= multiset(Eligible(rows))
    ensures forall c :: c in sel.chosen ==> c in Eligible(rows)
    ensures forall i, j :: 0 <= i < j < topN ==> sel.chosen[i].termPremium >= sel.chosen[j].termPremium
    ensures forall x, y :: x in sel.chosen && y in multiset(Eligible(rows)) - multiset(sel.chosen) ==>
      x.termPremium >= y.termPremium
    ensures exists i :: (0 <= i < |Eligible(rows)| && Eligible(rows)[i].country == Reference
      && (forall k :: 0 <= k < i ==> Eligible(rows)[k].country != Reference)
      && sel.strategyReturn == YearReturn(sel.chosen, topN, Eligible(rows)[i].billRate))
  {
    var pool := Eligible(rows);
    TopNIsTopByPremium(pool, topN);
    var rest := Unselected(pool, topN);
    assert multiset(pool) - multiset(sel.chosen) == multiset(rest);
    forall x, y | x in sel.chosen && y in multiset(pool) - multiset(sel.chosen)
      ensures x.termPremium >= y.termPremium
    {
      assert y in rest;
    }
  }

  /** Within one year each country has at most one row, so the selected countries are distinct. */
  lemma SelectionDistinctCountries(rows: seq<PanelRow>, topN: nat, sel: Selection)
    requires topN >= 1
    requires EvaluateYear(rows, topN) == Some(sel)
    requires forall i, j :: 0 <= i < j < |rows| ==> rows[i].country != rows[j].country
    ensures DistinctBy(sel.chosen, CountryOf)
  {
    var differ := (a: PanelRow, b: PanelRow) => a.country != b.country;
    FilterKeepsPairwise(rows, HasSignal, differ);
    var pool := Eligible(rows);
    assert DistinctBy(pool, CountryOf);
    TopNDistinctCountries(pool, topN);
  }

  // ---------------------------------------------------------------------------
  // The sequence of accepted years
  // ---------------------------------------------------------------------------

  /** An outcome is accepted exactly when some group of its year evaluates to its selection. */
  lemma AcceptedMembership(groups: seq<YearGroup>, topN: nat, o: Outcome)
    requires topN >= 1
    ensures o in Accepted(groups, topN) <==>
      exists k :: 0 <= k < |groups| && groups[k].year == o.year && EvaluateYear(groups[k].rows, topN) == Some(o.selection)
  {
    CollectMembership(groups, Judge(topN), o);
    if exists k :: 0 <= k < |groups| && groups[k].year == o.year && EvaluateYear(groups[k].rows, topN) == Some(o.selection) {
      var k :| 0 <= k < |groups| && groups[k].year == o.year && EvaluateYear(groups[k].rows, topN) == Some(o.selection);
      assert Judge(topN)(groups[k]) == Some(o);
    }
  }

  function GroupYear(g: YearGroup): int {
    g.year
  }

  function OutcomeYear(o: Outcome): int {
    o.year
  }

  /** Groups in strictly ascending year order give accepted years in strictly ascending order. */
  lemma AcceptedYearsIncreasing(groups: seq<YearGroup>, topN: nat)
    requires topN >= 1
    requires forall k, l :: 0 <= k < l < |groups| ==> groups[k].year < groups[l].year
    ensures forall i, j :: 0 <= i < j < |Accepted(groups, topN)| ==> Accepted(groups, topN)[i].year < Accepted(groups, topN)[j].year
  {
    var f := Judge(topN);
    forall k | 0 <= k < |groups| && f(groups[k]).Some?
      ensures OutcomeYear(f(groups[k]).value) == GroupYear(groups[k])
    {
    }
    CollectKeepsIncreasing(groups, f, GroupYear, OutcomeYear);
    var acc := Accepted(groups, topN);
    forall i, j | 0 <= i < j < |acc|
      ensures acc[i].year < acc[j].year
    {
      assert OutcomeYear(acc[i]) < OutcomeYear(acc[j]);
    }
  }

  // ---------------------------------------------------------------------------
  // The strategy track of a panel
  // ---------------------------------------------------------------------------

  /** A panel with one row per (country, year) has one row per country in each year group. */
  lemma GroupCountriesDistinct(panel: seq<PanelRow>, y: int)
    requires UniqueKeys(panel)
    ensures forall i, j :: 0 <= i < j < |RowsOfYear(panel, y)| ==> RowsOfYear(panel, y)[i].country != RowsOfYear(panel, y)[j].country
  {
    var differ := (a: PanelRow, b: PanelRow) => PanelKey(a) != PanelKey(b);
    FilterKeepsPairwise(panel, InYear(y), differ);
    var rows := RowsOfYear(panel, y);
    forall i, j | 0 <= i < j < |rows|
      ensures rows[i].country != rows[j].country
    {
      assert rows[i] in rows && rows[j] in rows;
      assert differ(rows[i], rows[j]);
    }
  }

  /** A record that a year of `panel` could have produced: the year's sample passes the
      line-47 test, and the record names exactly `topN` distinct countries, each with a
      complete-signal row of that year in the panel. */
  predicate SoundRecord(panel: seq<PanelRow>, topN: nat, r: Record) {
    && HasReference(Eligible(RowsOfYear(panel, r.year)))
    && |Eligible(RowsOfYear(panel, r.year))| >= topN
    && |r.countries| == topN
    && (forall a, b :: 0 <= a < b < topN ==> r.countries[a] != r.countries[b])
    && (forall a :: 0 <= a < topN ==>
          exists p :: p in panel && p.year == r.year && HasSignal(p) && p.country == r.countries[a])
  }

  /** The record of an accepted year of a panel with one row per (country, year) is sound. */
  lemma AcceptedRecordSound(panel: seq<PanelRow>, topN: nat, o: Outcome, r: Record)
    requires topN >= 1
    requires UniqueKeys(panel)
    requires o in Accepted(GroupByYear(panel), topN)
    requires RecordOf(r, o)
    ensures SoundRecord(panel, topN, r)
  {
    var groups := GroupByYear(panel);
    GroupByYearCorrect(panel);
    AcceptedMembership(groups, topN, o);
    var g :| 0 <= g < |groups| && groups[g].year == o.year && EvaluateYear(groups[g].rows, topN) == Some(o.selection);
    var rows := RowsOfYear(panel, o.year);
    assert groups[g].rows == rows;
    SelectionCorrect(rows, topN, o.selection);
    GroupCountriesDistinct(panel, o.year);
    SelectionDistinctCountries(rows, topN, o.selection);
    var names := r.countries;
    assert names == CountriesOf(o.selection.chosen);
    forall a | 0 <= a < topN
      ensures exists p :: p in panel && p.year == o.year && HasSignal(p) && p.country == names[a]
    {
      var c := o.selection.chosen[a];
      assert c in o.selection.chosen;
      EligibleMembership(rows, c);
      var p :| p in rows && HasSignal(p) && c == ToCandidate(p);
      assert p in panel && p.year == o.year;
    }
  }

  /** The accepted years of a panel strictly increase. */
  lemma PanelAcceptedYearsIncreasing(panel: seq<PanelRow>, topN: nat)
    requires topN >= 1
    ensures forall i, j :: 0 <= i < j < |Accepted(GroupByYear(panel), topN)| ==>
      Accepted(GroupByYear(panel), topN)[i].year < Accepted(GroupByYear(panel), topN)[j].year
  {
    GroupByYearCorrect(panel);
    AcceptedYearsIncreasing(GroupByYear(panel), topN);
  }

  /** The strategy track of a panel with one row per (country, year): the years strictly
      increase and every record is sound. */
  lemma TrackRecords(panel: seq<PanelRow>, topN: nat, records: seq<Record>)
    requires topN >= 1
    requires UniqueKeys(panel)
    requires IsTrack(records, Accepted(GroupByYear(panel), topN))
    ensures forall i, j :: 0 <= i < j < |records| ==> records[i].year < records[j].year
    ensures forall k :: 0 <= k < |records| ==> SoundRecord(panel, topN, records[k])
  {
    var acc := Accepted(GroupByYear(panel), topN);
    PanelAcceptedYearsIncreasing(panel, topN);
    forall k | 0 <= k < |records|
      ensures SoundRecord(panel, topN, records[k])
    {
      assert acc[k] in acc;
      AcceptedRecordSound(panel, topN, acc[k], records[k]);
    }
  }

  /** Every year of a group of the backtest panel lies in [init_year, end_year]. */
  lemma GroupYearsInRange(raw: seq<RawRow>, initYear: int, endYear: int)
    requires NonZeroRates(raw)
    ensures forall g :: g in GroupByYear(BuildPanel(raw, initYear, endYear)) ==> initYear <= g.year <= endYear
  {
    var panel := BuildPanel(raw, initYear, endYear);
    var groups := GroupByYear(panel);
    GroupByYearCorrect(panel);
    PanelMembership(raw, initYear, endYear);
    forall g | g in groups
      ensures initYear <= g.year <= endYear
    {
      var k :| 0 <= k < |groups| && groups[k] == g;
      assert g.rows[0] in g.rows;
      assert g.rows[0] in panel;
    }
  }

  /** Every record of the strategy track of the backtest panel has a year in [init_year, end_year]. */
  lemma TrackYearsInRange(raw: seq<RawRow>, initYear: int, endYear: int, topN: nat, records: seq<Record>)
    requires NonZeroRates(raw) && topN >= 1
    requires IsTrack(records, Accepted(GroupByYear(BuildPanel(raw, initYear, endYear)), topN))
    ensures forall k :: 0 <= k < |records| ==> initYear <= records[k].year <= endYear
  {
    var groups := GroupByYear(BuildPanel(raw, initYear, endYear));
    var acc := Accepted(groups, topN);
    GroupYearsInRange(raw, initYear, endYear);
    forall k | 0 <= k < |records|
      ensures initYear <= records[k].year <= endYear
    {
      assert acc[k] in acc;
      AcceptedMembership(groups, topN, acc[k]);
      var g :| 0 <= g < |groups| && groups[g].year == acc[k].year && EvaluateYear(groups[g].rows, topN) == Some(acc[k].selection);
      assert groups[g] in groups;
    }
  }

  /** Between two records of a track, the index grows by the compounded returns of the
      records after the first up to and including the second. */
  lemma TrackGrowthBetween(records: seq<Record>, acc: seq<Outcome>, i: nat, k: nat)
    requires IsTrack(records, acc)
    requires i < k < |records|
    ensures records[k].index == records[i].index * Compound(ReturnsOf(records)[i + 1..k + 1])
  {
    var rs := ReturnsOf(records);
    assert ReturnsOf(records[..i + 1]) == rs[..i + 1];
    assert ReturnsOf(records[..k + 1]) == rs[..k + 1];
    IndexGrowth(records, i, k);
  }

  lemma IndexGrowth(records: seq<Record>, i: nat, k: nat)
    requires i < k < |records|
    requires records[i].index == Compound(ReturnsOf(records)[..i + 1])
    requires records[k].index == Compound(ReturnsOf(records)[..k + 1])
    ensures records[k].index == records[i].index * Compound(ReturnsOf(records)[i + 1..k + 1])
  {
    GrowthBetween(ReturnsOf(records), i, k, records[i].index, records[k].index);
  }
}
