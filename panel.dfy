/** The backtest panel (backtest.py lines 12-30): the prepared frame cut down to eight
    columns, rows with any missing cell dropped, and years limited to [init_year, end_year]. */
module Panel {
  import opened Wrappers
  import opened Seqs
  import opened Lex
  import opened Frame
  import Sorting

  /** A row of the panel, with the columns kept at backtest.py line 26. */
  datatype PanelRow = PanelRow(
    year: int,
    country: string,
    termPremium: Option<real>,
    bondTr: Option<real>,
    bondRate: Option<real>,
    billRate: Option<real>,
    fxReturn: Option<real>,
    eqTr: Option<real>)

  function SelectColumns(d: DerivedRow): PanelRow {
    PanelRow(d.year, d.country, d.termPremium, d.bondTr, d.bondRate, d.billRate, d.fxReturn, d.eqTr)
  }

  /** The row survives `dropna()`: none of its selected cells is missing. */
  predicate NoMissing(p: PanelRow) {
    p.termPremium.Some? && p.bondTr.Some? && p.bondRate.Some? && p.billRate.Some?
    && p.fxReturn.Some? && p.eqTr.Some?
  }

  function SelectAll(ds: seq<DerivedRow>): (ps: seq<PanelRow>)
    ensures |ps| == |ds|
    ensures forall i :: 0 <= i < |ds| ==> ps[i] == SelectColumns(ds[i])
  {
    seq(|ds|, i requires 0 <= i < |ds| => SelectColumns(ds[i]))
  }

  /** `df[[...]].dropna()`. */
  function DropMissing(ds: seq<DerivedRow>): seq<PanelRow> {
    Filter(SelectAll(ds), NoMissing)
  }

  function FromYear(initYear: int): PanelRow -> bool {
    (p: PanelRow) => p.year >= initYear
  }

  function UpToYear(endYear: int): PanelRow -> bool {
    (p: PanelRow) => p.year <= endYear
  }

  /** The panel both the strategy and the benchmark read. */
  function BuildPanel(raw: seq<RawRow>, initYear: int, endYear: int): seq<PanelRow>
    requires NonZeroRates(raw)
  {
    Filter(Filter(DropMissing(Prepare(raw)), FromYear(initYear)), UpToYear(endYear))
  }

  /** A row is in the panel exactly when it is the selection of a prepared row that has
      no missing cell and whose year lies in [init_year, end_year]. */
  lemma PanelMembership(raw: seq<RawRow>, initYear: int, endYear: int)
    requires NonZeroRates(raw)
    ensures forall p :: p in BuildPanel(raw, initYear, endYear) <==>
      (NoMissing(p) && initYear <= p.year <= endYear && p in SelectAll(Prepare(raw)))
  {
  }

  /** The panel keeps the (country, year) order of the prepared frame. */
  predicate PanelLe(a: PanelRow, b: PanelRow) {
    if a.country == b.country then a.year <= b.year else StrLe(a.country, b.country)
  }

  /** A relation between every row and every later one of the selected prepared frame
      survives the three row filters that build the panel. */
  lemma BuildPanelKeepsPairwise(raw: seq<RawRow>, initYear: int, endYear: int, rel: (PanelRow, PanelRow) -> bool)
    requires NonZeroRates(raw)
    requires forall i, j :: 0 <= i < j < |SelectAll(Prepare(raw))| ==> rel(SelectAll(Prepare(raw))[i], SelectAll(Prepare(raw))[j])
    ensures forall i, j :: 0 <= i < j < |BuildPanel(raw, initYear, endYear)| ==>
      rel(BuildPanel(raw, initYear, endYear)[i], BuildPanel(raw, initYear, endYear)[j])
  {
    var all := SelectAll(Prepare(raw));
    FilterKeepsPairwise(all, NoMissing, rel);
    var dropped := DropMissing(Prepare(raw));
    FilterKeepsPairwise(dropped, FromYear(initYear), rel);
    FilterKeepsPairwise(Filter(dropped, FromYear(initYear)), UpToYear(endYear), rel);
  }

  lemma PanelSortedByCountryYear(raw: seq<RawRow>, initYear: int, endYear: int)
    requires NonZeroRates(raw)
    ensures Sorting.Sorted(PanelLe, BuildPanel(raw, initYear, endYear))
  {
    SortByCountryYearCorrect(raw);
    SortKeepsNonZeroRates(raw);
    var sorted := SortByCountryYear(raw);
    var all := SelectAll(Prepare(raw));
    assert Sorting.Sorted(PanelLe, all) by {
      forall i, j | 0 <= i < j < |all|
        ensures PanelLe(all[i], all[j])
      {
        assert CountryYearLe(sorted[i], sorted[j]);
      }
    }
    BuildPanelKeepsPairwise(raw, initYear, endYear, PanelLe);
  }

  function PanelKey(p: PanelRow): (string, int) {
    (p.country, p.year)
  }

  /** Each (country, year) occurs at most once. */
  predicate UniqueKeys(panel: seq<PanelRow>) {
    DistinctBy(panel, PanelKey)
  }

  /** Every selected prepared row carries the (country, year) of the sorted raw row at its position. */
  lemma PreparedKeys(raw: seq<RawRow>)
    requires NonZeroRates(raw)
    ensures |SelectAll(Prepare(raw))| == |SortByCountryYear(raw)|
    ensures forall i :: 0 <= i < |raw| ==> PanelKey(SelectAll(Prepare(raw))[i]) == RawKey(SortByCountryYear(raw)[i])
  {
    SortKeepsNonZeroRates(raw);
  }

  /** A raw panel with one row per (country, year) yields such a backtest panel. */
  lemma PanelKeepsUniqueKeys(raw: seq<RawRow>, initYear: int, endYear: int)
    requires NonZeroRates(raw)
    requires DistinctBy(raw, RawKey)
    ensures UniqueKeys(BuildPanel(raw, initYear, endYear))
  {
    SortKeepsDistinctKeys(raw);
    PreparedKeys(raw);
    var sorted := SortByCountryYear(raw);
    var all := SelectAll(Prepare(raw));
    var differ := (a: PanelRow, b: PanelRow) => PanelKey(a) != PanelKey(b);
    forall i, j | 0 <= i < j < |all|
      ensures differ(all[i], all[j])
    {
      assert RawKey(sorted[i]) != RawKey(sorted[j]);
    }
    BuildPanelKeepsPairwise(raw, initYear, endYear, differ);
  }
}
