/** The row preparation shared by backtest.py (lines 12-23) and index.py (lines 7-16):
    sort the raw panel by (country, year), forward-fill each country's USD exchange rate,
    turn it into a per-country FX return, and derive the excess-return and term-premium
    columns. Missing cells are `None`; pandas' NaN propagation becomes `Option` arithmetic. */
module Frame {
  import opened Wrappers
  import opened Lex
  import Sorting
  import Seqs

  /** One country-year row of the raw dataset, restricted to the columns the core reads. */
  datatype RawRow = RawRow(
    country: string,
    year: int,
    bondTr: Option<real>,
    billRate: Option<real>,
    bondRate: Option<real>,
    eqTr: Option<real>,
    xrusd: Option<real>)

  /** No present exchange rate is zero (a zero would make pandas divide by zero). */
  predicate NonZeroRates(rows: seq<RawRow>) {
    forall i :: 0 <= i < |rows| ==> rows[i].xrusd != Some(0.0)
  }

  // ---------------------------------------------------------------------------
  // sort_values(['country', 'year'])
  // ---------------------------------------------------------------------------

  /** `a` comes no later than `b` when sorting by country, then by year. */
  predicate CountryYearLe(a: RawRow, b: RawRow) {
    if a.country == b.country then a.year <= b.year else StrLe(a.country, b.country)
  }

  lemma CountryYearLeIsTotalPreorder()
    ensures Sorting.TotalPreorder(CountryYearLe)
  {
    forall a: RawRow, b: RawRow
      ensures CountryYearLe(a, b) || CountryYearLe(b, a)
    {
      StrLeTotal(a.country, b.country);
    }
    forall a: RawRow, b: RawRow, c: RawRow | CountryYearLe(a, b) && CountryYearLe(b, c)
      ensures CountryYearLe(a, c)
    {
      if a.country != b.country && b.country != c.country {
        StrLeTransitive(a.country, b.country, c.country);
        if a.country == c.country {
          StrLeAntisymmetric(a.country, b.country);
        }
      }
    }
  }

  /** The rows in (country, year) order; rows with equal keys keep their input order. */
  function SortByCountryYear(rows: seq<RawRow>): (r: seq<RawRow>)
    ensures |r| == |rows|
  {
    Sorting.InsertionSort(CountryYearLe, rows)
  }

  /** The sorted frame is ordered by (country, year) and holds exactly the input rows. */
  lemma SortByCountryYearCorrect(rows: seq<RawRow>)
    ensures Sorting.Sorted(CountryYearLe, SortByCountryYear(rows))
    ensures multiset(SortByCountryYear(rows)) == multiset(rows)
  {
    CountryYearLeIsTotalPreorder();
    Sorting.InsertionSortSorted(CountryYearLe, rows);
  }

  function RawKey(r: RawRow): (string, int) {
    (r.country, r.year)
  }

  /** Sorting cannot make two rows share a (country, year). */
  lemma SortKeepsDistinctKeys(rows: seq<RawRow>)
    requires Seqs.DistinctBy(rows, RawKey)
    ensures Seqs.DistinctBy(SortByCountryYear(rows), RawKey)
  {
    Seqs.PermutationKeepsDistinctBy(rows, SortByCountryYear(rows), RawKey);
  }

  lemma SortKeepsNonZeroRates(rows: seq<RawRow>)
    requires NonZeroRates(rows)
    ensures NonZeroRates(SortByCountryYear(rows))
  {
    var s := SortByCountryYear(rows);
    forall i | 0 <= i < |s|
      ensures s[i].xrusd != Some(0.0)
    {
      assert s[i] in multiset(s);
      assert s[i] in multiset(rows);
    }
  }

  // ---------------------------------------------------------------------------
  // groupby('country'): the latest value seen for each country
  // ---------------------------------------------------------------------------

  function Countries(rows: seq<RawRow>): (cs: seq<string>)
    ensures |cs| == |rows|
    ensures forall i :: 0 <= i < |rows| ==> cs[i] == rows[i].country
  {
    seq(|rows|, i requires 0 <= i < |rows| => rows[i].country)
  }

  /** For each country of `keys`, the value at its last row: the state a per-group
      pass (ffill, shift) carries from one row of a country to the next. */
  function LastByCountry(keys: seq<string>, vals: seq<Option<real>>): (m: map<string, Option<real>>)
    requires |keys| == |vals|
    ensures m.Keys == set k | k in keys
    ensures forall k :: k in m ==> m[k] in vals
  {
    if keys == [] then map[]
    else
      var n := |keys| - 1;
      LastByCountry(keys[..n], vals[..n])[keys[n] := vals[n]]
  }

  /** `j` is the last position of `k` in `keys`. */
  ghost predicate IsLastOf(keys: seq<string>, k: string, j: int) {
    0 <= j < |keys| && keys[j] == k && forall l :: j < l < |keys| ==> keys[l] != k
  }

  lemma {:induction false} LastByCountryAt(keys: seq<string>, vals: seq<Option<real>>, k: string, j: int)
    requires |keys| == |vals|
    requires IsLastOf(keys, k, j)
    ensures k in LastByCountry(keys, vals) && LastByCountry(keys, vals)[k] == vals[j]
  {
    var n := |keys| - 1;
    if j < n {
      assert IsLastOf(keys[..n], k, j);
      LastByCountryAt(keys[..n], vals[..n], k, j);
    }
  }

  /** The value the country `c` last carried in `vals`, or missing when `c` has no row yet. */
  function PreviousInCountry(keys: seq<string>, vals: seq<Option<real>>, c: string): Option<real>
    requires |keys| == |vals|
  {
    var m := LastByCountry(keys, vals);
    if c in m then m[c] else None
  }

  // ---------------------------------------------------------------------------
  // df['xrusd'] = df.groupby('country')['xrusd'].ffill()
  // ---------------------------------------------------------------------------

  /** The exchange-rate column after a per-country forward fill. */
  function ForwardFill(rows: seq<RawRow>): (filled: seq<Option<real>>)
    ensures |filled| == |rows|
    ensures NonZeroRates(rows) ==> forall i :: 0 <= i < |filled| ==> filled[i] != Some(0.0)
  {
    if rows == [] then []
    else
      var n := |rows| - 1;
      var before := ForwardFill(rows[..n]);
      var r := rows[n];
      before + [if r.xrusd.Some? then r.xrusd else PreviousInCountry(Countries(rows[..n]), before, r.country)]
  }

  lemma {:induction false} ForwardFillPrefix(rows: seq<RawRow>, k: nat)
    requires k <= |rows|
    ensures ForwardFill(rows[..k]) == ForwardFill(rows)[..k]
    decreases |rows|
  {
    if k < |rows| {
      var n := |rows| - 1;
      assert rows[..n][..k] == rows[..k];
      ForwardFillPrefix(rows[..n], k);
    } else {
      assert rows[..k] == rows;
    }
  }

  /** One step of the fill: a present rate is kept, a missing one takes the country's previous filled rate. */
  lemma ForwardFillAt(rows: seq<RawRow>, i: nat)
    requires i < |rows|
    ensures ForwardFill(rows)[i] ==
      if rows[i].xrusd.Some? then rows[i].xrusd
      else PreviousInCountry(Countries(rows[..i]), ForwardFill(rows)[..i], rows[i].country)
  {
    ForwardFillPrefix(rows, i + 1);
    ForwardFillPrefix(rows, i);
    assert rows[..i + 1][..i] == rows[..i];
  }

  /** `j` is the row of `i`'s country just before `i`. */
  ghost predicate PreviousRow(rows: seq<RawRow>, i: int, j: int) {
    0 <= j < i < |rows| && rows[j].country == rows[i].country
    && forall k :: j < k < i ==> rows[k].country != rows[i].country
  }

  /** `i` is the first row of its country. */
  ghost predicate FirstOfCountry(rows: seq<RawRow>, i: int)
    requires 0 <= i < |rows|
  {
    forall j :: 0 <= j < i ==> rows[j].country != rows[i].country
  }

  /** `j` is the latest row at or before `i`, within `i`'s country, whose rate is present. */
  ghost predicate LatestObserved(rows: seq<RawRow>, i: int, j: int) {
    0 <= j <= i < |rows| && rows[j].country == rows[i].country && rows[j].xrusd.Some?
    && forall k :: j < k <= i && rows[k].country == rows[i].country ==> rows[k].xrusd.None?
  }

  /** No row of `i`'s country at or before `i` has a rate. */
  ghost predicate NoneObserved(rows: seq<RawRow>, i: int)
    requires 0 <= i < |rows|
  {
    forall j :: 0 <= j <= i && rows[j].country == rows[i].country ==> rows[j].xrusd.None?
  }

  lemma {:induction false} PreviousRowExists(rows: seq<RawRow>, i: nat, below: nat) returns (p: nat)
    requires i < |rows| && below <= i
    requires forall k :: below <= k < i ==> rows[k].country != rows[i].country
    requires !FirstOfCountry(rows, i)
    ensures PreviousRow(rows, i, p)
    decreases below
  {
    if rows[below - 1].country == rows[i].country {
      p := below - 1;
    } else {
      p := PreviousRowExists(rows, i, below - 1);
    }
  }

  lemma PreviousRowIsLast(rows: seq<RawRow>, i: nat, p: nat)
    requires PreviousRow(rows, i, p)
    ensures IsLastOf(Countries(rows[..i]), rows[i].country, p)
  {
  }

  lemma FirstRowHasNoPrevious(rows: seq<RawRow>, vals: seq<Option<real>>, i: nat)
    requires i < |rows| && |vals| == i
    requires FirstOfCountry(rows, i)
    ensures PreviousInCountry(Countries(rows[..i]), vals, rows[i].country) == None
  {
    var keys := Countries(rows[..i]);
    assert rows[i].country !in keys;
  }

  /** The forward-filled rate of row `i` is the latest present rate at or before `i` in
      its own country, and missing exactly when that country has none yet. */
  lemma {:induction false} ForwardFillLatest(rows: seq<RawRow>, i: nat)
    requires i < |rows|
    ensures ForwardFill(rows)[i] == None <==> NoneObserved(rows, i)
    ensures !NoneObserved(rows, i) ==> exists j :: LatestObserved(rows, i, j)
    ensures forall j :: LatestObserved(rows, i, j) ==> ForwardFill(rows)[i] == rows[j].xrusd
    decreases i
  {
    var f := ForwardFill(rows);
    ForwardFillAt(rows, i);
    if rows[i].xrusd.Some? {
      assert LatestObserved(rows, i, i);
      forall j | LatestObserved(rows, i, j)
        ensures j == i
      {
      }
    } else if FirstOfCountry(rows, i) {
      FirstRowHasNoPrevious(rows, f[..i], i);
    } else {
      var p := PreviousRowExists(rows, i, i);
      PreviousRowIsLast(rows, i, p);
      LastByCountryAt(Countries(rows[..i]), f[..i], rows[i].country, p);
      assert f[i] == f[p];
      ForwardFillLatest(rows, p);
      assert NoneObserved(rows, i) <==> NoneObserved(rows, p);
      forall j | LatestObserved(rows, i, j)
        ensures LatestObserved(rows, p, j)
      {
      }
      if !NoneObserved(rows, i) {
        var j :| LatestObserved(rows, p, j);
        assert LatestObserved(rows, i, j);
      }
    }
  }

  // ---------------------------------------------------------------------------
  // df['fx_return'] = df.groupby('country')['xrusd'].transform(lambda x: x.shift(1) / x)
  // ---------------------------------------------------------------------------

  /** `prev / cur` with NaN propagation: missing when either side is missing. */
  function Ratio(prev: Option<real>, cur: Option<real>): Option<real>
    requires cur != Some(0.0)
  {
    if prev.Some? && cur.Some? then Some(prev.value / cur.value) else None
  }

  /** The FX return column: the country's previous filled rate over the current one. */
  function FxReturns(rows: seq<RawRow>, filled: seq<Option<real>>): (fx: seq<Option<real>>)
    requires |filled| == |rows|
    requires forall i :: 0 <= i < |filled| ==> filled[i] != Some(0.0)
    ensures |fx| == |rows|
  {
    seq(|rows|, i requires 0 <= i < |rows| =>
      Ratio(PreviousInCountry(Countries(rows[..i]), filled[..i], rows[i].country), filled[i]))
  }

  /** A country's first row has no FX return; any other row's FX return is the previous
      row's filled rate divided by this row's filled rate. */
  lemma FxReturnAt(rows: seq<RawRow>, i: nat)
    requires NonZeroRates(rows)
    requires i < |rows|
    ensures FirstOfCountry(rows, i) ==> FxReturns(rows, ForwardFill(rows))[i] == None
    ensures forall j :: PreviousRow(rows, i, j) ==>
      FxReturns(rows, ForwardFill(rows))[i] == Ratio(ForwardFill(rows)[j], ForwardFill(rows)[i])
  {
    var f := ForwardFill(rows);
    if FirstOfCountry(rows, i) {
      FirstRowHasNoPrevious(rows, f[..i], i);
    }
    forall j | PreviousRow(rows, i, j)
      ensures FxReturns(rows, f)[i] == Ratio(f[j], f[i])
    {
      PreviousRowIsLast(rows, i, j);
      LastByCountryAt(Countries(rows[..i]), f[..i], rows[i].country, j);
    }
  }

  // ---------------------------------------------------------------------------
  // Derived columns
  // ---------------------------------------------------------------------------

  /** `a - b`, missing when either operand is. */
  function Minus(a: Option<real>, b: Option<real>): (r: Option<real>)
    ensures r.Some? <==> a.Some? && b.Some?
    ensures r.Some? ==> r.value + b.value == a.value
  {
    if a.Some? && b.Some? then Some(a.value - b.value) else None
  }

  /** `a * b`, missing when either operand is. */
  function Times(a: Option<real>, b: Option<real>): (r: Option<real>)
    ensures r.Some? <==> a.Some? && b.Some?
    ensures r.Some? && b.value != 0.0 ==> r.value / b.value == a.value
  {
    if a.Some? && b.Some? then Some(a.value * b.value) else None
  }

  /** A raw row with the columns both scripts add to it. */
  datatype DerivedRow = DerivedRow(
    country: string,
    year: int,
    bondTr: Option<real>,
    billRate: Option<real>,
    bondRate: Option<real>,
    eqTr: Option<real>,
    xrusd: Option<real>,               // forward-filled
    bondExcessReturn: Option<real>,    // bond_tr - bill_rate
    fxReturn: Option<real>,            // previous xrusd / xrusd
    bondExcessReturnUsd: Option<real>, // bond_excess_return * fx_return
    termPremium: Option<real>)         // bond_rate - bill_rate

  /** One row with its filled rate and FX return, and the columns derived from them. */
  function DeriveRow(r: RawRow, filled: Option<real>, fx: Option<real>): DerivedRow {
    var excess := Minus(r.bondTr, r.billRate);
    DerivedRow(r.country, r.year, r.bondTr, r.billRate, r.bondRate, r.eqTr,
               filled, excess, fx, Times(excess, fx), Minus(r.bondRate, r.billRate))
  }

  /** Adds the derived columns to every row, in the given row order. */
  function Derive(rows: seq<RawRow>): (d: seq<DerivedRow>)
    requires NonZeroRates(rows)
    ensures |d| == |rows|
    ensures forall i :: 0 <= i < |rows| ==> d[i].country == rows[i].country && d[i].year == rows[i].year
  {
    var filled := ForwardFill(rows);
    var fx := FxReturns(rows, filled);
    seq(|rows|, i requires 0 <= i < |rows| => DeriveRow(rows[i], filled[i], fx[i]))
  }

  /** The derived columns of row `i`: the forward-filled rate, the FX return, the excess
      return, its USD version and the term premium. */
  lemma DeriveAt(rows: seq<RawRow>, i: nat)
    requires NonZeroRates(rows) && i < |rows|
    ensures Derive(rows)[i].bondTr == rows[i].bondTr && Derive(rows)[i].billRate == rows[i].billRate
    ensures Derive(rows)[i].bondRate == rows[i].bondRate && Derive(rows)[i].eqTr == rows[i].eqTr
    ensures Derive(rows)[i].xrusd == ForwardFill(rows)[i]
    ensures Derive(rows)[i].fxReturn == FxReturns(rows, ForwardFill(rows))[i]
    ensures Derive(rows)[i].bondExcessReturn == Minus(rows[i].bondTr, rows[i].billRate)
    ensures Derive(rows)[i].bondExcessReturnUsd == Times(Derive(rows)[i].bondExcessReturn, Derive(rows)[i].fxReturn)
    ensures Derive(rows)[i].termPremium == Minus(rows[i].bondRate, rows[i].billRate)
  {
    var filled := ForwardFill(rows);
    assert Derive(rows)[i] == DeriveRow(rows[i], filled[i], FxReturns(rows, filled)[i]);
  }

  /** Each derived row carries its country's latest present exchange rate, and an FX
      return that is missing on the country's first row and is otherwise the previous
      row's rate over its own. */
  lemma DerivedRatesAt(rows: seq<RawRow>, i: nat)
    requires NonZeroRates(rows) && i < |rows|
    ensures Derive(rows)[i].xrusd == None <==> NoneObserved(rows, i)
    ensures forall j :: LatestObserved(rows, i, j) ==> Derive(rows)[i].xrusd == rows[j].xrusd
    ensures FirstOfCountry(rows, i) ==> Derive(rows)[i].fxReturn == None
    ensures forall j :: PreviousRow(rows, i, j) ==>
      Derive(rows)[i].fxReturn == Ratio(Derive(rows)[j].xrusd, Derive(rows)[i].xrusd)
  {
    ForwardFillLatest(rows, i);
    FxReturnAt(rows, i);
    DeriveAt(rows, i);
    forall j | PreviousRow(rows, i, j)
      ensures Derive(rows)[i].fxReturn == Ratio(Derive(rows)[j].xrusd, Derive(rows)[i].xrusd)
    {
      DeriveAt(rows, j);
    }
  }

  /** The USD excess return is present exactly when the bond return, the bill rate and the
      FX return are, and is then `(bond_tr - bill_rate) * fx_return`; the term premium is
      present exactly when both rates are, and is then their spread. */
  lemma DeriveRowReturns(r: RawRow, filled: Option<real>, fx: Option<real>)
    ensures var d := DeriveRow(r, filled, fx);
      && (d.bondExcessReturnUsd.Some? <==> r.bondTr.Some? && r.billRate.Some? && fx.Some?)
      && (d.bondExcessReturnUsd.Some? ==> d.bondExcessReturnUsd.value == (r.bondTr.value - r.billRate.value) * fx.value)
      && (d.termPremium.Some? <==> r.bondRate.Some? && r.billRate.Some?)
      && (d.termPremium.Some? ==> d.termPremium.value + r.billRate.value == r.bondRate.value)
  {
  }

  /** The prepared frame: sorted by (country, year), then derived. */
  function Prepare(raw: seq<RawRow>): (d: seq<DerivedRow>)
    requires NonZeroRates(raw)
    ensures |d| == |raw|
  {
    SortKeepsNonZeroRates(raw);
    Derive(SortByCountryYear(raw))
  }
}
