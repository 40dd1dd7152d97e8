/** The cumulative term-premium indices of index.py: the prepared frame (lines 7-16, shared
    with the backtest), the drop of rows missing a required return (lines 19-20), and
    `build_index_with_gaps` (lines 23-30), which writes into each row of the frame, in place,
    the running product of `1 + r` over its own country's rows. */
module CumIndex {
  import opened Wrappers
  import opened Seqs
  import opened Compounding
  import opened Frame

  // ---------------------------------------------------------------------------
  // df.dropna(subset=['bond_excess_return', 'fx_return', 'bond_excess_return_usd'])
  // ---------------------------------------------------------------------------

  predicate HasRequired(d: DerivedRow) {
    d.bondExcessReturn.Some? && d.fxReturn.Some? && d.bondExcessReturnUsd.Some?
  }

  function DropRequired(ds: seq<DerivedRow>): seq<DerivedRow> {
    Filter(ds, HasRequired)
  }

  /** No kept row misses a required return, and every row that has all three is kept, as
      often as it occurs. */
  lemma DropRequiredCorrect(ds: seq<DerivedRow>)
    ensures forall i :: 0 <= i < |DropRequired(ds)| ==> HasRequired(DropRequired(ds)[i])
    ensures forall d :: multiset(DropRequired(ds))[d] == if HasRequired(d) then multiset(ds)[d] else 0
  {
    var kept := DropRequired(ds);
    forall i | 0 <= i < |kept|
      ensures HasRequired(kept[i])
    {
      assert kept[i] in kept;
    }
    forall d
      ensures multiset(kept)[d] == if HasRequired(d) then multiset(ds)[d] else 0
    {
      FilterCounts(ds, HasRequired, d);
    }
  }

  /** After the drop every row has both returns, so the `fillna(0)` of line 27 changes
      nothing in the script itself. */
  lemma DroppedRowsHaveReturns(ds: seq<DerivedRow>)
    ensures forall i, col :: 0 <= i < |DropRequired(ds)| ==> ReturnOf(DropRequired(ds)[i], col).Some?
  {
    DropRequiredCorrect(ds);
  }

  // ---------------------------------------------------------------------------
  // The frame with its index columns
  // ---------------------------------------------------------------------------

  /** Which index `build_index_with_gaps` writes: `term_premium_index_local` from
      `bond_excess_return` (line 32) or `term_premium_index_usd` from
      `bond_excess_return_usd` (line 33). */
  datatype Column = Local | Usd

  function ReturnOf(d: DerivedRow, col: Column): Option<real> {
    match col
    case Local => d.bondExcessReturn
    case Usd => d.bondExcessReturnUsd
  }

  /** A row of the frame; an index column that has not been added yet is `None`. */
  datatype IndexedRow = IndexedRow(row: DerivedRow, localIndex: Option<real>, usdIndex: Option<real>)

  /** The row with the index column `col` set to `v`; everything else stays. */
  function WithIndex(r: IndexedRow, col: Column, v: real): IndexedRow {
    match col
    case Local => r.(localIndex := Some(v))
    case Usd => r.(usdIndex := Some(v))
  }

  /** The data columns of a frame, without its index columns. */
  function Rows(xs: seq<IndexedRow>): (ds: seq<DerivedRow>)
    ensures |ds| == |xs|
    ensures forall i :: 0 <= i < |xs| ==> ds[i] == xs[i].row
  {
    seq(|xs|, i requires 0 <= i < |xs| => xs[i].row)
  }

  function InCountry(c: string): DerivedRow -> bool {
    (d: DerivedRow) => d.country == c
  }

  /** `group[return_col].fillna(0)`: the return column with a missing return counted as 0. */
  function Returns(ds: seq<DerivedRow>, col: Column): (rs: seq<real>)
    ensures |rs| == |ds|
    ensures forall k :: 0 <= k < |ds| ==> rs[k] == ReturnOf(ds[k], col).GetOr(0.0)
  {
    seq(|ds|, k requires 0 <= k < |ds| => ReturnOf(ds[k], col).GetOr(0.0))
  }

  /** The running value of country `c` after scanning `ds` in order: 1.0, grown by the
      return of each row of `c` in turn, a missing return counting as 0. */
  function RunningValue(ds: seq<DerivedRow>, col: Column, c: string): real {
    if ds == [] then 1.0
    else
      var prev := RunningValue(ds[..|ds| - 1], col, c);
      var d := ds[|ds| - 1];
      if d.country == c then Grow(prev, ReturnOf(d, col).GetOr(0.0)) else prev
  }

  /** The index of row `i`: its country's running value once row `i` is scanned. */
  function CountryIndex(ds: seq<DerivedRow>, col: Column, i: nat): real
    requires i < |ds|
  {
    RunningValue(ds[..i + 1], col, ds[i].country)
  }

  // ---------------------------------------------------------------------------
  // Properties of the index
  // ---------------------------------------------------------------------------

  lemma ReturnsSnoc(ds: seq<DerivedRow>, d: DerivedRow, col: Column)
    ensures Returns(ds + [d], col) == Returns(ds, col) + [ReturnOf(d, col).GetOr(0.0)]
  {
  }

  /** The running value is the product of `1 + r` over the rows of the country alone. */
  lemma {:induction false} RunningValueIsCompound(ds: seq<DerivedRow>, col: Column, c: string)
    ensures RunningValue(ds, col, c) == Compound(Returns(Filter(ds, InCountry(c)), col))
  {
    if ds != [] {
      var n := |ds| - 1;
      var before := Filter(ds[..n], InCountry(c));
      RunningValueIsCompound(ds[..n], col, c);
      if ds[n].country == c {
        assert Filter(ds, InCountry(c)) == before + [ds[n]];
        ReturnsSnoc(before, ds[n], col);
        CompoundSnoc(Returns(before, col), ReturnOf(ds[n], col).GetOr(0.0));
      } else {
        assert Filter(ds, InCountry(c)) == before;
      }
    }
  }

  /** Scanning one more row. */
  lemma CountryStep(ds: seq<DerivedRow>, col: Column, c: string, k: nat)
    requires k < |ds|
    ensures RunningValue(ds[..k + 1], col, c) ==
      if ds[k].country == c then Grow(RunningValue(ds[..k], col, c), ReturnOf(ds[k], col).GetOr(0.0))
      else RunningValue(ds[..k], col, c)
  {
    assert ds[..k + 1][..k] == ds[..k];
  }

  /** `j` is the row of `i`'s country just before `i`. */
  ghost predicate PreviousOfCountry(ds: seq<DerivedRow>, i: int, j: int) {
    0 <= j < i < |ds| && ds[j].country == ds[i].country
    && forall k :: j < k < i ==> ds[k].country != ds[i].country
  }

  /** `i` is the first row of its country. */
  ghost predicate FirstOfItsCountry(ds: seq<DerivedRow>, i: int)
    requires 0 <= i < |ds|
  {
    forall k :: 0 <= k < i ==> ds[k].country != ds[i].country
  }

  /** Rows of other countries leave `c`'s running value where it was. */
  lemma {:induction false} RunningValueSkipsOthers(ds: seq<DerivedRow>, col: Column, c: string, lo: nat, hi: nat)
    requires lo <= hi <= |ds|
    requires forall k :: lo <= k < hi ==> ds[k].country != c
    ensures RunningValue(ds[..hi], col, c) == RunningValue(ds[..lo], col, c)
    decreases hi
  {
    if lo < hi {
      CountryStep(ds, col, c, hi - 1);
      RunningValueSkipsOthers(ds, col, c, lo, hi - 1);
    }
  }

  /** Each row's index grows its country's previous index (1.0 before the first row) by
      the row's return, a missing return counting as 0. */
  lemma IndexStep(ds: seq<DerivedRow>, col: Column, i: nat)
    requires i < |ds|
    ensures FirstOfItsCountry(ds, i) ==> CountryIndex(ds, col, i) == Grow(1.0, ReturnOf(ds[i], col).GetOr(0.0))
    ensures forall j :: PreviousOfCountry(ds, i, j) ==>
      CountryIndex(ds, col, i) == Grow(CountryIndex(ds, col, j), ReturnOf(ds[i], col).GetOr(0.0))
  {
    var c := ds[i].country;
    CountryStep(ds, col, c, i);
    if FirstOfItsCountry(ds, i) {
      RunningValueSkipsOthers(ds, col, c, 0, i);
      assert ds[..0] == [];
    }
    forall j | PreviousOfCountry(ds, i, j)
      ensures CountryIndex(ds, col, i) == Grow(CountryIndex(ds, col, j), ReturnOf(ds[i], col).GetOr(0.0))
    {
      RunningValueSkipsOthers(ds, col, c, j + 1, i);
    }
  }

  /** A gap: a row without a return repeats its country's previous index, or starts at 1.0. */
  lemma IndexGap(ds: seq<DerivedRow>, col: Column, i: nat)
    requires i < |ds| && ReturnOf(ds[i], col).None?
    ensures FirstOfItsCountry(ds, i) ==> CountryIndex(ds, col, i) == 1.0
    ensures forall j :: PreviousOfCountry(ds, i, j) ==> CountryIndex(ds, col, i) == CountryIndex(ds, col, j)
  {
    IndexStep(ds, col, i);
  }

  /** `(1 + returns).cumprod()` over the country's group: the index of a row is the entry at
      its position within its country's rows, so it depends on that country's rows alone. */
  lemma IndexIsGroupCumProd(ds: seq<DerivedRow>, col: Column, i: nat)
    requires i < |ds|
    ensures |Filter(ds[..i], InCountry(ds[i].country))| < |Filter(ds, InCountry(ds[i].country))|
    ensures CountryIndex(ds, col, i) ==
      CumProd(Returns(Filter(ds, InCountry(ds[i].country)), col))[|Filter(ds[..i], InCountry(ds[i].country))|]
  {
    var keep := InCountry(ds[i].country);
    var upTo := Filter(ds[..i + 1], keep);
    RunningValueIsCompound(ds[..i + 1], col, ds[i].country);
    FilterSnoc(ds, keep, i);
    FilterPrefix(ds, keep, i + 1);
    CumProdOfPrefix(Filter(ds, keep), upTo, col);
  }

  /** The running product of a group at the last row of one of its prefixes. */
  lemma CumProdOfPrefix(group: seq<DerivedRow>, upTo: seq<DerivedRow>, col: Column)
    requires 1 <= |upTo| <= |group| && group[..|upTo|] == upTo
    ensures CumProd(Returns(group, col))[|upTo| - 1] == Compound(Returns(upTo, col))
  {
    var rs := Returns(group, col);
    ReturnsPrefix(group, col, |upTo|);
    CumProdIsCompound(rs);
  }

  lemma ReturnsPrefix(ds: seq<DerivedRow>, col: Column, j: nat)
    requires j <= |ds|
    ensures Returns(ds, col)[..j] == Returns(ds[..j], col)
  {
  }

  // ---------------------------------------------------------------------------
  // build_index_with_gaps, in place
  // ---------------------------------------------------------------------------

  /** One row of the scan of country `c`: a row of `c` grows the running value by its
      return and takes the new value as its index; any other row passes unchanged. */
  function ScanRow(r: IndexedRow, col: Column, c: string, cumulative: real): (real, IndexedRow) {
    if r.row.country == c then
      var v := Grow(cumulative, ReturnOf(r.row, col).GetOr(0.0));
      (v, WithIndex(r, col, v))
    else (cumulative, r)
  }

  /** `data.loc[idx, index_col] = cumulative` for one country `c`: each of its rows gets
      its index and every other row is left as it was. */
  method IndexCountry(data: array<IndexedRow>, col: Column, c: string)
    modifies data
    ensures forall i :: 0 <= i < data.Length ==> (data[i] ==
      if old(data[i]).row.country == c then WithIndex(old(data[i]), col, CountryIndex(Rows(old(data[..])), col, i))
      else old(data[i]))
  {
    ghost var ds := Rows(data[..]);
    var cumulative := 1.0;
    var k := 0;
    while k < data.Length
      invariant 0 <= k <= data.Length
      invariant cumulative == RunningValue(ds[..k], col, c)
      invariant forall i :: 0 <= i < k ==> (data[i] ==
        if ds[i].country == c then WithIndex(old(data[i]), col, CountryIndex(ds, col, i)) else old(data[i]))
      invariant forall i :: k <= i < data.Length ==> data[i] == old(data[i])
    {
      CountryStep(ds, col, c, k);
      assert data[k].row == ds[k];
      var step := ScanRow(data[k], col, c, cumulative);
      cumulative := step.0;
      data[k] := step.1;
      k := k + 1;
    }
  }

  /** `build_index_with_gaps(data, return_col, index_col)`: every row of the frame gets, in
      the index column, its country's running index at that row; the rows, their order and
      their other columns stay as they were. */
  method BuildIndexWithGaps(data: array<IndexedRow>, col: Column)
    modifies data
    ensures forall i :: 0 <= i < data.Length ==>
      data[i] == WithIndex(old(data[i]), col, CountryIndex(Rows(old(data[..])), col, i))
  {
    ghost var ds := Rows(data[..]);
    // data[index_col] = 1.0
    var k := 0;
    while k < data.Length
      invariant 0 <= k <= data.Length
      invariant forall i :: 0 <= i < k ==> data[i] == WithIndex(old(data[i]), col, 1.0)
      invariant forall i :: k <= i < data.Length ==> data[i] == old(data[i])
    {
      data[k] := WithIndex(data[k], col, 1.0);
      k := k + 1;
    }
    // for country, group in data.groupby('country')
    var todo := set i | 0 <= i < data.Length :: data[i].row.country;
    while todo != {}
      invariant forall i :: 0 <= i < data.Length ==> (data[i] ==
        WithIndex(old(data[i]), col, if ds[i].country in todo then 1.0 else CountryIndex(ds, col, i)))
      decreases todo
    {
      var c :| c in todo;
      assert Rows(data[..]) == ds;
      IndexCountry(data, col, c);
      todo := todo - {c};
    }
  }

  // ---------------------------------------------------------------------------
  // The script
  // ---------------------------------------------------------------------------

  /** A fresh frame of the rows `ds` with both index columns added (lines 32-33). */
  method AddIndices(ds: seq<DerivedRow>) returns (data: array<IndexedRow>)
    ensures fresh(data)
    ensures data.Length == |ds|
    ensures forall i :: 0 <= i < |ds| ==>
      data[i] == IndexedRow(ds[i], Some(CountryIndex(ds, Local, i)), Some(CountryIndex(ds, Usd, i)))
  {
    data := new IndexedRow[|ds|](i requires 0 <= i < |ds| => IndexedRow(ds[i], None, None));
    assert Rows(data[..]) == ds;
    BuildIndexWithGaps(data, Local);
    assert Rows(data[..]) == ds;
    BuildIndexWithGaps(data, Usd);
  }

  /** index.py lines 7-33 without the file I/O: prepare the frame, drop the rows missing a
      required return, then add the local-currency and the USD index. */
  method TermPremiumIndices(raw: seq<RawRow>) returns (data: array<IndexedRow>)
    requires NonZeroRates(raw)
    ensures fresh(data)
    ensures data.Length == |DropRequired(Prepare(raw))|
    ensures forall i :: 0 <= i < data.Length ==> data[i] == IndexedRow(
      DropRequired(Prepare(raw))[i],
      Some(CountryIndex(DropRequired(Prepare(raw)), Local, i)),
      Some(CountryIndex(DropRequired(Prepare(raw)), Usd, i)))
  {
    var ds := DropRequired(Prepare(raw));
    data := AddIndices(ds);
  }
}
