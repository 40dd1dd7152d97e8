# Term-premium harvesting backtest, modelled in Dafny

This project models the computational core of a term-premium harvesting study. The study
runs over the Jordà-Schularick-Taylor macro-history panel, which has one row per
(country, year).

**The backtest (`backtest.py`).**
- The panel is sorted by (country, year). Each country's USD exchange rate is
  forward-filled, and a per-country FX return (previous rate over current rate) is derived.
- The bond excess return, its USD version and the term premium are derived.
- Rows missing any of eight columns are dropped, and the years are limited to
  `[init_year, end_year]`.
- Each year, in ascending order, the year's sample is the rows that have a term premium,
  bond return, bill rate and FX return.
  - The year is skipped when the sample has no `USA` row or fewer than `top_n` rows.
  - Otherwise the `top_n` rows with the highest term premium are held with equal weights.
    The year's return is the weighted sum of `(bond_tr - bill_rate) * fx_return` plus the
    USA bill rate.
  - The return is compounded into a running index that starts at 1.0.
- A US bond benchmark, `(1 + bond_tr).cumprod()` over the USA rows, is inner-joined with
  the strategy track on the year.

**The index builder (`index.py`).**
- The frame is prepared in the same way.
- Rows missing a required return are dropped.
- `build_index_with_gaps` writes into each row, in place, the running product of
  `1 + r` over its own country's rows. A missing return counts as 0.

**Modules.** One file per module.
- `Wrappers`: `Option`.
- `Seqs`: row masks as `Filter`, and a filter-map `Collect`.
- `Lex`: string order.
- `Sorting`: an insertion sort.
- `Compounding`: the running product of `1 + r`.
- `Frame`: the shared row preparation.
- `Panel`: the backtest panel.
- `Ranking`: the ranking by term premium.
- `Strategy`: the yearly loop, as imperative methods proved against the
  functions `EvaluateYear` and `Accepted`.
- `StrategyFacts`: properties of the selection and of the track.
- `Report`: the benchmark, the join and the whole backtest.
- `CumIndex`: index.py.
  - `build_index_with_gaps` is a method that updates an `array` of rows in place,
    country by country.

**Representation.**
- Missing cells are `None`, and pandas' NaN propagation becomes `Option` arithmetic.
- Returns are `real`.

## Model

| member | source | states |
|---|---|---|
| `Sorting.InsertionSort` | backtest.py:51 | The sort used for `sort_values` returns a permutation of its input. |
| `Sorting.InsertionSortSorted` | backtest.py:51 | Under a total preorder, the sort's result is ordered. |
| `Frame.SortByCountryYearCorrect` | backtest.py:12 | The prepared frame is ordered by country, then year, and holds exactly the raw rows. |
| `Frame.SortKeepsDistinctKeys` | backtest.py:12 | Sorting cannot make two rows share a (country, year). |
| `Frame.ForwardFill` | backtest.py:18 | The filled column has one cell per row, and with no zero rate in the input no filled cell is zero. |
| `Frame.ForwardFillAt` | backtest.py:18 | A present rate is kept, and a missing one takes the country's previous filled rate. |
| `Frame.ForwardFillLatest` | index.py:13 | A row's filled rate is the latest present rate at or before it in its own country. It is missing exactly when its country has no rate up to that row. |
| `Frame.FxReturnAt` | backtest.py:19 | A country's first row has no FX return. Any other row's FX return is its country's previous filled rate over its own filled rate, and is missing when either rate is missing. |
| `Frame.Minus` | backtest.py:15 | `a - b` is present exactly when both operands are, and then adding `b` back gives `a`. |
| `Frame.Times` | backtest.py:20 | `a * b` is present exactly when both operands are, and then dividing it by a nonzero `b` gives `a`. |
| `Frame.Derive` | backtest.py:14-23 | Deriving the columns keeps every row's country and year, in the same order. |
| `Frame.DeriveAt` | backtest.py:14-23 | Each derived row carries its raw cells unchanged. Its rate is the forward-filled rate and its FX return is the per-country FX return. Its excess return is `bond_tr - bill_rate`, its USD excess return is that times the FX return, and its term premium is `bond_rate - bill_rate`. |
| `Frame.DerivedRatesAt` | backtest.py:18-19 | A derived row's rate is its country's latest present rate, and is missing exactly when there is none so far. Its FX return is missing on the country's first row and is otherwise the previous row's rate over its own. |
| `Frame.DeriveRowReturns` | backtest.py:15-23 | The USD excess return is present exactly when `bond_tr`, `bill_rate` and the FX return are, and is then `(bond_tr - bill_rate) * fx_return`. The term premium is present exactly when both rates are, and adding the bill rate back gives the bond rate. |
| `Panel.PanelMembership` | backtest.py:26-30 | A row is in the panel exactly when it is a prepared row with none of the eight cells missing and a year in `[init_year, end_year]`. |
| `Panel.BuildPanelKeepsPairwise` | backtest.py:26-30 | The three row filters keep the order of the prepared frame: any relation between earlier and later rows survives. |
| `Panel.PanelSortedByCountryYear` | backtest.py:12-30 | The panel is ordered by country, then year. |
| `Panel.PanelKeepsUniqueKeys` | backtest.py:12-30 | A raw panel with one row per (country, year) gives a panel with one row per (country, year). |
| `Ranking.RankIsDescendingPermutation` | backtest.py:51 | Ranking by term premium, descending, gives a permutation of the sample. |
| `Ranking.TopNIsTopByPremium` | backtest.py:51-52 | `head(top_n)` has exactly `top_n` candidates from the sample, in descending premium. None has a lower premium than any unselected candidate, and together with the unselected ones they are exactly the sample. |
| `Ranking.TopNDistinctCountries` | backtest.py:52 | A sample with distinct countries gives a selection with distinct countries. |
| `Strategy.ReferenceBill` | backtest.py:64 | The bill rate used is that of the first USA row of the sample. |
| `Strategy.Years` | backtest.py:41 | The groups' years are exactly the panel's years, strictly ascending. |
| `Strategy.GroupByYearCorrect` | backtest.py:41 | The groups are in strictly ascending year order and none is empty. Each holds exactly the panel's rows of its year, in panel order, and every panel row's year has a group. |
| `Strategy.AcceptedStep` | backtest.py:44-48 | Visiting one more group adds its year's outcome to the accepted years, or nothing when the year is skipped. |
| `Strategy.Allocate` | backtest.py:55-62 | The loop's P&L is the equal-weighted sum of the selected position returns `(bond_tr - bill_rate) * fx_return`, and the selected countries are listed in rank order. |
| `Strategy.EvaluateGroup` | backtest.py:45-65 | One loop pass computes exactly what the year yields. |
| `Strategy.RecordYear` | backtest.py:67-80 | An accepted year grows the running value by `1 + return` and appends the year, return, new value and countries. A skipped year changes nothing. |
| `Strategy.RunningTrackCompounds` | backtest.py:68 | The running value after the loop is the product of `1 + return` over all records. |
| `Strategy.RunningTrackAt` | backtest.py:67-80 | Each record of the loop's track is its accepted year's record, and its index is the product of `1 + return` up to and including it. |
| `Strategy.RunningTrackIsTrack` | backtest.py:67-80 | The track the loop builds step by step meets the closed-form track definition. |
| `Strategy.TrackStep` | backtest.py:44-80 | One loop pass keeps the records the track of the groups visited so far. |
| `Strategy.CompoundYears` | backtest.py:38-80 | The loop emits one record per accepted year, in group order, with its return and countries. Each record's index is the product of `1 + return` over all records so far; skipped years leave no record and no step. |
| `Strategy.RunStrategy` | backtest.py:41-80 | The strategy track of a panel is the track of the accepted years of its year groups. |
| `StrategyFacts.EligibleMembership` | backtest.py:45 | A candidate is in the sample exactly when it comes from a row of the year with all four signal cells. |
| `StrategyFacts.HasReferenceIff` | backtest.py:47 | The sample has the USA exactly when the year has a USA row with all four signal cells. |
| `StrategyFacts.SignalCheckRedundant` | backtest.py:45 | On the backtest panel, the line-45 `dropna` removes nothing. |
| `StrategyFacts.AcceptedIff` | backtest.py:47-48 | A year yields a selection if and only if its sample has a USA row and at least `top_n` rows. |
| `StrategyFacts.SelectionCorrect` | backtest.py:45-65 | An accepted year holds exactly `top_n` candidates of its sample, in descending premium, none below any unheld one. Its return is computed with the bill rate of the first USA row of the sample. |
| `StrategyFacts.SelectionDistinctCountries` | backtest.py:51-62 | A group with distinct countries gives a selection with distinct countries. |
| `StrategyFacts.AcceptedMembership` | backtest.py:44-48 | An outcome is accepted exactly when some group's year evaluates to it. |
| `StrategyFacts.AcceptedYearsIncreasing` | backtest.py:41-48 | The accepted years strictly increase. |
| `StrategyFacts.GroupCountriesDistinct` | backtest.py:41 | With one row per (country, year), a year's group has distinct countries. |
| `StrategyFacts.AcceptedRecordSound` | backtest.py:44-80 | The record of an accepted year names `top_n` distinct countries, each with a complete row of that year, and that year passes the line-47 test. |
| `StrategyFacts.PanelAcceptedYearsIncreasing` | backtest.py:41-80 | The accepted years of a panel strictly increase. |
| `StrategyFacts.TrackRecords` | backtest.py:38-80 | The track's years strictly increase, and every record is sound in the sense above. |
| `StrategyFacts.TrackGrowthBetween` | backtest.py:68-73 | Between two records of a track, the index grows by the compounded returns of the records after the first, up to and including the second. |
| `StrategyFacts.GroupYearsInRange` | backtest.py:28-30 | Every year group lies in `[init_year, end_year]`. |
| `StrategyFacts.TrackYearsInRange` | backtest.py:28-80 | Every record's year lies in `[init_year, end_year]`. |
| `Compounding.ZeroFilled` | backtest.py:34 | `fillna(0)`: a missing cell becomes 0 and a present one keeps its value. |
| `Compounding.CompoundAppend` | backtest.py:68 | Compounding two consecutive spans is the product of compounding each. |
| `Compounding.GrowthBetween` | backtest.py:68 | The compounded value up to period `k` is the one up to an earlier period `i`, times the compounded returns of the periods after `i` up to `k`. |
| `Compounding.CumProdIsCompound` | backtest.py:35 | Entry `k` of `cumprod` is the product of `1 + r` over the first `k + 1` returns. |
| `Compounding.CumProdExample` | backtest.py:34-35 | Returns 5%, 0 and 3% give the running values 1.05, 1.05 and 1.0815. |
| `Report.BenchmarkCorrect` | backtest.py:33-35 | The benchmark's `k`-th point is the `k`-th USA row of the panel: its year, its `bond_tr` with missing counted as 0, and an index equal to the product of `1 + bond_tr` over the first `k + 1` points. |
| `Report.BenchmarkFillRedundant` | backtest.py:34 | On the backtest panel every USA row has its `bond_tr`, so the `fillna(0)` changes nothing. |
| `Report.BenchmarkYearsIncreasing` | backtest.py:33 | With one row per (country, year), the benchmark years strictly increase. |
| `Report.BenchmarkExample` | backtest.py:33-35 | Three USA years with 5%, a missing return and 3% give the indices 1.05, 1.05 and 1.0815. |
| `Report.MatchesMembership` | backtest.py:85 | A record's joined rows are exactly its combinations with the benchmark points of its year. |
| `Report.JoinedFromPair` | backtest.py:85-91 | Every joined row combines a record and a benchmark point of the same year, with the renamed columns. |
| `Report.PairIsJoined` | backtest.py:85-91 | Every record and benchmark point of the same year give a joined row. |
| `Report.JoinMembership` | backtest.py:85-91 | The inner join holds exactly the combinations of same-year pairs. |
| `Report.MatchesOnce` | backtest.py:85 | With one benchmark point per year, a record matches once when the benchmark has its year and not at all otherwise. |
| `Report.JoinOnce` | backtest.py:85 | With one record and one point per year, each year of both appears exactly once in the join, and no other year appears. |
| `Report.MatchesOfYear` | backtest.py:85 | A record's matches carry its year, and there is at most one. |
| `Report.JoinYearsIncreasing` | backtest.py:85 | Records in ascending year order give a join in ascending year order. |
| `Report.JoinRows` | backtest.py:85-91 | Ordered, in-range records give a join with one row per shared year, ascending and within the range. |
| `Report.Backtest` | backtest.py:12-91 | The pipeline returns the strategy track of the panel and the join of that track with the benchmark. With no accepted year the merge fails and there is no combined output. |
| `Report.BacktestRows` | backtest.py:12-91 | With one raw row per (country, year), the combined output has one row per year that both the strategy and the benchmark have, and no other rows. Its years strictly increase and lie in `[init_year, end_year]`. |
| `CumIndex.DropRequiredCorrect` | index.py:19-20 | No kept row misses a required return, and every row that has all three is kept, as often as it occurs. |
| `CumIndex.DroppedRowsHaveReturns` | index.py:19-27 | After the drop both return columns are present in every row, so the `fillna(0)` of line 27 changes nothing. |
| `CumIndex.RunningValueIsCompound` | index.py:25-28 | A country's running value is the product of `1 + r` over that country's rows alone, in row order, with missing returns as 0. |
| `CumIndex.CountryStep` | index.py:28 | Scanning a row of the country grows its running value by `1 + r`, and a row of another country leaves it. |
| `CumIndex.RunningValueSkipsOthers` | index.py:25-28 | Rows of other countries do not move a country's running value. |
| `CumIndex.IndexStep` | index.py:27-28 | Each row's index is its country's previous index (1.0 before the first) grown by `1 + r`, with a missing `r` as 0. |
| `CumIndex.IndexGap` | index.py:27-28 | A row without a return repeats its country's previous index, or is 1.0 on the country's first row. |
| `CumIndex.IndexIsGroupCumProd` | index.py:25-29 | A row's index is the `cumprod` entry at its position within its own country's group, so it depends on that country's rows alone. |
| `CumIndex.CumProdOfPrefix` | index.py:28-29 | The group's running product at the last row of a prefix is the product over that prefix. |
| `CumIndex.IndexCountry` | index.py:26-29 | Writing one country's group sets each of its rows' index to its running index and leaves every other row untouched. |
| `CumIndex.BuildIndexWithGaps` | index.py:23-30 | Every row gets its country's running index in the index column, replacing the 1.0 placeholder. The rows, their order and their other columns are unchanged. |
| `CumIndex.AddIndices` | index.py:32-33 | A fresh frame with both the local and the USD index added to every row. |
| `CumIndex.TermPremiumIndices` | index.py:7-33 | The script's frame is the prepared, dropped rows, each with its local and USD index. |

## Left out

- File I/O is not modelled: `read_csv`, `to_csv` and the console messages (backtest.py lines 11 and 93-94; index.py lines 6 and 59-60). The raw panel is a parameter, and the outputs are return values.
- Plotting is not modelled: all matplotlib and seaborn code (backtest.py lines 98-116; index.py lines 36-48).
- `summarize` and `avg_rf` (backtest.py lines 119-134) are not modelled. They rest on logarithms, square roots and floating-point statistics, which have no counterpart over `real`.
- cross_correlation.py, dispersion.py and yield_spread_regression.py are not part of this model. Their substance is correlation matrices, regressions, moments and plots.
- Floating-point arithmetic: returns are exact `real`s, so rounding, NaN and infinity do not arise.
  - A zero exchange rate would make pandas divide by zero and yield infinity. It is excluded by the precondition `NonZeroRates`.
- The benchmark's `eq_tr` column (backtest.py line 33) is not kept. It is selected but never reaches the merge (line 85), which keeps only `year`, `bond_tr` and `index`.
- `top_n` must be at least 1. The code divides by `top_n` (line 55), so 0 raises `ZeroDivisionError`, and a negative value makes `head` drop rows instead of taking them. The model's `topN` is a natural number of at least 1.
- Order of equal term premiums: pandas' default `sort_values` does not promise a stable order for ties.
  - The model ranks with an insertion sort, which fixes one order among ties. No lemma states which order it is.
  - `Ranking.TopNIsTopByPremium` and `StrategyFacts.SelectionCorrect` state only the properties every tie order has.
- Country order in `build_index_with_gaps`: pandas' `groupby('country')` visits the countries in sorted order. `CumIndex.BuildIndexWithGaps` accepts any order. The groups are disjoint, so the result is the same, and the contract states the result alone.
- No accepted year: `pd.DataFrame([])` has no `year` column, so the merge at line 85 raises `KeyError`. `Report.Backtest` returns `None` as its combined output in that case.
- Panel filtering: the code first drops rows missing any of eight columns, and the year filter happens before grouping (lines 26-30). `StrategyFacts.SignalCheckRedundant` shows that the four-column check at line 45 then removes nothing.
- Benchmark missing values: the benchmark is cut from the already-filtered panel, so the `fillna(0)` at line 34 changes nothing (`Report.BenchmarkFillRedundant`). `Report.Benchmark` still models the `fillna(0)`.
- Record columns: the `country_1 .. country_N` columns of a record are a sequence of names. Every record has exactly `top_n` of them (`StrategyFacts.TrackRecords`), so the DataFrame needs no padding.
- Row labels: pandas row labels (the index that `data.loc[idx, ...]` writes through) are array positions in `CumIndex`. The labels are unique after `read_csv`, so the two address the same rows.
