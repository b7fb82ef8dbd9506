# ESG and stock performance pipeline: a Dafny model

This project models the table logic of a batch pipeline that studies whether
ESG (environmental, social, governance) scores go with risk-adjusted stock
performance. The pipeline has four stages:

- **Cleaning.** It cleans the ESG scores (`clean_esg_data`) and the daily
  prices (`clean_price_data`).
- **Preparation.** It computes daily stock and market returns
  (`calculate_returns`, `calculate_market_returns`), converts the annual
  treasury-bill rate into a daily risk-free rate aligned on trading days
  (`process_risk_free_rate`), and merges everything into a master table
  (`merge_all_data`).
- **Per-ticker features.** From the master table it computes performance
  metrics (`calculate_performance_metrics`), risk metrics
  (`calculate_risk_metrics`) and control variables
  (`create_control_variables`). It then aggregates them into one row per firm
  (`aggregate_all_features`).
- **Regressions.** It runs three ordinary-least-squares questions on the
  aggregate: RQ1 Sharpe ratio on ESG, RQ2 volatility on ESG, and RQ3 both on
  the E, S and G pillars.

**Tables.** A table is a `Frame`: a list of distinct column names and rows of
`Cell`s. A cell is missing (`Null`), a finite number, plus or minus infinity,
a string or a date.

**Arithmetic.** Numbers are exact reals. The `Float` type adds NaN and the
two infinities, and its operations follow the floating-point rules where
pandas relies on them. Examples: division by zero gives an infinity or NaN;
NaN compares false; `skipna` means and sums skip missing values.

**Parameters.** The following numerical building blocks are parameters of
the model and are not defined here:

- `std` (a standard deviation);
- `sqrt252` (the square root of 252);
- `pow` (a fractional power);
- `root` (a 252nd root, constrained by `IsRoot`);
- `ln` (the natural logarithm);
- `quantile`;
- `median`;
- `toDate` (the date parser);
- `ols` (a fitted regression).

**Form of each stage.** Each source file that works step by step has a
method that does the same thing in order: alias loops with `break`, columns
collected by `append`, loops over tickers, per-column fill loops. Each such
method is proved equal to a specification function. The properties the
pipeline promises are lemmas about those functions.

**Deliberate behaviour kept.** The calendar-day threshold is kept exactly as
the code has it. The long-format price threshold measures a ticker against
the calendar days of the window, not its trading days
(`clean_prices.py:98-100`). `PriceProperties.WeekdayTickerDropped` proves
what follows: over a window of at least 27 days, a stock that trades on
every weekday is dropped.

**Market-index ticker row.** One step uses a regular expression where a
literal test was meant (see "## Findings"). That step is modelled twice. The
test as written is `ReturnCalculation.TickerRowAsWritten`, used by
`ReturnCalculation.MarketReturnsAsWritten`. The literal test is
`ReturnCalculation.TickerRow`, used by `ReturnCalculation.MarketReturns`. The
rest of the model uses the literal test.

**Errors.** Each exception the modelled code raises on some table is an
`Err` value of its stage's error type, checked in the order the source meets
it. Examples: a `KeyError` for a missing column, a `ZeroDivisionError`, and
a `TypeError` from a string where a number is needed. The exceptions left
unmodelled are listed under "## Left out".

## Model

| member | source | states |
|---|---|---|
| Columns.FirstPresent | src/data_processing/clean_esg.py:46-55 | The first candidate the table has, or None exactly when it has none of them. |
| Columns.ResolveColumn | src/data_processing/clean_prices.py:49-54 | The alias loop with `break` returns the first candidate present. |
| Columns.CollectColumns | src/data_processing/clean_esg.py:73-78 | The append loop over the columns collects exactly the columns that pass the test, in column order. |
| Columns.SelectedColumns | src/data_processing/clean_prices.py:75-80 | Selected columns are exactly the columns that pass the test, each listed once. |
| Text.StripProperties | src/data_processing/clean_esg.py:62 | `strip` adds no character and leaves no whitespace at either end. |
| Text.NormaliseTickerIsNormal | src/data_processing/clean_esg.py:62 | A normalised ticker is upper-case and stripped. |
| Text.NormaliseTickerIdempotent | src/data_processing/clean_esg.py:62 | Normalising twice gives the same result as normalising once. |
| Text.ContainsIffOccurs | src/data_processing/clean_esg.py:76-77 | The substring test `k in s` holds exactly when `k` occurs at some position of `s`. |
| Seqs.KeepFirstProperties | src/data_processing/clean_esg.py:66-70 | Keep-first deduplication: no key repeats, every input key survives, nothing is added, and the table never grows. |
| Seqs.KeepFirstKeepsFirsts | src/data_processing/clean_esg.py:66-70 | An element that is the first with its key survives. |
| Seqs.KeepFirstOnlyFirsts | src/data_processing/clean_esg.py:66-70 | Every survivor is an element that is the first with its key. |
| Seqs.KeepFirstOrder | src/feature_engineering/controls.py:36-38 | Survivors are listed in the order their keys first occur. |
| Seqs.KeepFirstCount | src/feature_engineering/controls.py:36-38 | One row remains per distinct key. |
| Sorting.SortBy | src/data_processing/calculate_returns.py:74 | The sorted rows are a permutation of the input: same length, same multiset. |
| Sorting.SortBySorted | src/data_processing/calculate_returns.py:74 | The sort puts the rows in key order. |
| Sorting.SortByMembers | src/data_processing/calculate_returns.py:74 | The sort keeps exactly the input's members. |
| Sorting.FilterSorted | src/data_processing/calculate_returns.py:95-103 | Dropping rows keeps the remaining rows in key order. |
| Fills.ForwardFillIsLastPresent | src/data_processing/process_risk_free.py:123-124 | At every position, `ffill()` gives the last present cell at or before that position. |
| Fills.LastPresentUpTo | src/data_processing/process_risk_free.py:123 | The reference forward fill is the position's own cell when present, missing exactly when nothing so far is present, and otherwise an earlier cell. |
| Fills.FirstPresentIndex | src/data_processing/process_risk_free.py:85 | The position of the first present cell, or the length when every cell is missing. |
| Fills.NextPresentFrom | src/data_processing/process_risk_free.py:85 | The reference backward fill is the position's own cell when present, missing exactly when nothing from there on is present, and otherwise a later cell. |
| Fills.BackwardFillIsNextPresent | src/data_processing/process_risk_free.py:85 | At every position, `bfill()` gives the first present cell at or after that position. |
| Fills.BackwardFillCells | src/data_processing/process_risk_free.py:85 | `bfill()` keeps every present cell and copies only input cells. |
| Fills.BackwardFillComplete | src/data_processing/process_risk_free.py:85 | When the last cell is present, `bfill()` leaves no cell missing. |
| Fills.FillGapsProperties | src/data_processing/process_risk_free.py:85 | `ffill().bfill()` leaves no cell missing once one cell is present. It keeps present cells and copies only input cells. |
| Fills.FillGapsNothingMissing | src/data_processing/merge_data.py:106-111 | With nothing missing, the fill changes nothing. |
| Fills.FillGapsAllMissing | src/data_processing/merge_data.py:106-111 | With every cell missing, the fill leaves every cell missing. |
| Frames.PutColumn | src/data_processing/calculate_returns.py:81 | `df[name] = cells` overwrites or appends that column and changes nothing else. |
| Frames.PutColumnKeeps | src/data_processing/merge_data.py:177 | Writing one column leaves every other column in place with its cells. |
| Frames.Select | src/feature_engineering/aggregate_features.py:72 | `f[names]` gives the named columns in the given order, or a `KeyError` exactly when a name is missing, naming a missing one. |
| Frames.SelectRow | src/feature_engineering/aggregate_features.py:72 | Row `i` of a selection is row `i` of the table restricted to the names. |
| Frames.Deduplicated | src/feature_engineering/controls.py:36-38 | `drop_duplicates(subset=[col])` keeps one row per value, the first one, and its rows are rows of the input. |
| Frames.DeduplicatedOrder | src/feature_engineering/controls.py:36-38 | Surviving rows keep the order of first appearance. |
| Frames.GroupCellsEmpty | src/data_processing/calculate_returns.py:81 | A ticker's group is empty exactly when no row carries that ticker. |
| Frames.GroupCellsOrigin | src/data_processing/calculate_returns.py:81 | Every cell of a group comes from a row of that group's ticker. |
| Joins.Lookup | src/data_processing/merge_data.py:100-102 | Finds a right row with the key, or None exactly when no right row has it. |
| Joins.MatchesCells | src/data_processing/merge_data.py:77 | Every row a left row gets from the join pairs it with a right row of its key. Every right row of that key gives such a row, and there is none exactly when the right table lacks the key. |
| Joins.MatchesFiltered | src/data_processing/merge_data.py:77 | The rows one left row gets are exactly the right rows of its key, in right-table order, each paired with it. |
| Joins.MatchesComplete | src/data_processing/merge_data.py:77 | Each right row with the left row's key gives a joined row. |
| Joins.LeftJoinAt | src/data_processing/merge_data.py:100-102 | A left join loses no left row: each left row's output follows those of earlier rows. |
| Joins.LeftJoinUnique | src/data_processing/process_risk_free.py:120 | With at most one right row per key, a left join keeps the left rows one for one and in order. Each is paired with the row of its key. |
| Joins.LeftJoinSorted | src/data_processing/process_risk_free.py:120 | A left join keeps a sorted left table sorted. |
| Joins.InnerJoinFrom | src/data_processing/merge_data.py:77 | Every inner-join row is a left row paired with a right row of the same key. |
| Joins.InnerJoinAt | src/data_processing/merge_data.py:77 | A left row whose key the right table has keeps all its matches. |
| Joins.InnerJoinEmpty | src/data_processing/merge_data.py:82-86 | An inner join is empty exactly when no left key is a right key. |
| Stats.Mean | src/feature_engineering/performance_metrics.py:60 | `mean()` is NaN when no value is present. |
| Stats.MeanOfPresent | src/feature_engineering/performance_metrics.py:60 | The mean skips missing values. |
| Stats.MeanFinite | src/feature_engineering/performance_metrics.py:89 | With finite values only, the mean is the real sum over the count. |
| Stats.MeanConstant | src/feature_engineering/performance_metrics.py:60 | The mean of a constant column is that constant. |
| Stats.ProductFinite | src/feature_engineering/performance_metrics.py:79 | With finite values only, `prod()` is the real product. |
| Stats.VarianceNonNegative | src/feature_engineering/risk_metrics.py:72-74 | The sample variance of finite values is finite and never negative. |
| Stats.VarianceOfConstant | src/feature_engineering/risk_metrics.py:72-74 | A constant column has sample variance zero. |
| Stats.CovFinite | src/feature_engineering/risk_metrics.py:72-73 | The sample covariance of two finite columns of two or more values is finite. |
| Tickers.TickerRows | src/feature_engineering/performance_metrics.py:47 | `df[df[ticker_col] == ticker]` holds only rows of that ticker, and every row of a present ticker. |
| Tickers.UniqueTickersListed | src/feature_engineering/performance_metrics.py:46 | `unique()` lists each ticker once, including every ticker that occurs. |
| Tickers.QualifyingTickersProperties | src/feature_engineering/performance_metrics.py:46-52 | A ticker qualifies exactly when it is present and has at least 200 rows. Qualifying tickers are distinct and in first-row order. |
| Floats.Add | src/feature_engineering/performance_metrics.py:79 | Finite addition is real addition. Missing or NaN stays missing. |
| Floats.Div | src/feature_engineering/risk_metrics.py:112 | Finite division by a non-zero value is real division. A non-zero value over zero is infinite. |
| Floats.Abs | src/analysis/regression_models.py:218-222 | `abs` is finite and non-negative exactly for finite input, NaN for NaN, and +inf for either infinity. |
| CleanEsg.CleanEsg | src/data_processing/clean_esg.py:46-145 | The step fails with `NoTickerColumn` exactly when no ticker alias is a column. It fails with `NoStringTickers` exactly when the table has rows but no string ticker, so that `.str.upper()` raises (line 62). It fails with `EmptyTable` exactly when the table has no rows, so that the closing report divides by zero (line 145). Otherwise it keeps the columns. |
| CleanEsg.CleanEsgData | src/data_processing/clean_esg.py:46-145 | The step-by-step reassignment of the table computes `CleanEsg`, failures included. |
| CleanEsg.ImputeScores | src/data_processing/clean_esg.py:111-118 | The per-column imputation loop computes `FillColumns`. |
| CleanEsg.FillColumns | src/data_processing/clean_esg.py:111-118 | The imputation keeps one row per input row. |
| CleanEsg.FillColumnsKeepsOthers | src/data_processing/clean_esg.py:111-118 | Imputation leaves every non-ESG column unchanged. |
| CleanEsg.FillColumnCell | src/data_processing/clean_esg.py:111-118 | A present score keeps its value unless its sector is missing; then it becomes missing, since `groupby` puts a missing sector in no group. A missing score whose sector group (or the whole column, without a sector column) has a present score gets that group's median. |
| CleanEsg.EsgColumnsSelected | src/data_processing/clean_esg.py:73-78 | The ESG columns are exactly the names passing the keyword test, in column order, each once. |
| CleanEsg.TickerNamesNotEsg | src/data_processing/clean_esg.py:46 | No ticker alias is an ESG column. |
| CleanEsg.TickerNotAmongEsg | src/data_processing/clean_esg.py:73-78 | The resolved ticker column is never imputed. |
| CleanEsg.NormaliseCellIsNormal | src/data_processing/clean_esg.py:62 | A normalised ticker cell is missing, or an upper-case stripped string. |
| CleanEsg.NormalisedTickers | src/data_processing/clean_esg.py:62 | Every ticker cell after normalisation is missing or normal. |
| CleanEsg.NormaliseKeepsOtherColumns | src/data_processing/clean_esg.py:62 | Normalisation changes the ticker column only. |
| CleanEsg.FilterTickers | src/data_processing/clean_esg.py:99 | Dropping rows keeps the tickers distinct. |
| CleanEsg.HandleMissingKeepsTickers | src/data_processing/clean_esg.py:97-118 | The missing-value step keeps each row's ticker or drops the row. |
| CleanEsg.RemoveInfiniteKeepsTickers | src/data_processing/clean_esg.py:132-137 | The infinity step keeps each row's ticker or drops the row. |
| CleanEsg.DeduplicatedTickers | src/data_processing/clean_esg.py:62-70 | Each ticker of the deduplicated table is normalised and comes from the first row with that ticker. |
| CleanEsg.FiniteTickers | src/data_processing/clean_esg.py:136 | Normalised tickers are never infinite. |
| CleanEsg.CleanEsgTickers | src/data_processing/clean_esg.py:62-137 | After cleaning, no ticker repeats and every ticker is upper-case and stripped. Each output row is the first normalised input row with its ticker: outside the ESG score columns it keeps that row's cells, except that an infinity may have become missing. |
| CleanEsg.HandleMissingOrigin | src/data_processing/clean_esg.py:97-118 | Each row the missing-value step returns agrees, outside the ESG score columns, with one of its input rows. |
| CleanEsg.RemoveInfiniteOrigin | src/data_processing/clean_esg.py:132-137 | Each row the infinity step returns is one of its input rows with some infinities made missing. |
| CleanEsg.CleanedRowOrigin | src/data_processing/clean_esg.py:62-137 | A row left by de-duplication, the missing-value step and the infinity step is the first row with its ticker, up to scores and infinities. |
| CleanEsg.CleanEsgShrinks | src/data_processing/clean_esg.py:66-137 | Cleaning never adds rows. |
| CleanEsg.MissingStrategy | src/data_processing/clean_esg.py:92-118 | Below 5% of rows with a missing score, exactly those rows are dropped. Otherwise no row is dropped and the cells outside the ESG columns are unchanged. |
| CleanEsg.RemoveInfiniteNoInfinity | src/data_processing/clean_esg.py:132-137 | No kept ESG score is infinite. When some score was infinite, the infinity step drops the rows left incomplete. |
| CleanEsg.CleanEsgScores | src/data_processing/clean_esg.py:97-137 | No output ESG score is infinite. Below the threshold, or after the infinity step, none is missing either. |
| CleanEsg.CompleteScoresUnchanged | src/data_processing/clean_esg.py:122-129 | Out-of-range scores only draw a warning. With some string ticker and nothing missing or infinite, the output is the deduplicated table with every score unchanged. |
| CleanEsg.DeduplicatedScores | src/data_processing/clean_esg.py:62-70 | Deduplication and normalisation leave the ESG cells of a kept row unchanged. |
| CleanEsg.CompleteRowsKept | src/data_processing/clean_esg.py:92-137 | With no missing and no infinite score, the missing-value and infinity steps change nothing. |
| CleanEsg.FilterSplit | src/data_processing/clean_esg.py:92-99 | The rows kept plus the rows dropped make up all rows. |
| CleanPrices.CleanPrices | src/data_processing/clean_prices.py:49-58 | The step fails with `NoDateColumn` exactly when no date alias is a column. `PriceProperties.CleanPricesErrors` gives every other failure, including `CloseColumnTaken` for a kept wide column named Close. |
| CleanPrices.CleanPriceData | src/data_processing/clean_prices.py:49-175 | The step-by-step method computes `CleanPrices`, failures included (`CloseColumnTaken` among them). |
| CleanPrices.CleanLongFrame | src/data_processing/clean_prices.py:86-140 | The long-format method computes `CleanPrices`, failures included. |
| CleanPrices.CleanLong | src/data_processing/clean_prices.py:92-140 | The long-format loop computes the specified long rows. This includes the failures on an empty window, a window of no length, and a non-string among the first ten dropped tickers. |
| CleanPrices.SelectWindow | src/data_processing/clean_prices.py:67-72 | The window filter followed by the date sort. |
| CleanPrices.FindPriceColumns | src/data_processing/clean_prices.py:75-80 | The append loop computes the price columns. |
| CleanPrices.TickerStats | src/data_processing/clean_prices.py:95-111 | The statistics loop fails with a division by zero exactly when the window has no length and some ticker exists. Otherwise it gives one record per ticker. |
| CleanPrices.ForwardFillPrices | src/data_processing/clean_prices.py:131-134 | The per-column grouped fill loop computes `GroupFillAll`. |
| CleanPrices.GroupFill | src/data_processing/clean_prices.py:132-134 | The grouped `ffill(limit=5)` keeps one cell per row. |
| CleanPrices.GroupFillAll | src/data_processing/clean_prices.py:131-134 | The fill over all price columns keeps one row per row. |
| CleanPrices.PlainFill | src/data_processing/clean_prices.py:151 | The wide-format `ffill(limit=5)` keeps one cell per row. |
| CleanPrices.PlainFillAll | src/data_processing/clean_prices.py:151 | The fill over all ticker columns keeps one row per row. |
| PriceProperties.WindowedRows | src/data_processing/clean_prices.py:67-72 | Both branches start from exactly the rows with start ≤ date ≤ end (both ends inclusive), in date order. |
| PriceProperties.PriceColumnsSelected | src/data_processing/clean_prices.py:75-80 | The price columns are exactly the non-date columns whose lower-cased name mentions open, high, low, close, adj or price, in column order. |
| PriceProperties.TickerNamesNoPrice | src/data_processing/clean_prices.py:78-89 | Neither ticker alias is a price column. |
| PriceProperties.NotPriceColumn | src/data_processing/clean_prices.py:75-80 | A column that mentions no price is not among the price columns. |
| PriceProperties.KeyColumnsNotPrices | src/data_processing/clean_prices.py:129-140 | The ticker and date columns are never price columns, so the fill and the dropna leave them alone. |
| PriceProperties.MissingPctThreshold | src/data_processing/clean_prices.py:100-117 | Over a window of positive length, `missing_pct > 10` holds exactly when the ticker has fewer than 90% of the expected days. |
| PriceProperties.WeekOfWeekdays | src/data_processing/clean_prices.py:98 | Any seven consecutive calendar days hold exactly five weekdays. |
| PriceProperties.WeekdaysAtMost | src/data_processing/clean_prices.py:98 | A window of `n` calendar days holds at most five weekdays per started week. |
| PriceProperties.DaysAreDates | src/data_processing/clean_prices.py:99 | With one row per date, a ticker's row count is its number of distinct dates. |
| PriceProperties.WeekdayTickerShort | src/data_processing/clean_prices.py:98-100 | Over a window of at least 27 days, a ticker with one row per weekday date has fewer than 90% of the calendar days. |
| PriceProperties.FilledLastReach | src/data_processing/clean_prices.py:133 | `ffill(limit=5)` fills a missing cell from the last present value only when at most 5 missing cells separate them. |
| PriceProperties.FillStaysInGroup | src/data_processing/clean_prices.py:131-134 | The grouped fill never crosses tickers. A filled cell is missing or the value of an earlier row of the same ticker, and a present cell is kept. |
| PriceProperties.FillKeepsOtherColumns | src/data_processing/clean_prices.py:131-134 | The fill leaves every non-price column unchanged. |
| PriceProperties.BadTickersMembers | src/data_processing/clean_prices.py:116-117 | A ticker is bad exactly when its statistics record is above 10%. |
| PriceProperties.BadTickerIff | src/data_processing/clean_prices.py:95-125 | A ticker in the window is dropped exactly when it has fewer than 90% of the calendar days of the window. |
| PriceProperties.FilledSorted | src/data_processing/clean_prices.py:129-134 | The fill keeps the rows in (ticker, date) order. |
| PriceProperties.LongOutput | src/data_processing/clean_prices.py:125-140 | Every long-format output row is in (ticker, date) order and has every price. It comes from a window row of its ticker, and that ticker has at least 90% of the calendar days. Conversely, every window row with every price whose ticker has at least 90% of the days is in the output. |
| PriceProperties.FillKeepsCompleteRow | src/data_processing/clean_prices.py:131-134 | The per-ticker forward and backward fill leaves a row that has every price unchanged. |
| PriceProperties.LongRowKept | src/data_processing/clean_prices.py:92-140 | A window row with every price whose ticker has at least 90% of the calendar days is kept by the long-format step. |
| PriceProperties.CleanPricesLong | src/data_processing/clean_prices.py:62-140 | Over a window of positive length, the long-format step succeeds exactly when the window has rows and the first ten dropped tickers are strings. Its result then keeps the input's columns. Its rows are dated inside the window, sorted by (ticker, date), have no missing price, and belong to tickers that pass the threshold. Every input row in the window with every price whose ticker passes the threshold is in the result. |
| PriceProperties.UniqueTickersEmpty | src/data_processing/clean_prices.py:92 | A window has unique tickers exactly when it has rows. |
| PriceProperties.TextTickersPrintable | src/data_processing/clean_prices.py:117-121 | When every ticker of the window is a string, the report's join of the dropped tickers succeeds. |
| PriceProperties.WeekdayTickerDropped | src/data_processing/clean_prices.py:95-125 | Take a window of at least 27 days that has rows and only string tickers. A ticker that trades every weekday and never at the weekend then has no output row. |
| PriceProperties.CleanPricesErrors | src/data_processing/clean_prices.py:56-173 | The step fails with `NoDateColumn` exactly when no date column exists. In long format it fails with `NoTickerStats` exactly when the window has no rows (`KeyError`, lines 113-117). It fails with `ZeroLengthWindow` exactly when the window has rows but no length (line 100). It fails with `NonStringBadTicker` exactly when one of the first ten dropped tickers is not a string (line 121). In wide format it fails with `NonNumericPrices` exactly when a kept column holds a string or a date (`np.isinf`, line 164). Otherwise it fails with `CloseColumnTaken` exactly when a kept column is named Close (`melt(value_name='Close')`, line 173). |
| PriceProperties.PlainFillKeepsOtherColumns | src/data_processing/clean_prices.py:151 | The wide fill leaves every other column unchanged. |
| PriceProperties.KeptColumnsIff | src/data_processing/clean_prices.py:153-160 | A ticker column is kept exactly when it is not the date and at most 10% of it is missing after the fill. |
| PriceProperties.MeltRows | src/data_processing/clean_prices.py:173 | `melt` gives one (date, column name, value) row per kept column and row. |
| PriceProperties.CompleteDateRow | src/data_processing/clean_prices.py:164-170 | A date row kept by the dropna has no missing and no infinite cell in a kept column. |
| PriceProperties.CompleteDatesUsable | src/data_processing/clean_prices.py:164-170 | Complete date rows are dated inside the window and usable in every kept column. |
| PriceProperties.MeltedRow | src/data_processing/clean_prices.py:170-175 | Each melted row traces back to a complete date row and a kept column. |
| PriceProperties.WideRow | src/data_processing/clean_prices.py:170-175 | A wide-branch row is a dated (date, Ticker, Close) triple with a usable Close. |
| PriceProperties.CleanPricesWide | src/data_processing/clean_prices.py:148-175 | The wide step succeeds exactly when no kept ticker column holds a string or a date and none is named Close. Its result is then one (date, Ticker, Close) row per kept ticker column and complete date. Each row is dated in the window, has a Close that is neither missing nor infinite, and comes from a column kept under the 10% rule. |
| PriceProperties.WideRowsNamed | src/data_processing/clean_prices.py:173-175 | The wide branch's size, and what each of its rows holds. |
| ReturnCalculation.ParseKind | src/data_processing/calculate_returns.py:79-90 | Only "simple" and "log" are return types. |
| ReturnCalculation.Returns | src/data_processing/calculate_returns.py:42-90 | None exactly when the date or ticker alias is unresolved, the price alias is unresolved, or the return type is unknown. Otherwise the table of returns. |
| ReturnCalculation.CalculateReturns | src/data_processing/calculate_returns.py:42-113 | The alias loops, the sort, the return column and the filters compute `Returns`. |
| ReturnCalculation.SortedRows | src/data_processing/calculate_returns.py:74 | The (ticker, date) sort is a permutation of the rows. |
| ReturnCalculation.ReturnColumn | src/data_processing/calculate_returns.py:81-86 | The grouped return column has one cell per row: the return of that row within its ticker. |
| ReturnCalculation.ReturnAt | src/data_processing/calculate_returns.py:81 | A row's return is missing, a number or an infinity. |
| ReturnCalculation.Padded | src/data_processing/calculate_returns.py:81 | The padding value of a group is missing exactly when all its prices are missing, and otherwise is one of them. |
| ReturnCalculation.ReturnsTable | src/data_processing/calculate_returns.py:81-103 | The return table adds or overwrites `Return` and never grows. |
| ReturnCalculation.WithReturn | src/data_processing/calculate_returns.py:81 | Writing the return column keeps one row per sorted row. |
| ReturnCalculation.ExtremeCount | src/data_processing/calculate_returns.py:106-113 | The extreme-return count is the number of rows with a return above 1 or below -1. It only feeds a message. |
| ReturnProperties.ReturnOverPrevious | src/data_processing/calculate_returns.py:79-86 | The simple return is the price over the previous price of the same ticker, minus one. The log return is `ln` of that ratio. |
| ReturnProperties.FirstRowNoReturn | src/data_processing/calculate_returns.py:92-95 | The first row of a ticker has no return. |
| ReturnProperties.PositivePricesReturn | src/data_processing/calculate_returns.py:81 | With positive prices, a row has a finite return exactly when it is not its ticker's first row. |
| ReturnProperties.GroupPrefixRepeats | src/data_processing/calculate_returns.py:81 | A row's group so far has a second row exactly when an earlier row has the same ticker. |
| ReturnProperties.GroupPrefixPrevious | src/data_processing/calculate_returns.py:81 | The previous row of a ticker is the one the return divides by. |
| ReturnProperties.ReturnsRows | src/data_processing/calculate_returns.py:92-113 | The output rows are exactly the sorted rows whose return is a finite number, each carrying it. Returns beyond ±100% are kept. |
| ReturnProperties.KeptRowsMembers | src/data_processing/calculate_returns.py:95-103 | The kept rows are the rows with a finite return. |
| ReturnProperties.PutKept | src/data_processing/calculate_returns.py:81-103 | Writing the return and filtering keeps exactly the rows whose return is a number. |
| ReturnProperties.ReturnsSorted | src/data_processing/calculate_returns.py:74-103 | The output stays in (ticker, date) order. |
| ReturnProperties.CalculatedReturnsSorted | src/data_processing/calculate_returns.py:42-103 | Resolved key columns are never named `Return`, so the output is sorted. |
| ReturnProperties.PermutedKeys | src/data_processing/calculate_returns.py:74 | Sorting keeps the set of tickers. |
| ReturnProperties.KeptCount | src/data_processing/calculate_returns.py:92-95 | The kept rows plus the first rows of the tickers make up the table. |
| ReturnProperties.ReturnsCount | src/data_processing/calculate_returns.py:92-103 | With a ticker on every row and positive prices, the output has the input rows minus one per distinct ticker. |
| ReturnCalculation.CoerceValues | src/data_processing/calculate_returns.py:179-180 | `to_numeric(errors="coerce")` keeps the index and leaves no value cell a string or a date. |
| ReturnCalculation.MarketTable | src/data_processing/calculate_returns.py:172-180 | The loaded index table, with the ticker row skipped when it is recognised. |
| ReturnCalculation.MarketReturnAt | src/data_processing/calculate_returns.py:194 | `pct_change(fill_method=None)`: the price over the previous price, minus one. Missing when either price is missing. |
| ReturnCalculation.MarketColumn | src/data_processing/calculate_returns.py:194 | The first row has no market return, and every later row has the return against its predecessor. |
| ReturnCalculation.MarketTableReturns | src/data_processing/calculate_returns.py:194-197 | Adds `Market_Return` and keeps the rows that have one. |
| ReturnCalculation.Saved | src/data_processing/calculate_returns.py:207-209 | The save step succeeds exactly when the index column is not named `Market_Return` and a `Date` column exists, and then writes the returns unchanged. |
| ReturnCalculation.MarketReturnsWith | src/data_processing/calculate_returns.py:168-209 | Fails with `EmptyTable` exactly when the ticker-row test would read a first row that does not exist (more than two columns, no rows). Fails with `NoCloseColumn` exactly when otherwise no value column is named Close. Succeeds exactly when neither holds, the loaded Close column holds no string, the index is not named `Market_Return` and a `Date` column exists. The result is then the returns of the loaded table. |
| ReturnCalculation.MarketReturns | src/data_processing/calculate_returns.py:168-209 | The market step with the corrected literal ticker-row test. |
| ReturnCalculation.MarketReturnsAsWritten | src/data_processing/calculate_returns.py:174 | The step as written, with the regular-expression test. Its `EmptyTable` and `NoCloseColumn` failures are those of the corrected step. When neither test recognises the first row, it equals the corrected step. |
| ReturnCalculation.CalculateMarketReturns | src/data_processing/calculate_returns.py:168-209 | The method computes `MarketReturns`, failures included. |
| ReturnProperties.MarketRows | src/data_processing/calculate_returns.py:194-197 | The market output is exactly the rows from row 1 onwards that have a return. |
| ReturnProperties.MarketFirstRowDropped | src/data_processing/calculate_returns.py:196-197 | The first row never survives. |
| ReturnProperties.TickerRowSkipped | src/data_processing/calculate_returns.py:174-180 | With the intended test, a ticker row is skipped and every value made numeric. |
| ReturnProperties.MarketOutputNumeric | src/data_processing/calculate_returns.py:179-197 | Without string values in, no output value is a string. |
| ReturnProperties.SkippedTickerRowOutput | src/data_processing/calculate_returns.py:174-197 | Once the ticker row is skipped, no output value is a string and neither of the first two rows survives. |
| ReturnProperties.GspcRowTests | src/data_processing/calculate_returns.py:174 | On the first row a yfinance header leaves, the literal test holds and the regular-expression test fails. |
| ReturnProperties.TickerRowMissedAsWritten | src/data_processing/calculate_returns.py:174 | As written, that row is not recognised and the step fails on a non-numeric Close. |
| RiskFree.RateColumns | src/data_processing/process_risk_free.py:43-65 | The first date and rate aliases, or the first two columns when either is unresolved. None exactly with fewer than two columns. |
| RiskFree.FindRateColumns | src/data_processing/process_risk_free.py:43-65 | The alias loops with the fallback compute `RateColumns`. |
| RiskFree.Coerced | src/data_processing/process_risk_free.py:76-77 | Coercion keeps numbers and turns every non-number into a missing value. |
| RiskFree.FilledRates | src/data_processing/process_risk_free.py:81-85 | The gap fill keeps one rate per row. |
| RiskFree.FilledRatesComplete | src/data_processing/process_risk_free.py:79-85 | Once a rate is present, none is missing after the fill. Present rates are kept and filled ones are rates read. |
| RiskFree.DailyRate | src/data_processing/process_risk_free.py:92 | The daily rate is missing exactly when the annual rate is missing, non-numeric, or a number below -100%. |
| RiskFree.DailyRateCompounds | src/data_processing/process_risk_free.py:88-92 | Compounding the daily rate over 252 days gives back `1 + annual/100`. |
| RiskFree.DailyRateSign | src/data_processing/process_risk_free.py:92 | The daily rate has the sign of the annual rate. |
| RiskFree.DailyRateIncreasing | src/data_processing/process_risk_free.py:92 | A higher annual rate gives a higher daily rate. |
| RiskFree.PowIncreasing | src/data_processing/process_risk_free.py:92 | Positive integer powers are strictly increasing on the non-negative reals. |
| RiskFree.RootIncreasing | src/data_processing/process_risk_free.py:92 | The 252nd root preserves strict order. |
| RiskFree.Rates | src/data_processing/process_risk_free.py:72-92 | One row per row read. Each date is parsed from its own cell, and each daily rate is computed from that row's annual rate alone. |
| RiskFree.RatesAnnual | src/data_processing/process_risk_free.py:76-85 | Numeric rates read keep their value. Once one is present, no annual rate is missing, and every filled rate is a rate read. |
| RiskFree.ReadRates | src/data_processing/process_risk_free.py:43-92 | The method computes the rate table, or None exactly with fewer than two columns. |
| RiskFree.TradingDays | src/data_processing/process_risk_free.py:96-114 | None exactly when the returns table is absent or has no date alias. |
| RiskFree.TradingDates | src/data_processing/process_risk_free.py:105 | One parsed date per row of the returns table. |
| RiskFree.TradingDaysProperties | src/data_processing/process_risk_free.py:104-107 | The trading days are the distinct dates of the returns table, each once, in ascending order. |
| RiskFree.LoadTradingDays | src/data_processing/process_risk_free.py:96-114 | The alias loop computes `TradingDays`. |
| RiskFree.Align | src/data_processing/process_risk_free.py:119-120 | The left merge onto the trading days has at least one row per trading day. |
| RiskFree.JoinedRows | src/data_processing/process_risk_free.py:120 | The rows for one day carry that day and are rate rows of it, or rows without rates. |
| RiskFree.AlignDates | src/data_processing/process_risk_free.py:120 | Merged dates come only from the trading days. |
| RiskFree.AlignDayAt | src/data_processing/process_risk_free.py:120 | Each trading day's first row follows the rows of the earlier days. |
| RiskFree.AlignFrom | src/data_processing/process_risk_free.py:120 | Every merged row is a rate row or a row without rates. |
| RiskFree.AlignSorted | src/data_processing/process_risk_free.py:120 | The merge follows the ascending order of the trading days. |
| RiskFree.Aligned | src/data_processing/process_risk_free.py:123-124 | The forward fills keep each merged row's date. |
| RiskFree.AlignRates | src/data_processing/process_risk_free.py:119-124 | The merge and the in-place fills compute `Aligned`. |
| RiskFree.AlignedDailyFrom | src/data_processing/process_risk_free.py:123 | Every filled daily rate is the daily rate of a row read. |
| RiskFree.AlignedDays | src/data_processing/process_risk_free.py:117-124 | The aligned table has a row for every trading day. |
| RiskFree.AlignedComplete | src/data_processing/process_risk_free.py:123-124 | When the first trading day has a rate row, no daily rate is missing after the fill. |
| RiskFree.DropNullRates | src/data_processing/process_risk_free.py:139-143 | Keeps exactly the rows with a daily rate. |
| RiskFree.DropMissingRates | src/data_processing/process_risk_free.py:139-143 | The method computes `DropNullRates`. |
| RiskFree.AlignedOutput | src/data_processing/process_risk_free.py:117-143 | After alignment, fill and dropna, the dates are ascending trading days and every daily rate is present and comes from a row read. |
| RiskFree.AlignedKeepsDays | src/data_processing/process_risk_free.py:139-143 | When every row read has a rate and the first day is covered, the dropna removes nothing. |
| RiskFree.RiskFreeRates | src/data_processing/process_risk_free.py:30-162 | None exactly when the file is absent or has fewer than two columns. Otherwise every output row has a daily rate. |
| RiskFree.WithTradingDays | src/data_processing/process_risk_free.py:117-143 | With trading days, the output dates are trading days in ascending order, with every daily rate present and read. |
| RiskFree.WithoutTradingDays | src/data_processing/process_risk_free.py:109-114 | Without trading days, and with some rate present and none below -100%, every row read is kept with its own date, in file order. |
| RiskFree.EveryDailyRate | src/data_processing/process_risk_free.py:85-92 | Under the same conditions, every row read has a daily rate. |
| RiskFree.ProcessRiskFreeRate | src/data_processing/process_risk_free.py:30-162 | The step-by-step method computes `RiskFreeRates`. |
| MergeData.Without | src/data_processing/merge_data.py:77 | A row without the right key cell. |
| MergeData.MergedColumns | src/data_processing/merge_data.py:77 | The left columns, then the right ones except the key. |
| MergeData.Merge | src/data_processing/merge_data.py:77 | A `KeyError` exactly when either table lacks the key. With both keys present, `DuplicateColumns` (pandas' `MergeError`) exactly when suffixing makes two names of one side equal, and `RepeatedColumns` exactly when, without that, a left name equals a right name. Otherwise a well-formed table with the merged columns. |
| MergeData.SuffixCollisionRepeats | src/data_processing/merge_data.py:77 | A name collision on one side after suffixing repeats a name of the merged columns. |
| MergeData.MergedWidth | src/data_processing/merge_data.py:77 | Every merged row has one cell per merged column. |
| MergeData.InnerMergeRow | src/data_processing/merge_data.py:77 | Each inner-merge row is a left row followed by a right row with the same key. |
| MergeData.InnerRowPaired | src/data_processing/merge_data.py:77 | The left and right rows an inner-merge row was built from. |
| MergeData.InnerMergeKeeps | src/data_processing/merge_data.py:77-86 | A left row whose ticker the right side has is kept. The merge is empty exactly when no ticker matches. |
| MergeData.LeftMergeKeeps | src/data_processing/merge_data.py:100-102 | A left merge loses no row. With unique right keys, it keeps the rows one for one, in order, each with its match or missing cells. |
| MergeData.LeftRowKept | src/data_processing/merge_data.py:100-102 | The merged row each left row starts. |
| MergeData.ParseDates | src/data_processing/merge_data.py:49 | A `KeyError` exactly without a Date column. Otherwise the same shape, with the dates parsed. |
| MergeData.LoadReturns | src/data_processing/merge_data.py:47-57 | A missing returns file ends the run. |
| MergeData.RenameTicker | src/data_processing/merge_data.py:64-72 | The first ESG ticker alias is renamed to `Ticker`, and the rows are untouched. |
| MergeData.JoinEsg | src/data_processing/merge_data.py:61-90 | A missing ESG file ends the run. A successful join is non-empty. |
| MergeData.EsgTickers | src/data_processing/merge_data.py:77 | Every row of the ESG join carries a ticker of both tables. |
| MergeData.EsgKeeps | src/data_processing/merge_data.py:77-86 | Returns rows whose ticker the ESG table has are kept. The run ends exactly when no ticker matches. |
| MergeData.Constant | src/data_processing/merge_data.py:116 | A column of `n` copies of one value. |
| MergeData.FillByDate | src/data_processing/merge_data.py:105-111 | A `KeyError` exactly for a missing column, or a missing value with no Date. Otherwise the rows are kept. |
| MergeData.FillByDateProperties | src/data_processing/merge_data.py:105-111 | Every row is kept (date-sorted when a value was missing). Once a value is present none is missing, and filled values come from the column. |
| MergeData.FillByDateSorted | src/data_processing/merge_data.py:110 | The fill keeps the rows sorted by date. |
| MergeData.SortedColumn | src/data_processing/merge_data.py:110 | The date sort moves cells without adding or losing a present one. |
| MergeData.JoinDaily | src/data_processing/merge_data.py:94-142 | A missing file gives the constant default column. Otherwise a left merge and the fill. |
| MergeData.DailyAbsent | src/data_processing/merge_data.py:113-116 | Without the file, the column is the default on every row and nothing else changes. |
| MergeData.UnknownCompany | src/data_processing/merge_data.py:168-173 | The placeholder columns are added and the row count is kept. |
| MergeData.UnknownCompanyCells | src/data_processing/merge_data.py:171-173 | Each row has no market cap, and its sector and industry are "Unknown". |
| MergeData.JoinCompany | src/data_processing/merge_data.py:146-173 | The result has the Market_Cap and Sector columns. |
| MergeData.WithExcess | src/data_processing/merge_data.py:177 | A `KeyError` exactly without Return or Daily_RF_Rate. Otherwise the rows are kept. |
| MergeData.ExcessProperties | src/data_processing/merge_data.py:177 | Every row's Excess_Return is its Return minus its Daily_RF_Rate, and every other column is kept. |
| MergeData.ExcessOfZeroRate | src/data_processing/merge_data.py:116-177 | A zero risk-free rate leaves the return as the excess return. |
| MergeData.Cleanup | src/data_processing/merge_data.py:182-197 | A `KeyError` exactly without Ticker or Date. Otherwise the columns are kept. |
| MergeData.CleanupSubset | src/data_processing/merge_data.py:182-197 | Cleanup output rows are deduplicated input rows. |
| MergeData.CleanupFinite | src/data_processing/merge_data.py:188-194 | No kept row has an infinite numeric cell. |
| MergeData.CleanupKeeps | src/data_processing/merge_data.py:182-197 | The first row of each (Ticker, Date) pair is kept when it is finite; `drop_duplicates` (line 186) runs before the infinity filter (line 190). |
| MergeData.CleanupProperties | src/data_processing/merge_data.py:182-197 | No (Ticker, Date) pair twice, no infinite row, sorted by (Ticker, Date), and each row an input row. Each pair's first row is kept when it is finite. |
| MergeData.CleanupKeepsExcess | src/data_processing/merge_data.py:177-197 | The cleanup keeps the excess return consistent. |
| MergeData.Assemble | src/data_processing/merge_data.py:45-173 | A missing returns file, then a missing ESG file, ends the run. |
| MergeData.MergeAll | src/data_processing/merge_data.py:11-236 | The same error cases, and a well-formed table otherwise. |
| MergeData.MergeAllProperties | src/data_processing/merge_data.py:177-197 | The saved table has distinct (Ticker, Date) pairs sorted by (Ticker, Date), and Excess_Return = Return − Daily_RF_Rate on every row. |
| MergeData.MergeAllData | src/data_processing/merge_data.py:45-236 | The step-by-step rebuild of `master_df` computes `MergeAll`. |
| PerformanceMetrics.Sharpe | src/feature_engineering/performance_metrics.py:69-75 | Exactly 0.0 when the deviation is not positive. |
| PerformanceMetrics.SharpeSign | src/feature_engineering/performance_metrics.py:70-73 | With a positive deviation, the Sharpe ratio has the sign of the mean excess return. |
| PerformanceMetrics.SharpeOfZeroMean | src/feature_engineering/performance_metrics.py:69-75 | A zero mean gives a zero Sharpe ratio. |
| PerformanceMetrics.PerformanceTable | src/feature_engineering/performance_metrics.py:44-94 | An error exactly without a Ticker column or with no qualifying ticker. |
| PerformanceMetrics.CalculatePerformanceMetrics | src/feature_engineering/performance_metrics.py:44-91 | The loop over unique tickers computes `PerformanceTable`. |
| PerformanceMetrics.PerformanceTickers | src/feature_engineering/performance_metrics.py:46-57 | Row `i` belongs to the `i`-th qualifying ticker, and Trading_Days is its row count. |
| PerformanceMetrics.PerformanceRowsSelected | src/feature_engineering/performance_metrics.py:49-57 | A row exists for a ticker exactly when it is present with at least 200 rows (200 included). Trading_Days counts its rows. |
| PerformanceMetrics.RowsOfQualifying | src/feature_engineering/performance_metrics.py:46-91 | One record per qualifying ticker covers exactly the qualifying tickers. |
| PerformanceMetrics.PerformanceRowsOrder | src/feature_engineering/performance_metrics.py:46 | Rows name distinct tickers in first-appearance order. |
| PerformanceMetrics.CumulativeFinite | src/feature_engineering/performance_metrics.py:77-79 | The cumulative return is Π(1 + r) − 1. |
| PerformanceMetrics.CumulativeOfZeros | src/feature_engineering/performance_metrics.py:77-79 | All-zero returns compound to 0. |
| PerformanceMetrics.PerformanceOfFinite | src/feature_engineering/performance_metrics.py:57-89 | Trading_Days is the row count, and the means are real means. Annualized_Excess_Return = 252 × mean excess return. |
| PerformanceMetrics.PerformanceSharpe | src/feature_engineering/performance_metrics.py:69-75 | The Sharpe ratio is zero unless the deviation is positive, and then has the sign of the mean. |
| RiskMetrics.RiskTable | src/feature_engineering/risk_metrics.py:49-118 | An error exactly without a Ticker column or with no qualifying ticker. |
| RiskMetrics.CalculateRiskMetrics | src/feature_engineering/risk_metrics.py:41-115 | The loop over unique tickers computes `RiskTable`. |
| RiskMetrics.RiskTickers | src/feature_engineering/risk_metrics.py:51-115 | Row `i` holds the metrics of the `i`-th qualifying ticker. |
| RiskMetrics.RiskRows | src/feature_engineering/risk_metrics.py:49-58 | A row exists exactly for tickers with at least 200 rows, distinct and in first-appearance order. |
| RiskMetrics.BetaGuards | src/feature_engineering/risk_metrics.py:41-91 | Beta is estimated only with market returns, at least 100 paired rows and a positive market variance. Otherwise it is NaN. |
| RiskMetrics.PairedRowsComplete | src/feature_engineering/risk_metrics.py:67 | The paired rows are exactly the rows with both returns. |
| RiskMetrics.BetaOfMarket | src/feature_engineering/risk_metrics.py:72-77 | A ticker that is the market has beta 1 whenever beta is estimated. |
| RiskMetrics.MarketSample | src/feature_engineering/risk_metrics.py:67 | The market's paired rows have equal finite columns. |
| RiskMetrics.BetaOfConstantMarket | src/feature_engineering/risk_metrics.py:76-79 | A constant market gives a NaN beta. |
| RiskMetrics.DownsideWithoutLosses | src/feature_engineering/risk_metrics.py:95-101 | Without a strictly negative return, the downside deviation is exactly 0.0. |
| RiskMetrics.NegativeReturnsExact | src/feature_engineering/risk_metrics.py:95 | The downside sample is exactly the strictly negative returns. |
| RiskMetrics.CumulativeStep | src/feature_engineering/risk_metrics.py:110 | Each cumulative value is the previous one times the day's factor. |
| RiskMetrics.CumulativeFirst | src/feature_engineering/risk_metrics.py:110 | The first cumulative value is the first factor. |
| RiskMetrics.CumulativePositive | src/feature_engineering/risk_metrics.py:110 | With returns above -1, every cumulative value is positive. |
| RiskMetrics.RunningMaxStep | src/feature_engineering/risk_metrics.py:111 | The running max is at least the current cumulative value and never falls. |
| RiskMetrics.RunningMaxBounded | src/feature_engineering/risk_metrics.py:110-111 | With positive factors, the running max is finite, positive, at least the cumulative value and non-decreasing. |
| RiskMetrics.DrawdownBounded | src/feature_engineering/risk_metrics.py:112 | With positive factors, every drawdown is in (−1, 0]. |
| RiskMetrics.LowestDrawdownBounded | src/feature_engineering/risk_metrics.py:113 | The lowest drawdown is in (−1, 0]. |
| RiskMetrics.MaxDrawdownBounded | src/feature_engineering/risk_metrics.py:109-113 | With every return finite and above -1, Max_Drawdown is in (−1, 0]. |
| RiskMetrics.CumulativeRises | src/feature_engineering/risk_metrics.py:110 | With non-negative returns, the cumulative value never falls. |
| RiskMetrics.RunningMaxOfRising | src/feature_engineering/risk_metrics.py:111 | Then the running max is the cumulative value. |
| RiskMetrics.DrawdownOfRising | src/feature_engineering/risk_metrics.py:112 | Then every drawdown is 0. |
| RiskMetrics.LowestDrawdownOfRising | src/feature_engineering/risk_metrics.py:113 | Then the lowest drawdown is 0. |
| RiskMetrics.MaxDrawdownOfGains | src/feature_engineering/risk_metrics.py:109-113 | With all returns ≥ 0, Max_Drawdown is exactly 0. |
| Controls.CapBillionsScales | src/feature_engineering/controls.py:60 | Market_Cap_Billions × 1e9 is the market cap. Missing stays missing and infinities stay. |
| Controls.NoInfinity | src/feature_engineering/controls.py:64-66 | Infinities become missing, and other values are kept. |
| Controls.LogCapCases | src/feature_engineering/controls.py:61-66 | Log_Market_Cap is never infinite. It is `ln` of a positive cap and missing otherwise. |
| Controls.LogMarketCap | src/feature_engineering/controls.py:60-66 | Log_Market_Cap is `ln(cap/1e9)` exactly for a positive cap. |
| Controls.Categories | src/feature_engineering/controls.py:98-100 | The categories are the distinct sector strings, in strictly increasing order. |
| Controls.DistinctTexts | src/feature_engineering/controls.py:98 | The distinct sector strings, each once. |
| Controls.DummyNames | src/feature_engineering/controls.py:98-100 | With k categories there are k−1 dummy names `Sector_<name>`, skipping the first. |
| Controls.DummyNamesDistinct | src/feature_engineering/controls.py:98-100 | The dummy names are distinct. |
| Controls.DummyRow | src/feature_engineering/controls.py:98-100 | A row's dummy `j` is 1 exactly when its sector is category `j+1`. |
| Controls.Indicators | src/feature_engineering/controls.py:98-100 | One 0/1 indicator per category. |
| Controls.IndicatorsCount | src/feature_engineering/controls.py:98-100 | Over distinct categories, at most one indicator is set. |
| Controls.DummyRowOnes | src/feature_engineering/controls.py:98-107 | Dummies are 0/1 and sum to 0 or 1. The baseline sector is all zeros. |
| Controls.Concat | src/feature_engineering/controls.py:107 | `concat(axis=1)` puts the columns side by side, row by row. |
| Controls.ControlColumnsDistinct | src/feature_engineering/controls.py:43-107 | The result's column names are distinct. |
| Controls.ControlRowWidth | src/feature_engineering/controls.py:43-107 | Each row has one cell per column. |
| Controls.ControlVariables | src/feature_engineering/controls.py:35-124 | A `KeyError` exactly without a Ticker column. Otherwise one row per deduplicated row. |
| Controls.ControlRowsFromSurvivors | src/feature_engineering/controls.py:35-43 | Row `i` is built from the `i`-th surviving row and starts with its ticker. |
| Controls.ControlTickers | src/feature_engineering/controls.py:35-43 | No ticker repeats, and every input ticker is kept. |
| Controls.ControlRowOrigins | src/feature_engineering/controls.py:36-38 | Each row comes from the first input row of its ticker. |
| Controls.ControlMarketCap | src/feature_engineering/controls.py:60-66 | The market-cap columns hold the cap in billions and its non-infinite log. The log is present exactly for a positive cap. |
| Controls.ControlWithoutMarketCap | src/feature_engineering/controls.py:81-84 | Without the column, both market-cap columns are missing on every row. |
| Controls.ControlSectorDummies | src/feature_engineering/controls.py:89-107 | The columns are Ticker, the two cap columns, then the dummy names. Each row's dummies are its sector's indicators, with at most one set. |
| Controls.ControlWithoutSector | src/feature_engineering/controls.py:109-110 | Without a sector column, no dummy column is added. |
| Controls.TickerTable | src/feature_engineering/controls.py:43 | `df[[ticker_col]]`: one ticker cell per row. |
| Controls.AppendColumn | src/feature_engineering/controls.py:60-61 | A new column is appended to every row. |
| Controls.MarketCapSteps | src/feature_engineering/controls.py:60-66 | The two cap columns are appended in order. |
| Controls.CreateControlVariables | src/feature_engineering/controls.py:35-124 | The step-by-step method computes `ControlVariables`. |
| AggregateFeatures.EsgFeatureColumns | src/feature_engineering/aggregate_features.py:47-62 | Exactly the columns whose lower-cased name has an ESG keyword. |
| AggregateFeatures.EsgFeatureColumnsOrder | src/feature_engineering/aggregate_features.py:47-62 | They are in master column order. |
| AggregateFeatures.BaseColumns | src/feature_engineering/aggregate_features.py:65-69 | Ticker, then Company_Name if present, else Company if present. |
| AggregateFeatures.SelectedNamesDistinct | src/feature_engineering/aggregate_features.py:72 | The selected names are distinct. |
| AggregateFeatures.SelectFailsWithoutTicker | src/feature_engineering/aggregate_features.py:72 | The selection fails without a Ticker column. |
| AggregateFeatures.EsgTable | src/feature_engineering/aggregate_features.py:71-73 | A `KeyError` exactly without Ticker. Otherwise the base and ESG columns. |
| AggregateFeatures.SelectedRows | src/feature_engineering/aggregate_features.py:72 | Row `i` is master row `i` restricted to the selected columns. |
| AggregateFeatures.SelectedKeys | src/feature_engineering/aggregate_features.py:72 | The selection has exactly the master tickers, in its first column. |
| AggregateFeatures.EsgTableKeys | src/feature_engineering/aggregate_features.py:71-73 | One row per master ticker. |
| AggregateFeatures.EsgTableOrigins | src/feature_engineering/aggregate_features.py:71-73 | Each row is the first master row of its ticker, projected. |
| AggregateFeatures.EsgTableOrigin | src/feature_engineering/aggregate_features.py:71-73 | The master row a given ESG-table row comes from. |
| AggregateFeatures.EsgTableTickers | src/feature_engineering/aggregate_features.py:71-73 | The ticker comes first, and every ticker is a master ticker. |
| AggregateFeatures.JoinIfGiven | src/feature_engineering/aggregate_features.py:81-109 | A table passed as None is skipped. |
| AggregateFeatures.JoinTickers | src/feature_engineering/aggregate_features.py:86 | Each inner-join ticker is a ticker of both tables. |
| AggregateFeatures.JoinIfGivenTickers | src/feature_engineering/aggregate_features.py:81-109 | A join narrows the tickers to those of the given table and keeps earlier guarantees. |
| AggregateFeatures.JoinedMetrics | src/feature_engineering/aggregate_features.py:79-99 | The joins with the performance and risk tables. |
| AggregateFeatures.JoinedMetricsTickers | src/feature_engineering/aggregate_features.py:79-99 | Their tickers are in every table joined so far. |
| AggregateFeatures.Joined | src/feature_engineering/aggregate_features.py:79-109 | All three optional joins. |
| AggregateFeatures.JoinedTickers | src/feature_engineering/aggregate_features.py:79-109 | Before the final check, the tickers are in the master and in every given table. |
| AggregateFeatures.DropRepeatedTickers | src/feature_engineering/aggregate_features.py:114-118 | No ticker repeats afterwards, and the columns are kept. |
| AggregateFeatures.Aggregate | src/feature_engineering/aggregate_features.py:40-118 | The whole step gives a well-formed table. |
| AggregateFeatures.AggregateTickers | src/feature_engineering/aggregate_features.py:81-118 | Every output ticker is a master ticker and a ticker of every given table. `AggregateFeatures.AggregateKeepsTickers` proves the converse. |
| AggregateFeatures.AggregateKeepsTickers | src/feature_engineering/aggregate_features.py:81-118 | Every master ticker that each given table also has is an output ticker. |
| AggregateFeatures.JoinIfGivenKeeps | src/feature_engineering/aggregate_features.py:92-110 | An inner join with a given table keeps each ticker that table also has. |
| AggregateFeatures.AggregateDistinctTickers | src/feature_engineering/aggregate_features.py:114-118 | The output has Ticker first and no ticker twice. |
| AggregateFeatures.AggregateWithoutMetrics | src/feature_engineering/aggregate_features.py:81-110 | With no table given, the output is the ESG table. |
| AggregateFeatures.AggregateAllFeatures | src/feature_engineering/aggregate_features.py:40-118 | The step-by-step method computes `Aggregate`. |
| RegressionModels.SectorColumns | src/analysis/regression_models.py:31 | Exactly the columns starting with `Sector_`. |
| RegressionModels.SectorColumnsOrder | src/analysis/regression_models.py:102 | Sector columns keep the table's column order. |
| RegressionModels.FixedNotSector | src/analysis/regression_models.py:30-35 | No fixed column name starts with `Sector_`. |
| RegressionModels.EsgModelColumns | src/analysis/regression_models.py:35-38 | The response, then [totalEsg, Log_Market_Cap, sectors…]. |
| RegressionModels.PillarModelColumns | src/analysis/regression_models.py:192-193 | The response, then [E, S, G, Log_Market_Cap, sectors…]. |
| RegressionModels.EsgModelColumnsDistinct | src/analysis/regression_models.py:35 | The model columns are distinct. |
| RegressionModels.PillarModelColumnsDistinct | src/analysis/regression_models.py:192 | The pillar model columns are distinct. |
| RegressionModels.Sample | src/analysis/regression_models.py:38 | A `KeyError` exactly when a column is missing, naming it. The sample never exceeds the table. |
| RegressionModels.SampleRows | src/analysis/regression_models.py:38 | A row enters the sample exactly when the response and every regressor are present. |
| RegressionModels.SampleSize | src/analysis/regression_models.py:38 | The sample size counts the complete rows. |
| RegressionModels.Response | src/analysis/regression_models.py:51 | `y` has one value per sample row. |
| RegressionModels.Regressors | src/analysis/regression_models.py:49 | `X` is the sample without its first column. |
| RegressionModels.EsgModelColumnsPresent | src/analysis/regression_models.py:30-38 | A model column is missing exactly when the response, totalEsg or Log_Market_Cap is. |
| RegressionModels.RunEsgModel | src/analysis/regression_models.py:29-79 | Fails with `MissingColumn` exactly when a fixed column is missing. Fails with `NonNumericColumn` exactly when a model column holds a string or a date, which `sm.OLS` refuses. Fails with `EmptySample` exactly when no row has a value in every model column, so the fit raises (lines 50-54). Fails with `InfiniteRegressor` exactly when a complete row has an infinite regressor. Otherwise 0 < n_obs ≤ len(df), and esg_significant holds exactly when p < 0.05. |
| RegressionModels.EsgModelSampleSize | src/analysis/regression_models.py:38-63 | n_obs counts the complete rows. |
| RegressionModels.RunRq1 | src/analysis/regression_models.py:11-79 | RQ1 fails exactly without Sharpe_Ratio, totalEsg or Log_Market_Cap, with a string or date in a model column, with an empty complete-case sample, or with an infinite regressor in a complete row. |
| RegressionModels.RunRq2 | src/analysis/regression_models.py:82-151 | RQ2 fails exactly without Volatility, totalEsg or Log_Market_Cap, with a string or date in a model column, with an empty complete-case sample, or with an infinite regressor in a complete row. |
| RegressionModels.DominantFinite | src/analysis/regression_models.py:217-224 | The dominant pillar has the largest \|coef\|, with ties going to the earlier of E, S, G. |
| RegressionModels.DominantNaN | src/analysis/regression_models.py:217-224 | A NaN E coefficient keeps E. |
| RegressionModels.PillarSummary | src/analysis/regression_models.py:208-224 | The summary reports the fit's E, S and G coefficients. The dominant pillar depends on them alone, not on the p-values. |
| RegressionModels.PillarModelColumnsPresent | src/analysis/regression_models.py:192-193 | A model column is missing exactly when the response or a fixed regressor is. |
| RegressionModels.RunPillarModel | src/analysis/regression_models.py:192-224 | Fails with `MissingColumn` exactly when the response or a pillar column is missing, with `NonNumericColumn` exactly when a model column holds a string or a date, with `EmptySample` exactly when no row has a value in every model column, and with `InfiniteRegressor` exactly when a complete row has an infinite regressor. |
| RegressionModels.RunRq3 | src/analysis/regression_models.py:154-284 | RQ3 fails exactly when, for either model, a column is missing, a model column holds a string or a date, the complete-case sample is empty, or a complete row has an infinite regressor. |
| RegressionModels.InfiniteInSampleIff | src/analysis/regression_models.py:38-54 | The complete-case sample holds an infinite regressor exactly when some complete row has one; such a sample is not empty. |
| RegressionModels.SampleIsFiltered | src/analysis/regression_models.py:38-43 | The complete-case sample is the projected rows with no missing value, in order. |

## Left out

- **I/O.** Reading and writing CSV files, creating directories and every
  console report are left out. Their results are parameters: an `Option`
  table, with None for a missing file.
- **Parameters.** The numerical functions are parameters with no definition:
  - `std`, `quantile` (VaR) and `median`;
  - the square root of 252;
  - `np.log` on a positive real (`ln`);
  - the 252nd root (`root`);
  - the `(1 + c) ** (252 / n)` power (`pow`);
  - the date parser (`toDate`).

  Their outputs satisfy only what the contracts state. For example,
  `IsRoot` says the root raised to the 252nd power gives back its input.
- **OLS fit.** The fit and its statistics (`sm.OLS(...).fit()`,
  `add_constant`, R², F, p-values) are an abstract `Fit` parameter. Only the
  sample, the regressor lists, the significance flag and the dominant pillar
  are modelled.
- **Floating-point rounding.** Rounding and signed zero are left out.
  Numbers are exact reals, plus NaN and the two infinities.
- **Sort algorithm.** Single-key `sort_values` uses an unstable quicksort in
  pandas. It is modelled by a stable sort, so the order among equal keys is
  not captured.
- **Strings in numeric columns.** In the metric and control stages a string
  in a numeric column is read as NaN (`Cells.ToFloat`). Pandas raises a
  `TypeError` instead at `performance_metrics.py:60`, `risk_metrics.py:61`
  and `controls.py:60`, and a string `Return` in the excess-return
  subtraction at `merge_data.py:177` (`ExcessOf` gives a missing value). The
  same holds for a string ESG score in `clean_esg.py:122-131`, where the
  range report and `np.isinf` raise.
- **Case mapping.** `Text.Lower` and `Text.Upper` map ASCII letters only.
  Python's `str.lower` and `str.upper` follow Unicode; for example "ß"
  upper-cases to "SS". This affects ticker normalisation and the keyword
  tests on column names only for names and tickers outside ASCII.
- **Non-string sectors.** Sector values that are not strings form no dummy
  category (see `Controls.Categories`). Pandas would make a category of a
  numeric sector.
- **Print-only code.** The following only feed printed text and are left
  out:
  - the range warnings in `clean_esg.py:122-129`;
  - the extreme-return message in `calculate_returns.py:106-113` (its count
    is modelled by `ExtremeCount`);
  - the column-type counts in `aggregate_features.py:146-170`;
  - the missing-value report in `aggregate_features.py:121-130`.
- MergeData.Merge: when a left column name equals a right one and suffixing
  collides on neither side, pandas returns a table with a repeated column
  name. A frame's column names are distinct, so the model returns
  `RepeatedColumns` there instead of a table. When the left table is empty,
  pandas keeps the right key column rather than the left one; the model
  always keeps the left key, so only the key's position may differ.
- RegressionModels.RunEsgModel: n_obs is taken to be the complete-case sample
  size. The fit's own count is not modelled.
- **Controls column names.** `create_control_variables` is modelled with its
  default column names (`Ticker`, `Market_Cap`, `Sector`). The performance
  and risk functions also use their default names.
- RiskMetrics.MaxDrawdownBounded: the drawdown bounds are proved only when
  every return is finite and above -1. With a NaN or a -100% return the
  result is not stated.
- PerformanceMetrics.PerformanceOfFinite: the annualised return
  `(1 + cumulative) ** (252 / n) - 1` is stated only through the `pow`
  parameter.
- **Log returns.** Log returns are modelled through the `ln` parameter. Only
  their dependence on the price ratio is stated.
- **Data acquisition, plots and diagnostics.** The data acquisition scripts,
  the plots, the diagnostics and the orchestration scripts are not part of
  this model.

## Findings

| source | as written | input that shows it | evidently intended | confidence | as-written member | corrected member |
|---|---|---|---|---|---|---|
| src/data_processing/calculate_returns.py:174 | `str.contains("^GSPC")` treats `^GSPC` as a regular expression, which matches only cells starting with "GSPC". The ticker row (cell "^GSPC") is not recognised, so the row is not skipped, the Close column keeps strings, and the return step fails. | A table with columns `["Date", "Close", "High"]` whose first row is `["Ticker", "^GSPC", "^GSPC"]`. The file yfinance writes names its index column "Price"; that file fails at the save step (line 209) under either test. | A literal test (`regex=False`): the ticker row is skipped and every value column is made numeric | not executed | ReturnProperties.TickerRowMissedAsWritten | ReturnProperties.TickerRowSkipped |
