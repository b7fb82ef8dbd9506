/**
 * Price cleaning (`clean_price_data`): resolve the date column, keep the
 * analysis window, pick the price columns, then either (long format) drop the
 * tickers with more than 10% of the window missing, forward-fill each ticker's
 * prices at most 5 rows and drop rows still missing a price, or (wide format,
 * one column per ticker) forward-fill, drop sparse ticker columns, drop dates
 * with a gap and melt into (date, Ticker, Close) rows. Dates are day numbers;
 * parsing them, file I/O and the console report are not modelled.
 */
module CleanPrices {
  import opened Wrappers
  import opened Cells
  import opened Text
  import opened Seqs
  import opened Columns
  import opened Frames
  import opened Sorting
  import opened Tickers

  const DateCandidates: seq<string> := ["Date", "date", "DATE", "Timestamp", "timestamp"]
  const LongTickerCandidates: seq<string> := ["Ticker", "Symbol"]
  /** `ffill(limit=5)` */
  const FillLimit: nat := 5

  datatype PriceError =
    | NoDateColumn      // the source returns None
    | ZeroLengthWindow  // `expected_days == 0`: Python raises ZeroDivisionError
    | NoTickerStats     // a long-format window without rows: `stats_df['Missing_Pct']` raises KeyError
    | NonStringBadTicker  // a missing or numeric ticker among the first ten dropped: `', '.join` raises TypeError
    | NonNumericPrices  // a kept wide-format column holding text: `np.isinf` raises TypeError
    | CloseColumnTaken  // a kept wide-format column named Close: `melt(value_name='Close')` raises ValueError

  /** The lower-cased name mentions open, high, low, close, adj or price. */
  predicate MentionsPrice(name: string)
  {
    var l := Lower(name);
    Contains(l, "open") || Contains(l, "high") || Contains(l, "low")
    || Contains(l, "close") || Contains(l, "adj") || Contains(l, "price")
  }

  /** The price-column test: a price name that is not the date column. */
  function PriceTest(dateName: string): string -> bool
  {
    (c: string) => MentionsPrice(c) && c != dateName
  }

  function DateColumn(columns: seq<string>): int
  {
    match FirstPresent(DateCandidates, columns)
    case None => -1
    case Some(name) => IndexOf(columns, name)
  }

  function PriceColumns(columns: seq<string>): seq<int>
  {
    var d := DateColumn(columns);
    IndicesOf(columns, Filter(columns, PriceTest(if 0 <= d < |columns| then columns[d] else "")))
  }

  /** Long format: the table has a Ticker or a Symbol column. */
  predicate IsLong(columns: seq<string>)
  {
    "Ticker" in columns || "Symbol" in columns
  }

  /** The ticker column in long format: Ticker when present, otherwise Symbol. */
  function LongTickerColumn(columns: seq<string>): int
  {
    IndexOf(columns, if "Ticker" in columns then "Ticker" else "Symbol")
  }

  // ---------------------------------------------------------------------------
  // Window and ordering

  /** `start_date <= date <= end_date`; a missing date compares false. */
  predicate InWindow(row: seq<Cell>, d: int, start: int, end: int)
  {
    At(row, d).Day? && start <= At(row, d).d <= end
  }

  function WindowRows(rows: seq<seq<Cell>>, d: int, start: int, end: int): seq<seq<Cell>>
  {
    Filter(rows, (row: seq<Cell>) => InWindow(row, d, start, end))
  }

  // ---------------------------------------------------------------------------
  // Per-ticker missing-data statistics (long format)

  datatype TickerStat = TickerStat(ticker: Cell, days: nat, missingPct: real)

  /** `len(df[df[ticker_col] == ticker])`: NaN equals nothing, so a missing ticker has no rows. */
  function Days(rows: seq<seq<Cell>>, t: int, x: Cell): nat
  {
    if x.Null? then 0 else CountWhere(rows, (row: seq<Cell>) => At(row, t) == x)
  }

  /** `(expected_days - actual_days) / expected_days * 100` */
  function MissingPct(actual: nat, expected: int): real
    requires expected != 0
  {
    ((expected - actual) as real / expected as real) * 100.0
  }

  function StatOf(rows: seq<seq<Cell>>, t: int, expected: int, x: Cell): TickerStat
  {
    var days := Days(rows, t, x);
    TickerStat(x, days, if expected == 0 then 0.0 else MissingPct(days, expected))
  }

  /** One statistics record per unique ticker, in order of first appearance. */
  function Stats(rows: seq<seq<Cell>>, t: int, expected: int): seq<TickerStat>
  {
    Map(UniqueTickers(rows, t), (x: Cell) => StatOf(rows, t, expected, x))
  }

  /** The statistics loop; the division raises when the window has no length. */
  method TickerStats(rows: seq<seq<Cell>>, t: int, expected: int) returns (r: Result<seq<TickerStat>, PriceError>)
    ensures r.Err? <==> expected == 0 && |UniqueTickers(rows, t)| > 0
    ensures r.Err? ==> r.error == ZeroLengthWindow
    ensures r.Ok? ==> r.value == Stats(rows, t, expected)
  {
    var tickers := UniqueTickers(rows, t);
    var stats: seq<TickerStat> := [];
    for i := 0 to |tickers|
      invariant |stats| == i
      invariant i > 0 ==> expected != 0
      invariant forall j :: 0 <= j < i ==> stats[j] == StatOf(rows, t, expected, tickers[j])
    {
      var x := tickers[i];
      var days := if x.Null? then 0 else CountWhere(rows, (row: seq<Cell>) => At(row, t) == x);
      if expected == 0 {
        return Err(ZeroLengthWindow);
      }
      stats := stats + [TickerStat(x, days, MissingPct(days, expected))];
    }
    return Ok(stats);
  }

  /** `stats_df[stats_df['Missing_Pct'] > 10]['Ticker']` */
  function BadTickers(stats: seq<TickerStat>): seq<Cell>
  {
    Map(Filter(stats, (s: TickerStat) => s.missingPct > 10.0), (s: TickerStat) => s.ticker)
  }

  /** `', '.join(bad_tickers[:10])` succeeds: the first ten dropped tickers are strings. */
  predicate Printable(bad: seq<Cell>)
  {
    forall i :: 0 <= i < |bad| && i < 10 ==> bad[i].Text?
  }

  /** `df[~df[ticker_col].isin(bad_tickers)]`: `isin` does match NaN. */
  function DropTickers(rows: seq<seq<Cell>>, t: int, bad: seq<Cell>): seq<seq<Cell>>
  {
    Filter(rows, (row: seq<Cell>) => At(row, t) !in bad)
  }

  // ---------------------------------------------------------------------------
  // Forward fill

  /**
   * The last cell of `vals` after `ffill(limit)`: a present cell stays; a
   * missing one takes the nearest present value before it when at most `limit`
   * missing cells (itself included) separate them; `gap` counts the missing
   * cells already passed.
   */
  function Back(vals: seq<Cell>, gap: nat, limit: nat): Cell
    decreases |vals|
  {
    if |vals| == 0 then Null
    else if !vals[|vals| - 1].Null? then (if gap <= limit then vals[|vals| - 1] else Null)
    else Back(vals[..|vals| - 1], gap + 1, limit)
  }

  function FilledLast(vals: seq<Cell>, limit: nat): Cell
  {
    Back(vals, 0, limit)
  }

  /** `groupby(ticker)[k].transform(lambda x: x.ffill(limit=5))` at row `i`. */
  function GroupFillCell(rows: seq<seq<Cell>>, t: int, k: int, i: int): Cell
    requires 0 <= i < |rows|
  {
    if At(rows[i], t).Null? then Null else FilledLast(GroupPrefix(rows, t, k, i), FillLimit)
  }

  function GroupFill(rows: seq<seq<Cell>>, t: int, k: int): (r: seq<seq<Cell>>)
    ensures |r| == |rows|
  {
    seq(|rows|, i requires 0 <= i < |rows| => SetAt(rows[i], k, GroupFillCell(rows, t, k, i)))
  }

  /** The fill loop over the price columns `ks`, in order. */
  function GroupFillAll(rows: seq<seq<Cell>>, t: int, ks: seq<int>): (r: seq<seq<Cell>>)
    ensures |r| == |rows|
    decreases |ks|
  {
    if |ks| == 0 then rows else GroupFill(GroupFillAll(rows, t, ks[..|ks| - 1]), t, ks[|ks| - 1])
  }

  /** `for col in price_columns: df[col] = df.groupby(ticker_col)[col].transform(ffill)` */
  method ForwardFillPrices(rows: seq<seq<Cell>>, t: int, ks: seq<int>) returns (filled: seq<seq<Cell>>)
    ensures filled == GroupFillAll(rows, t, ks)
  {
    filled := rows;
    for j := 0 to |ks|
      invariant filled == GroupFillAll(rows, t, ks[..j])
    {
      assert ks[..j + 1][..j] == ks[..j];
      filled := GroupFill(filled, t, ks[j]);
    }
    assert ks[..|ks|] == ks;
  }

  /** `dropna(subset=price_columns)` */
  function DropMissingPrices(rows: seq<seq<Cell>>, ks: seq<int>): seq<seq<Cell>>
  {
    Filter(rows, (row: seq<Cell>) => !AnyNullAt(row, ks))
  }

  /** `(end_date - start_date).days`: the calendar days of the window. */
  function ExpectedDays(start: int, end: int): int
  {
    end - start
  }

  /** The long-format branch, from the windowed, date-sorted rows. */
  function LongRows(w: seq<seq<Cell>>, t: int, d: int, ks: seq<int>, expected: int): Result<seq<seq<Cell>>, PriceError>
  {
    if |UniqueTickers(w, t)| == 0 then Err(NoTickerStats)
    else if expected == 0 then Err(ZeroLengthWindow)
    else
      var bad := BadTickers(Stats(w, t, expected));
      if !Printable(bad) then Err(NonStringBadTicker)
      else
        var kept := DropTickers(w, t, bad);
        var sorted := SortBy(kept, TickerDateKey(t, d));
        Ok(DropMissingPrices(GroupFillAll(sorted, t, ks), ks))
  }

  // ---------------------------------------------------------------------------
  // Wide format

  /** `df.ffill(limit=5)` on column `k` over all rows. */
  function PlainFill(rows: seq<seq<Cell>>, k: int): (r: seq<seq<Cell>>)
    ensures |r| == |rows|
  {
    seq(|rows|, i requires 0 <= i < |rows| => SetAt(rows[i], k, FilledLast(ColumnCells(rows[..i + 1], k), FillLimit)))
  }

  function PlainFillAll(rows: seq<seq<Cell>>, ks: seq<int>): (r: seq<seq<Cell>>)
    ensures |r| == |rows|
    decreases |ks|
  {
    if |ks| == 0 then rows else PlainFill(PlainFillAll(rows, ks[..|ks| - 1]), ks[|ks| - 1])
  }

  /** Every column but the date index: in wide format each one is a ticker. */
  function ValueColumns(n: nat, d: int): seq<int>
  {
    Filter(seq(n, i => i), (k: int) => k != d)
  }

  function NullCount(rows: seq<seq<Cell>>, k: int): nat
  {
    CountWhere(rows, (row: seq<Cell>) => At(row, k).Null?)
  }

  /** `isnull().sum() / len(df) > 0.1`; with no rows the ratio is NaN and the test false. */
  predicate TooSparse(rows: seq<seq<Cell>>, k: int)
  {
    |rows| > 0 && 10 * NullCount(rows, k) > |rows|
  }

  function InfToNull(c: Cell): Cell
  {
    if IsInfCell(c) then Null else c
  }

  function Name(columns: seq<string>, k: int): string
  {
    if 0 <= k < |columns| then columns[k] else ""
  }

  /** `melt(id_vars=[date], var_name='Ticker', value_name='Close')`: column by column, row by row. */
  function Melt(rows: seq<seq<Cell>>, d: int, columns: seq<string>, ks: seq<int>): seq<seq<Cell>>
    decreases |ks|
  {
    if |ks| == 0 then []
    else
      var k := ks[|ks| - 1];
      Melt(rows, d, columns, ks[..|ks| - 1]) + Map(rows, (row: seq<Cell>) => [At(row, d), Text(Name(columns, k)), At(row, k)])
  }

  /** The columns the wide branch keeps: value columns not too sparse after the fill. */
  function KeptColumns(filled: seq<seq<Cell>>, vs: seq<int>): seq<int>
  {
    Filter(vs, (k: int) => !TooSparse(filled, k))
  }

  /** Rows after the infinity replacement with no gap in a kept column. */
  function CompleteDates(filled: seq<seq<Cell>>, kept: seq<int>): seq<seq<Cell>>
  {
    DropMissingPrices(Map(filled, (row: seq<Cell>) => Map(row, InfToNull)), kept)
  }

  /**
   * `np.isinf(df.values)` accepts the kept columns: none holds a string in any
   * row of the file, since the reader gives such a column the object type.
   */
  predicate NumericColumns(rows: seq<seq<Cell>>, ks: seq<int>)
  {
    forall row, k :: row in rows && k in ks ==> Numeric(At(row, k))
  }

  /**
   * `melt(..., value_name='Close')` refuses a frame that already has a column
   * of that name: one of the kept columns is called Close.
   */
  predicate CloseKept(columns: seq<string>, ks: seq<int>)
  {
    exists i :: 0 <= i < |ks| && Name(columns, ks[i]) == "Close"
  }

  /** The wide-format branch, from the windowed, date-sorted rows. */
  function WideRows(w: seq<seq<Cell>>, d: int, columns: seq<string>): seq<seq<Cell>>
  {
    var vs := ValueColumns(|columns|, d);
    var filled := PlainFillAll(w, vs);
    var kept := KeptColumns(filled, vs);
    Melt(CompleteDates(filled, kept), d, columns, kept)
  }

  // ---------------------------------------------------------------------------
  // The whole step

  /** Windowed rows in date order: what both branches start from. */
  function Windowed(f: Frame, start: int, end: int): seq<seq<Cell>>
  {
    var d := DateColumn(f.columns);
    SortBy(WindowRows(f.rows, d, start, end), DateKey(d))
  }

  function CleanPrices(f: Frame, start: int, end: int): (r: Result<Frame, PriceError>)
    ensures r == Err(NoDateColumn) <==> forall k :: 0 <= k < |DateCandidates| ==> DateCandidates[k] !in f.columns
  {
    if FirstPresent(DateCandidates, f.columns).None? then Err(NoDateColumn)
    else
      var d := DateColumn(f.columns);
      var w := Windowed(f, start, end);
      if IsLong(f.columns) then
        match LongRows(w, LongTickerColumn(f.columns), d, PriceColumns(f.columns), ExpectedDays(start, end))
        case Err(e) => Err(e)
        case Ok(rows) => Ok(Frame(f.columns, rows))
      else
        var vs := ValueColumns(|f.columns|, d);
        var kept := KeptColumns(PlainFillAll(w, vs), vs);
        if !NumericColumns(f.rows, kept) then Err(NonNumericPrices)
        else if CloseKept(f.columns, kept) then Err(CloseColumnTaken)
        else Ok(Frame([f.columns[d], "Ticker", "Close"], WideRows(w, d, f.columns)))
  }

  /** The long-format branch as the source performs it. */
  method CleanLong(w: seq<seq<Cell>>, t: int, d: int, prices: seq<int>, expected: int) returns (r: Result<seq<seq<Cell>>, PriceError>)
    ensures r == LongRows(w, t, d, prices, expected)
  {
    var stats := TickerStats(w, t, expected);
    if stats.Err? {
      return Err(stats.error);
    }
    if |stats.value| == 0 {
      return Err(NoTickerStats);
    }
    var bad := BadTickers(stats.value);
    if !Printable(bad) {
      return Err(NonStringBadTicker);
    }
    var rows := DropTickers(w, t, bad);
    rows := SortBy(rows, TickerDateKey(t, d));
    rows := ForwardFillPrices(rows, t, prices);
    rows := DropMissingPrices(rows, prices);
    return Ok(rows);
  }

  /** The price columns as the selection loop collects them. */
  method FindPriceColumns(columns: seq<string>, dateName: string) returns (prices: seq<int>)
    requires DateColumn(columns) >= 0 && columns[DateColumn(columns)] == dateName
    ensures prices == PriceColumns(columns)
  {
    var names := CollectColumns(columns, PriceTest(dateName));
    prices := IndicesOf(columns, names);
  }

  /** The cleaning step as the source performs it. */
  method CleanPriceData(f: Frame, start: int, end: int) returns (r: Result<Frame, PriceError>)
    ensures r == CleanPrices(f, start, end)
  {
    var dateCol := ResolveColumn(DateCandidates, f.columns);
    if dateCol.None? {
      return Err(NoDateColumn);
    }
    var d := IndexOf(f.columns, dateCol.value);
    assert d == DateColumn(f.columns);
    var rows := SelectWindow(f.rows, d, start, end);
    var prices := FindPriceColumns(f.columns, dateCol.value);
    if IsLong(f.columns) {
      r := CleanLongFrame(f, start, end, rows, d, prices);
    } else {
      var vs := ValueColumns(|f.columns|, d);
      var kept := KeptColumns(PlainFillAll(rows, vs), vs);
      if !NumericColumns(f.rows, kept) {
        r := Err(NonNumericPrices);
      } else if CloseKept(f.columns, kept) {
        r := Err(CloseColumnTaken);
      } else {
        r := Ok(Frame([f.columns[d], "Ticker", "Close"], WideRows(rows, d, f.columns)));
      }
      CleanPricesSteps(f, start, end);
    }
  }

  /** The long-format branch of the cleaning step, on the windowed rows. */
  method CleanLongFrame(f: Frame, start: int, end: int, w: seq<seq<Cell>>, d: int, prices: seq<int>) returns (r: Result<Frame, PriceError>)
    requires FirstPresent(DateCandidates, f.columns).Some? && IsLong(f.columns)
    requires w == Windowed(f, start, end) && d == DateColumn(f.columns) && prices == PriceColumns(f.columns)
    ensures r == CleanPrices(f, start, end)
  {
    var t := IndexOf(f.columns, if "Ticker" in f.columns then "Ticker" else "Symbol");
    var long := CleanLong(w, t, d, prices, ExpectedDays(start, end));
    r := match long
      case Err(e) => Err(e)
      case Ok(rows) => Ok(Frame(f.columns, rows));
    LongBranch(f, start, end, w, t, prices, long);
  }

  lemma LongBranch(f: Frame, start: int, end: int, w: seq<seq<Cell>>, t: int, prices: seq<int>, long: Result<seq<seq<Cell>>, PriceError>)
    requires FirstPresent(DateCandidates, f.columns).Some? && IsLong(f.columns)
    requires w == Windowed(f, start, end) && t == LongTickerColumn(f.columns) && prices == PriceColumns(f.columns)
    requires long == LongRows(w, t, DateColumn(f.columns), prices, ExpectedDays(start, end))
    ensures CleanPrices(f, start, end) == match long
              case Err(e) => Err(e)
              case Ok(rows) => Ok(Frame(f.columns, rows))
  {
    CleanPricesSteps(f, start, end);
  }

  /** The window filter followed by the sort on the date. */
  method SelectWindow(rows: seq<seq<Cell>>, d: int, start: int, end: int) returns (w: seq<seq<Cell>>)
    ensures w == SortBy(WindowRows(rows, d, start, end), DateKey(d))
  {
    w := WindowRows(rows, d, start, end);
    w := SortBy(w, DateKey(d));
  }

  /** The steps `CleanPrices` composes, once the date column is known. */
  lemma CleanPricesSteps(f: Frame, start: int, end: int)
    requires FirstPresent(DateCandidates, f.columns).Some?
    ensures var d := DateColumn(f.columns);
            var w := Windowed(f, start, end);
            0 <= d < |f.columns|
            && CleanPrices(f, start, end) ==
                 if IsLong(f.columns) then
                   match LongRows(w, LongTickerColumn(f.columns), d, PriceColumns(f.columns), ExpectedDays(start, end))
                   case Err(e) => Err(e)
                   case Ok(rows) => Ok(Frame(f.columns, rows))
                 else
                   var vs := ValueColumns(|f.columns|, d);
                   var kept := KeptColumns(PlainFillAll(w, vs), vs);
                   if !NumericColumns(f.rows, kept) then Err(NonNumericPrices)
                   else if CloseKept(f.columns, kept) then Err(CloseColumnTaken)
                   else Ok(Frame([f.columns[d], "Ticker", "Close"], WideRows(w, d, f.columns)))
  {
  }
}
