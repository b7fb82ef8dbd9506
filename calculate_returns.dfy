/**
 * Return derivation (`calculate_returns`, `calculate_market_returns`).
 *
 * Stock returns: resolve the date, ticker and price columns, sort by (ticker,
 * date), derive each row's return within its ticker, drop the rows without a
 * return (the first row of every ticker) and those with an infinite return.
 * Market returns: a price table indexed by date (column 0 is the index); an
 * optional ticker row under the header is skipped, then the simple return of
 * `Close` is taken row over row and the first row is dropped.
 */
module ReturnCalculation {
  import opened Wrappers
  import opened Floats
  import opened Cells
  import opened Text
  import opened Seqs
  import opened Columns
  import opened Frames
  import opened Sorting

  const DateCandidates: seq<string> := ["Date", "date", "DATE"]
  const TickerCandidates: seq<string> := ["Ticker", "Symbol", "ticker", "symbol"]
  const PriceCandidates: seq<string> := ["Close", "Adj Close", "close", "adj_close", "Price"]

  datatype ReturnKind = Simple | Log

  /** `return_type`: "simple" or "log"; any other name is rejected. */
  function ParseKind(returnType: string): (k: Option<ReturnKind>)
    ensures k == Some(Simple) <==> returnType == "simple"
    ensures k == Some(Log) <==> returnType == "log"
  {
    if returnType == "simple" then Some(Simple)
    else if returnType == "log" then Some(Log)
    else None
  }

  // ---------------------------------------------------------------------------
  // The return of one row

  /** The last value of a group after `ffill()` without limit: its last present cell. */
  function Padded(vals: seq<Cell>): (c: Cell)
    ensures c.Null? <==> forall i :: 0 <= i < |vals| ==> vals[i].Null?
    ensures !c.Null? ==> c in vals
  {
    var j := LastPresent(vals);
    if j < 0 then Null else vals[j]
  }

  /**
   * `pct_change()` at the last row of a group prefix `g`: missing prices are
   * first forward-filled within the group, then the filled price is divided by
   * the filled price of the previous row of the group, minus one. The first row
   * of a group has no previous row and no return.
   */
  function SimpleReturn(g: seq<Cell>): Cell
  {
    if |g| < 2 then Null
    else FromFloat(Sub(Div(ToFloat(Padded(g)), ToFloat(Padded(g[..|g| - 1]))), Fin(1.0)))
  }

  /** `np.log` on a float64, with the logarithm of a positive real as `ln`. */
  function Ln(ln: real -> real, x: Float): Float
  {
    match x
    case NaN => NaN
    case NegInf => NaN
    case PosInf => Float.PosInf
    case Fin(v) => if v < 0.0 then NaN else if v == 0.0 then Float.NegInf else Fin(ln(v))
  }

  /** `np.log(x / x.shift(1))` at the last row of a group prefix: no filling. */
  function LogReturn(ln: real -> real, g: seq<Cell>): Cell
  {
    if |g| < 2 then Null
    else FromFloat(Ln(ln, Div(ToFloat(g[|g| - 1]), ToFloat(g[|g| - 2]))))
  }

  /**
   * The return of row `i` of the (ticker, date)-sorted rows; a row with a
   * missing ticker belongs to no group and gets no return.
   */
  function ReturnAt(kind: ReturnKind, ln: real -> real, rows: seq<seq<Cell>>, t: int, p: int, i: int): (c: Cell)
    requires 0 <= i < |rows|
    ensures c.Null? || c.Num? || c.PosInf? || c.NegInf?
  {
    if At(rows[i], t).Null? then Null
    else
      var g := GroupPrefix(rows, t, p, i);
      match kind
      case Simple => SimpleReturn(g)
      case Log => LogReturn(ln, g)
  }

  /** `groupby(ticker)[price].pct_change()` (or the log variant) as a column of the sorted rows. */
  function ReturnColumn(kind: ReturnKind, ln: real -> real, rows: seq<seq<Cell>>, t: int, p: int): (r: seq<Cell>)
    ensures |r| == |rows|
    ensures forall i :: 0 <= i < |rows| ==> r[i] == ReturnAt(kind, ln, rows, t, p, i)
  {
    seq(|rows|, i requires 0 <= i < |rows| => ReturnAt(kind, ln, rows, t, p, i))
  }

  // ---------------------------------------------------------------------------
  // Filters

  function Present(q: int): seq<Cell> -> bool
  {
    (row: seq<Cell>) => !At(row, q).Null?
  }

  function Finite(q: int): seq<Cell> -> bool
  {
    (row: seq<Cell>) => !IsInfCell(At(row, q))
  }

  /** `dropna(subset=[column q])` */
  function DropMissing(rows: seq<seq<Cell>>, q: int): seq<seq<Cell>>
  {
    Filter(rows, Present(q))
  }

  /** `df[~np.isinf(df[column q])]` */
  function DropInfinite(rows: seq<seq<Cell>>, q: int): seq<seq<Cell>>
  {
    Filter(rows, Finite(q))
  }

  /** A return beyond +-100%: counted and reported, never removed. */
  predicate Extreme(c: Cell)
  {
    c.Num? && (c.v > 1.0 || c.v < -1.0)
  }

  /** `((Return > 1.0) | (Return < -1.0)).sum()` */
  function ExtremeCount(rows: seq<seq<Cell>>, q: int): (n: nat)
    ensures n == |Filter(rows, (row: seq<Cell>) => Extreme(At(row, q)))|
  {
    CountWhere(rows, (row: seq<Cell>) => Extreme(At(row, q)))
  }

  // ---------------------------------------------------------------------------
  // The whole step

  /** The sorted rows with their returns in the `Return` column. */
  function WithReturn(columns: seq<string>, sorted: seq<seq<Cell>>, ret: seq<Cell>): (g: Frame)
    requires Valid(Frame(columns, sorted)) && |ret| == |sorted|
    ensures Valid(g) && |g.rows| == |sorted|
  {
    PutColumn(Frame(columns, sorted), "Return", ret)
  }

  /** The rows of `g` that keep a finite return. */
  function KeptRows(g: Frame): seq<seq<Cell>>
  {
    var q := IndexOf(g.columns, "Return");
    DropInfinite(DropMissing(g.rows, q), q)
  }

  /** Rows sorted by (ticker, date): a permutation, so the table stays well formed. */
  function SortedRows(f: Frame, t: int, d: int): (rows: seq<seq<Cell>>)
    requires Valid(f)
    ensures Valid(Frame(f.columns, rows)) && |rows| == |f.rows|
    ensures multiset(rows) == multiset(f.rows)
  {
    var rows := SortBy(f.rows, TickerDateKey(t, d));
    assert forall i :: 0 <= i < |rows| ==> rows[i] in multiset(f.rows);
    rows
  }

  /**
   * The table with resolved date, ticker and price columns `d`, `t`, `p`:
   * sorted by (ticker, date), with its `Return` column, and only the rows
   * whose return is present and finite.
   */
  function ReturnsTable(f: Frame, kind: ReturnKind, ln: real -> real, t: int, d: int, p: int): (out: Frame)
    requires Valid(f)
    ensures out.columns == if "Return" in f.columns then f.columns else f.columns + ["Return"]
    ensures Valid(out) && |out.rows| <= |f.rows|
  {
    var sorted := SortedRows(f, t, d);
    var g := WithReturn(f.columns, sorted, ReturnColumn(kind, ln, sorted, t, p));
    var kept := KeptRows(g);
    assert forall i :: 0 <= i < |kept| ==> kept[i] in g.rows;
    Frame(g.columns, kept)
  }

  /**
   * `calculate_returns`: None when a column cannot be resolved or the return
   * type is unknown, otherwise the table of returns.
   */
  function Returns(f: Frame, returnType: string, ln: real -> real): (r: Option<Frame>)
    requires Valid(f)
    ensures r.None? <==> ColumnOf(DateCandidates, f.columns) < 0 || ColumnOf(TickerCandidates, f.columns) < 0
                         || ColumnOf(PriceCandidates, f.columns) < 0 || ParseKind(returnType).None?
    ensures r.Some? ==> r.value == ReturnsTable(f, ParseKind(returnType).value, ln, ColumnOf(TickerCandidates, f.columns),
                                                ColumnOf(DateCandidates, f.columns), ColumnOf(PriceCandidates, f.columns))
  {
    var d := ColumnOf(DateCandidates, f.columns);
    var t := ColumnOf(TickerCandidates, f.columns);
    var p := ColumnOf(PriceCandidates, f.columns);
    if d < 0 || t < 0 || p < 0 then None
    else
      match ParseKind(returnType)
      case None => None
      case Some(kind) => Some(ReturnsTable(f, kind, ln, t, d, p))
  }

  /** The step as the source performs it: alias loops, sort, the return loop, the filters. */
  method CalculateReturns(f: Frame, returnType: string, ln: real -> real) returns (r: Option<Frame>)
    requires Valid(f)
    ensures r == Returns(f, returnType, ln)
  {
    var dateCol := ResolveColumn(DateCandidates, f.columns);
    var tickerCol := ResolveColumn(TickerCandidates, f.columns);
    var priceCol := ResolveColumn(PriceCandidates, f.columns);
    if dateCol.None? || tickerCol.None? || priceCol.None? {
      return None;
    }
    var d := IndexOf(f.columns, dateCol.value);
    var t := IndexOf(f.columns, tickerCol.value);
    var p := IndexOf(f.columns, priceCol.value);
    var rows := SortedRows(f, t, d);
    var kind := ParseKind(returnType);
    if kind.None? {
      return None;
    }
    var ret := ReturnColumn(kind.value, ln, rows, t, p);
    var g := WithReturn(f.columns, rows, ret);
    var kept := KeptRows(g);
    r := Some(Frame(g.columns, kept));
  }

  // ---------------------------------------------------------------------------
  // Market returns

  datatype MarketError =
    | EmptyTable       // `df.iloc[0]` on a table without rows raises IndexError
    | NoCloseColumn    // the source returns None
    | NonNumericClose  // a string in `Close`: `pct_change` raises TypeError
    | IndexNameTaken   // an index named `Market_Return`: `reset_index` raises ValueError
    | NoDateColumn     // no `Date` column after `reset_index`: the selection raises KeyError

  /** As written: `str.contains("^GSPC")` is a regular expression, "starts with GSPC". */
  predicate TickerRowAsWritten(row: seq<Cell>)
  {
    exists k :: 1 <= k < |row| && row[k].Text? && StartsWith(row[k].s, "GSPC")
  }

  /** As intended: some value cell of the row contains the text `^GSPC`. */
  predicate TickerRow(row: seq<Cell>)
  {
    exists k :: 1 <= k < |row| && row[k].Text? && Contains(row[k].s, "^GSPC")
  }

  /** `pd.to_numeric(errors="coerce")` on every value column; the index stays. */
  function CoerceValues(row: seq<Cell>): (r: seq<Cell>)
    ensures |r| == |row|
    ensures |row| > 0 ==> r[0] == row[0]
    ensures forall k :: 1 <= k < |row| ==> !r[k].Text? && !r[k].Day?
  {
    if |row| == 0 then row
    else [row[0]] + Map(row[1..], (c: Cell) => FromFloat(ToFloat(c)))
  }

  /**
   * The table as loaded: when it has more than one value column and its first
   * row is recognised as a ticker row, that row is skipped and every value
   * column made numeric.
   */
  function MarketTable(f: Frame, isTickerRow: seq<Cell> -> bool): (rows: seq<seq<Cell>>)
    requires Valid(f) && (|f.columns| > 2 ==> |f.rows| > 0)
    ensures Valid(Frame(f.columns, rows))
  {
    if |f.columns| > 2 && isTickerRow(f.rows[0]) then Map(f.rows[1..], CoerceValues)
    else f.rows
  }

  /** `pct_change(fill_method=None)` at row `i >= 1`: this price over the previous one, minus one. */
  function MarketReturnAt(rows: seq<seq<Cell>>, c: int, i: int): (r: Cell)
    requires 1 <= i < |rows|
    ensures (At(rows[i - 1], c).Num? && At(rows[i - 1], c).v != 0.0 && At(rows[i], c).Num?)
            ==> r == Num(At(rows[i], c).v / At(rows[i - 1], c).v - 1.0)
    ensures At(rows[i - 1], c).Null? || At(rows[i], c).Null? ==> r.Null?
    ensures !r.Text? && !r.Day?
  {
    var a := At(rows[i - 1], c);
    var b := At(rows[i], c);
    if a.Num? && a.v != 0.0 && b.Num? then
      SubFinite(b.v / a.v, 1.0);
      FromFloat(Sub(Div(ToFloat(b), ToFloat(a)), Fin(1.0)))
    else FromFloat(Sub(Div(ToFloat(b), ToFloat(a)), Fin(1.0)))
  }

  /** `df["Close"].pct_change(fill_method=None)`: no filling, and no return on the first row. */
  function MarketColumn(rows: seq<seq<Cell>>, c: int): (r: seq<Cell>)
    ensures |r| == |rows|
    ensures |rows| > 0 ==> r[0].Null?
    ensures forall i :: 1 <= i < |rows| ==> r[i] == MarketReturnAt(rows, c, i)
  {
    seq(|rows|, i requires 0 <= i < |rows| => if i == 0 then Null else MarketReturnAt(rows, c, i))
  }

  /** The loaded table with its `Market_Return` column, without the rows that have no return. */
  function MarketTableReturns(columns: seq<string>, rows: seq<seq<Cell>>, c: int): (out: Frame)
    requires Valid(Frame(columns, rows))
    ensures out.columns == if "Market_Return" in columns then columns else columns + ["Market_Return"]
    ensures Valid(out)
  {
    var g := PutColumn(Frame(columns, rows), "Market_Return", MarketColumn(rows, c));
    Frame(g.columns, DropMissing(g.rows, IndexOf(g.columns, "Market_Return")))
  }

  /** Some row of the table holds a string in column `c`. */
  predicate TextIn(rows: seq<seq<Cell>>, c: int)
  {
    exists i :: 0 <= i < |rows| && At(rows[i], c).Text?
  }

  /**
   * The save step: `reset_index` turns the index (column 0) back into a
   * column, which fails when a column already has its name, and the
   * selection `df[["Date", "Market_Return"]]` needs a `Date` column.
   */
  function Saved(columns: seq<string>, out: Frame): (r: Result<Frame, MarketError>)
    requires |columns| > 0
    ensures r.Ok? <==> columns[0] != "Market_Return" && "Date" in columns
    ensures r.Ok? ==> r.value == out
  {
    if columns[0] == "Market_Return" then Err(IndexNameTaken)
    else if "Date" !in columns then Err(NoDateColumn)
    else Ok(out)
  }

  /** `calculate_market_returns` with the ticker-row test as a parameter. */
  function MarketReturnsWith(f: Frame, isTickerRow: seq<Cell> -> bool): (r: Result<Frame, MarketError>)
    requires Valid(f) && |f.columns| > 0
    ensures r == Err(EmptyTable) <==> |f.columns| > 2 && |f.rows| == 0
    ensures r == Err(NoCloseColumn) <==> !(|f.columns| > 2 && |f.rows| == 0) && IndexOf(f.columns, "Close") < 1
    ensures r.Ok? <==> !(|f.columns| > 2 && |f.rows| == 0) && IndexOf(f.columns, "Close") >= 1
                       && !TextIn(MarketTable(f, isTickerRow), IndexOf(f.columns, "Close"))
                       && f.columns[0] != "Market_Return" && "Date" in f.columns
    ensures r.Ok? ==> r.value == MarketTableReturns(f.columns, MarketTable(f, isTickerRow), IndexOf(f.columns, "Close"))
  {
    if |f.columns| > 2 && |f.rows| == 0 then Err(EmptyTable)
    else
      var rows := MarketTable(f, isTickerRow);
      var c := IndexOf(f.columns, "Close");
      if c < 1 then Err(NoCloseColumn)
      else if TextIn(rows, c) then Err(NonNumericClose)
      else Saved(f.columns, MarketTableReturns(f.columns, rows, c))
  }

  /** The step as written, with the regular-expression test. */
  function MarketReturnsAsWritten(f: Frame): (r: Result<Frame, MarketError>)
    requires Valid(f) && |f.columns| > 0
    ensures r == Err(EmptyTable) || r == Err(NoCloseColumn) ==> r == MarketReturns(f)
    ensures |f.columns| <= 2 || |f.rows| == 0 || (!TickerRow(f.rows[0]) && !TickerRowAsWritten(f.rows[0]))
            ==> r == MarketReturns(f)
  {
    assert |f.columns| <= 2 || (|f.rows| > 0 && !TickerRow(f.rows[0]) && !TickerRowAsWritten(f.rows[0]))
           ==> MarketTable(f, TickerRowAsWritten) == MarketTable(f, TickerRow);
    MarketReturnsWith(f, TickerRowAsWritten)
  }

  /** The step with the ticker-row test the comment describes. */
  function MarketReturns(f: Frame): (r: Result<Frame, MarketError>)
    requires Valid(f) && |f.columns| > 0
    ensures r == Err(EmptyTable) <==> |f.columns| > 2 && |f.rows| == 0
    ensures r == Err(NoCloseColumn) <==> !(|f.columns| > 2 && |f.rows| == 0) && IndexOf(f.columns, "Close") < 1
    ensures r.Ok? <==> !(|f.columns| > 2 && |f.rows| == 0) && IndexOf(f.columns, "Close") >= 1
                       && !TextIn(MarketTable(f, TickerRow), IndexOf(f.columns, "Close"))
                       && f.columns[0] != "Market_Return" && "Date" in f.columns
    ensures r.Ok? ==> r.value == MarketTableReturns(f.columns, MarketTable(f, TickerRow), IndexOf(f.columns, "Close"))
  {
    MarketReturnsWith(f, TickerRow)
  }

  /** The market step as the source performs it, with the corrected ticker-row test. */
  method CalculateMarketReturns(f: Frame) returns (r: Result<Frame, MarketError>)
    requires Valid(f) && |f.columns| > 0
    ensures r == MarketReturns(f)
  {
    var rows := f.rows;
    if |f.columns| > 2 {
      if |rows| == 0 {
        return Err(EmptyTable);
      }
      if TickerRow(rows[0]) {
        rows := MarketTable(f, TickerRow);
      }
    }
    var c := IndexOf(f.columns, "Close");
    if c < 1 {
      return Err(NoCloseColumn);
    }
    assert rows == MarketTable(f, TickerRow);
    var i := 0;
    while i < |rows|
      invariant 0 <= i <= |rows|
      invariant forall j :: 0 <= j < i ==> !At(rows[j], c).Text?
    {
      if At(rows[i], c).Text? {
        return Err(NonNumericClose);
      }
      i := i + 1;
    }
    assert !TextIn(rows, c);
    var out := MarketTableReturns(f.columns, rows, c);
    if f.columns[0] == "Market_Return" {
      return Err(IndexNameTaken);
    }
    if "Date" !in f.columns {
      return Err(NoDateColumn);
    }
    r := Ok(out);
  }
}
