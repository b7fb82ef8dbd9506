/**
 * The risk-free rate: the 3-month Treasury-bill series (an annual rate in
 * percent) is read, its gaps filled, each annual rate turned into a daily
 * rate, and the series aligned with the trading days of the returns table.
 */
module RiskFree {
  import opened Wrappers
  import opened Cells
  import opened Seqs
  import opened Sorting
  import opened Columns
  import opened Frames
  import opened Fills
  import opened Joins

  const DateCandidates: seq<string> := ["DATE", "Date", "date"]
  const RateCandidates: seq<string> := ["DGS3MO", "VALUE", "Value", "value"]
  const TradingDateCandidates: seq<string> := ["Date", "date", "DATE"]
  const TradingDaysPerYear: nat := 252

  /** One row of the saved table, whose columns are `Date`, `Daily_RF_Rate` and `Annual_Rate`. */
  datatype RateRow = RateRow(date: Cell, daily: Cell, annual: Cell)

  function DateOf(r: RateRow): Cell { r.date }
  function DailyOf(r: RateRow): Cell { r.daily }
  function AnnualOf(r: RateRow): Cell { r.annual }
  function RowDateKey(r: RateRow): seq<Cell> { [r.date] }
  function DayKey(c: Cell): seq<Cell> { [c] }
  function Same(c: Cell): Cell { c }
  predicate HasDaily(r: RateRow) { !r.daily.Null? }

  // ---------------------------------------------------------------------------
  // Columns

  /**
   * Positions of the date and rate columns: the first alias of each, or the
   * first two columns when either has no alias in the table; None when the
   * table has fewer than two columns. The two positions always differ.
   */
  function RateColumns(columns: seq<string>): (r: Option<(int, int)>)
    requires Distinct(columns)
    ensures r.None? <==> |columns| < 2
    ensures r.Some? ==> 0 <= r.value.0 < |columns| && 0 <= r.value.1 < |columns| && r.value.0 != r.value.1
    ensures r.Some? && ColumnOf(DateCandidates, columns) >= 0 && ColumnOf(RateCandidates, columns) >= 0
            ==> r.value == (ColumnOf(DateCandidates, columns), ColumnOf(RateCandidates, columns))
    ensures r.Some? && (ColumnOf(DateCandidates, columns) < 0 || ColumnOf(RateCandidates, columns) < 0)
            ==> r.value == (0, 1)
  {
    var d := ColumnOf(DateCandidates, columns);
    var k := ColumnOf(RateCandidates, columns);
    if d >= 0 && k >= 0 then
      assert columns[d] in DateCandidates && columns[k] in RateCandidates;
      assert d != k;
      Some((d, k))
    else if |columns| >= 2 then Some((0, 1))
    else None
  }

  // ---------------------------------------------------------------------------
  // The annual rate

  /** The column holds a string, so pandas gives it the object dtype. */
  predicate ObjectColumn(vals: seq<Cell>)
  {
    exists i :: 0 <= i < |vals| && !Numeric(vals[i])
  }

  /** `pd.to_numeric(errors="coerce")` on one cell. */
  function ToNumber(c: Cell): Cell { FromFloat(ToFloat(c)) }

  /** `to_numeric(errors="coerce")` applied when, and only when, the column has the object dtype. */
  function Coerced(vals: seq<Cell>): (r: seq<Cell>)
    ensures |r| == |vals|
    ensures forall i :: 0 <= i < |vals| ==> Numeric(r[i])
    ensures forall i :: 0 <= i < |vals| && Numeric(vals[i]) ==> r[i] == vals[i]
    ensures forall i :: 0 <= i < |vals| && !Numeric(vals[i]) ==> r[i].Null?
  {
    if ObjectColumn(vals) then Map(vals, ToNumber) else vals
  }

  /** The missing-value step: `ffill().bfill()` when some rate is missing. */
  function FilledRates(vals: seq<Cell>): (r: seq<Cell>)
    ensures |r| == |vals|
  {
    if AnyMissing(vals) then FillGaps(vals) else vals
  }

  /** After the missing-value step no rate is missing as soon as one is present. */
  lemma FilledRatesComplete(vals: seq<Cell>)
    ensures AnyPresent(vals) ==> forall i :: 0 <= i < |vals| ==> !FilledRates(vals)[i].Null?
    ensures forall i :: 0 <= i < |vals| && !vals[i].Null? ==> FilledRates(vals)[i] == vals[i]
    ensures forall i :: 0 <= i < |vals| ==> FilledRates(vals)[i].Null? || FilledRates(vals)[i] in vals
  {
    FillGapsProperties(vals);
  }

  // ---------------------------------------------------------------------------
  // The daily rate

  /** `x` to the power `n`. */
  function Pow(x: real, n: nat): real
  {
    if n == 0 then 1.0 else x * Pow(x, n - 1)
  }

  /** `root` is the non-negative 252nd root on the non-negative reals. */
  ghost predicate IsRoot(root: real -> real)
  {
    forall y: real :: y >= 0.0 ==> root(y) >= 0.0 && Pow(root(y), TradingDaysPerYear) == y
  }

  /**
   * `(1 + a / 100) ** (1 / 252) - 1` on one annual rate, `root` standing for
   * the fractional power: a negative base gives NaN, and both infinities give
   * plus infinity, as the floating-point power does.
   */
  function DailyRate(root: real -> real, a: Cell): (d: Cell)
    ensures Numeric(d)
    ensures d.Null? <==> !(a.Num? || IsInfCell(a)) || (a.Num? && 1.0 + a.v / 100.0 < 0.0)
  {
    match a
    case Num(x) => if 1.0 + x / 100.0 < 0.0 then Null else Num(root(1.0 + x / 100.0) - 1.0)
    case PosInf => PosInf
    case NegInf => PosInf
    case _ => Null
  }

  lemma {:induction false} PowNonNegative(x: real, n: nat)
    requires x >= 0.0
    ensures Pow(x, n) >= 0.0
  {
    if n > 0 {
      PowNonNegative(x, n - 1);
    }
  }

  /** Raising to a positive power is strictly increasing on the non-negative reals. */
  lemma {:induction false} PowIncreasing(a: real, b: real, n: nat)
    requires 0.0 <= a < b && n >= 1
    ensures Pow(a, n) < Pow(b, n)
  {
    if n == 1 {
      assert Pow(a, 1) == a * Pow(a, 0) == a;
      assert Pow(b, 1) == b * Pow(b, 0) == b;
    } else {
      PowIncreasing(a, b, n - 1);
      PowNonNegative(a, n - 1);
      MulIncreasing(a, b, Pow(a, n - 1), Pow(b, n - 1));
    }
  }

  lemma MulIncreasing(a: real, b: real, x: real, y: real)
    requires 0.0 <= a < b && 0.0 <= x < y
    ensures a * x < b * y
  {
    assert a * x <= b * x;
    assert b * x < b * y;
  }

  lemma {:induction false} PowOne(n: nat)
    ensures Pow(1.0, n) == 1.0
  {
    if n > 0 {
      PowOne(n - 1);
    }
  }

  /** The root preserves order, so a higher base has a higher root. */
  lemma RootIncreasing(root: real -> real, x: real, y: real)
    requires IsRoot(root) && 0.0 <= x < y
    ensures root(x) < root(y)
  {
    if root(x) >= root(y) {
      if root(x) > root(y) {
        PowIncreasing(root(y), root(x), TradingDaysPerYear);
      }
      assert Pow(root(x), TradingDaysPerYear) >= Pow(root(y), TradingDaysPerYear);
      assert false;
    }
  }

  /**
   * Compounding the daily rate over 252 trading days gives back the annual
   * rate: `(1 + daily) ** 252 == 1 + annual / 100`.
   */
  lemma DailyRateCompounds(root: real -> real, x: real)
    requires IsRoot(root) && 1.0 + x / 100.0 >= 0.0
    ensures DailyRate(root, Num(x)).Num?
    ensures Pow(1.0 + DailyRate(root, Num(x)).v, TradingDaysPerYear) == 1.0 + x / 100.0
  {
  }

  /** The daily rate has the sign of the annual rate. */
  lemma DailyRateSign(root: real -> real, x: real)
    requires IsRoot(root) && 1.0 + x / 100.0 >= 0.0
    ensures DailyRate(root, Num(x)).Num?
    ensures DailyRate(root, Num(x)).v > 0.0 <==> x > 0.0
    ensures DailyRate(root, Num(x)).v == 0.0 <==> x == 0.0
    ensures DailyRate(root, Num(x)).v < 0.0 <==> x < 0.0
  {
    PowOne(TradingDaysPerYear);
    assert root(1.0) == 1.0 by {
      if root(1.0) < 1.0 {
        PowIncreasing(root(1.0), 1.0, TradingDaysPerYear);
      } else if root(1.0) > 1.0 {
        PowIncreasing(1.0, root(1.0), TradingDaysPerYear);
      }
    }
    var b := 1.0 + x / 100.0;
    if b < 1.0 {
      RootIncreasing(root, b, 1.0);
    } else if b > 1.0 {
      RootIncreasing(root, 1.0, b);
    }
  }

  /** A higher annual rate gives a higher daily rate. */
  lemma DailyRateIncreasing(root: real -> real, x: real, y: real)
    requires IsRoot(root) && 1.0 + x / 100.0 >= 0.0 && x < y
    ensures DailyRate(root, Num(x)).Num? && DailyRate(root, Num(y)).Num?
    ensures DailyRate(root, Num(x)).v < DailyRate(root, Num(y)).v
  {
    RootIncreasing(root, 1.0 + x / 100.0, 1.0 + y / 100.0);
  }

  // ---------------------------------------------------------------------------
  // The rate table before alignment

  /**
   * The table after the rename, the numeric coercion, the gap filling and the
   * conversion: one row per row read, each daily rate computed from that
   * row's annual rate alone.
   */
  function Rates(f: Frame, d: int, k: int, toDate: Cell -> Cell, root: real -> real): (rows: seq<RateRow>)
    requires Valid(f) && 0 <= d < |f.columns| && 0 <= k < |f.columns|
    ensures |rows| == |f.rows|
    ensures forall i :: 0 <= i < |rows| ==> rows[i].date == toDate(f.rows[i][d])
    ensures forall i :: 0 <= i < |rows| ==> rows[i].daily == DailyRate(root, rows[i].annual)
  {
    var annual := FilledRates(Coerced(ColumnCells(f.rows, k)));
    seq(|f.rows|, i requires 0 <= i < |f.rows| => RateRow(toDate(f.rows[i][d]), DailyRate(root, annual[i]), annual[i]))
  }

  /**
   * The annual rates of the table: the numeric cells read keep their value,
   * strings count as missing, and, as soon as one rate is present, no rate is
   * missing and every filled rate is one of the rates read.
   */
  lemma RatesAnnual(f: Frame, d: int, k: int, toDate: Cell -> Cell, root: real -> real)
    requires Valid(f) && 0 <= d < |f.columns| && 0 <= k < |f.columns|
    ensures forall i :: 0 <= i < |f.rows| && Numeric(f.rows[i][k]) && !f.rows[i][k].Null?
                        ==> Rates(f, d, k, toDate, root)[i].annual == f.rows[i][k]
    ensures AnyPresent(Coerced(ColumnCells(f.rows, k)))
            ==> forall i :: 0 <= i < |f.rows| ==> !Rates(f, d, k, toDate, root)[i].annual.Null?
    ensures forall i :: 0 <= i < |f.rows| ==> Rates(f, d, k, toDate, root)[i].annual.Null?
                                                || Rates(f, d, k, toDate, root)[i].annual in Coerced(ColumnCells(f.rows, k))
  {
    var c := Coerced(ColumnCells(f.rows, k));
    FilledRatesComplete(c);
  }

  // ---------------------------------------------------------------------------
  // Trading days

  /**
   * `returns[date].unique()` sorted: the trading days, or None when the
   * returns table is absent or has no date column.
   */
  function TradingDays(trading: Option<Frame>, toDate: Cell -> Cell): (days: Option<seq<Cell>>)
    ensures days.None? <==> trading.None? || ColumnOf(TradingDateCandidates, trading.value.columns) < 0
  {
    if trading.None? then None
    else
      var k := ColumnOf(TradingDateCandidates, trading.value.columns);
      if k < 0 then None
      else Some(SortBy(KeepFirst(TradingDates(trading.value, k, toDate), Same), DayKey))
  }

  /** The parsed dates of column `k` of the returns table, in row order. */
  function TradingDates(trading: Frame, k: int, toDate: Cell -> Cell): (dates: seq<Cell>)
    ensures |dates| == |trading.rows|
  {
    Map(ColumnCells(trading.rows, k), toDate)
  }

  /**
   * The trading days are the distinct dates of the returns table, each once,
   * in ascending order.
   */
  lemma TradingDaysProperties(trading: Option<Frame>, toDate: Cell -> Cell)
    requires TradingDays(trading, toDate).Some?
    ensures var days := TradingDays(trading, toDate).value;
            var dates := TradingDates(trading.value, ColumnOf(TradingDateCandidates, trading.value.columns), toDate);
            SortedBy(days, DayKey) && Distinct(days) && forall c :: c in days <==> c in dates
  {
    var dates := TradingDates(trading.value, ColumnOf(TradingDateCandidates, trading.value.columns), toDate);
    var u := KeepFirst(dates, Same);
    var days := TradingDays(trading, toDate).value;
    KeepFirstProperties(dates, Same);
    SortBySorted(u, DayKey);
    SortByMembers(u, DayKey);
    DistinctPermutation(u, days);
    forall c ensures c in days <==> c in dates {
      if c in dates {
        var i :| 0 <= i < |dates| && dates[i] == c;
        assert HasKey(dates, Same, c);
        var j :| 0 <= j < |u| && Same(u[j]) == c;
      }
    }
  }

  // ---------------------------------------------------------------------------
  // Alignment

  /** A merged row: the rate row found for the trading day, or the day without rates. */
  function PutRate(d: Cell, r: Option<RateRow>): RateRow
  {
    if r.Some? then r.value else RateRow(d, Null, Null)
  }

  /** `pd.DataFrame({"Date": days}).merge(rates, on="Date", how="left")`. */
  function Align(days: seq<Cell>, rows: seq<RateRow>): (a: seq<RateRow>)
    ensures |a| >= |days|
  {
    LeftJoin(days, rows, Same, DateOf, PutRate)
  }

  /**
   * The rows the merge gives one trading day carry that day, and are rate
   * rows of that day or a row without rates.
   */
  lemma JoinedRows(d: Cell, rows: seq<RateRow>)
    ensures var j := JoinOne(d, rows, Same, DateOf, PutRate);
            forall m :: 0 <= m < |j| ==> j[m].date == d && (j[m] in rows || (j[m].daily.Null? && j[m].annual.Null?))
    ensures HasKey(rows, DateOf, d) ==> JoinOne(d, rows, Same, DateOf, PutRate)[0] in rows
  {
    MatchesCells(d, rows, Same, DateOf, PutRate);
  }

  /** The merged rows take their dates only from the trading days. */
  lemma AlignDates(days: seq<Cell>, rows: seq<RateRow>)
    ensures forall i :: 0 <= i < |Align(days, rows)| ==> Align(days, rows)[i].date in days
  {
    var inDays := (r: RateRow) => r.date in days;
    forall i, m | 0 <= i < |days| && 0 <= m < |JoinOne(days[i], rows, Same, DateOf, PutRate)|
      ensures inDays(JoinOne(days[i], rows, Same, DateOf, PutRate)[m])
    {
      JoinedRows(days[i], rows);
    }
    LeftJoinAll(days, rows, Same, DateOf, PutRate, inDays);
  }

  /** The first merged row of trading day `m` comes right after the rows of the earlier days. */
  lemma AlignDayAt(days: seq<Cell>, rows: seq<RateRow>, m: int)
    requires 0 <= m < |days|
    ensures |Align(days[..m], rows)| < |Align(days, rows)|
    ensures Align(days, rows)[|Align(days[..m], rows)|] == JoinOne(days[m], rows, Same, DateOf, PutRate)[0]
    ensures Align(days, rows)[|Align(days[..m], rows)|].date == days[m]
  {
    LeftJoinAt(days, rows, Same, DateOf, PutRate, m);
    JoinedRows(days[m], rows);
  }

  /** Every merged row is a row of the rate table, or a row without rates. */
  lemma AlignFrom(days: seq<Cell>, rows: seq<RateRow>)
    ensures forall i :: 0 <= i < |Align(days, rows)| ==>
              Align(days, rows)[i] in rows || (Align(days, rows)[i].daily.Null? && Align(days, rows)[i].annual.Null?)
  {
    var fromRows := (r: RateRow) => r in rows || (r.daily.Null? && r.annual.Null?);
    forall i, m | 0 <= i < |days| && 0 <= m < |JoinOne(days[i], rows, Same, DateOf, PutRate)|
      ensures fromRows(JoinOne(days[i], rows, Same, DateOf, PutRate)[m])
    {
      JoinedRows(days[i], rows);
    }
    LeftJoinAll(days, rows, Same, DateOf, PutRate, fromRows);
  }

  /** The merged rows follow the order of the trading days. */
  lemma AlignSorted(days: seq<Cell>, rows: seq<RateRow>)
    requires SortedBy(days, DayKey)
    ensures SortedBy(Align(days, rows), RowDateKey)
  {
    forall i, m | 0 <= i < |days| && 0 <= m < |JoinOne(days[i], rows, Same, DateOf, PutRate)|
      ensures RowDateKey(JoinOne(days[i], rows, Same, DateOf, PutRate)[m]) == DayKey(days[i])
    {
      JoinedRows(days[i], rows);
    }
    LeftJoinSorted(days, rows, Same, DateOf, PutRate, DayKey, RowDateKey);
  }

  /** The merged table with both rate columns forward-filled. */
  function Aligned(days: seq<Cell>, rows: seq<RateRow>): (out: seq<RateRow>)
    ensures |out| == |Align(days, rows)|
    ensures forall i :: 0 <= i < |out| ==> out[i].date == Align(days, rows)[i].date
  {
    var a := Align(days, rows);
    var daily := ForwardFill(Map(a, DailyOf));
    var annual := ForwardFill(Map(a, AnnualOf));
    seq(|a|, i requires 0 <= i < |a| => RateRow(a[i].date, daily[i], annual[i]))
  }

  /** `dropna(subset=["Daily_RF_Rate"])` when some daily rate is missing. */
  function DropNullRates(rows: seq<RateRow>): (out: seq<RateRow>)
    ensures forall i :: 0 <= i < |out| ==> HasDaily(out[i])
    ensures forall x :: x in out ==> x in rows
    ensures forall x :: x in rows && HasDaily(x) ==> x in out
  {
    if AnyMissing(Map(rows, DailyOf)) then Filter(rows, HasDaily)
    else
      assert forall x :: x in rows ==> HasDaily(x);
      rows
  }

  /** Every filled daily rate of the aligned table is the daily rate of a row of the rate table. */
  lemma AlignedDailyFrom(days: seq<Cell>, rows: seq<RateRow>)
    ensures forall i :: 0 <= i < |Aligned(days, rows)| && HasDaily(Aligned(days, rows)[i])
                        ==> Aligned(days, rows)[i].daily in Map(rows, DailyOf)
  {
    var a := Align(days, rows);
    var col := Map(a, DailyOf);
    var out := Aligned(days, rows);
    ForwardFillIsLastPresent(col);
    AlignFrom(days, rows);
    forall i | 0 <= i < |out| && HasDaily(out[i]) ensures out[i].daily in Map(rows, DailyOf) {
      var c := LastPresentUpTo(col, i);
      assert out[i].daily == c;
      var m :| 0 <= m <= i && col[..i + 1][m] == c;
      assert a[m].daily == c;
      var j :| 0 <= j < |rows| && rows[j] == a[m];
      assert Map(rows, DailyOf)[j] == c;
    }
  }

  /**
   * When every rate row has a daily rate and the first trading day has a
   * rate row, forward filling leaves no daily rate missing.
   */
  lemma AlignedComplete(days: seq<Cell>, rows: seq<RateRow>)
    requires |days| > 0
    requires forall i :: 0 <= i < |rows| ==> HasDaily(rows[i])
    requires exists i :: 0 <= i < |rows| && rows[i].date == days[0]
    ensures forall i :: 0 <= i < |Aligned(days, rows)| ==> HasDaily(Aligned(days, rows)[i])
  {
    var a := Align(days, rows);
    var col := Map(a, DailyOf);
    AlignDayAt(days, rows, 0);
    var i0 :| 0 <= i0 < |rows| && rows[i0].date == days[0];
    assert DateOf(rows[i0]) == days[0];
    JoinedRows(days[0], rows);
    assert days[..0] == [];
    assert a[0] in rows;
    assert !col[0].Null?;
    ForwardFillIsLastPresent(col);
  }

  // ---------------------------------------------------------------------------
  // The whole step

  /**
   * `process_risk_free_rate`: None when the rate file is absent or has fewer
   * than two columns; otherwise the saved table. `toDate` stands for
   * `pd.to_datetime(utc=True)` on one cell, `root` for the 252nd root.
   */
  function RiskFreeRates(fred: Option<Frame>, trading: Option<Frame>, toDate: Cell -> Cell, root: real -> real): (r: Option<seq<RateRow>>)
    requires fred.Some? ==> Valid(fred.value)
    ensures r.None? <==> fred.None? || |fred.value.columns| < 2
    ensures r.Some? ==> forall i :: 0 <= i < |r.value| ==> HasDaily(r.value[i])
  {
    if fred.None? || |fred.value.columns| < 2 then None
    else Some(DropNullRates(AlignedTo(TradingDays(trading, toDate), RateTable(fred.value, toDate, root))))
  }

  /** The rate table aligned with the trading days when there are any, unchanged otherwise. */
  function AlignedTo(days: Option<seq<Cell>>, rows: seq<RateRow>): seq<RateRow>
  {
    if days.None? then rows else Aligned(days.value, rows)
  }

  /** The rate table of a file with at least two columns, before alignment. */
  function RateTable(f: Frame, toDate: Cell -> Cell, root: real -> real): (rows: seq<RateRow>)
    requires Valid(f) && |f.columns| >= 2
    ensures |rows| == |f.rows|
  {
    var cols := RateColumns(f.columns).value;
    Rates(f, cols.0, cols.1, toDate, root)
  }

  /** The rates read, after the numeric coercion and before the gap filling. */
  function RateCells(f: Frame): (vals: seq<Cell>)
    requires Valid(f) && |f.columns| >= 2
    ensures |vals| == |f.rows|
  {
    Coerced(ColumnCells(f.rows, RateColumns(f.columns).value.1))
  }

  /**
   * After the merge, the forward fills and the `dropna`, the dates are
   * trading days in ascending order, and every daily rate is present and is
   * the daily rate of a row of the rate table.
   */
  lemma AlignedOutput(days: seq<Cell>, rows: seq<RateRow>)
    requires SortedBy(days, DayKey)
    ensures var out := DropNullRates(Aligned(days, rows));
            SortedBy(out, RowDateKey)
            && (forall i :: 0 <= i < |out| ==> out[i].date in days)
            && (forall i :: 0 <= i < |out| ==> HasDaily(out[i]) && out[i].daily in Map(rows, DailyOf))
  {
    var a := Align(days, rows);
    var al := Aligned(days, rows);
    var out := DropNullRates(al);
    AlignSorted(days, rows);
    AlignDates(days, rows);
    AlignedDailyFrom(days, rows);
    SameKeysSorted(a, al, RowDateKey);
    if AnyMissing(Map(al, DailyOf)) {
      FilterSorted(al, HasDaily, RowDateKey);
    }
    forall i | 0 <= i < |out| ensures out[i].date in days && out[i].daily in Map(rows, DailyOf) {
      var j :| 0 <= j < |al| && al[j] == out[i];
      assert al[j].date == a[j].date;
    }
  }

  /**
   * With trading days, the output dates are trading days in ascending order,
   * and every daily rate is present and is the daily rate of a row of the
   * rate table.
   */
  lemma WithTradingDays(fred: Option<Frame>, trading: Option<Frame>, toDate: Cell -> Cell, root: real -> real)
    requires fred.Some? && Valid(fred.value) && |fred.value.columns| >= 2
    requires TradingDays(trading, toDate).Some?
    ensures var out := RiskFreeRates(fred, trading, toDate, root).value;
            SortedBy(out, RowDateKey)
            && (forall i :: 0 <= i < |out| ==> out[i].date in TradingDays(trading, toDate).value)
            && (forall i :: 0 <= i < |out| ==> HasDaily(out[i]) && out[i].daily in Map(RateTable(fred.value, toDate, root), DailyOf))
  {
    TradingDaysProperties(trading, toDate);
    AlignedOutput(TradingDays(trading, toDate).value, RateTable(fred.value, toDate, root));
  }

  /** The aligned table has a row for every trading day. */
  lemma AlignedDays(days: seq<Cell>, rows: seq<RateRow>)
    ensures forall m :: 0 <= m < |days| ==>
              exists i :: 0 <= i < |Aligned(days, rows)| && Aligned(days, rows)[i].date == days[m]
  {
    var al := Aligned(days, rows);
    forall m | 0 <= m < |days| ensures exists i :: 0 <= i < |al| && al[i].date == days[m] {
      AlignDayAt(days, rows, m);
      var i := |Align(days[..m], rows)|;
      assert al[i].date == days[m];
    }
  }

  /**
   * When every rate row has a daily rate and the first trading day has a rate
   * row, the final `dropna` removes nothing, so every trading day is kept.
   */
  lemma AlignedKeepsDays(days: seq<Cell>, rows: seq<RateRow>)
    requires |days| > 0
    requires forall i :: 0 <= i < |rows| ==> HasDaily(rows[i])
    requires exists i :: 0 <= i < |rows| && rows[i].date == days[0]
    ensures DropNullRates(Aligned(days, rows)) == Aligned(days, rows)
  {
    AlignedComplete(days, rows);
    assert !AnyMissing(Map(Aligned(days, rows), DailyOf));
  }

  /**
   * Without trading days, and when some rate is present and no rate is below
   * -100 percent, every row read is kept with its own date, in file order.
   */
  lemma WithoutTradingDays(fred: Option<Frame>, trading: Option<Frame>, toDate: Cell -> Cell, root: real -> real)
    requires fred.Some? && Valid(fred.value) && |fred.value.columns| >= 2
    requires TradingDays(trading, toDate).None?
    requires AnyPresent(RateCells(fred.value))
    requires forall c :: c in RateCells(fred.value) && c.Num? ==> 1.0 + c.v / 100.0 >= 0.0
    ensures var out := RiskFreeRates(fred, trading, toDate, root).value;
            |out| == |fred.value.rows|
            && forall i :: 0 <= i < |out| ==> out[i].date == toDate(fred.value.rows[i][RateColumns(fred.value.columns).value.0])
  {
    var rows := RateTable(fred.value, toDate, root);
    EveryDailyRate(fred.value, toDate, root);
    assert !AnyMissing(Map(rows, DailyOf));
  }

  /** When some rate is present and none is below -100 percent, every row read has a daily rate. */
  lemma EveryDailyRate(f: Frame, toDate: Cell -> Cell, root: real -> real)
    requires Valid(f) && |f.columns| >= 2
    requires AnyPresent(RateCells(f))
    requires forall c :: c in RateCells(f) && c.Num? ==> 1.0 + c.v / 100.0 >= 0.0
    ensures forall i :: 0 <= i < |f.rows| ==> HasDaily(RateTable(f, toDate, root)[i])
  {
    var cols := RateColumns(f.columns).value;
    RatesAnnual(f, cols.0, cols.1, toDate, root);
  }

  // ---------------------------------------------------------------------------
  // The step as the source performs it

  /** The alias loops for the date and rate columns, with the fallback to the first two columns. */
  method FindRateColumns(columns: seq<string>) returns (cols: Option<(int, int)>)
    requires Distinct(columns)
    ensures cols == RateColumns(columns)
  {
    var dateName := ResolveColumn(DateCandidates, columns);
    var rateName := ResolveColumn(RateCandidates, columns);
    if dateName.None? || rateName.None? {
      if |columns| < 2 {
        return None;
      }
      return Some((0, 1));
    }
    return Some((IndexOf(columns, dateName.value), IndexOf(columns, rateName.value)));
  }

  /**
   * The rate file as `process_risk_free_rate` prepares it: the columns, the
   * rename, and the in-place coercion, filling and conversion of the rate
   * column.
   */
  method ReadRates(f: Frame, toDate: Cell -> Cell, root: real -> real) returns (rows: Option<seq<RateRow>>)
    requires Valid(f)
    ensures rows.None? <==> |f.columns| < 2
    ensures rows.Some? ==> rows.value == RateTable(f, toDate, root)
  {
    var cols := FindRateColumns(f.columns);
    if cols.None? {
      return None;
    }
    var (d, k) := cols.value;
    var annual := ColumnCells(f.rows, k);
    if ObjectColumn(annual) {
      annual := Map(annual, ToNumber);
    }
    assert annual == Coerced(ColumnCells(f.rows, k));
    if AnyMissing(annual) {
      annual := FillGaps(annual);
    }
    assert annual == FilledRates(Coerced(ColumnCells(f.rows, k)));
    rows := Some(seq(|f.rows|, i requires 0 <= i < |f.rows| => RateRow(toDate(f.rows[i][d]), DailyRate(root, annual[i]), annual[i])));
  }

  /** The trading days as `process_risk_free_rate` loads them, with its alias loop. */
  method LoadTradingDays(trading: Option<Frame>, toDate: Cell -> Cell) returns (days: Option<seq<Cell>>)
    ensures days == TradingDays(trading, toDate)
  {
    days := None;
    if trading.Some? {
      var dayName := ResolveColumn(TradingDateCandidates, trading.value.columns);
      if dayName.Some? {
        var dates := TradingDates(trading.value, IndexOf(trading.value.columns, dayName.value), toDate);
        days := Some(SortBy(KeepFirst(dates, Same), DayKey));
      }
    }
  }

  /** The left merge onto the trading days, then `ffill` of each rate column in place. */
  method AlignRates(days: seq<Cell>, rows: seq<RateRow>) returns (out: seq<RateRow>)
    ensures out == Aligned(days, rows)
  {
    var merged := Align(days, rows);
    var daily := ForwardFill(Map(merged, DailyOf));
    var annual := ForwardFill(Map(merged, AnnualOf));
    out := seq(|merged|, i requires 0 <= i < |merged| => RateRow(merged[i].date, daily[i], annual[i]));
  }

  /** The final check: `dropna` on the daily rate when some is missing. */
  method DropMissingRates(rows: seq<RateRow>) returns (out: seq<RateRow>)
    ensures out == DropNullRates(rows)
  {
    out := rows;
    if AnyMissing(Map(rows, DailyOf)) {
      out := Filter(rows, HasDaily);
    }
  }

  /**
   * `process_risk_free_rate` step by step: the rate file, the trading days,
   * the alignment, and the final `dropna`.
   */
  method ProcessRiskFreeRate(fred: Option<Frame>, trading: Option<Frame>, toDate: Cell -> Cell, root: real -> real)
    returns (r: Option<seq<RateRow>>)
    requires fred.Some? ==> Valid(fred.value)
    ensures r == RiskFreeRates(fred, trading, toDate, root)
  {
    if fred.None? {
      return None;
    }
    var read := ReadRates(fred.value, toDate, root);
    if read.None? {
      return None;
    }
    var rows := read.value;
    var days := LoadTradingDays(trading, toDate);
    if days.Some? {
      rows := AlignRates(days.value, rows);
    }
    assert rows == AlignedTo(days, read.value);
    rows := DropMissingRates(rows);
    r := Some(rows);
  }
}
