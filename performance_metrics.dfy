/**
 * `calculate_performance_metrics`: one row of return statistics for every
 * ticker with at least 200 rows, in the order `unique()` lists the tickers.
 * The sample standard deviation (`Series.std`, applied to the present
 * values), `np.sqrt(252)` and the power of the annualised return are
 * parameters; the printed summaries are not modelled.
 */
module PerformanceMetrics {
  import opened Wrappers
  import opened Floats
  import opened Cells
  import opened Seqs
  import opened Frames
  import opened Tickers
  import opened Stats

  /** A `KeyError` on a column the function reads. */
  datatype MetricsError = MissingColumn(name: string)

  /** One entry of `results`. */
  datatype Performance = Performance(
    ticker: Cell,
    tradingDays: nat,
    meanDailyExcessReturn: Float,
    annualizedExcessReturn: Float,
    sharpeRatio: Float,
    cumulativeReturn: Float,
    annualizedReturn: Float,
    meanDailyReturn: Float)

  /** Trading days per year, the annualisation factor of the source. */
  const DaysPerYear: real := 252.0

  /** `(mean / std) * np.sqrt(252)` when the standard deviation is positive, otherwise exactly 0.0. */
  function Sharpe(mean: Float, sd: Float, sqrt252: real): (s: Float)
    ensures !Less(Fin(0.0), sd) ==> s == Fin(0.0)
  {
    if Less(Fin(0.0), sd) then Mul(Div(mean, sd), Fin(sqrt252)) else Fin(0.0)
  }

  /** `(1 + returns).prod() - 1`: the compounded return, missing returns skipped. */
  function CumulativeReturn(daily: seq<Float>): Float
  {
    Sub(Prod(Growth(daily)), Fin(1.0))
  }

  /** `(1 + cumulative_return) ** (252 / len(ticker_data)) - 1`, the power taken by `pow`. */
  function AnnualizedReturn(cumulative: Float, days: nat, pow: (Float, Float) -> Float): Float
  {
    Sub(pow(Add(Fin(1.0), cumulative), Div(Fin(DaysPerYear), Fin(days as real))), Fin(1.0))
  }

  /** The metrics of one ticker from its rows, the Return column `k` and the Excess_Return column `e`. */
  function PerformanceOf(data: seq<seq<Cell>>, x: Cell, k: int, e: int, std: seq<Float> -> Float, sqrt252: real,
                         pow: (Float, Float) -> Float): Performance
  {
    var excess := ColumnFloats(data, e);
    var daily := ColumnFloats(data, k);
    var mean := Mean(excess);
    var cumulative := CumulativeReturn(daily);
    Performance(x, |data|, mean, Mul(mean, Fin(DaysPerYear)), Sharpe(mean, std(Present(excess)), sqrt252), cumulative,
                AnnualizedReturn(cumulative, |data|, pow),
                Mean(daily))
  }

  /** The metrics of ticker `x`, from the rows it owns. */
  function TickerPerformance(rows: seq<seq<Cell>>, t: int, k: int, e: int, std: seq<Float> -> Float, sqrt252: real,
                             pow: (Float, Float) -> Float, x: Cell): Performance
  {
    PerformanceOf(TickerRows(rows, t, x), x, k, e, std, sqrt252, pow)
  }

  /**
   * The table the function returns. With no qualifying ticker the table has
   * no columns and the summary that follows raises a `KeyError` on
   * `Sharpe_Ratio`; the first qualifying ticker reads Excess_Return before
   * Return.
   */
  function PerformanceTable(f: Frame, std: seq<Float> -> Float, sqrt252: real, pow: (Float, Float) -> Float)
    : (r: Result<seq<Performance>, MetricsError>)
    ensures r.Err? <==> "Ticker" !in f.columns || |QualifyingTickers(f.rows, IndexOf(f.columns, "Ticker"))| == 0
                        || "Excess_Return" !in f.columns || "Return" !in f.columns
  {
    var t := IndexOf(f.columns, "Ticker");
    if t < 0 then Err(MissingColumn("Ticker"))
    else
      var q := QualifyingTickers(f.rows, t);
      var e := IndexOf(f.columns, "Excess_Return");
      var k := IndexOf(f.columns, "Return");
      if |q| == 0 then Err(MissingColumn("Sharpe_Ratio"))
      else if e < 0 then Err(MissingColumn("Excess_Return"))
      else if k < 0 then Err(MissingColumn("Return"))
      else Ok(Map(q, (x: Cell) => TickerPerformance(f.rows, t, k, e, std, sqrt252, pow, x)))
  }

  // ---------------------------------------------------------------------------
  // The loop as the source performs it

  /** The loop over `df[ticker_col].unique()`, appending one `metrics` record per qualifying ticker. */
  method CalculatePerformanceMetrics(f: Frame, std: seq<Float> -> Float, sqrt252: real, pow: (Float, Float) -> Float)
    returns (r: Result<seq<Performance>, MetricsError>)
    ensures r == PerformanceTable(f, std, sqrt252, pow)
  {
    var t := IndexOf(f.columns, "Ticker");
    if t < 0 {
      return Err(MissingColumn("Ticker"));
    }
    var tickers := UniqueTickers(f.rows, t);
    var e := IndexOf(f.columns, "Excess_Return");
    var k := IndexOf(f.columns, "Return");
    var results: seq<Performance> := [];
    ghost var kept: seq<Cell> := [];
    for i := 0 to |tickers|
      invariant kept == Filter(tickers[..i], (x: Cell) => Qualifies(f.rows, t, x))
      invariant results == Map(kept, (x: Cell) => TickerPerformance(f.rows, t, k, e, std, sqrt252, pow, x))
      invariant |results| > 0 ==> e >= 0 && k >= 0
    {
      var x := tickers[i];
      FilterPrefixStep(tickers, i, (x: Cell) => Qualifies(f.rows, t, x));
      var data := TickerRows(f.rows, t, x);
      if |data| < MinTradingDays {
        continue;
      }
      var n := |data|;
      if e < 0 {
        assert x in QualifyingTickers(f.rows, t);
        return Err(MissingColumn("Excess_Return"));
      }
      var excess := ColumnFloats(data, e);
      var mean := Mean(excess);
      var annualized := Mul(mean, Fin(DaysPerYear));
      var sd := std(Present(excess));
      var sharpe;
      if Less(Fin(0.0), sd) {
        sharpe := Mul(Div(mean, sd), Fin(sqrt252));
      } else {
        sharpe := Fin(0.0);
      }
      if k < 0 {
        assert x in QualifyingTickers(f.rows, t);
        return Err(MissingColumn("Return"));
      }
      var daily := ColumnFloats(data, k);
      var cumulative := CumulativeReturn(daily);
      var annualizedReturn := Sub(pow(Add(Fin(1.0), cumulative), Div(Fin(DaysPerYear), Fin(n as real))), Fin(1.0));
      var metrics := Performance(x, n, mean, annualized, sharpe, cumulative, annualizedReturn, Mean(daily));
      assert metrics == TickerPerformance(f.rows, t, k, e, std, sqrt252, pow, x);
      MapAppend(kept, x, (x: Cell) => TickerPerformance(f.rows, t, k, e, std, sqrt252, pow, x));
      kept := kept + [x];
      results := results + [metrics];
    }
    assert tickers[..|tickers|] == tickers;
    if |results| == 0 {
      return Err(MissingColumn("Sharpe_Ratio"));
    }
    return Ok(results);
  }

  // ---------------------------------------------------------------------------
  // Properties

  /** Row `i` of the table belongs to the `i`-th qualifying ticker and counts that ticker's rows. */
  lemma PerformanceTickers(f: Frame, std: seq<Float> -> Float, sqrt252: real, pow: (Float, Float) -> Float)
    requires PerformanceTable(f, std, sqrt252, pow).Ok?
    ensures var t := IndexOf(f.columns, "Ticker");
            var q := QualifyingTickers(f.rows, t);
            var out := PerformanceTable(f, std, sqrt252, pow).value;
            |out| == |q| && forall i :: 0 <= i < |out| ==> out[i].ticker == q[i] && out[i].tradingDays == |TickerRows(f.rows, t, q[i])|
  {
    var t := IndexOf(f.columns, "Ticker");
    var q := QualifyingTickers(f.rows, t);
    var F := (x: Cell) => TickerPerformance(f.rows, t, IndexOf(f.columns, "Return"), IndexOf(f.columns, "Excess_Return"), std, sqrt252, pow, x);
    assert PerformanceTable(f, std, sqrt252, pow).value == Map(q, F);
  }

  /**
   * The table has a row for a ticker exactly when the ticker is present and
   * has at least 200 rows, and each row counts its ticker's rows.
   */
  lemma PerformanceRowsSelected(f: Frame, std: seq<Float> -> Float, sqrt252: real, pow: (Float, Float) -> Float)
    requires PerformanceTable(f, std, sqrt252, pow).Ok?
    ensures var t := IndexOf(f.columns, "Ticker");
            var out := PerformanceTable(f, std, sqrt252, pow).value;
            (forall x: Cell :: (exists i :: 0 <= i < |out| && out[i].ticker == x) <==> !x.Null? && |TickerRows(f.rows, t, x)| >= MinTradingDays)
            && (forall i :: 0 <= i < |out| ==> out[i].tradingDays == |TickerRows(f.rows, t, out[i].ticker)| >= MinTradingDays)
  {
    PerformanceTickers(f, std, sqrt252, pow);
    RowsOfQualifying(f.rows, IndexOf(f.columns, "Ticker"), PerformanceTable(f, std, sqrt252, pow).value);
  }

  /** Records made one per qualifying ticker, in order, are there exactly for the qualifying tickers. */
  lemma RowsOfQualifying(rows: seq<seq<Cell>>, t: int, out: seq<Performance>)
    requires |out| == |QualifyingTickers(rows, t)|
    requires forall i :: 0 <= i < |out| ==>
               out[i].ticker == QualifyingTickers(rows, t)[i] && out[i].tradingDays == |TickerRows(rows, t, QualifyingTickers(rows, t)[i])|
    ensures forall x: Cell :: (exists i :: 0 <= i < |out| && out[i].ticker == x) <==> !x.Null? && |TickerRows(rows, t, x)| >= MinTradingDays
    ensures forall i :: 0 <= i < |out| ==> out[i].tradingDays == |TickerRows(rows, t, out[i].ticker)| >= MinTradingDays
  {
    var q := QualifyingTickers(rows, t);
    QualifyingTickersProperties(rows, t);
    forall x: Cell | !x.Null? && |TickerRows(rows, t, x)| >= MinTradingDays ensures exists i :: 0 <= i < |out| && out[i].ticker == x {
      var i :| 0 <= i < |q| && q[i] == x;
      assert out[i].ticker == x;
    }
    forall i | 0 <= i < |out| ensures |TickerRows(rows, t, out[i].ticker)| >= MinTradingDays {
      assert q[i] in q;
    }
  }

  /** Rows of the table name distinct tickers, in the order of the tickers' first rows. */
  lemma PerformanceRowsOrder(f: Frame, std: seq<Float> -> Float, sqrt252: real, pow: (Float, Float) -> Float)
    requires PerformanceTable(f, std, sqrt252, pow).Ok?
    ensures var t := IndexOf(f.columns, "Ticker");
            var out := PerformanceTable(f, std, sqrt252, pow).value;
            forall i, j :: 0 <= i < j < |out| ==>
              out[i].ticker != out[j].ticker && FirstRow(f.rows, t, out[i].ticker) < FirstRow(f.rows, t, out[j].ticker)
  {
    PerformanceTickers(f, std, sqrt252, pow);
    QualifyingTickersProperties(f.rows, IndexOf(f.columns, "Ticker"));
  }

  /** A positive standard deviation gives the Sharpe ratio the sign of the mean excess return. */
  lemma SharpeSign(mean: Float, sd: Float, sqrt252: real)
    requires mean.Fin? && sd.Fin? && sd.v > 0.0 && sqrt252 > 0.0
    ensures Sharpe(mean, sd, sqrt252).Fin? && Sign(Sharpe(mean, sd, sqrt252)) == Sign(mean)
  {
    var q := mean.v / sd.v;
    assert Sharpe(mean, sd, sqrt252) == Fin(q * sqrt252);
    if mean.v > 0.0 {
      assert q > 0.0;
      assert q * sqrt252 > 0.0;
    } else if mean.v < 0.0 {
      assert q < 0.0;
      assert q * sqrt252 < 0.0;
    } else {
      assert q == 0.0;
    }
  }

  /** A mean excess return of zero gives a Sharpe ratio of zero, whatever the deviation. */
  lemma SharpeOfZeroMean(sd: Float, sqrt252: real)
    ensures Sharpe(Fin(0.0), sd, sqrt252) == Fin(0.0)
  {
    if Less(Fin(0.0), sd) && sd.Fin? {
      assert 0.0 / sd.v == 0.0;
    }
  }

  /** With finite returns only, the cumulative return is the real product of `1 + r`, less one. */
  lemma CumulativeFinite(daily: seq<Float>)
    requires AllFinite(daily)
    ensures AllFinite(Growth(daily)) && CumulativeReturn(daily) == Fin(RealProduct(Growth(daily)) - 1.0)
  {
    var ones := Growth(daily);
    assert AllFinite(ones);
    PresentAll(ones);
    ProductFinite(ones);
    SubFinite(RealProduct(ones), 1.0);
  }

  /** Returns that are all zero compound to a cumulative return of zero. */
  lemma CumulativeOfZeros(daily: seq<Float>)
    requires forall i :: 0 <= i < |daily| ==> daily[i] == Fin(0.0)
    ensures CumulativeReturn(daily) == Fin(0.0)
  {
    var ones := Growth(daily);
    assert forall i :: 0 <= i < |ones| ==> ones[i] == Fin(1.0);
    PresentAll(ones);
    ProductOfOnes(ones);
    SubFinite(1.0, 1.0);
  }

  /**
   * With finite values in both columns, the means are real means and the
   * annualised excess return is 252 times the mean daily excess return.
   */
  lemma PerformanceOfFinite(data: seq<seq<Cell>>, x: Cell, k: int, e: int, std: seq<Float> -> Float, sqrt252: real,
                            pow: (Float, Float) -> Float)
    requires |data| > 0
    requires AllFinite(ColumnFloats(data, e)) && AllFinite(ColumnFloats(data, k))
    ensures var p := PerformanceOf(data, x, k, e, std, sqrt252, pow);
            var n := |data| as real;
            p.ticker == x && p.tradingDays == |data|
            && p.meanDailyExcessReturn == Fin(RealSum(ColumnFloats(data, e)) / n)
            && p.annualizedExcessReturn == Fin(p.meanDailyExcessReturn.v * DaysPerYear)
            && p.meanDailyReturn == Fin(RealSum(ColumnFloats(data, k)) / n)
  {
    var excess := ColumnFloats(data, e);
    var daily := ColumnFloats(data, k);
    var p := PerformanceOf(data, x, k, e, std, sqrt252, pow);
    assert p.meanDailyExcessReturn == Mean(excess) && p.meanDailyReturn == Mean(daily);
    assert p.annualizedExcessReturn == Mul(Mean(excess), Fin(DaysPerYear));
    MeanFinite(excess);
    MeanFinite(daily);
    MulFinite(Mean(excess).v, DaysPerYear);
  }

  /**
   * With finite excess returns, the Sharpe ratio is zero unless the
   * deviation is positive, in which case it has the sign of the mean.
   */
  lemma PerformanceSharpe(data: seq<seq<Cell>>, x: Cell, k: int, e: int, std: seq<Float> -> Float, sqrt252: real,
                          pow: (Float, Float) -> Float)
    requires |data| > 0 && sqrt252 > 0.0
    requires AllFinite(ColumnFloats(data, e))
    ensures var p := PerformanceOf(data, x, k, e, std, sqrt252, pow);
            var sd := std(ColumnFloats(data, e));
            (!Less(Fin(0.0), sd) ==> p.sharpeRatio == Fin(0.0))
            && (sd.Fin? && sd.v > 0.0 ==> Sign(p.sharpeRatio) == Sign(p.meanDailyExcessReturn))
  {
    var excess := ColumnFloats(data, e);
    MeanFinite(excess);
    PresentAll(excess);
    var sd := std(excess);
    if sd.Fin? && sd.v > 0.0 {
      SharpeSign(Mean(excess), sd, sqrt252);
    }
  }
}
