/**
 * `calculate_risk_metrics`: volatility, beta, downside deviation, the
 * deviation of excess returns, the 5% value at risk and the maximum drawdown
 * of every ticker with at least 200 rows. The sample standard deviation
 * (applied to the values it is given), `np.sqrt(252)` and
 * `Series.quantile(0.05)` are parameters; the printed summaries are not
 * modelled.
 */
module RiskMetrics {
  import opened Wrappers
  import opened Floats
  import opened Cells
  import opened Seqs
  import opened Frames
  import opened Tickers
  import opened Stats

  /** A `KeyError` on a column the function reads. */
  datatype RiskError = MissingColumn(name: string)

  /** One entry of `results`. */
  datatype Risk = Risk(
    ticker: Cell,
    volatility: Float,
    beta: Float,
    downsideDeviation: Float,
    excessReturnStd: Float,
    valueAtRisk: Float,
    maxDrawdown: Float)

  /** Paired rows a ticker needs before its beta is estimated. */
  const MinBetaRows := 100

  /** `market_return_col in df.columns and df[market_return_col].notna().any()`. */
  predicate HasMarketReturns(f: Frame)
  {
    var m := IndexOf(f.columns, "Market_Return");
    m >= 0 && exists i :: 0 <= i < |f.rows| && !At(f.rows[i], m).Null?
  }

  // ---------------------------------------------------------------------------
  // Beta

  /** `ticker_data[[return_col, market_return_col]].dropna()`. */
  function PairedRows(data: seq<seq<Cell>>, k: int, m: int): seq<seq<Cell>>
  {
    Filter(data, (row: seq<Cell>) => !At(row, k).Null? && !At(row, m).Null?)
  }

  /**
   * Beta: NaN without market returns, with fewer than 100 paired rows, or
   * when the market variance is not positive; otherwise the covariance of the
   * two columns over the market variance.
   */
  function Beta(data: seq<seq<Cell>>, k: int, m: int, hasMarket: bool): Float
  {
    if !hasMarket then NaN
    else
      var valid := PairedRows(data, k, m);
      if |valid| < MinBetaRows then NaN
      else
        var ms := ColumnFloats(valid, m);
        var variance := Cov(ms, ms);
        if Less(Fin(0.0), variance) then Div(Cov(ColumnFloats(valid, k), ms), variance) else NaN
  }

  // ---------------------------------------------------------------------------
  // Downside deviation

  /** `ticker_data[ticker_data[return_col] < 0][return_col]`: NaN compares false and is dropped. */
  function NegativeReturns(daily: seq<Float>): seq<Float>
  {
    Filter(daily, (r: Float) => Less(r, Fin(0.0)))
  }

  /** The annualised deviation of the negative returns, exactly 0.0 when there is none. */
  function DownsideDeviation(daily: seq<Float>, std: seq<Float> -> Float, sqrt252: real): Float
  {
    var negative := NegativeReturns(daily);
    if |negative| > 0 then Mul(std(negative), Fin(sqrt252)) else Fin(0.0)
  }

  // ---------------------------------------------------------------------------
  // Maximum drawdown

  /** The larger of two values with NaN skipped, as `expanding().max()` combines them. */
  function MaxSkip(a: Float, b: Float): Float
  {
    if a.NaN? then b else if b.NaN? then a else if Less(a, b) then b else a
  }

  /** The smaller of two values with NaN skipped, as `min()` combines them. */
  function MinSkip(a: Float, b: Float): Float
  {
    if a.NaN? then b else if b.NaN? then a else if Less(b, a) then b else a
  }

  /** `(1 + returns).cumprod()` at row `i`: NaN at a missing factor, otherwise the product of the present factors so far. */
  function CumulativeAt(g: seq<Float>, i: int): Float
    requires 0 <= i < |g|
  {
    if g[i].NaN? then NaN else Prod(g[..i + 1])
  }

  /** `cumulative_returns.expanding().max()` at row `i`. */
  function RunningMax(g: seq<Float>, i: int): Float
    requires 0 <= i < |g|
    decreases i
  {
    if i == 0 then CumulativeAt(g, 0) else MaxSkip(RunningMax(g, i - 1), CumulativeAt(g, i))
  }

  /** `(cumulative_returns - running_max) / running_max` at row `i`. */
  function DrawdownAt(g: seq<Float>, i: int): Float
    requires 0 <= i < |g|
  {
    Div(Sub(CumulativeAt(g, i), RunningMax(g, i)), RunningMax(g, i))
  }

  /** `drawdown.min()` over the first `n` rows: NaN when every drawdown is NaN. */
  function LowestDrawdown(g: seq<Float>, n: int): Float
    requires 0 <= n <= |g|
  {
    if n == 0 then NaN else MinSkip(LowestDrawdown(g, n - 1), DrawdownAt(g, n - 1))
  }

  function MaxDrawdown(daily: seq<Float>): Float
  {
    LowestDrawdown(Growth(daily), |daily|)
  }

  // ---------------------------------------------------------------------------
  // The table

  /** The metrics of one ticker from its rows and the Return, Excess_Return and Market_Return columns. */
  function RiskOf(data: seq<seq<Cell>>, x: Cell, k: int, e: int, m: int, hasMarket: bool, std: seq<Float> -> Float,
                  sqrt252: real, quantile: seq<Float> -> Float): Risk
  {
    var daily := ColumnFloats(data, k);
    Risk(x, Mul(std(Present(daily)), Fin(sqrt252)), Beta(data, k, m, hasMarket), DownsideDeviation(daily, std, sqrt252),
         Mul(std(Present(ColumnFloats(data, e))), Fin(sqrt252)), quantile(Present(daily)), MaxDrawdown(daily))
  }

  /** The metrics of ticker `x`, from the rows it owns. */
  function TickerRisk(f: Frame, t: int, k: int, e: int, std: seq<Float> -> Float, sqrt252: real,
                      quantile: seq<Float> -> Float, x: Cell): Risk
  {
    RiskOf(TickerRows(f.rows, t, x), x, k, e, IndexOf(f.columns, "Market_Return"), HasMarketReturns(f), std, sqrt252, quantile)
  }

  /**
   * The table the function returns. With no qualifying ticker the table has
   * no columns and the summary that follows raises a `KeyError` on
   * `Volatility`; the first qualifying ticker reads Return before
   * Excess_Return.
   */
  function RiskTable(f: Frame, std: seq<Float> -> Float, sqrt252: real, quantile: seq<Float> -> Float)
    : (r: Result<seq<Risk>, RiskError>)
    ensures r.Err? <==> "Ticker" !in f.columns || |QualifyingTickers(f.rows, IndexOf(f.columns, "Ticker"))| == 0
                        || "Return" !in f.columns || "Excess_Return" !in f.columns
  {
    var t := IndexOf(f.columns, "Ticker");
    if t < 0 then Err(MissingColumn("Ticker"))
    else
      var q := QualifyingTickers(f.rows, t);
      var k := IndexOf(f.columns, "Return");
      var e := IndexOf(f.columns, "Excess_Return");
      if |q| == 0 then Err(MissingColumn("Volatility"))
      else if k < 0 then Err(MissingColumn("Return"))
      else if e < 0 then Err(MissingColumn("Excess_Return"))
      else Ok(Map(q, (x: Cell) => TickerRisk(f, t, k, e, std, sqrt252, quantile, x)))
  }

  // ---------------------------------------------------------------------------
  // The loop as the source performs it

  /** The loop over `df[ticker_col].unique()`, appending one `metrics` record per qualifying ticker. */
  method CalculateRiskMetrics(f: Frame, std: seq<Float> -> Float, sqrt252: real, quantile: seq<Float> -> Float)
    returns (r: Result<seq<Risk>, RiskError>)
    ensures r == RiskTable(f, std, sqrt252, quantile)
  {
    var t := IndexOf(f.columns, "Ticker");
    if t < 0 {
      return Err(MissingColumn("Ticker"));
    }
    var hasMarket := HasMarketReturns(f);
    var m := IndexOf(f.columns, "Market_Return");
    var k := IndexOf(f.columns, "Return");
    var e := IndexOf(f.columns, "Excess_Return");
    var tickers := UniqueTickers(f.rows, t);
    var results: seq<Risk> := [];
    ghost var kept: seq<Cell> := [];
    for i := 0 to |tickers|
      invariant kept == Filter(tickers[..i], (x: Cell) => Qualifies(f.rows, t, x))
      invariant results == Map(kept, (x: Cell) => TickerRisk(f, t, k, e, std, sqrt252, quantile, x))
      invariant |results| > 0 ==> k >= 0 && e >= 0
    {
      var x := tickers[i];
      FilterPrefixStep(tickers, i, (x: Cell) => Qualifies(f.rows, t, x));
      var data := TickerRows(f.rows, t, x);
      if |data| < MinTradingDays {
        continue;
      }
      if k < 0 {
        assert x in QualifyingTickers(f.rows, t);
        return Err(MissingColumn("Return"));
      }
      var daily := ColumnFloats(data, k);
      var volatility := Mul(std(Present(daily)), Fin(sqrt252));
      var beta;
      if hasMarket {
        var valid := PairedRows(data, k, m);
        if |valid| >= MinBetaRows {
          var ms := ColumnFloats(valid, m);
          var covariance := Cov(ColumnFloats(valid, k), ms);
          var variance := Cov(ms, ms);
          if Less(Fin(0.0), variance) {
            beta := Div(covariance, variance);
          } else {
            beta := NaN;
          }
        } else {
          beta := NaN;
        }
      } else {
        beta := NaN;
      }
      var negative := NegativeReturns(daily);
      var downside;
      if |negative| > 0 {
        downside := Mul(std(negative), Fin(sqrt252));
      } else {
        downside := Fin(0.0);
      }
      if e < 0 {
        assert x in QualifyingTickers(f.rows, t);
        return Err(MissingColumn("Excess_Return"));
      }
      var excessStd := Mul(std(Present(ColumnFloats(data, e))), Fin(sqrt252));
      var metrics := Risk(x, volatility, beta, downside, excessStd, quantile(Present(daily)), MaxDrawdown(daily));
      assert metrics == TickerRisk(f, t, k, e, std, sqrt252, quantile, x);
      MapAppend(kept, x, (x: Cell) => TickerRisk(f, t, k, e, std, sqrt252, quantile, x));
      kept := kept + [x];
      results := results + [metrics];
    }
    assert tickers[..|tickers|] == tickers;
    if |results| == 0 {
      return Err(MissingColumn("Volatility"));
    }
    return Ok(results);
  }

  // ---------------------------------------------------------------------------
  // Properties of the table

  /** Row `i` of the table belongs to the `i`-th qualifying ticker and holds its metrics. */
  lemma RiskTickers(f: Frame, std: seq<Float> -> Float, sqrt252: real, quantile: seq<Float> -> Float)
    requires RiskTable(f, std, sqrt252, quantile).Ok?
    ensures var t := IndexOf(f.columns, "Ticker");
            var q := QualifyingTickers(f.rows, t);
            var out := RiskTable(f, std, sqrt252, quantile).value;
            |out| == |q|
            && forall i :: 0 <= i < |out| ==>
                 out[i].ticker == q[i]
                 && out[i] == TickerRisk(f, t, IndexOf(f.columns, "Return"), IndexOf(f.columns, "Excess_Return"), std, sqrt252, quantile, q[i])
  {
    var t := IndexOf(f.columns, "Ticker");
    var F := (x: Cell) => TickerRisk(f, t, IndexOf(f.columns, "Return"), IndexOf(f.columns, "Excess_Return"), std, sqrt252, quantile, x);
    assert RiskTable(f, std, sqrt252, quantile).value == Map(QualifyingTickers(f.rows, t), F);
  }

  /**
   * The table has a row for a ticker exactly when the ticker is present and
   * has at least 200 rows; rows name distinct tickers in the order of their
   * first rows.
   */
  lemma RiskRows(f: Frame, std: seq<Float> -> Float, sqrt252: real, quantile: seq<Float> -> Float)
    requires RiskTable(f, std, sqrt252, quantile).Ok?
    ensures var t := IndexOf(f.columns, "Ticker");
            var out := RiskTable(f, std, sqrt252, quantile).value;
            (forall x: Cell :: (exists i :: 0 <= i < |out| && out[i].ticker == x) <==> !x.Null? && |TickerRows(f.rows, t, x)| >= MinTradingDays)
            && (forall i, j :: 0 <= i < j < |out| ==>
                  out[i].ticker != out[j].ticker && FirstRow(f.rows, t, out[i].ticker) < FirstRow(f.rows, t, out[j].ticker))
  {
    var t := IndexOf(f.columns, "Ticker");
    var q := QualifyingTickers(f.rows, t);
    var out := RiskTable(f, std, sqrt252, quantile).value;
    RiskTickers(f, std, sqrt252, quantile);
    QualifyingTickersProperties(f.rows, t);
    forall x: Cell | !x.Null? && |TickerRows(f.rows, t, x)| >= MinTradingDays ensures exists i :: 0 <= i < |out| && out[i].ticker == x {
      var i :| 0 <= i < |q| && q[i] == x;
      assert out[i].ticker == x;
    }
  }

  // ---------------------------------------------------------------------------
  // Properties of beta

  /** Beta is estimated only with market returns, at least 100 paired rows and a positive market variance. */
  lemma BetaGuards(data: seq<seq<Cell>>, k: int, m: int, hasMarket: bool)
    ensures var valid := PairedRows(data, k, m);
            var ms := ColumnFloats(valid, m);
            !Beta(data, k, m, hasMarket).NaN? ==> hasMarket && |valid| >= MinBetaRows && Less(Fin(0.0), Cov(ms, ms))
  {
  }

  /** Every paired row has both returns, and every row with both returns is paired. */
  lemma PairedRowsComplete(data: seq<seq<Cell>>, k: int, m: int)
    ensures forall row :: row in PairedRows(data, k, m) <==> row in data && !At(row, k).Null? && !At(row, m).Null?
  {
    var valid := PairedRows(data, k, m);
    forall row | row in valid ensures row in data && !At(row, k).Null? && !At(row, m).Null? {
      var i :| 0 <= i < |valid| && valid[i] == row;
    }
    forall row | row in data && !At(row, k).Null? && !At(row, m).Null? ensures row in valid {
      var i :| 0 <= i < |data| && data[i] == row;
    }
  }

  /** A ticker whose returns are the market's own returns has beta 1, whenever beta is estimated. */
  lemma BetaOfMarket(data: seq<seq<Cell>>, k: int, m: int)
    requires forall i :: 0 <= i < |data| ==> At(data[i], k) == At(data[i], m) && ToFloat(At(data[i], m)).Fin?
    ensures Beta(data, k, m, true).NaN? || Beta(data, k, m, true) == Fin(1.0)
  {
    var valid := PairedRows(data, k, m);
    if |valid| >= MinBetaRows {
      var ms := ColumnFloats(valid, m);
      MarketSample(data, k, m);
      CovFinite(ms, ms);
      var variance := Cov(ms, ms);
      if Less(Fin(0.0), variance) {
        assert Beta(data, k, m, true) == Div(variance, variance);
        assert variance.v / variance.v == 1.0;
      }
    }
  }

  /** Paired rows of a ticker that is the market hold the same finite value in both columns. */
  lemma MarketSample(data: seq<seq<Cell>>, k: int, m: int)
    requires forall i :: 0 <= i < |data| ==> At(data[i], k) == At(data[i], m) && ToFloat(At(data[i], m)).Fin?
    ensures ColumnFloats(PairedRows(data, k, m), k) == ColumnFloats(PairedRows(data, k, m), m)
    ensures AllFinite(ColumnFloats(PairedRows(data, k, m), m))
  {
    var valid := PairedRows(data, k, m);
    forall j | 0 <= j < |valid| ensures At(valid[j], k) == At(valid[j], m) && ToFloat(At(valid[j], m)).Fin? {
      var i :| 0 <= i < |data| && data[i] == valid[j];
    }
  }

  /** A market that does not move has variance zero, so beta is NaN. */
  lemma BetaOfConstantMarket(data: seq<seq<Cell>>, k: int, m: int, hasMarket: bool, c: real)
    requires forall i :: 0 <= i < |data| ==> At(data[i], m) == Num(c)
    ensures Beta(data, k, m, hasMarket).NaN?
  {
    var valid := PairedRows(data, k, m);
    if hasMarket && |valid| >= MinBetaRows {
      var ms := ColumnFloats(valid, m);
      forall j | 0 <= j < |valid| ensures ms[j] == Fin(c) {
        var i :| 0 <= i < |data| && data[i] == valid[j];
      }
      VarianceOfConstant(ms, c);
    }
  }

  // ---------------------------------------------------------------------------
  // Properties of the downside deviation

  /** Without a strictly negative return the downside deviation is exactly zero. */
  lemma DownsideWithoutLosses(daily: seq<Float>, std: seq<Float> -> Float, sqrt252: real)
    requires forall i :: 0 <= i < |daily| ==> !Less(daily[i], Fin(0.0))
    ensures DownsideDeviation(daily, std, sqrt252) == Fin(0.0)
  {
    FilterNone(daily, (r: Float) => Less(r, Fin(0.0)));
  }

  /** The downside sample is every strictly negative return and nothing else, in order. */
  lemma NegativeReturnsExact(daily: seq<Float>)
    ensures forall r :: r in NegativeReturns(daily) <==> r in daily && Less(r, Fin(0.0))
  {
  }

  // ---------------------------------------------------------------------------
  // Properties of the drawdown

  /**
   * The running maximum is never below the cumulative value at its row and
   * never below the running maximum of the row before.
   */
  lemma RunningMaxStep(g: seq<Float>, i: int)
    requires 0 <= i < |g|
    ensures !CumulativeAt(g, i).NaN? ==> !RunningMax(g, i).NaN? && !Less(RunningMax(g, i), CumulativeAt(g, i))
    ensures i > 0 && !RunningMax(g, i - 1).NaN? ==> !RunningMax(g, i).NaN? && !Less(RunningMax(g, i), RunningMax(g, i - 1))
  {
  }

  /** Every value is finite and above -1: no day loses everything. */
  predicate Bounded(daily: seq<Float>)
  {
    forall i :: 0 <= i < |daily| ==> daily[i].Fin? && daily[i].v > -1.0
  }

  /** Every value is a finite gain. */
  predicate Gains(daily: seq<Float>)
  {
    forall i :: 0 <= i < |daily| ==> daily[i].Fin? && daily[i].v >= 0.0
  }

  /** Every growth factor is finite and positive. */
  predicate PositiveFactors(g: seq<Float>)
  {
    forall i :: 0 <= i < |g| ==> g[i].Fin? && g[i].v > 0.0
  }

  /** Every growth factor is finite and at least one. */
  predicate RisingFactors(g: seq<Float>)
  {
    forall i :: 0 <= i < |g| ==> g[i].Fin? && g[i].v >= 1.0
  }

  lemma GrowthOfBounded(daily: seq<Float>)
    requires Bounded(daily)
    ensures PositiveFactors(Growth(daily))
  {
  }

  lemma GrowthOfGains(daily: seq<Float>)
    requires Gains(daily)
    ensures PositiveFactors(Growth(daily)) && RisingFactors(Growth(daily))
  {
  }

  /** Without a missing factor each cumulative value is the one before times the day's factor. */
  lemma CumulativeStep(g: seq<Float>, i: int)
    requires 0 <= i && i + 1 < |g| && forall j :: 0 <= j < |g| ==> !g[j].NaN?
    ensures CumulativeAt(g, i + 1) == Mul(CumulativeAt(g, i), g[i + 1])
  {
    var w := g[..i + 1 + 1];
    assert w[..|w| - 1] == g[..i + 1];
    PresentAll(g[..i + 1]);
    PresentAll(w);
  }

  /** The first cumulative value is the first factor. */
  lemma CumulativeFirst(g: seq<Float>)
    requires |g| > 0 && g[0].Fin?
    ensures CumulativeAt(g, 0) == g[0]
  {
    var w := g[..0 + 1];
    PresentAll(w);
    assert w[..|w| - 1] == [];
    assert Product(w) == Mul(Product([]), w[0]);
    assert CumulativeAt(g, 0) == Mul(Fin(1.0), g[0]);
  }

  /** A positive cumulative value times a positive factor stays positive. */
  lemma CumulativeStaysPositive(g: seq<Float>, i: int)
    requires PositiveFactors(g) && 0 <= i && i + 1 < |g|
    requires CumulativeAt(g, i).Fin? && CumulativeAt(g, i).v > 0.0
    ensures CumulativeAt(g, i + 1).Fin? && CumulativeAt(g, i + 1).v > 0.0
  {
    CumulativeStep(g, i);
    var c := CumulativeAt(g, i).v;
    var f := g[i + 1].v;
    assert CumulativeAt(g, i + 1) == Fin(c * f);
    assert c * f > 0.0;
  }

  /** With positive factors every cumulative value is finite and positive. */
  lemma {:induction false} CumulativePositive(g: seq<Float>, i: int)
    requires PositiveFactors(g) && 0 <= i < |g|
    ensures CumulativeAt(g, i).Fin? && CumulativeAt(g, i).v > 0.0
    decreases i
  {
    if i == 0 {
      CumulativeFirst(g);
    } else {
      CumulativePositive(g, i - 1);
      CumulativeStaysPositive(g, i - 1);
    }
  }

  /**
   * With positive factors the running maximum is finite, positive, at least
   * the cumulative value at its row and at least the running maximum before.
   */
  lemma {:induction false} RunningMaxBounded(g: seq<Float>, i: int)
    requires PositiveFactors(g) && 0 <= i < |g|
    ensures CumulativeAt(g, i).Fin? && RunningMax(g, i).Fin?
    ensures 0.0 < CumulativeAt(g, i).v <= RunningMax(g, i).v
    ensures i > 0 ==> RunningMax(g, i - 1).Fin? && RunningMax(g, i - 1).v <= RunningMax(g, i).v
    decreases i
  {
    CumulativePositive(g, i);
    if i > 0 {
      RunningMaxBounded(g, i - 1);
      assert RunningMax(g, i) == MaxSkip(RunningMax(g, i - 1), CumulativeAt(g, i));
    }
  }

  lemma DrawdownRange(c: real, top: real)
    requires 0.0 < c <= top
    ensures -1.0 < (c - top) / top <= 0.0
  {
    var d := (c - top) / top;
    assert d * top == c - top;
    if d > 0.0 {
      assert false;
    }
    if d <= -1.0 {
      assert false;
    }
  }

  /** With positive factors every drawdown is finite, at most zero and above -1. */
  lemma DrawdownBounded(g: seq<Float>, i: int)
    requires PositiveFactors(g) && 0 <= i < |g|
    ensures DrawdownAt(g, i).Fin? && -1.0 < DrawdownAt(g, i).v <= 0.0
  {
    RunningMaxBounded(g, i);
    var c := CumulativeAt(g, i).v;
    var top := RunningMax(g, i).v;
    SubFinite(c, top);
    DrawdownRange(c, top);
  }

  /** With positive factors the lowest drawdown is finite, at most zero and above -1. */
  lemma {:induction false} LowestDrawdownBounded(g: seq<Float>, n: int)
    requires PositiveFactors(g) && 0 < n <= |g|
    ensures LowestDrawdown(g, n).Fin? && -1.0 < LowestDrawdown(g, n).v <= 0.0
    decreases n
  {
    DrawdownBounded(g, n - 1);
    if n > 1 {
      LowestDrawdownBounded(g, n - 1);
    }
  }

  /** With every return finite and above -1, the maximum drawdown is finite, at most zero and above -1. */
  lemma MaxDrawdownBounded(daily: seq<Float>)
    requires Bounded(daily) && |daily| > 0
    ensures MaxDrawdown(daily).Fin? && -1.0 < MaxDrawdown(daily).v <= 0.0
  {
    GrowthOfBounded(daily);
    LowestDrawdownBounded(Growth(daily), |daily|);
  }

  lemma GrowAtLeast(p: real, a: real)
    requires p > 0.0 && a >= 1.0
    ensures p * a >= p
  {
    assert p * a - p == p * (a - 1.0);
  }

  /** With factors of at least one, the cumulative value never falls. */
  lemma CumulativeRises(g: seq<Float>, i: int)
    requires PositiveFactors(g) && RisingFactors(g) && 0 <= i && i + 1 < |g|
    ensures CumulativeAt(g, i).Fin? && CumulativeAt(g, i + 1).Fin?
    ensures CumulativeAt(g, i).v <= CumulativeAt(g, i + 1).v
  {
    CumulativePositive(g, i);
    CumulativeStep(g, i);
    var c := CumulativeAt(g, i).v;
    var f := g[i + 1].v;
    assert CumulativeAt(g, i + 1) == Fin(c * f);
    GrowAtLeast(c, f);
  }

  /** With factors of at least one, the running maximum is the cumulative value itself. */
  lemma {:induction false} RunningMaxOfRising(g: seq<Float>, i: int)
    requires PositiveFactors(g) && RisingFactors(g) && 0 <= i < |g|
    ensures RunningMax(g, i) == CumulativeAt(g, i)
    decreases i
  {
    if i > 0 {
      RunningMaxOfRising(g, i - 1);
      CumulativeRises(g, i - 1);
    }
  }

  /** With factors of at least one, every drawdown is exactly zero. */
  lemma DrawdownOfRising(g: seq<Float>, i: int)
    requires PositiveFactors(g) && RisingFactors(g) && 0 <= i < |g|
    ensures DrawdownAt(g, i) == Fin(0.0)
  {
    RunningMaxOfRising(g, i);
    CumulativePositive(g, i);
    var c := CumulativeAt(g, i).v;
    SubFinite(c, c);
    assert 0.0 / c == 0.0;
  }

  /** With factors of at least one, the lowest drawdown is exactly zero. */
  lemma {:induction false} LowestDrawdownOfRising(g: seq<Float>, n: int)
    requires PositiveFactors(g) && RisingFactors(g) && 0 < n <= |g|
    ensures LowestDrawdown(g, n) == Fin(0.0)
    decreases n
  {
    DrawdownOfRising(g, n - 1);
    if n > 1 {
      LowestDrawdownOfRising(g, n - 1);
    }
  }

  /** With every return a finite gain, the maximum drawdown is exactly zero. */
  lemma MaxDrawdownOfGains(daily: seq<Float>)
    requires Gains(daily) && |daily| > 0
    ensures MaxDrawdown(daily) == Fin(0.0)
  {
    GrowthOfGains(daily);
    LowestDrawdownOfRising(Growth(daily), |daily|);
  }
}
