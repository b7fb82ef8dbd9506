/**
 * The regressions of the three research questions: which columns enter each
 * model, which rows form the complete-case sample, the 5% significance flag
 * and the dominant ESG pillar. The least-squares fit itself (`sm.OLS(y,
 * add_constant(X)).fit()`) is a parameter `ols` from the response column and
 * the regressor table to a `Fit`; the printed summaries are not modelled.
 */
module RegressionModels {
  import opened Wrappers
  import opened Floats
  import opened Cells
  import opened Text
  import opened Seqs
  import opened Frames

  const SectorPrefix: string := "Sector_"
  const EsgColumn: string := "totalEsg"
  const LogMarketCapColumn: string := "Log_Market_Cap"
  const SharpeColumn: string := "Sharpe_Ratio"
  const VolatilityColumn: string := "Volatility"
  const EnvironmentColumn: string := "environmentScore"
  const SocialColumn: string := "socialScore"
  const GovernanceColumn: string := "governanceScore"
  const SignificanceLevel: real := 0.05

  /** What the fit reports: coefficients and p-values by regressor name, and the fit statistics. */
  datatype Fit = Fit(coef: string -> Float, pvalue: string -> Float,
                     rSquared: Float, adjRSquared: Float, fValue: Float, fPValue: Float)

  /** The summary of the RQ1 and RQ2 models. */
  datatype EsgModelResult = EsgModelResult(
    modelName: string, nObs: nat,
    rSquared: Float, adjRSquared: Float, fStatistic: Float, fPValue: Float,
    esgCoef: Float, esgPValue: Float, esgSignificant: bool)

  datatype Pillar = E | S | G

  /** Why a model cannot be fitted. */
  datatype ModelError =
    | MissingColumn(name: string)  // the selection names a column the table lacks: KeyError
    | NonNumericColumn             // a model column holds a string or a date: `sm.OLS` refuses object data with ValueError
    | EmptySample                  // no complete case: `sm.OLS` raises on zero rows
    | InfiniteRegressor            // a complete case with an infinite regressor: `sm.OLS` (MissingDataError) or its fit raises

  /** The summary of one RQ3 model. */
  datatype PillarResult = PillarResult(
    eCoef: Float, ePValue: Float, sCoef: Float, sPValue: Float, gCoef: Float, gPValue: Float,
    dominant: Pillar)

  // ---------------------------------------------------------------------------
  // Model columns

  predicate IsSectorColumn(name: string)
  {
    StartsWith(name, SectorPrefix)
  }

  /** The sector dummies: the columns whose name starts with `Sector_`, in column order. */
  function SectorColumns(columns: seq<string>): (r: seq<string>)
    ensures forall c :: c in r <==> c in columns && IsSectorColumn(c)
  {
    Filter(columns, IsSectorColumn)
  }

  /** Over distinct column names the sector dummies keep the table's column order. */
  lemma SectorColumnsOrder(columns: seq<string>)
    requires Distinct(columns)
    ensures forall a, b :: 0 <= a < b < |SectorColumns(columns)| ==>
              IndexOf(columns, SectorColumns(columns)[a]) < IndexOf(columns, SectorColumns(columns)[b])
  {
    var pos := (c: string) => IndexOf(columns, c);
    forall a, b | 0 <= a < b < |columns| ensures pos(columns[a]) < pos(columns[b]) {
      assert IndexOf(columns, columns[a]) == a;
      assert IndexOf(columns, columns[b]) == b;
    }
    FilterIncreasing(columns, IsSectorColumn, pos);
  }

  /** RQ1 and RQ2 regressors: the total ESG score, the log market cap, then the sector dummies. */
  function EsgRegressors(columns: seq<string>): seq<string>
  {
    [EsgColumn, LogMarketCapColumn] + SectorColumns(columns)
  }

  /** RQ3 regressors: the three pillar scores, the log market cap, then the sector dummies. */
  function PillarRegressors(columns: seq<string>): seq<string>
  {
    [EnvironmentColumn, SocialColumn, GovernanceColumn, LogMarketCapColumn] + SectorColumns(columns)
  }

  /** A name that differs from `Sector_` in its first two characters is not a sector dummy. */
  lemma NotSector(name: string)
    requires 2 <= |name| && (name[0] != 'S' || name[1] != 'e')
    ensures !IsSectorColumn(name)
  {
    assert SectorPrefix[0] == 'S' && SectorPrefix[1] == 'e';
  }

  lemma FixedNotSector()
    ensures !IsSectorColumn(SharpeColumn) && !IsSectorColumn(VolatilityColumn)
    ensures !IsSectorColumn(EsgColumn) && !IsSectorColumn(LogMarketCapColumn)
    ensures !IsSectorColumn(EnvironmentColumn) && !IsSectorColumn(SocialColumn) && !IsSectorColumn(GovernanceColumn)
  {
    assert SharpeColumn[1] == 'h';
    NotSector(SharpeColumn);
    NotSector(VolatilityColumn);
    NotSector(EsgColumn);
    NotSector(LogMarketCapColumn);
    NotSector(EnvironmentColumn);
    NotSector(SocialColumn);
    NotSector(GovernanceColumn);
  }

  /** A model's columns, response first, then the regressors. */
  function EsgModelColumns(columns: seq<string>, dv: string): (names: seq<string>)
    ensures |names| == 3 + |SectorColumns(columns)|
    ensures names[0] == dv && names[1..] == EsgRegressors(columns)
  {
    [dv, EsgColumn, LogMarketCapColumn] + SectorColumns(columns)
  }

  function PillarModelColumns(columns: seq<string>, dv: string): (names: seq<string>)
    ensures |names| == 5 + |SectorColumns(columns)|
    ensures names[0] == dv && names[1..] == PillarRegressors(columns)
  {
    [dv, EnvironmentColumn, SocialColumn, GovernanceColumn, LogMarketCapColumn] + SectorColumns(columns)
  }

  /** The fixed columns are sector-free and distinct, so a model's columns are distinct. */
  lemma FixedThenSectorsDistinct(fixed: seq<string>, columns: seq<string>)
    requires Distinct(fixed) && Distinct(columns)
    requires forall j :: 0 <= j < |fixed| ==> !IsSectorColumn(fixed[j])
    ensures Distinct(fixed + SectorColumns(columns))
  {
    var sectors := SectorColumns(columns);
    SectorColumnsOrder(columns);
    assert Distinct(sectors);
    forall j | 0 <= j < |sectors| ensures sectors[j] !in fixed {
      assert IsSectorColumn(sectors[j]);
    }
    DistinctConcat(fixed, sectors);
  }

  predicate IsResponse(dv: string)
  {
    dv == SharpeColumn || dv == VolatilityColumn
  }

  lemma EsgModelColumnsDistinct(columns: seq<string>, dv: string)
    requires Distinct(columns) && IsResponse(dv)
    ensures Distinct(EsgModelColumns(columns, dv))
  {
    FixedNotSector();
    var fixed := [dv, EsgColumn, LogMarketCapColumn];
    assert dv[0] != EsgColumn[0] && dv[0] != LogMarketCapColumn[0] && EsgColumn[0] != LogMarketCapColumn[0];
    FixedThenSectorsDistinct(fixed, columns);
  }

  lemma PillarModelColumnsDistinct(columns: seq<string>, dv: string)
    requires Distinct(columns) && IsResponse(dv)
    ensures Distinct(PillarModelColumns(columns, dv))
  {
    FixedNotSector();
    var fixed := [dv, EnvironmentColumn, SocialColumn, GovernanceColumn, LogMarketCapColumn];
    assert dv[0] in "SV" && EnvironmentColumn[0] == 'e' && SocialColumn[0] == 's';
    assert GovernanceColumn[0] == 'g' && LogMarketCapColumn[0] == 'L';
    assert forall a, b :: 0 <= a < b < |fixed| ==> fixed[a][0] != fixed[b][0];
    FixedThenSectorsDistinct(fixed, columns);
  }

  // ---------------------------------------------------------------------------
  // Complete cases

  /** A row with no missing cell: what `dropna()` keeps (infinities are not missing). */
  predicate Complete(row: seq<Cell>)
  {
    forall j :: 0 <= j < |row| ==> row[j] != Null
  }

  /**
   * `df[names].dropna()`: a `KeyError` naming a missing column, otherwise the
   * rows restricted to `names` that have a value in every one of them.
   */
  function Sample(df: Frame, names: seq<string>): (r: Result<Frame, string>)
    requires Valid(df) && Distinct(names)
    ensures r.Err? <==> exists j :: 0 <= j < |names| && names[j] !in df.columns
    ensures r.Err? ==> r.error in names && r.error !in df.columns
    ensures r.Ok? ==> Valid(r.value) && r.value.columns == names && |r.value.rows| <= |df.rows|
  {
    var picked := Select(df, names);
    if picked.Err? then Err(picked.error)
    else
      SubRowsValid(picked.value, Filter(picked.value.rows, Complete));
      Ok(Frame(names, Filter(picked.value.rows, Complete)))
  }

  /**
   * Complete-case rule: a row enters the sample exactly when it has a value in
   * the response and in every regressor.
   */
  lemma SampleRows(df: Frame, names: seq<string>)
    requires Valid(df) && Distinct(names) && Sample(df, names).Ok?
    ensures forall row :: row in Sample(df, names).value.rows <==>
              exists i :: 0 <= i < |df.rows| && row == Project(df.rows[i], df.columns, names)
                          && forall j :: 0 <= j < |names| ==> At(df.rows[i], IndexOf(df.columns, names[j])) != Null
  {
    var picked := Select(df, names).value;
    forall i | 0 <= i < |df.rows| ensures picked.rows[i] == Project(df.rows[i], df.columns, names) {
    }
    forall row | row in Sample(df, names).value.rows
      ensures exists i :: 0 <= i < |df.rows| && row == Project(df.rows[i], df.columns, names)
                          && forall j :: 0 <= j < |names| ==> At(df.rows[i], IndexOf(df.columns, names[j])) != Null
    {
      var i :| 0 <= i < |picked.rows| && picked.rows[i] == row;
      assert Complete(row);
    }
    forall i | 0 <= i < |df.rows| && forall j :: 0 <= j < |names| ==> At(df.rows[i], IndexOf(df.columns, names[j])) != Null
      ensures Project(df.rows[i], df.columns, names) in Sample(df, names).value.rows
    {
      assert Complete(picked.rows[i]);
    }
  }

  /** The test `dropna()` applies to a table row: a value in each named column. */
  function HasAll(columns: seq<string>, names: seq<string>): seq<Cell> -> bool
  {
    (row: seq<Cell>) => forall j :: 0 <= j < |names| ==> At(row, IndexOf(columns, names[j])) != Null
  }

  /** The sample size counts the table rows with a value in every named column. */
  lemma SampleSize(df: Frame, names: seq<string>)
    requires Valid(df) && Distinct(names) && Sample(df, names).Ok?
    ensures |Sample(df, names).value.rows| == CountWhere(df.rows, HasAll(df.columns, names))
  {
    var picked := Select(df, names).value;
    SelectRows(df, names);
    forall row ensures HasAll(df.columns, names)(row) == Complete(ProjectOn(df.columns, names)(row)) {
      var p := Project(row, df.columns, names);
      if Complete(p) {
        forall j | 0 <= j < |names| ensures At(row, IndexOf(df.columns, names[j])) != Null {
          assert p[j] != Null;
        }
      }
    }
    FilterMapLength(df.rows, ProjectOn(df.columns, names), Complete, HasAll(df.columns, names));
  }

  /**
   * The model columns have a numeric type: no row of the table holds a string
   * or a date in one of them, since a single one makes the whole column hold
   * objects, whichever rows `dropna()` keeps.
   */
  predicate NumericModelColumns(df: Frame, names: seq<string>)
  {
    forall row, j :: row in df.rows && 0 <= j < |names| ==> Numeric(At(row, IndexOf(df.columns, names[j])))
  }

  /** A sample row with an infinite regressor: a cell after the response column. */
  predicate InfiniteInSample(sample: Frame)
  {
    exists row, j :: row in sample.rows && 1 <= j < |row| && IsInfCell(row[j])
  }

  /** The same read on the table: a complete row with an infinite cell in a regressor column. */
  predicate HasInfiniteRegressor(df: Frame, names: seq<string>)
  {
    exists row, j :: row in df.rows && HasAll(df.columns, names)(row) && 1 <= j < |names|
                     && IsInfCell(At(row, IndexOf(df.columns, names[j])))
  }

  /** `dropna()` keeps infinities: the sample has an infinite regressor exactly when a complete table row has one. */
  lemma InfiniteInSampleIff(df: Frame, names: seq<string>)
    requires Valid(df) && Distinct(names) && Sample(df, names).Ok?
    ensures InfiniteInSample(Sample(df, names).value) <==> HasInfiniteRegressor(df, names)
    ensures InfiniteInSample(Sample(df, names).value) ==> |Sample(df, names).value.rows| > 0
  {
    if InfiniteInSample(Sample(df, names).value) {
      InfiniteFromSample(df, names);
    }
    if HasInfiniteRegressor(df, names) {
      InfiniteToSample(df, names);
    }
  }

  /** The sample's rows: the table rows restricted to `names`, those with a value in each. */
  lemma SampleIsFiltered(df: Frame, names: seq<string>)
    requires Valid(df) && Distinct(names) && Sample(df, names).Ok?
    ensures Sample(df, names).value.rows == Filter(Map(df.rows, ProjectOn(df.columns, names)), Complete)
  {
    SelectRows(df, names);
  }

  lemma InfiniteFromSample(df: Frame, names: seq<string>)
    requires Valid(df) && Distinct(names) && Sample(df, names).Ok? && InfiniteInSample(Sample(df, names).value)
    ensures HasInfiniteRegressor(df, names)
  {
    SampleIsFiltered(df, names);
    InfiniteFromRows(df.rows, df.columns, names, Sample(df, names).value.rows);
  }

  lemma InfiniteToSample(df: Frame, names: seq<string>)
    requires Valid(df) && Distinct(names) && Sample(df, names).Ok? && HasInfiniteRegressor(df, names)
    ensures InfiniteInSample(Sample(df, names).value)
  {
    SampleIsFiltered(df, names);
    InfiniteToRows(df.rows, df.columns, names, Sample(df, names).value.rows);
  }

  lemma InfiniteFromRows(rows: seq<seq<Cell>>, columns: seq<string>, names: seq<string>, sample: seq<seq<Cell>>)
    requires sample == Filter(Map(rows, ProjectOn(columns, names)), Complete)
    requires exists row, j :: row in sample && 1 <= j < |row| && IsInfCell(row[j])
    ensures exists row, j :: row in rows && HasAll(columns, names)(row) && 1 <= j < |names|
                             && IsInfCell(At(row, IndexOf(columns, names[j])))
  {
    var row, j :| row in sample && 1 <= j < |row| && IsInfCell(row[j]);
    var projected := Map(rows, ProjectOn(columns, names));
    var m :| 0 <= m < |sample| && sample[m] == row;
    assert row in projected && Complete(row);
    var k :| 0 <= k < |projected| && projected[k] == row;
    assert row == Project(rows[k], columns, names);
    assert HasAll(columns, names)(rows[k]) by {
      forall n | 0 <= n < |names| ensures At(rows[k], IndexOf(columns, names[n])) != Null {
        assert row[n] != Null;
      }
    }
    assert IsInfCell(At(rows[k], IndexOf(columns, names[j])));
  }

  lemma InfiniteToRows(rows: seq<seq<Cell>>, columns: seq<string>, names: seq<string>, sample: seq<seq<Cell>>)
    requires sample == Filter(Map(rows, ProjectOn(columns, names)), Complete)
    requires exists row, j :: row in rows && HasAll(columns, names)(row) && 1 <= j < |names|
                             && IsInfCell(At(row, IndexOf(columns, names[j])))
    ensures exists row, j :: row in sample && 1 <= j < |row| && IsInfCell(row[j])
  {
    var row, j :| row in rows && HasAll(columns, names)(row) && 1 <= j < |names|
                  && IsInfCell(At(row, IndexOf(columns, names[j])));
    var projected := Map(rows, ProjectOn(columns, names));
    var i :| 0 <= i < |rows| && rows[i] == row;
    var p := projected[i];
    assert p == Project(row, columns, names);
    assert Complete(p);
    assert p in sample;
    assert IsInfCell(p[j]);
  }

  /** `y`: the response, the sample's first column. */
  function Response(sample: Frame): (y: seq<Cell>)
    ensures |y| == |sample.rows|
  {
    ColumnCells(sample.rows, 0)
  }

  function Rest(row: seq<Cell>): seq<Cell>
  {
    if |row| == 0 then [] else row[1..]
  }

  /** `X`: the regressors, every sample column after the first. */
  function Regressors(sample: Frame): (x: Frame)
    requires |sample.columns| > 0
    ensures |x.rows| == |sample.rows| && x.columns == sample.columns[1..]
  {
    Frame(sample.columns[1..], Map(sample.rows, Rest))
  }

  // ---------------------------------------------------------------------------
  // RQ1 and RQ2

  /** `p < 0.05`; false for a NaN p-value. */
  predicate Significant(p: Float)
  {
    Less(p, Fin(SignificanceLevel))
  }

  /** Every model column other than the sector dummies is in the table. */
  lemma EsgModelColumnsPresent(df: Frame, dv: string)
    ensures (exists j :: 0 <= j < |EsgModelColumns(df.columns, dv)| && EsgModelColumns(df.columns, dv)[j] !in df.columns)
            <==> !(dv in df.columns && EsgColumn in df.columns && LogMarketCapColumn in df.columns)
  {
    var names := EsgModelColumns(df.columns, dv);
    if dv in df.columns && EsgColumn in df.columns && LogMarketCapColumn in df.columns {
      forall j | 0 <= j < |names| ensures names[j] in df.columns {
        if j >= 3 {
          assert names[j] == SectorColumns(df.columns)[j - 3];
        }
      }
    } else if dv !in df.columns {
      assert names[0] !in df.columns;
    } else if EsgColumn !in df.columns {
      assert names[1] !in df.columns;
    } else {
      assert names[2] !in df.columns;
    }
  }

  /**
   * `run_rq1_sharpe_esg` / `run_rq2_volatility_esg`: the sample of the response
   * `dv` with the ESG regressors, the fit, and its summary.
   */
  function RunEsgModel(df: Frame, dv: string, modelName: string, ols: (seq<Cell>, Frame) -> Fit): (r: Result<EsgModelResult, ModelError>)
    requires Valid(df) && IsResponse(dv)
    ensures (r.Err? && r.error.MissingColumn?) <==> !(dv in df.columns && EsgColumn in df.columns && LogMarketCapColumn in df.columns)
    ensures r.Err? && r.error.MissingColumn? ==> r.error.name in [dv, EsgColumn, LogMarketCapColumn] && r.error.name !in df.columns
    ensures r == Err(NonNumericColumn) <==>
              dv in df.columns && EsgColumn in df.columns && LogMarketCapColumn in df.columns
              && !NumericModelColumns(df, EsgModelColumns(df.columns, dv))
    ensures r == Err(EmptySample) <==>
              dv in df.columns && EsgColumn in df.columns && LogMarketCapColumn in df.columns
              && NumericModelColumns(df, EsgModelColumns(df.columns, dv))
              && CountWhere(df.rows, HasAll(df.columns, EsgModelColumns(df.columns, dv))) == 0
    ensures r == Err(InfiniteRegressor) <==>
              dv in df.columns && EsgColumn in df.columns && LogMarketCapColumn in df.columns
              && NumericModelColumns(df, EsgModelColumns(df.columns, dv))
              && HasInfiniteRegressor(df, EsgModelColumns(df.columns, dv))
    ensures r.Ok? ==> r.value.modelName == modelName && 0 < r.value.nObs <= |df.rows|
    ensures r.Ok? ==> (r.value.esgSignificant <==> Significant(r.value.esgPValue))
  {
    var names := EsgModelColumns(df.columns, dv);
    EsgModelColumnsDistinct(df.columns, dv);
    EsgModelColumnsPresent(df, dv);
    var sample := Sample(df, names);
    if sample.Err? then
      FixedNotSector();
      Err(MissingColumn(sample.error))
    else if !NumericModelColumns(df, names) then Err(NonNumericColumn)
    else if |sample.value.rows| == 0 then
      SampleSize(df, names);
      InfiniteInSampleIff(df, names);
      Err(EmptySample)
    else if InfiniteInSample(sample.value) then
      SampleSize(df, names);
      InfiniteInSampleIff(df, names);
      Err(InfiniteRegressor)
    else
      SampleSize(df, names);
      InfiniteInSampleIff(df, names);
      var fit := ols(Response(sample.value), Regressors(sample.value));
      Ok(EsgModelResult(modelName, |sample.value.rows|,
                        fit.rSquared, fit.adjRSquared, fit.fValue, fit.fPValue,
                        fit.coef(EsgColumn), fit.pvalue(EsgColumn), Significant(fit.pvalue(EsgColumn))))
  }

  /** The reported sample size is the number of table rows with a value in every model column. */
  lemma EsgModelSampleSize(df: Frame, dv: string, modelName: string, ols: (seq<Cell>, Frame) -> Fit)
    requires Valid(df) && IsResponse(dv) && RunEsgModel(df, dv, modelName, ols).Ok?
    ensures RunEsgModel(df, dv, modelName, ols).value.nObs == CountWhere(df.rows, HasAll(df.columns, EsgModelColumns(df.columns, dv)))
  {
    EsgModelColumnsDistinct(df.columns, dv);
    SampleSize(df, EsgModelColumns(df.columns, dv));
  }

  /** RQ1: Sharpe ratio on the total ESG score, the log market cap and the sector dummies. */
  function RunRq1(df: Frame, ols: (seq<Cell>, Frame) -> Fit): (r: Result<EsgModelResult, ModelError>)
    requires Valid(df)
    ensures r.Err? <==> !(SharpeColumn in df.columns && EsgColumn in df.columns && LogMarketCapColumn in df.columns)
                        || !NumericModelColumns(df, EsgModelColumns(df.columns, SharpeColumn))
                        || CountWhere(df.rows, HasAll(df.columns, EsgModelColumns(df.columns, SharpeColumn))) == 0
                        || HasInfiniteRegressor(df, EsgModelColumns(df.columns, SharpeColumn))
    ensures r.Ok? ==> r.value.modelName == "RQ1_Sharpe_ESG"
  {
    RunEsgModel(df, SharpeColumn, "RQ1_Sharpe_ESG", ols)
  }

  /** RQ2: volatility on the total ESG score, the log market cap and the sector dummies. */
  function RunRq2(df: Frame, ols: (seq<Cell>, Frame) -> Fit): (r: Result<EsgModelResult, ModelError>)
    requires Valid(df)
    ensures r.Err? <==> !(VolatilityColumn in df.columns && EsgColumn in df.columns && LogMarketCapColumn in df.columns)
                        || !NumericModelColumns(df, EsgModelColumns(df.columns, VolatilityColumn))
                        || CountWhere(df.rows, HasAll(df.columns, EsgModelColumns(df.columns, VolatilityColumn))) == 0
                        || HasInfiniteRegressor(df, EsgModelColumns(df.columns, VolatilityColumn))
    ensures r.Ok? ==> r.value.modelName == "RQ2_Volatility_ESG"
  {
    RunEsgModel(df, VolatilityColumn, "RQ2_Volatility_ESG", ols)
  }

  // ---------------------------------------------------------------------------
  // RQ3

  function Label(p: Pillar): string
  {
    match p
    case E => "E"
    case S => "S"
    case G => "G"
  }

  /**
   * `max(abs_coefs, key=abs_coefs.get)` over E, S, G in that order: a later
   * pillar replaces the current one only when its |coefficient| is strictly
   * greater, so ties go to the earlier pillar and a NaN never wins.
   */
  function Dominant(e: Float, s: Float, g: Float): Pillar
  {
    var best := if Less(Abs(e), Abs(s)) then S else E;
    var bestValue := if best == S then Abs(s) else Abs(e);
    if Less(bestValue, Abs(g)) then G else best
  }

  /**
   * For finite coefficients the dominant pillar has the largest |coefficient|,
   * and among equal largest values the first in E, S, G order.
   */
  lemma DominantFinite(e: real, s: real, g: real)
    ensures var a := if e < 0.0 then -e else e;
            var b := if s < 0.0 then -s else s;
            var c := if g < 0.0 then -g else g;
            (Dominant(Fin(e), Fin(s), Fin(g)) == E <==> a >= b && a >= c)
            && (Dominant(Fin(e), Fin(s), Fin(g)) == S <==> b > a && b >= c)
            && (Dominant(Fin(e), Fin(s), Fin(g)) == G <==> c > a && c > b)
  {
  }

  /** A NaN coefficient for E keeps E: nothing compares greater than NaN. */
  lemma DominantNaN(s: Float, g: Float)
    ensures Dominant(NaN, s, g) == E
  {
  }

  /** The pillar coefficients and p-values of one fit, and the dominant pillar, decided by the coefficients alone. */
  function PillarSummary(fit: Fit): (r: PillarResult)
    ensures r.dominant == Dominant(r.eCoef, r.sCoef, r.gCoef)
    ensures r.eCoef == fit.coef(EnvironmentColumn) && r.sCoef == fit.coef(SocialColumn) && r.gCoef == fit.coef(GovernanceColumn)
  {
    var e := fit.coef(EnvironmentColumn);
    var s := fit.coef(SocialColumn);
    var g := fit.coef(GovernanceColumn);
    PillarResult(e, fit.pvalue(EnvironmentColumn), s, fit.pvalue(SocialColumn), g, fit.pvalue(GovernanceColumn),
                 Dominant(e, s, g))
  }

  /** Every model column other than the sector dummies is in the table. */
  lemma PillarModelColumnsPresent(df: Frame, dv: string)
    ensures (exists j :: 0 <= j < |PillarModelColumns(df.columns, dv)| && PillarModelColumns(df.columns, dv)[j] !in df.columns)
            <==> !(dv in df.columns && PillarsPresent(df.columns))
  {
    var names := PillarModelColumns(df.columns, dv);
    if dv in df.columns && PillarsPresent(df.columns) {
      forall j | 0 <= j < |names| ensures names[j] in df.columns {
        if j >= 5 {
          assert names[j] == SectorColumns(df.columns)[j - 5];
        }
      }
    } else if dv !in df.columns {
      assert names[0] !in df.columns;
    } else if EnvironmentColumn !in df.columns {
      assert names[1] !in df.columns;
    } else if SocialColumn !in df.columns {
      assert names[2] !in df.columns;
    } else if GovernanceColumn !in df.columns {
      assert names[3] !in df.columns;
    } else {
      assert names[4] !in df.columns;
    }
  }

  predicate PillarsPresent(columns: seq<string>)
  {
    EnvironmentColumn in columns && SocialColumn in columns && GovernanceColumn in columns && LogMarketCapColumn in columns
  }

  /** One RQ3 model: the sample of `dv` with the pillar regressors, the fit, and its summary. */
  function RunPillarModel(df: Frame, dv: string, ols: (seq<Cell>, Frame) -> Fit): (r: Result<PillarResult, ModelError>)
    requires Valid(df) && IsResponse(dv)
    ensures (r.Err? && r.error.MissingColumn?) <==> !(dv in df.columns && PillarsPresent(df.columns))
    ensures r.Err? && r.error.MissingColumn? ==> r.error.name !in df.columns
    ensures r == Err(NonNumericColumn) <==>
              dv in df.columns && PillarsPresent(df.columns) && !NumericModelColumns(df, PillarModelColumns(df.columns, dv))
    ensures r == Err(EmptySample) <==>
              dv in df.columns && PillarsPresent(df.columns) && NumericModelColumns(df, PillarModelColumns(df.columns, dv))
              && CountWhere(df.rows, HasAll(df.columns, PillarModelColumns(df.columns, dv))) == 0
    ensures r == Err(InfiniteRegressor) <==>
              dv in df.columns && PillarsPresent(df.columns) && NumericModelColumns(df, PillarModelColumns(df.columns, dv))
              && HasInfiniteRegressor(df, PillarModelColumns(df.columns, dv))
  {
    var names := PillarModelColumns(df.columns, dv);
    PillarModelColumnsDistinct(df.columns, dv);
    PillarModelColumnsPresent(df, dv);
    var sample := Sample(df, names);
    if sample.Err? then Err(MissingColumn(sample.error))
    else if !NumericModelColumns(df, names) then Err(NonNumericColumn)
    else if |sample.value.rows| == 0 then
      SampleSize(df, names);
      InfiniteInSampleIff(df, names);
      Err(EmptySample)
    else if InfiniteInSample(sample.value) then
      SampleSize(df, names);
      InfiniteInSampleIff(df, names);
      Err(InfiniteRegressor)
    else
      SampleSize(df, names);
      InfiniteInSampleIff(df, names);
      Ok(PillarSummary(ols(Response(sample.value), Regressors(sample.value))))
  }

  /** `run_rq3_pillars`: the Sharpe-ratio model, then the volatility model. */
  function RunRq3(df: Frame, ols: (seq<Cell>, Frame) -> Fit): (r: Result<(PillarResult, PillarResult), ModelError>)
    requires Valid(df)
    ensures r.Err? <==> !(SharpeColumn in df.columns && VolatilityColumn in df.columns && PillarsPresent(df.columns))
                        || !NumericModelColumns(df, PillarModelColumns(df.columns, SharpeColumn))
                        || CountWhere(df.rows, HasAll(df.columns, PillarModelColumns(df.columns, SharpeColumn))) == 0
                        || HasInfiniteRegressor(df, PillarModelColumns(df.columns, SharpeColumn))
                        || !NumericModelColumns(df, PillarModelColumns(df.columns, VolatilityColumn))
                        || CountWhere(df.rows, HasAll(df.columns, PillarModelColumns(df.columns, VolatilityColumn))) == 0
                        || HasInfiniteRegressor(df, PillarModelColumns(df.columns, VolatilityColumn))
  {
    var sharpe := RunPillarModel(df, SharpeColumn, ols);
    if sharpe.Err? then Err(sharpe.error)
    else
      var volatility := RunPillarModel(df, VolatilityColumn, ols);
      if volatility.Err? then Err(volatility.error)
      else Ok((sharpe.value, volatility.value))
  }
}
