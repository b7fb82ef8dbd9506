/**
 * Feature aggregation (`aggregate_all_features`): the ESG scores of the master
 * table, one row per ticker, inner-joined on the ticker with each metrics
 * table that is given, then one row per ticker again. Reading the master CSV,
 * writing the result and the console report (missing-value counts and the
 * column-category counts) are not modelled: the master table is a parameter.
 */
module AggregateFeatures {
  import opened Wrappers
  import opened Cells
  import opened Text
  import opened Seqs
  import opened Frames
  import opened MergeData

  const TickerColumn: string := "Ticker"

  /** A master column holding an ESG score: its lower-cased name mentions one of the keywords. */
  predicate IsEsgFeature(name: string)
  {
    var l := Lower(name);
    Contains(l, "esg") || Contains(l, "environment") || Contains(l, "social")
    || Contains(l, "governance") || Contains(l, "score") || Contains(l, "rating")
  }

  /** The ESG columns of the master table, in master column order. */
  function EsgFeatureColumns(columns: seq<string>): (r: seq<string>)
    ensures forall c :: c in r <==> c in columns && IsEsgFeature(c)
  {
    Filter(columns, IsEsgFeature)
  }

  /** Over distinct column names the ESG columns keep their relative order. */
  lemma EsgFeatureColumnsOrder(columns: seq<string>)
    requires Distinct(columns)
    ensures var r := EsgFeatureColumns(columns);
            forall a, b :: 0 <= a < b < |r| ==> IndexOf(columns, r[a]) < IndexOf(columns, r[b])
  {
    var pos := (c: string) => IndexOf(columns, c);
    forall a, b | 0 <= a < b < |columns| ensures pos(columns[a]) < pos(columns[b]) {
      assert IndexOf(columns, columns[a]) == a;
      assert IndexOf(columns, columns[b]) == b;
    }
    FilterIncreasing(columns, IsEsgFeature, pos);
  }

  /** The ticker, then the company name when the master table has one (`Company_Name` before `Company`). */
  function BaseColumns(columns: seq<string>): (r: seq<string>)
    ensures 1 <= |r| <= 2 && r[0] == TickerColumn
    ensures |r| == 2 <==> "Company_Name" in columns || "Company" in columns
    ensures |r| == 2 ==> r[1] == if "Company_Name" in columns then "Company_Name" else "Company"
  {
    if "Company_Name" in columns then [TickerColumn, "Company_Name"]
    else if "Company" in columns then [TickerColumn, "Company"]
    else [TickerColumn]
  }

  /** A lower-cased name without the letters s, v and g contains no ESG keyword. */
  lemma NoKeyword(l: string)
    requires 's' !in l && 'v' !in l && 'g' !in l
    ensures !(Contains(l, "esg") || Contains(l, "environment") || Contains(l, "social")
              || Contains(l, "governance") || Contains(l, "score") || Contains(l, "rating"))
  {
    if Contains(l, "esg") { ContainsChars(l, "esg", 1); }
    if Contains(l, "environment") { ContainsChars(l, "environment", 2); }
    if Contains(l, "social") { ContainsChars(l, "social", 0); }
    if Contains(l, "governance") { ContainsChars(l, "governance", 0); }
    if Contains(l, "score") { ContainsChars(l, "score", 0); }
    if Contains(l, "rating") { ContainsChars(l, "rating", 5); }
  }

  lemma TickerNotEsg()
    ensures !IsEsgFeature(TickerColumn)
  {
    assert Lower(TickerColumn) == "ticker";
    NoKeyword("ticker");
  }

  /** Neither company-name column is an ESG column. */
  lemma CompanyNotEsg(name: string)
    requires name == "Company_Name" || name == "Company"
    ensures !IsEsgFeature(name)
  {
    if name == "Company_Name" {
      assert Lower(name) == "company_name";
      NoKeyword("company_name");
    } else {
      assert Lower(name) == "company";
      NoKeyword("company");
    }
  }

  lemma BaseColumnsDistinct(columns: seq<string>)
    ensures Distinct(BaseColumns(columns))
  {
    assert TickerColumn[0] == 'T';
    assert "Company_Name"[0] == 'C' && "Company"[0] == 'C';
  }

  /** The columns the ESG table keeps: the base columns, then the ESG columns. */
  function EsgTableColumns(columns: seq<string>): seq<string>
  {
    BaseColumns(columns) + EsgFeatureColumns(columns)
  }

  /** The base columns are never ESG columns, so the selection names each column once. */
  lemma SelectedNamesDistinct(columns: seq<string>)
    requires Distinct(columns)
    ensures Distinct(EsgTableColumns(columns))
  {
    TickerNotEsg();
    CompanyNotEsg("Company_Name");
    CompanyNotEsg("Company");
    var base := BaseColumns(columns);
    var esg := EsgFeatureColumns(columns);
    EsgFeatureColumnsOrder(columns);
    assert Distinct(esg);
    BaseColumnsDistinct(columns);
    forall j | 0 <= j < |esg| ensures esg[j] !in base {
      assert IsEsgFeature(esg[j]);
    }
    DistinctConcat(base, esg);
  }

  /** Selecting the ticker, the company name and the ESG columns fails exactly when the ticker is missing. */
  lemma SelectFailsWithoutTicker(master: Frame)
    requires Valid(master)
    ensures Distinct(EsgTableColumns(master.columns))
    ensures Select(master, EsgTableColumns(master.columns)).Err?
            <==> TickerColumn !in master.columns
  {
    var columns := master.columns;
    SelectedNamesDistinct(columns);
    var base := BaseColumns(columns);
    var esg := EsgFeatureColumns(columns);
    var names := base + esg;
    if TickerColumn in columns {
      forall j | 0 <= j < |names| ensures names[j] in columns {
        if j >= |base| {
          assert names[j] == esg[j - |base|];
        }
      }
    } else {
      assert names[0] !in columns;
    }
  }

  /**
   * `master_df[base_columns + esg_columns].drop_duplicates(subset=["Ticker"])`:
   * a `KeyError` when the master table has no ticker column.
   */
  function EsgTable(master: Frame): (r: Result<Frame, MergeError>)
    requires Valid(master)
    ensures r.Err? <==> TickerColumn !in master.columns
    ensures r.Err? ==> r.error == MissingColumn(TickerColumn)
    ensures r.Ok? ==> Valid(r.value) && r.value.columns == EsgTableColumns(master.columns)
  {
    var names := EsgTableColumns(master.columns);
    SelectFailsWithoutTicker(master);
    var picked := Select(master, names);
    if picked.Err? then Err(MissingColumn(TickerColumn))
    else
      KeepFirstProperties(picked.value.rows, ColumnKey(0));
      SubRowsValid(picked.value, KeepFirst(picked.value.rows, ColumnKey(0)));
      Ok(Frame(picked.value.columns, KeepFirst(picked.value.rows, ColumnKey(0))))
  }

  /** Row `i` of the selection is master row `i` restricted to the selected columns, ticker first. */
  lemma SelectedRows(master: Frame)
    requires Valid(master) && TickerColumn in master.columns
    ensures Distinct(EsgTableColumns(master.columns)) && Select(master, EsgTableColumns(master.columns)).Ok?
    ensures |Select(master, EsgTableColumns(master.columns)).value.rows| == |master.rows|
    ensures forall i :: 0 <= i < |master.rows| ==>
              Select(master, EsgTableColumns(master.columns)).value.rows[i]
                == Project(master.rows[i], master.columns, EsgTableColumns(master.columns))
              && ColumnKey(0)(Select(master, EsgTableColumns(master.columns)).value.rows[i])
                 == ColumnKey(IndexOf(master.columns, TickerColumn))(master.rows[i])
  {
    SelectFailsWithoutTicker(master);
    assert EsgTableColumns(master.columns)[0] == TickerColumn;
    forall i | 0 <= i < |master.rows|
      ensures Select(master, EsgTableColumns(master.columns)).value.rows[i]
                == Project(master.rows[i], master.columns, EsgTableColumns(master.columns))
              && ColumnKey(0)(Select(master, EsgTableColumns(master.columns)).value.rows[i])
                 == ColumnKey(IndexOf(master.columns, TickerColumn))(master.rows[i])
    {
      SelectRow(master, EsgTableColumns(master.columns), i);
    }
  }

  /** The ESG table has no ticker twice and every master ticker. */
  lemma EsgTableKeys(master: Frame)
    requires Valid(master) && TickerColumn in master.columns
    ensures DistinctKeys(EsgTable(master).value.rows, ColumnKey(0))
    ensures forall x :: HasKey(EsgTable(master).value.rows, ColumnKey(0), x)
                        <==> HasKey(master.rows, ColumnKey(IndexOf(master.columns, TickerColumn)), x)
  {
    var names := EsgTableColumns(master.columns);
    SelectedKeys(master);
    var picked := Select(master, names).value;
    assert EsgTable(master).value.rows == KeepFirst(picked.rows, ColumnKey(0));
    KeepFirstProperties(picked.rows, ColumnKey(0));
  }

  /** The selection has the master's tickers, in its first column. */
  lemma SelectedKeys(master: Frame)
    requires Valid(master) && TickerColumn in master.columns
    ensures Distinct(EsgTableColumns(master.columns)) && Select(master, EsgTableColumns(master.columns)).Ok?
    ensures forall x :: HasKey(Select(master, EsgTableColumns(master.columns)).value.rows, ColumnKey(0), x)
                        <==> HasKey(master.rows, ColumnKey(IndexOf(master.columns, TickerColumn)), x)
  {
    SelectedRows(master);
    var picked := Select(master, EsgTableColumns(master.columns)).value;
    SameKeys(picked.rows, ColumnKey(0), master.rows, ColumnKey(IndexOf(master.columns, TickerColumn)));
  }

  /** Each row of the ESG table is the first master row of its ticker, restricted to the selected columns. */
  lemma EsgTableOrigins(master: Frame)
    requires Valid(master) && TickerColumn in master.columns
    ensures forall row :: row in EsgTable(master).value.rows ==>
              exists i :: (0 <= i < |master.rows| && !Duplicated(master.rows, ColumnKey(IndexOf(master.columns, TickerColumn)), i)
                           && row == Project(master.rows[i], master.columns, EsgTable(master).value.columns))
  {
    forall row | row in EsgTable(master).value.rows
      ensures exists i :: (0 <= i < |master.rows| && !Duplicated(master.rows, ColumnKey(IndexOf(master.columns, TickerColumn)), i)
                           && row == Project(master.rows[i], master.columns, EsgTable(master).value.columns))
    {
      var i := EsgTableOrigin(master, row);
    }
  }

  /** The master row that a row of the ESG table comes from. */
  lemma EsgTableOrigin(master: Frame, row: seq<Cell>) returns (i: int)
    requires Valid(master) && TickerColumn in master.columns
    requires row in EsgTable(master).value.rows
    ensures 0 <= i < |master.rows| && !Duplicated(master.rows, ColumnKey(IndexOf(master.columns, TickerColumn)), i)
    ensures row == Project(master.rows[i], master.columns, EsgTable(master).value.columns)
  {
    var names := EsgTableColumns(master.columns);
    var t := IndexOf(master.columns, TickerColumn);
    SelectedRows(master);
    var picked := Select(master, names).value;
    assert EsgTable(master).value.rows == KeepFirst(picked.rows, ColumnKey(0));
    KeepFirstOnlyFirsts(picked.rows, ColumnKey(0), row);
    i :| 0 <= i < |picked.rows| && picked.rows[i] == row && !Duplicated(picked.rows, ColumnKey(0), i);
    forall j | 0 <= j < i ensures ColumnKey(t)(master.rows[j]) != ColumnKey(t)(master.rows[i]) {
      assert ColumnKey(0)(picked.rows[j]) == ColumnKey(t)(master.rows[j]);
      assert ColumnKey(0)(picked.rows[i]) == ColumnKey(t)(master.rows[i]);
    }
  }

  /** `analysis_df.merge(table, on="Ticker", how="inner")` when the table is given; skipped for `None`. */
  function JoinIfGiven(f: Frame, table: Option<Frame>): (r: Result<Frame, MergeError>)
    requires Valid(f) && (table.Some? ==> Valid(table.value))
    ensures table.None? ==> r == Ok(f)
    ensures r.Ok? ==> Valid(r.value)
  {
    if table.None? then Ok(f) else Merge(f, table.value, TickerColumn, Inner)
  }

  predicate ValidOption(table: Option<Frame>)
  {
    table.Some? ==> Valid(table.value)
  }

  /** The final check: repeated tickers are reduced to their first row. */
  function DropRepeatedTickers(f: Frame): (g: Frame)
    requires Valid(f)
    ensures Valid(g) && g.columns == f.columns
    ensures DistinctKeys(g.rows, ColumnKey(IndexOf(f.columns, TickerColumn)))
  {
    var rows := Frames.Deduplicated(f.rows, IndexOf(f.columns, TickerColumn));
    SubRowsValid(f, rows);
    Frame(f.columns, rows)
  }

  /** The ESG table joined with the performance table, then the risk table, each when given. */
  function JoinedMetrics(master: Frame, performance: Option<Frame>, risk: Option<Frame>): (r: Result<Frame, MergeError>)
    requires Valid(master) && ValidOption(performance) && ValidOption(risk)
    ensures r.Ok? ==> Valid(r.value)
  {
    var esg := EsgTable(master);
    if esg.Err? then esg
    else
      var withPerformance := JoinIfGiven(esg.value, performance);
      if withPerformance.Err? then withPerformance
      else JoinIfGiven(withPerformance.value, risk)
  }

  /** The ESG table joined with each given table in turn: performance, risk, controls. */
  function Joined(master: Frame, performance: Option<Frame>, risk: Option<Frame>, controls: Option<Frame>): (r: Result<Frame, MergeError>)
    requires Valid(master) && ValidOption(performance) && ValidOption(risk) && ValidOption(controls)
    ensures r.Ok? ==> Valid(r.value)
  {
    var withRisk := JoinedMetrics(master, performance, risk);
    if withRisk.Err? then withRisk else JoinIfGiven(withRisk.value, controls)
  }

  /** `aggregate_all_features`: the ESG table, the joins with the given tables, and the final check. */
  function Aggregate(master: Frame, performance: Option<Frame>, risk: Option<Frame>, controls: Option<Frame>): (r: Result<Frame, MergeError>)
    requires Valid(master) && ValidOption(performance) && ValidOption(risk) && ValidOption(controls)
    ensures r.Ok? ==> Valid(r.value)
  {
    var joined := Joined(master, performance, risk, controls);
    if joined.Err? then joined else Ok(DropRepeatedTickers(joined.value))
  }

  // ---------------------------------------------------------------------------
  // Tickers through the joins

  /** Every ticker of `f` (its first column) is a ticker of `table`. */
  predicate TickersIn(f: Frame, table: Frame)
  {
    forall i :: 0 <= i < |f.rows| ==> HasKey(table.rows, ColumnKey(IndexOf(table.columns, TickerColumn)), At(f.rows[i], 0))
  }

  /** The table's first column is the ticker. */
  predicate TickerFirst(f: Frame)
  {
    Valid(f) && |f.columns| > 0 && f.columns[0] == TickerColumn
  }

  /**
   * An inner join keeps the ticker in front, and each of its tickers is a
   * ticker of both joined tables.
   */
  lemma JoinTickers(f: Frame, table: Frame)
    requires TickerFirst(f) && Valid(table) && Merge(f, table, TickerColumn, Inner).Ok?
    ensures var out := Merge(f, table, TickerColumn, Inner).value;
            TickerFirst(out) && TickersIn(out, table)
            && forall i :: 0 <= i < |out.rows| ==> HasKey(f.rows, ColumnKey(0), At(out.rows[i], 0))
  {
    var out := Merge(f, table, TickerColumn, Inner).value;
    var kr := IndexOf(table.columns, TickerColumn);
    assert IndexOf(f.columns, TickerColumn) == 0;
    forall i | 0 <= i < |out.rows|
      ensures HasKey(table.rows, ColumnKey(kr), At(out.rows[i], 0)) && HasKey(f.rows, ColumnKey(0), At(out.rows[i], 0))
    {
      var a, b := InnerMergeRow(f, table, TickerColumn, i);
      assert |f.rows[a]| == |f.columns|;
      assert At(out.rows[i], 0) == f.rows[a][0];
      assert ColumnKey(kr)(table.rows[b]) == At(out.rows[i], 0);
      assert ColumnKey(0)(f.rows[a]) == At(out.rows[i], 0);
    }
  }

  /** Tickers drawn from `f`, whose tickers are drawn from `table`, are drawn from `table`. */
  lemma TickersInNarrow(f: Frame, g: Frame, table: Frame)
    requires TickersIn(f, table)
    requires forall i :: 0 <= i < |g.rows| ==> HasKey(f.rows, ColumnKey(0), At(g.rows[i], 0))
    ensures TickersIn(g, table)
  {
    forall i | 0 <= i < |g.rows|
      ensures HasKey(table.rows, ColumnKey(IndexOf(table.columns, TickerColumn)), At(g.rows[i], 0))
    {
      var a :| 0 <= a < |f.rows| && ColumnKey(0)(f.rows[a]) == At(g.rows[i], 0);
    }
  }

  /** The given table as a list of at most one table. */
  function Given(table: Option<Frame>): (r: seq<Frame>)
    ensures forall t :: t in r <==> table == Some(t)
  {
    if table.Some? then [table.value] else []
  }

  /** Joining with a given table narrows the tickers to that table's, and keeps earlier guarantees. */
  lemma JoinIfGivenTickers(f: Frame, table: Option<Frame>, earlier: seq<Frame>)
    requires TickerFirst(f) && ValidOption(table) && JoinIfGiven(f, table).Ok?
    requires forall t :: t in earlier ==> TickersIn(f, t)
    ensures TickerFirst(JoinIfGiven(f, table).value)
    ensures forall t :: t in earlier + Given(table) ==> TickersIn(JoinIfGiven(f, table).value, t)
  {
    if table.Some? {
      var out := JoinIfGiven(f, table).value;
      JoinTickers(f, table.value);
      forall t | t in earlier + Given(table) ensures TickersIn(out, t) {
        if t in earlier {
          TickersInNarrow(f, out, t);
        }
      }
    }
  }

  /** The ESG table's tickers are master tickers, and its first column is the ticker. */
  lemma EsgTableTickers(master: Frame)
    requires Valid(master) && TickerColumn in master.columns
    ensures TickerFirst(EsgTable(master).value) && TickersIn(EsgTable(master).value, master)
  {
    var esg := EsgTable(master).value;
    EsgTableKeys(master);
    forall i | 0 <= i < |esg.rows|
      ensures HasKey(master.rows, ColumnKey(IndexOf(master.columns, TickerColumn)), At(esg.rows[i], 0))
    {
      assert ColumnKey(0)(esg.rows[i]) == At(esg.rows[i], 0);
      assert HasKey(esg.rows, ColumnKey(0), At(esg.rows[i], 0));
    }
  }

  /** The aggregated table keeps the ticker in front and has no ticker twice. */
  lemma AggregateDistinctTickers(master: Frame, performance: Option<Frame>, risk: Option<Frame>, controls: Option<Frame>)
    requires Valid(master) && ValidOption(performance) && ValidOption(risk) && ValidOption(controls)
    requires Aggregate(master, performance, risk, controls).Ok?
    ensures TickerFirst(Aggregate(master, performance, risk, controls).value)
    ensures DistinctKeys(Aggregate(master, performance, risk, controls).value.rows, ColumnKey(0))
  {
    JoinedTickers(master, performance, risk, controls);
    assert IndexOf(Joined(master, performance, risk, controls).value.columns, TickerColumn) == 0;
  }

  /** Every ticker of the aggregated table is a master ticker and a ticker of every metrics table that was given. */
  lemma AggregateTickers(master: Frame, performance: Option<Frame>, risk: Option<Frame>, controls: Option<Frame>)
    requires Valid(master) && ValidOption(performance) && ValidOption(risk) && ValidOption(controls)
    requires Aggregate(master, performance, risk, controls).Ok?
    ensures forall t :: t in [master] + Given(performance) + Given(risk) + Given(controls) ==>
              TickersIn(Aggregate(master, performance, risk, controls).value, t)
  {
    JoinedTickers(master, performance, risk, controls);
    var c := Joined(master, performance, risk, controls).value;
    forall t | t in [master] + Given(performance) + Given(risk) + Given(controls)
      ensures TickersIn(Aggregate(master, performance, risk, controls).value, t)
    {
      TickersInNarrowRows(c, DropRepeatedTickers(c), t);
    }
  }

  /**
   * The converse of `AggregateTickers`: a ticker of the master table that
   * every given metrics table also has is a ticker of the aggregated table.
   */
  lemma AggregateKeepsTickers(master: Frame, performance: Option<Frame>, risk: Option<Frame>, controls: Option<Frame>, x: Cell)
    requires Valid(master) && ValidOption(performance) && ValidOption(risk) && ValidOption(controls)
    requires Aggregate(master, performance, risk, controls).Ok?
    requires forall t :: t in [master] + Given(performance) + Given(risk) + Given(controls) ==>
               HasKey(t.rows, ColumnKey(IndexOf(t.columns, TickerColumn)), x)
    ensures HasKey(Aggregate(master, performance, risk, controls).value.rows, ColumnKey(0), x)
  {
    var esg := EsgTable(master).value;
    EsgTableTickers(master);
    EsgTableKeys(master);
    var p := JoinIfGiven(esg, performance).value;
    JoinIfGivenKeeps(esg, performance, x);
    JoinIfGivenTickers(esg, performance, []);
    var r := JoinIfGiven(p, risk).value;
    JoinIfGivenKeeps(p, risk, x);
    JoinIfGivenTickers(p, risk, []);
    var c := JoinIfGiven(r, controls).value;
    JoinIfGivenKeeps(r, controls, x);
    JoinIfGivenTickers(r, controls, []);
    assert Joined(master, performance, risk, controls).value == c;
    assert IndexOf(c.columns, TickerColumn) == 0;
  }

  /** Joining with a given table keeps each ticker that table also has. */
  lemma JoinIfGivenKeeps(f: Frame, table: Option<Frame>, x: Cell)
    requires TickerFirst(f) && ValidOption(table) && JoinIfGiven(f, table).Ok?
    requires HasKey(f.rows, ColumnKey(0), x)
    requires table.Some? ==> HasKey(table.value.rows, ColumnKey(IndexOf(table.value.columns, TickerColumn)), x)
    ensures HasKey(JoinIfGiven(f, table).value.rows, ColumnKey(0), x)
  {
    if table.Some? {
      var out := JoinIfGiven(f, table).value;
      assert IndexOf(f.columns, TickerColumn) == 0;
      InnerMergeKeeps(f, table.value, TickerColumn);
      var a :| 0 <= a < |f.rows| && ColumnKey(0)(f.rows[a]) == x;
      assert |f.rows[a]| == |f.columns|;
      assert f.rows[a][0] == x;
      var i :| 0 <= i < |out.rows| && out.rows[i][..|f.columns|] == f.rows[a];
      assert out.rows[i][0] == x;
      assert ColumnKey(0)(out.rows[i]) == x;
    }
  }

  /** Before the final check, the joined table has the ticker in front and only tickers of every table it was built from. */
  lemma JoinedTickers(master: Frame, performance: Option<Frame>, risk: Option<Frame>, controls: Option<Frame>)
    requires Valid(master) && ValidOption(performance) && ValidOption(risk) && ValidOption(controls)
    requires Joined(master, performance, risk, controls).Ok?
    ensures TickerFirst(Joined(master, performance, risk, controls).value)
    ensures forall t :: t in [master] + Given(performance) + Given(risk) + Given(controls) ==>
              TickersIn(Joined(master, performance, risk, controls).value, t)
  {
    JoinedMetricsTickers(master, performance, risk);
    JoinIfGivenTickers(JoinedMetrics(master, performance, risk).value, controls, [master] + Given(performance) + Given(risk));
  }

  /** After the performance and risk joins, the ticker is in front and every ticker is one of each table joined so far. */
  lemma JoinedMetricsTickers(master: Frame, performance: Option<Frame>, risk: Option<Frame>)
    requires Valid(master) && ValidOption(performance) && ValidOption(risk)
    requires JoinedMetrics(master, performance, risk).Ok?
    ensures TickerFirst(JoinedMetrics(master, performance, risk).value)
    ensures forall t :: t in [master] + Given(performance) + Given(risk) ==>
              TickersIn(JoinedMetrics(master, performance, risk).value, t)
  {
    var esg := EsgTable(master).value;
    EsgTableTickers(master);
    JoinIfGivenTickers(esg, performance, [master]);
    JoinIfGivenTickers(JoinIfGiven(esg, performance).value, risk, [master] + Given(performance));
  }

  /** Keeping some of the rows keeps the tickers within the same table. */
  lemma TickersInNarrowRows(f: Frame, g: Frame, table: Frame)
    requires TickersIn(f, table)
    requires forall row :: row in g.rows ==> row in f.rows
    ensures TickersIn(g, table)
  {
    forall i | 0 <= i < |g.rows|
      ensures HasKey(table.rows, ColumnKey(IndexOf(table.columns, TickerColumn)), At(g.rows[i], 0))
    {
      assert g.rows[i] in f.rows;
      var a :| 0 <= a < |f.rows| && f.rows[a] == g.rows[i];
    }
  }

  /** With no metrics table given, the result is the ESG table itself. */
  lemma AggregateWithoutMetrics(master: Frame)
    requires Valid(master)
    ensures Aggregate(master, None, None, None) == EsgTable(master)
  {
    assert Joined(master, None, None, None) == EsgTable(master);
    if TickerColumn in master.columns {
      var esg := EsgTable(master).value;
      EsgTableKeys(master);
      EsgTableTickers(master);
      assert IndexOf(esg.columns, TickerColumn) == 0;
      DropRepeatedTickersNone(esg);
    }
  }

  /** A table whose tickers are already distinct loses no row to the final check. */
  lemma DropRepeatedTickersNone(f: Frame)
    requires Valid(f) && DistinctKeys(f.rows, ColumnKey(IndexOf(f.columns, TickerColumn)))
    ensures DropRepeatedTickers(f) == f
  {
    var t := IndexOf(f.columns, TickerColumn);
    assert !exists i :: 0 <= i < |f.rows| && Duplicated(f.rows, ColumnKey(t), i);
    assert Frames.Deduplicated(f.rows, t) == f.rows;
  }

  /**
   * `aggregate_all_features`: `analysis_df` starts as the ESG table and is
   * replaced by each join with a given table, then by the final check.
   */
  method AggregateAllFeatures(master: Frame, performance: Option<Frame>, risk: Option<Frame>, controls: Option<Frame>)
    returns (r: Result<Frame, MergeError>)
    requires Valid(master) && ValidOption(performance) && ValidOption(risk) && ValidOption(controls)
    ensures r == Aggregate(master, performance, risk, controls)
  {
    var step := EsgTable(master);
    if step.Err? {
      return step;
    }
    var analysis := step.value;
    if performance.Some? {
      step := Merge(analysis, performance.value, TickerColumn, Inner);
      if step.Err? {
        return step;
      }
      analysis := step.value;
    }
    if risk.Some? {
      step := Merge(analysis, risk.value, TickerColumn, Inner);
      if step.Err? {
        return step;
      }
      analysis := step.value;
    }
    if controls.Some? {
      step := Merge(analysis, controls.value, TickerColumn, Inner);
      if step.Err? {
        return step;
      }
      analysis := step.value;
    }
    r := Ok(DropRepeatedTickers(analysis));
  }
}
