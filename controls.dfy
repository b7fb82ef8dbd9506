/**
 * Control variables (`create_control_variables`): one row per ticker, the
 * market capitalisation in billions and its natural logarithm (infinities
 * replaced by a missing value), and one 0/1 dummy column per sector except the
 * first, which is the baseline. The console report is not modelled; the
 * natural logarithm of a positive real is a parameter.
 */
module Controls {
  import opened Wrappers
  import opened Floats
  import opened Cells
  import opened Seqs
  import opened Sorting
  import opened Frames

  const TickerColumn: string := "Ticker"
  const MarketCapColumn: string := "Market_Cap"
  const SectorColumn: string := "Sector"
  const BillionsColumn: string := "Market_Cap_Billions"
  const LogColumn: string := "Log_Market_Cap"
  const SectorPrefix: string := "Sector_"

  /** `df[ticker_col]` raises a KeyError when the table has no ticker column. */
  datatype ControlsError = MissingColumn(name: string)

  /** `market_cap / 1e9`, on one cell. */
  function CapBillions(c: Cell): Cell
  {
    FromFloat(Div(ToFloat(c), Fin(1000000000.0)))
  }

  /** Scaling to billions loses nothing: a finite result times 1e9 is the capitalisation. */
  lemma CapBillionsScales(c: Cell)
    ensures CapBillions(c).Num? <==> c.Num?
    ensures c.Num? ==> CapBillions(c).v * 1000000000.0 == c.v
    ensures c.Null? || c.Text? || c.Day? ==> CapBillions(c).Null?
    ensures IsInfCell(c) ==> CapBillions(c) == c
  {
  }

  /**
   * `np.log` on a float64: the logarithm of a positive number, minus infinity at
   * zero, NaN below zero and at NaN, and infinity at infinity.
   */
  function NpLog(x: Float, ln: real -> real): Float
  {
    match x
    case NaN => NaN
    case Fin(v) => if v > 0.0 then Fin(ln(v)) else if v == 0.0 then Float.NegInf else NaN
    case PosInf => Float.PosInf
    case NegInf => NaN
  }

  /** `replace([np.inf, -np.inf], np.nan)` on one cell. */
  function NoInfinity(c: Cell): (r: Cell)
    ensures !IsInfCell(r)
    ensures !IsInfCell(c) ==> r == c
  {
    if IsInfCell(c) then Null else c
  }

  /** The `Log_Market_Cap` cell of one `Market_Cap_Billions` cell. */
  function LogCap(b: Cell, ln: real -> real): Cell
  {
    NoInfinity(FromFloat(NpLog(ToFloat(b), ln)))
  }

  /**
   * The log column is never infinite, and it is present exactly for a positive
   * finite market cap, where it is the logarithm of the cap in billions.
   */
  lemma LogCapCases(b: Cell, ln: real -> real)
    ensures !IsInfCell(LogCap(b, ln))
    ensures b.Num? && b.v > 0.0 ==> LogCap(b, ln) == Num(ln(b.v))
    ensures !(b.Num? && b.v > 0.0) ==> LogCap(b, ln).Null?
  {
  }

  /** The log of the scaled cap is present exactly for a positive capitalisation. */
  lemma LogMarketCap(c: Cell, ln: real -> real)
    ensures c.Num? && c.v > 0.0 ==> LogCap(CapBillions(c), ln) == Num(ln(c.v / 1000000000.0))
    ensures !(c.Num? && c.v > 0.0) ==> LogCap(CapBillions(c), ln).Null?
  {
    LogCapCases(CapBillions(c), ln);
    CapBillionsScales(c);
  }

  /** The 0/1 integer a dummy cell holds. */
  function Indicator(b: bool): Cell
  {
    if b then Num(1.0) else Num(0.0)
  }

  predicate IsOne(c: Cell)
  {
    c == Num(1.0)
  }

  /** One indicator per category: whether `x` is that category. */
  function Indicators(x: Cell, cats: seq<Cell>): (r: seq<Cell>)
    ensures |r| == |cats|
    ensures forall j :: 0 <= j < |cats| ==> (r[j] == Num(1.0) <==> x == cats[j]) && (r[j] == Num(0.0) <==> x != cats[j])
  {
    Map(cats, (c: Cell) => Indicator(x == c))
  }

  /** Over distinct categories, at most one indicator is set: the one of `x`, if listed. */
  lemma {:induction false} IndicatorsCount(x: Cell, cats: seq<Cell>)
    requires Distinct(cats)
    ensures CountWhere(Indicators(x, cats), IsOne) == if x in cats then 1 else 0
    decreases |cats|
  {
    if |cats| > 0 {
      var n := |cats| - 1;
      var init := cats[..n];
      IndicatorsCount(x, init);
      var r := Indicators(x, cats);
      assert r[..n] == Indicators(x, init);
      assert cats == init + [cats[n]];
      assert cats[n] !in init;
    }
  }

  predicate IsText(c: Cell) { c.Text? }

  function Self(c: Cell): Cell { c }

  function SortKey(c: Cell): seq<Cell> { [c] }

  /** The distinct sector names, in order of first appearance. */
  function DistinctTexts(cells: seq<Cell>): (once: seq<Cell>)
    ensures forall c :: c in once <==> c in cells && c.Text?
    ensures Distinct(once)
  {
    var texts := Filter(cells, IsText);
    KeepFirstProperties(texts, Self);
    forall c | c in cells && c.Text? ensures c in KeepFirst(texts, Self) {
      var i :| 0 <= i < |texts| && texts[i] == c;
      assert HasKey(texts, Self, c);
      var j :| 0 <= j < |KeepFirst(texts, Self)| && Self(KeepFirst(texts, Self)[j]) == c;
    }
    KeepFirst(texts, Self)
  }

  /**
   * The categories `get_dummies` finds: the distinct sector names, in sorted
   * order. Missing sectors and values that are not strings form no category.
   */
  function Categories(cells: seq<Cell>): (cats: seq<Cell>)
    ensures forall c :: c in cats <==> c in cells && c.Text?
    ensures Distinct(cats)
    ensures forall i, j :: 0 <= i < j < |cats| ==> StrLe(cats[i].s, cats[j].s) && cats[i].s != cats[j].s
  {
    var once := DistinctTexts(cells);
    var cats := SortBy(once, SortKey);
    DistinctPermutation(once, cats);
    SortByMembers(once, SortKey);
    SortBySorted(once, SortKey);
    SortedTextsIncrease(cats);
    cats
  }

  /** Distinct strings sorted by their cells increase strictly. */
  lemma SortedTextsIncrease(cats: seq<Cell>)
    requires forall c :: c in cats ==> c.Text?
    requires Distinct(cats) && SortedBy(cats, SortKey)
    ensures forall i, j :: 0 <= i < j < |cats| ==> StrLe(cats[i].s, cats[j].s) && cats[i].s != cats[j].s
  {
    forall i, j | 0 <= i < j < |cats| ensures StrLe(cats[i].s, cats[j].s) && cats[i].s != cats[j].s {
      assert LexLe(SortKey(cats[i]), SortKey(cats[j]));
      assert cats[i] in cats && cats[j] in cats;
    }
  }

  /** `prefix="Sector"`, `drop_first=True`: the names of the dummy columns. */
  function DummyNames(cats: seq<Cell>): (names: seq<string>)
    requires forall c :: c in cats ==> c.Text?
    ensures |names| == if |cats| == 0 then 0 else |cats| - 1
    ensures forall j :: 0 <= j < |names| ==> names[j] == SectorPrefix + cats[j + 1].s
  {
    if |cats| == 0 then [] else Map(cats[1..], (c: Cell) => if c.Text? then SectorPrefix + c.s else SectorPrefix)
  }

  /** The dummy cells of a row whose sector is `x`; the first category has none. */
  function DummyRow(x: Cell, cats: seq<Cell>): (r: seq<Cell>)
    ensures |r| == if |cats| == 0 then 0 else |cats| - 1
    ensures forall j :: 0 <= j < |r| ==> r[j] == Indicator(x == cats[j + 1])
  {
    if |cats| == 0 then [] else Indicators(x, cats[1..])
  }

  /**
   * Each row has exactly one dummy set when its sector is a category other than
   * the first, and none otherwise: the baseline sector, a missing sector and a
   * non-string sector all encode as zeros.
   */
  lemma DummyRowOnes(x: Cell, cats: seq<Cell>)
    requires Distinct(cats)
    ensures forall j :: 0 <= j < |DummyRow(x, cats)| ==> DummyRow(x, cats)[j] in {Num(0.0), Num(1.0)}
    ensures CountWhere(DummyRow(x, cats), IsOne) == if x in cats && x != cats[0] then 1 else 0
    ensures |cats| > 0 && x == cats[0] ==> forall j :: 0 <= j < |DummyRow(x, cats)| ==> DummyRow(x, cats)[j] == Num(0.0)
  {
    if |cats| > 0 {
      assert cats == [cats[0]] + cats[1..];
      assert Distinct(cats[1..]);
      IndicatorsCount(x, cats[1..]);
      assert x in cats[1..] <==> x in cats && x != cats[0];
    }
  }

  /** Sector names with the prefix stay distinct. */
  lemma DummyNamesDistinct(cats: seq<Cell>)
    requires forall c :: c in cats ==> c.Text?
    requires Distinct(cats)
    ensures Distinct(DummyNames(cats))
    ensures forall j :: 0 <= j < |DummyNames(cats)| ==> |DummyNames(cats)[j]| > 0 && DummyNames(cats)[j][0] == 'S'
  {
    var names := DummyNames(cats);
    forall i, j | 0 <= i < j < |names| ensures names[i] != names[j] {
      assert cats[i + 1].s != cats[j + 1].s;
      assert names[i][|SectorPrefix|..] == cats[i + 1].s;
      assert names[j][|SectorPrefix|..] == cats[j + 1].s;
    }
  }

  /** `pd.get_dummies(df[sector_col], prefix="Sector", drop_first=True, dtype=int)`. */
  function SectorDummies(rows: seq<seq<Cell>>, s: int): Frame
  {
    var cats := Categories(ColumnCells(rows, s));
    Frame(DummyNames(cats), Map(rows, (row: seq<Cell>) => DummyRow(At(row, s), cats)))
  }

  /** `pd.concat([a, b], axis=1)` on tables with the same rows. */
  function Concat(a: Frame, b: Frame): (r: Frame)
    requires |a.rows| == |b.rows|
    ensures r.columns == a.columns + b.columns && |r.rows| == |a.rows|
    ensures forall i :: 0 <= i < |a.rows| ==> r.rows[i] == a.rows[i] + b.rows[i]
  {
    Frame(a.columns + b.columns, seq(|a.rows|, i requires 0 <= i < |a.rows| => a.rows[i] + b.rows[i]))
  }

  /** The columns of the result: ticker, the two market-cap columns, then the dummies if any. */
  function ControlColumns(df: Frame, d: seq<seq<Cell>>): seq<string>
  {
    var s := IndexOf(df.columns, SectorColumn);
    [TickerColumn, BillionsColumn, LogColumn] + (if s >= 0 then SectorDummies(d, s).columns else [])
  }

  /** The result row for one deduplicated input row. */
  function ControlRow(df: Frame, d: seq<seq<Cell>>, row: seq<Cell>, ln: real -> real): seq<Cell>
  {
    var t := IndexOf(df.columns, TickerColumn);
    var m := IndexOf(df.columns, MarketCapColumn);
    var s := IndexOf(df.columns, SectorColumn);
    var cap := CapBillions(At(row, m));
    [At(row, t), cap, LogCap(cap, ln)] + (if s >= 0 then DummyRow(At(row, s), Categories(ColumnCells(d, s))) else [])
  }

  /** The result's column names are distinct. */
  lemma ControlColumnsDistinct(df: Frame, d: seq<seq<Cell>>)
    ensures Distinct(ControlColumns(df, d))
  {
    var s := IndexOf(df.columns, SectorColumn);
    if s >= 0 {
      var cats := Categories(ColumnCells(d, s));
      DummyNamesDistinct(cats);
      FixedThenDummies(DummyNames(cats));
    }
  }

  /** The three fixed names start with other letters than the prefixed sector names. */
  lemma FixedThenDummies(names: seq<string>)
    requires Distinct(names)
    requires forall j :: 0 <= j < |names| ==> |names[j]| > 0 && names[j][0] == 'S'
    ensures Distinct([TickerColumn, BillionsColumn, LogColumn] + names)
  {
    var fixed := [TickerColumn, BillionsColumn, LogColumn];
    forall j | 0 <= j < |names| ensures names[j] !in fixed {
      assert names[j][0] != TickerColumn[0] && names[j][0] != BillionsColumn[0] && names[j][0] != LogColumn[0];
    }
    DistinctConcat(fixed, names);
  }

  /** Every result row has one cell per result column. */
  lemma ControlRowWidth(df: Frame, d: seq<seq<Cell>>, ln: real -> real)
    ensures forall row :: |ControlRow(df, d, row, ln)| == |ControlColumns(df, d)|
  {
  }

  /**
   * The table `create_control_variables` returns. A missing market-cap column
   * reads as missing cells, so both market-cap columns are then missing.
   */
  function ControlVariables(df: Frame, ln: real -> real): (r: Result<Frame, ControlsError>)
    ensures r.Err? <==> TickerColumn !in df.columns
    ensures r.Err? ==> r.error == MissingColumn(TickerColumn)
    ensures r.Ok? ==> Valid(r.value)
    ensures r.Ok? ==> |r.value.rows| == |Deduplicated(df.rows, IndexOf(df.columns, TickerColumn))|
  {
    if TickerColumn !in df.columns then Err(MissingColumn(TickerColumn))
    else
      var d := Deduplicated(df.rows, IndexOf(df.columns, TickerColumn));
      var s := IndexOf(df.columns, SectorColumn);
      var columns := ControlColumns(df, d);
      ControlColumnsDistinct(df, d);
      ControlRowWidth(df, d, ln);
      var rows := Map(d, (row: seq<Cell>) => ControlRow(df, d, row, ln));
      Ok(Frame(columns, rows))
  }

  /** Row `i` of the result is built from the `i`-th surviving input row, whose ticker it starts with. */
  lemma ControlRowsFromSurvivors(df: Frame, ln: real -> real)
    requires TickerColumn in df.columns
    ensures |ControlVariables(df, ln).value.rows| == |Deduplicated(df.rows, IndexOf(df.columns, TickerColumn))|
    ensures forall i :: 0 <= i < |Deduplicated(df.rows, IndexOf(df.columns, TickerColumn))| ==>
              ControlVariables(df, ln).value.rows[i]
              == ControlRow(df, Deduplicated(df.rows, IndexOf(df.columns, TickerColumn)),
                            Deduplicated(df.rows, IndexOf(df.columns, TickerColumn))[i], ln)
              && ControlVariables(df, ln).value.rows[i][0]
                 == At(Deduplicated(df.rows, IndexOf(df.columns, TickerColumn))[i], IndexOf(df.columns, TickerColumn))
  {
  }

  /** The result has one row per ticker: no ticker repeats and every ticker of the input is kept. */
  lemma ControlTickers(df: Frame, ln: real -> real)
    requires TickerColumn in df.columns
    ensures var out := ControlVariables(df, ln).value;
            (forall i, j :: 0 <= i < j < |out.rows| ==> out.rows[i][0] != out.rows[j][0])
            && (forall x :: (exists i :: 0 <= i < |out.rows| && out.rows[i][0] == x)
                            <==> HasKey(df.rows, ColumnKey(IndexOf(df.columns, TickerColumn)), x))
  {
    var t := IndexOf(df.columns, TickerColumn);
    var key := ColumnKey(t);
    var d := Deduplicated(df.rows, t);
    var out := ControlVariables(df, ln).value;
    ControlRowsFromSurvivors(df, ln);
    forall x ensures (exists i :: 0 <= i < |out.rows| && out.rows[i][0] == x) <==> HasKey(df.rows, key, x) {
      if HasKey(df.rows, key, x) {
        assert HasKey(d, key, x);
        var i :| 0 <= i < |d| && key(d[i]) == x;
        assert out.rows[i][0] == x;
      }
    }
  }

  /** Each row of the result comes from the first input row of its ticker. */
  lemma ControlRowOrigins(df: Frame, ln: real -> real, i: int)
    requires TickerColumn in df.columns
    requires 0 <= i < |ControlVariables(df, ln).value.rows|
    ensures exists k :: 0 <= k < |df.rows| && !Duplicated(df.rows, ColumnKey(IndexOf(df.columns, TickerColumn)), k)
                        && ControlVariables(df, ln).value.rows[i]
                           == ControlRow(df, Deduplicated(df.rows, IndexOf(df.columns, TickerColumn)), df.rows[k], ln)
                        && ControlVariables(df, ln).value.rows[i][0] == At(df.rows[k], IndexOf(df.columns, TickerColumn))
  {
    var t := IndexOf(df.columns, TickerColumn);
    var d := Deduplicated(df.rows, t);
    ControlRowsFromSurvivors(df, ln);
    assert d[i] in d;
    var k :| 0 <= k < |df.rows| && df.rows[k] == d[i] && !Duplicated(df.rows, ColumnKey(t), k);
    assert ControlVariables(df, ln).value.rows[i] == ControlRow(df, d, df.rows[k], ln);
  }

  /** The market-cap columns hold the cap in billions and its logarithm, never infinite. */
  lemma ControlMarketCap(df: Frame, ln: real -> real, i: int)
    requires TickerColumn in df.columns
    requires 0 <= i < |ControlVariables(df, ln).value.rows|
    ensures var out := ControlVariables(df, ln).value;
            var d := Deduplicated(df.rows, IndexOf(df.columns, TickerColumn));
            var c := At(d[i], IndexOf(df.columns, MarketCapColumn));
            out.rows[i][1] == CapBillions(c) && out.rows[i][2] == LogCap(CapBillions(c), ln)
            && !IsInfCell(out.rows[i][2])
            && (out.rows[i][2].Num? <==> c.Num? && c.v > 0.0)
  {
    var d := Deduplicated(df.rows, IndexOf(df.columns, TickerColumn));
    var c := At(d[i], IndexOf(df.columns, MarketCapColumn));
    LogMarketCap(c, ln);
    LogCapCases(CapBillions(c), ln);
  }

  /** Without a market-cap column both market-cap columns are missing in every row. */
  lemma ControlWithoutMarketCap(df: Frame, ln: real -> real)
    requires TickerColumn in df.columns && MarketCapColumn !in df.columns
    ensures var out := ControlVariables(df, ln).value;
            forall i :: 0 <= i < |out.rows| ==> out.rows[i][1] == Null && out.rows[i][2] == Null
  {
  }

  /**
   * With a sector column there is one dummy column per distinct sector name
   * but the first in sorted order, named `Sector_<name>`; each row has at most
   * one dummy set, the one of its own sector, and the baseline row has none.
   */
  lemma ControlSectorDummies(df: Frame, ln: real -> real, i: int)
    requires TickerColumn in df.columns && SectorColumn in df.columns
    requires 0 <= i < |ControlVariables(df, ln).value.rows|
    ensures var out := ControlVariables(df, ln).value;
            var d := Deduplicated(df.rows, IndexOf(df.columns, TickerColumn));
            var s := IndexOf(df.columns, SectorColumn);
            var cats := Categories(ColumnCells(d, s));
            var dummies := out.rows[i][3..];
            out.columns == [TickerColumn, BillionsColumn, LogColumn] + DummyNames(cats)
            && |dummies| == |DummyNames(cats)|
            && (forall j :: 0 <= j < |dummies| ==> dummies[j] == Indicator(At(d[i], s) == cats[j + 1]))
            && CountWhere(dummies, IsOne) == (if At(d[i], s) in cats && At(d[i], s) != cats[0] then 1 else 0)
  {
    var d := Deduplicated(df.rows, IndexOf(df.columns, TickerColumn));
    var s := IndexOf(df.columns, SectorColumn);
    var cats := Categories(ColumnCells(d, s));
    var out := ControlVariables(df, ln).value;
    assert out.rows[i] == ControlRow(df, d, d[i], ln);
    assert out.rows[i][3..] == DummyRow(At(d[i], s), cats);
    DummyRowOnes(At(d[i], s), cats);
  }

  /** Without a sector column no dummy column is created. */
  lemma ControlWithoutSector(df: Frame, ln: real -> real)
    requires TickerColumn in df.columns && SectorColumn !in df.columns
    ensures var out := ControlVariables(df, ln).value;
            out.columns == [TickerColumn, BillionsColumn, LogColumn]
            && forall i :: 0 <= i < |out.rows| ==> |out.rows[i]| == 3
  {
  }

  /** Writing a column the table lacks appends it, and its cell, to every row. */
  lemma AppendColumn(f: Frame, name: string, cells: seq<Cell>)
    requires Valid(f) && |cells| == |f.rows| && name !in f.columns
    ensures PutColumn(f, name, cells).columns == f.columns + [name]
    ensures forall i :: 0 <= i < |f.rows| ==> PutColumn(f, name, cells).rows[i] == f.rows[i] + [cells[i]]
  {
  }

  /** `df[[ticker_col]]`: the table holding only the ticker column. */
  function TickerTable(rows: seq<seq<Cell>>, t: int): (g: Frame)
    ensures Valid(g) && g.columns == [TickerColumn] && |g.rows| == |rows|
    ensures forall i :: 0 <= i < |rows| ==> g.rows[i] == [At(rows[i], t)]
  {
    Frame([TickerColumn], Map(rows, (row: seq<Cell>) => [At(row, t)]))
  }

  /** Writing the two market-cap columns onto the ticker table appends them in that order. */
  lemma MarketCapSteps(rows: seq<seq<Cell>>, t: int, caps: seq<Cell>, logs: seq<Cell>)
    requires |caps| == |rows| && |logs| == |rows|
    ensures PutColumn(TickerTable(rows, t), BillionsColumn, caps).columns == [TickerColumn] + [BillionsColumn]
    ensures Valid(PutColumn(TickerTable(rows, t), BillionsColumn, caps))
    ensures PutColumn(PutColumn(TickerTable(rows, t), BillionsColumn, caps), LogColumn, logs).columns == [TickerColumn] + [BillionsColumn] + [LogColumn]
    ensures |PutColumn(PutColumn(TickerTable(rows, t), BillionsColumn, caps), LogColumn, logs).rows| == |rows|
    ensures forall i :: 0 <= i < |rows| ==>
              PutColumn(PutColumn(TickerTable(rows, t), BillionsColumn, caps), LogColumn, logs).rows[i] == [At(rows[i], t)] + [caps[i]] + [logs[i]]
  {
    var base := TickerTable(rows, t);
    AppendColumn(base, BillionsColumn, caps);
    var mid := PutColumn(base, BillionsColumn, caps);
    AppendColumn(mid, LogColumn, logs);
  }

  /**
   * The ticker column and the two market-cap columns of the deduplicated rows,
   * followed by the sector dummies when there is a sector column, is the result.
   */
  lemma ControlVariablesTable(df: Frame, ln: real -> real, caps: seq<Cell>, logs: seq<Cell>, base: Frame)
    requires TickerColumn in df.columns
    requires var d := Deduplicated(df.rows, IndexOf(df.columns, TickerColumn));
             var m := IndexOf(df.columns, MarketCapColumn);
             |caps| == |d| && |logs| == |d|
             && (forall i :: 0 <= i < |d| ==> caps[i] == CapBillions(At(d[i], m)) && logs[i] == LogCap(caps[i], ln))
    requires base.columns == [TickerColumn] + [BillionsColumn] + [LogColumn]
    requires |base.rows| == |Deduplicated(df.rows, IndexOf(df.columns, TickerColumn))|
    requires var d := Deduplicated(df.rows, IndexOf(df.columns, TickerColumn));
             var t := IndexOf(df.columns, TickerColumn);
             forall i :: 0 <= i < |d| ==> base.rows[i] == [At(d[i], t)] + [caps[i]] + [logs[i]]
    ensures var d := Deduplicated(df.rows, IndexOf(df.columns, TickerColumn));
            var s := IndexOf(df.columns, SectorColumn);
            ControlVariables(df, ln) == Ok(if s >= 0 then Concat(base, SectorDummies(d, s)) else base)
  {
    var d := Deduplicated(df.rows, IndexOf(df.columns, TickerColumn));
    var t := IndexOf(df.columns, TickerColumn);
    var s := IndexOf(df.columns, SectorColumn);
    var g := if s >= 0 then Concat(base, SectorDummies(d, s)) else base;
    var out := ControlVariables(df, ln).value;
    assert [TickerColumn] + [BillionsColumn] + [LogColumn] == [TickerColumn, BillionsColumn, LogColumn];
    assert g.columns == ControlColumns(df, d);
    forall i | 0 <= i < |d| ensures g.rows[i] == out.rows[i] {
      assert out.rows[i] == ControlRow(df, d, d[i], ln);
      assert [At(d[i], t)] + [caps[i]] + [logs[i]] == [At(d[i], t), caps[i], logs[i]];
    }
    assert out.rows == g.rows;
  }

  /**
   * `create_control_variables`: keep the first row per ticker, start from the
   * ticker column, add the market-cap columns and append the sector dummies.
   */
  method CreateControlVariables(df: Frame, ln: real -> real) returns (r: Result<Frame, ControlsError>)
    ensures r == ControlVariables(df, ln)
  {
    if TickerColumn !in df.columns {
      return Err(MissingColumn(TickerColumn));
    }
    var t := IndexOf(df.columns, TickerColumn);
    var rows := Deduplicated(df.rows, t);
    var results := TickerTable(rows, t);
    var m := IndexOf(df.columns, MarketCapColumn);
    var caps: seq<Cell>;
    if m >= 0 {
      caps := Map(rows, (row: seq<Cell>) => CapBillions(At(row, m)));
    } else {
      caps := seq(|rows|, _ => Null);
    }
    assert forall i :: 0 <= i < |rows| ==> caps[i] == CapBillions(At(rows[i], m));
    var logs := Map(caps, (c: Cell) => LogCap(c, ln));
    MarketCapSteps(rows, t, caps, logs);
    results := PutColumn(results, BillionsColumn, caps);
    results := PutColumn(results, LogColumn, logs);
    ControlVariablesTable(df, ln, caps, logs, results);
    var s := IndexOf(df.columns, SectorColumn);
    if s >= 0 {
      results := Concat(results, SectorDummies(rows, s));
    }
    r := Ok(results);
  }
}
