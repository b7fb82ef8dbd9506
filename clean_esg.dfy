/**
 * ESG cleaning (`clean_esg_data`): resolve the ticker column, normalise and
 * de-duplicate tickers, pick the ESG score columns, then either drop the rows
 * with a missing score (fewer than 5% of rows have one) or fill missing scores
 * with a sector (or global) median, and finally drop rows whose scores are
 * infinite. Reading and writing CSV files and the console report are not
 * modelled; the median is a parameter.
 */
module CleanEsg {
  import opened Wrappers
  import opened Cells
  import opened Text
  import opened Seqs
  import opened Columns
  import opened Frames

  const TickerCandidates: seq<string> := ["Ticker", "Symbol", "ticker", "symbol", "TICKER", "SYMBOL"]
  const SectorCandidates: seq<string> := ["Sector", "sector", "SECTOR", "Industry", "industry"]

  datatype EsgError =
    | NoTickerColumn   // the source returns None
    | NoStringTickers  // rows but not one string ticker: the `.str` accessor raises AttributeError
    | EmptyTable       // no rows: the closing report divides by `original_count`, a ZeroDivisionError

  /**
   * The ESG-column test: the lower-cased name mentions esg, environment, social
   * or governance, and also score or rating, or is one of e, s, g, esg.
   */
  predicate IsEsgColumn(name: string)
  {
    var l := Lower(name);
    (Contains(l, "esg") || Contains(l, "environment") || Contains(l, "social") || Contains(l, "governance"))
    && (Contains(l, "score") || Contains(l, "rating") || l in ["e", "s", "g", "esg"])
  }

  /** `.str.upper().str.strip()` on one cell; a cell that is not a string becomes missing. */
  function NormaliseCell(c: Cell): Cell
  {
    if c.Text? then Text(NormaliseTicker(c.s)) else Null
  }

  /** Position of the ticker column, or -1 when no candidate name is present. */
  function TickerColumn(columns: seq<string>): int
  {
    match FirstPresent(TickerCandidates, columns)
    case None => -1
    case Some(name) => IndexOf(columns, name)
  }

  /** Position of the sector column used for imputation, or -1. */
  function SectorColumn(columns: seq<string>): int
  {
    match FirstPresent(SectorCandidates, columns)
    case None => -1
    case Some(name) => IndexOf(columns, name)
  }

  /** Positions of the ESG columns, in column order. */
  function EsgColumns(columns: seq<string>): seq<int>
  {
    IndicesOf(columns, Filter(columns, IsEsgColumn))
  }

  function NormaliseTickers(rows: seq<seq<Cell>>, t: int): seq<seq<Cell>>
  {
    Map(rows, (row: seq<Cell>) => SetAt(row, t, NormaliseCell(At(row, t))))
  }

  /** How many rows miss at least one ESG score. */
  function MissingRows(rows: seq<seq<Cell>>, esg: seq<int>): nat
  {
    CountWhere(rows, (row: seq<Cell>) => AnyNullAt(row, esg))
  }

  /**
   * `missing_pct < 5` with `missing_pct = missing / total * 100`; with no rows
   * the percentage is NaN and the comparison is false.
   */
  predicate DropsMissing(rows: seq<seq<Cell>>, esg: seq<int>)
  {
    |rows| > 0 && 20 * MissingRows(rows, esg) < |rows|
  }

  /** `dropna(subset=esg_columns)` */
  function DropIncomplete(rows: seq<seq<Cell>>, esg: seq<int>): seq<seq<Cell>>
  {
    Filter(rows, (row: seq<Cell>) => !AnyNullAt(row, esg))
  }

  function Present(cells: seq<Cell>): seq<Cell>
  {
    Filter(cells, (c: Cell) => !c.Null?)
  }

  /** The median of the present cells, missing when there are none. */
  function MedianOrNull(cells: seq<Cell>, median: seq<Cell> -> Cell): Cell
  {
    var p := Present(cells);
    if |p| == 0 then Null else median(p)
  }

  /** Column `k` of the rows whose sector cell is `sector`. */
  function GroupCells(rows: seq<seq<Cell>>, k: int, s: int, sector: Cell): seq<Cell>
  {
    ColumnCells(Filter(rows, (row: seq<Cell>) => At(row, s) == sector), k)
  }

  /**
   * `groupby(sector)[k].transform(lambda x: x.fillna(x.median()))`: a missing
   * score takes its sector's median; rows whose sector is missing belong to no
   * group and come out missing.
   */
  function FillCell(rows: seq<seq<Cell>>, k: int, s: int, median: seq<Cell> -> Cell, row: seq<Cell>): Cell
  {
    if s >= 0 then
      if At(row, s).Null? then Null
      else if !At(row, k).Null? then At(row, k)
      else MedianOrNull(GroupCells(rows, k, s, At(row, s)), median)
    else if !At(row, k).Null? then At(row, k)
    else MedianOrNull(ColumnCells(rows, k), median)
  }

  /** One pass of the imputation loop: column `k` rewritten for every row. */
  function FillColumn(rows: seq<seq<Cell>>, k: int, s: int, median: seq<Cell> -> Cell): seq<seq<Cell>>
  {
    Map(rows, (row: seq<Cell>) => SetAt(row, k, FillCell(rows, k, s, median, row)))
  }

  /** The imputation loop over the columns `ks`, in order. */
  function FillColumns(rows: seq<seq<Cell>>, ks: seq<int>, s: int, median: seq<Cell> -> Cell): (r: seq<seq<Cell>>)
    ensures |r| == |rows|
    decreases |ks|
  {
    if |ks| == 0 then rows
    else FillColumn(FillColumns(rows, ks[..|ks| - 1], s, median), ks[|ks| - 1], s, median)
  }

  /** The imputation loop leaves every column outside `ks` as it was. */
  lemma {:induction false} FillColumnsKeepsOthers(rows: seq<seq<Cell>>, ks: seq<int>, s: int, median: seq<Cell> -> Cell, j: int)
    requires j !in ks
    ensures forall i :: 0 <= i < |rows| ==> At(FillColumns(rows, ks, s, median)[i], j) == At(rows[i], j)
    decreases |ks|
  {
    if |ks| > 0 {
      assert j !in ks[..|ks| - 1];
      FillColumnsKeepsOthers(rows, ks[..|ks| - 1], s, median, j);
    }
  }

  predicate HasInfiniteScore(rows: seq<seq<Cell>>, esg: seq<int>)
  {
    exists i, j :: 0 <= i < |rows| && 0 <= j < |esg| && IsInfCell(At(rows[i], esg[j]))
  }

  function InfToNull(c: Cell): Cell
  {
    if IsInfCell(c) then Null else c
  }

  /** `replace([inf, -inf], nan)` on the whole table. */
  function ReplaceInfinite(rows: seq<seq<Cell>>): seq<seq<Cell>>
  {
    Map(rows, (row: seq<Cell>) => Map(row, InfToNull))
  }

  /** The infinity step: only when some score is infinite, then every infinity goes and incomplete rows are dropped. */
  function RemoveInfinite(rows: seq<seq<Cell>>, esg: seq<int>): seq<seq<Cell>>
  {
    if HasInfiniteScore(rows, esg) then DropIncomplete(ReplaceInfinite(rows), esg) else rows
  }

  /** The missing-value strategy: drop incomplete rows below 5%, impute otherwise. */
  function HandleMissing(rows: seq<seq<Cell>>, esg: seq<int>, s: int, median: seq<Cell> -> Cell): seq<seq<Cell>>
  {
    if DropsMissing(rows, esg) then DropIncomplete(rows, esg) else FillColumns(rows, esg, s, median)
  }

  /** Normalised, de-duplicated rows: the table the missing-value strategy sees. */
  function UniqueTickerRows(f: Frame): seq<seq<Cell>>
  {
    var t := TickerColumn(f.columns);
    KeepFirst(NormaliseTickers(f.rows, t), ColumnKey(t))
  }

  /**
   * Some row has a string ticker: the reader then gives the column the object
   * type that `.str.upper()` needs (a column of numbers or of missing values
   * gets a numeric type).
   */
  predicate HasStringTicker(rows: seq<seq<Cell>>, t: int)
  {
    exists i :: 0 <= i < |rows| && At(rows[i], t).Text?
  }

  /**
   * The whole cleaning step. It fails when the table has no ticker column,
   * when it has rows but none with a string ticker, and when it has no rows.
   */
  function CleanEsg(f: Frame, median: seq<Cell> -> Cell): (r: Result<Frame, EsgError>)
    ensures r == Err(NoTickerColumn) <==> forall k :: 0 <= k < |TickerCandidates| ==> TickerCandidates[k] !in f.columns
    ensures r == Err(NoStringTickers) <==>
              (exists k :: 0 <= k < |TickerCandidates| && TickerCandidates[k] in f.columns)
              && |f.rows| > 0 && !HasStringTicker(f.rows, TickerColumn(f.columns))
    ensures r == Err(EmptyTable) <==> (exists k :: 0 <= k < |TickerCandidates| && TickerCandidates[k] in f.columns) && |f.rows| == 0
    ensures r.Ok? ==> r.value.columns == f.columns
  {
    if FirstPresent(TickerCandidates, f.columns).None? then Err(NoTickerColumn)
    else if |f.rows| > 0 && !HasStringTicker(f.rows, TickerColumn(f.columns)) then Err(NoStringTickers)
    else
      var esg := EsgColumns(f.columns);
      var rows := HandleMissing(UniqueTickerRows(f), esg, SectorColumn(f.columns), median);
      if |f.rows| == 0 then Err(EmptyTable)
      else Ok(Frame(f.columns, RemoveInfinite(rows, esg)))
  }

  /** The imputation loop: each ESG column in turn is rewritten with its filled values. */
  method ImputeScores(rows: seq<seq<Cell>>, esg: seq<int>, s: int, median: seq<Cell> -> Cell) returns (filled: seq<seq<Cell>>)
    ensures filled == FillColumns(rows, esg, s, median)
  {
    filled := rows;
    for j := 0 to |esg|
      invariant filled == FillColumns(rows, esg[..j], s, median)
    {
      assert esg[..j + 1][..j] == esg[..j];
      filled := FillColumn(filled, esg[j], s, median);
    }
    assert esg[..|esg|] == esg;
  }

  /** The cleaning step as the source performs it, one reassignment of the table at a time. */
  method CleanEsgData(f: Frame, median: seq<Cell> -> Cell) returns (out: Result<Frame, EsgError>)
    ensures out == CleanEsg(f, median)
  {
    var tickerCol := ResolveColumn(TickerCandidates, f.columns);
    if tickerCol.None? {
      return Err(NoTickerColumn);
    }
    var t := IndexOf(f.columns, tickerCol.value);
    assert t == TickerColumn(f.columns);
    if |f.rows| > 0 && !HasStringTicker(f.rows, t) {
      return Err(NoStringTickers);
    }
    var rows := NormaliseTickers(f.rows, t);
    rows := KeepFirst(rows, ColumnKey(t));
    assert rows == UniqueTickerRows(f);
    var esgNames := CollectColumns(f.columns, IsEsgColumn);
    var esg := IndicesOf(f.columns, esgNames);
    assert esg == EsgColumns(f.columns);
    ghost var deduplicated := rows;
    if DropsMissing(rows, esg) {
      rows := DropIncomplete(rows, esg);
    } else {
      var sectorCol := ResolveColumn(SectorCandidates, f.columns);
      var s := if sectorCol.Some? then IndexOf(f.columns, sectorCol.value) else -1;
      assert s == SectorColumn(f.columns);
      rows := ImputeScores(rows, esg, s, median);
    }
    assert rows == HandleMissing(deduplicated, esg, SectorColumn(f.columns), median);
    rows := RemoveInfinite(rows, esg);
    if |f.rows| == 0 {
      return Err(EmptyTable);
    }
    out := Ok(Frame(f.columns, rows));
  }

  // ---------------------------------------------------------------------------
  // Column selection

  /** A name without the letters g, a and v (in either case) is never an ESG column. */
  lemma NotEsgWithout(name: string)
    requires forall i :: 0 <= i < |name| ==> name[i] !in "gGaAvV"
    ensures !IsEsgColumn(name)
  {
    var l := Lower(name);
    assert forall i :: 0 <= i < |l| ==> l[i] != 'g' && l[i] != 'a' && l[i] != 'v';
    if Contains(l, "esg") { ContainsChars(l, "esg", 2); }
    if Contains(l, "social") { ContainsChars(l, "social", 4); }
    if Contains(l, "environment") { ContainsChars(l, "environment", 2); }
    if Contains(l, "governance") { ContainsChars(l, "governance", 0); }
  }

  /** No ticker alias is an ESG column, so imputation never touches the ticker column. */
  lemma TickerNamesNotEsg()
    ensures forall c :: c in TickerCandidates ==> !IsEsgColumn(c)
  {
    forall c | c in TickerCandidates ensures !IsEsgColumn(c) {
      NotEsgWithout(c);
    }
  }

  /**
   * A name of one or two letters is never selected: the keyword test needs
   * at least "esg", so the alternatives e, s and g can never apply.
   */
  lemma ShortNamesNotEsg(name: string)
    requires |name| < 3
    ensures !IsEsgColumn(name)
  {
    var l := Lower(name);
    ContainsShort(l, "esg");
    ContainsShort(l, "environment");
    ContainsShort(l, "social");
    ContainsShort(l, "governance");
  }

  /** The ESG columns are exactly the names passing the test, in column order, each once. */
  lemma EsgColumnsSelected(f: Frame)
    requires Valid(f)
    ensures Distinct(Filter(f.columns, IsEsgColumn))
    ensures forall c :: c in Filter(f.columns, IsEsgColumn) <==> c in f.columns && IsEsgColumn(c)
    ensures forall j :: 0 <= j < |EsgColumns(f.columns)| ==>
              0 <= EsgColumns(f.columns)[j] < |f.columns| && IsEsgColumn(f.columns[EsgColumns(f.columns)[j]])
  {
    SelectedColumns(f.columns, IsEsgColumn);
  }

  /** The ticker column is never among the ESG columns. */
  lemma TickerNotAmongEsg(columns: seq<string>)
    ensures TickerColumn(columns) !in EsgColumns(columns)
  {
    var t := TickerColumn(columns);
    var names := Filter(columns, IsEsgColumn);
    var esg := EsgColumns(columns);
    TickerNamesNotEsg();
    if t >= 0 {
      forall j | 0 <= j < |esg| ensures esg[j] != t {
        assert IsEsgColumn(names[j]);
        assert columns[t] in TickerCandidates;
      }
    }
  }

  // ---------------------------------------------------------------------------
  // Tickers

  /** Every normalised ticker cell is missing or an upper-case, stripped string. */
  lemma NormaliseCellIsNormal(c: Cell)
    ensures NormaliseCell(c).Null? || (NormaliseCell(c).Text? && IsNormalTicker(NormaliseCell(c).s))
  {
    if c.Text? { NormaliseTickerIsNormal(c.s); }
  }

  /** Every ticker cell after normalisation is missing or an upper-case, stripped string. */
  lemma NormalisedTickers(rows: seq<seq<Cell>>, t: int)
    requires forall i :: 0 <= i < |rows| ==> 0 <= t < |rows[i]|
    ensures forall i :: 0 <= i < |rows| ==>
              var c := At(NormaliseTickers(rows, t)[i], t);
              c.Null? || (c.Text? && IsNormalTicker(c.s))
  {
    forall i | 0 <= i < |rows| {
      NormaliseCellIsNormal(At(rows[i], t));
    }
  }

  /** Normalisation touches the ticker column only. */
  lemma NormaliseKeepsOtherColumns(rows: seq<seq<Cell>>, t: int, j: int)
    requires j != t
    ensures |NormaliseTickers(rows, t)| == |rows|
    ensures forall i :: 0 <= i < |rows| ==> At(NormaliseTickers(rows, t)[i], j) == At(rows[i], j)
  {
  }

  /** Dropping rows never adds a ticker and keeps tickers distinct. */
  lemma FilterTickers(rows: seq<seq<Cell>>, p: seq<Cell> -> bool, t: int)
    requires DistinctKeys(rows, ColumnKey(t))
    ensures DistinctKeys(Filter(rows, p), ColumnKey(t))
  {
    FilterDistinctKeys(rows, p, ColumnKey(t));
  }

  /** Every later step keeps each row's ticker cell or drops the row. */
  lemma HandleMissingKeepsTickers(rows: seq<seq<Cell>>, esg: seq<int>, s: int, median: seq<Cell> -> Cell, t: int)
    requires t !in esg
    requires DistinctKeys(rows, ColumnKey(t))
    ensures var r := HandleMissing(rows, esg, s, median);
            DistinctKeys(r, ColumnKey(t)) && forall i :: 0 <= i < |r| ==> HasKey(rows, ColumnKey(t), At(r[i], t))
  {
    var r := HandleMissing(rows, esg, s, median);
    if DropsMissing(rows, esg) {
      FilterTickers(rows, (row: seq<Cell>) => !AnyNullAt(row, esg), t);
      forall i | 0 <= i < |r| ensures HasKey(rows, ColumnKey(t), At(r[i], t)) {
        assert r[i] in rows;
        var k :| 0 <= k < |rows| && rows[k] == r[i];
        assert ColumnKey(t)(rows[k]) == At(r[i], t);
      }
    } else {
      FillColumnsKeepsOthers(rows, esg, s, median, t);
      forall i | 0 <= i < |r| ensures ColumnKey(t)(r[i]) == ColumnKey(t)(rows[i]) {
        assert At(r[i], t) == At(rows[i], t);
      }
      forall i | 0 <= i < |r| ensures HasKey(rows, ColumnKey(t), At(r[i], t)) {
        assert ColumnKey(t)(rows[i]) == At(r[i], t);
      }
    }
  }

  /** Replacing infinities keeps a ticker cell that is missing or a string. */
  lemma RemoveInfiniteKeepsTickers(rows: seq<seq<Cell>>, esg: seq<int>, t: int)
    requires DistinctKeys(rows, ColumnKey(t))
    requires forall i :: 0 <= i < |rows| ==> !IsInfCell(At(rows[i], t))
    ensures var r := RemoveInfinite(rows, esg);
            DistinctKeys(r, ColumnKey(t)) && forall i :: 0 <= i < |r| ==> HasKey(rows, ColumnKey(t), At(r[i], t))
  {
    var r := RemoveInfinite(rows, esg);
    if HasInfiniteScore(rows, esg) {
      var rep := ReplaceInfinite(rows);
      forall i | 0 <= i < |rep| ensures ColumnKey(t)(rep[i]) == ColumnKey(t)(rows[i]) {
        assert At(rep[i], t) == InfToNull(At(rows[i], t));
      }
      assert DistinctKeys(rep, ColumnKey(t));
      FilterTickers(rep, (row: seq<Cell>) => !AnyNullAt(row, esg), t);
      forall i | 0 <= i < |r| ensures HasKey(rows, ColumnKey(t), At(r[i], t)) {
        assert r[i] in rep;
        var k :| 0 <= k < |rep| && rep[k] == r[i];
        assert ColumnKey(t)(rows[k]) == At(r[i], t);
      }
    } else {
      forall i | 0 <= i < |r| ensures HasKey(rows, ColumnKey(t), At(r[i], t)) {
        assert ColumnKey(t)(rows[i]) == At(r[i], t);
      }
    }
  }

  /** A ticker cell the de-duplicated table carries is normalised and comes from the first row with that ticker. */
  lemma DeduplicatedTickers(f: Frame)
    requires Valid(f) && TickerColumn(f.columns) >= 0
    ensures var t := TickerColumn(f.columns);
            var norm := NormaliseTickers(f.rows, t);
            forall x :: HasKey(UniqueTickerRows(f), ColumnKey(t), x) ==>
              (x.Null? || (x.Text? && IsNormalTicker(x.s)))
              && exists k :: 0 <= k < |norm| && At(norm[k], t) == x && !Duplicated(norm, ColumnKey(t), k)
  {
    var t := TickerColumn(f.columns);
    var norm := NormaliseTickers(f.rows, t);
    var dedup := UniqueTickerRows(f);
    NormalisedTickers(f.rows, t);
    forall x | HasKey(dedup, ColumnKey(t), x)
      ensures (x.Null? || (x.Text? && IsNormalTicker(x.s)))
      ensures exists k :: 0 <= k < |norm| && At(norm[k], t) == x && !Duplicated(norm, ColumnKey(t), k)
    {
      var j :| 0 <= j < |dedup| && ColumnKey(t)(dedup[j]) == x;
      KeepFirstOnlyFirsts(norm, ColumnKey(t), dedup[j]);
      var k :| 0 <= k < |norm| && norm[k] == dedup[j] && !Duplicated(norm, ColumnKey(t), k);
      assert At(norm[k], t) == x;
    }
  }

  /** Rows whose tickers all come from rows with missing or string tickers have no infinite ticker. */
  lemma FiniteTickers(rows: seq<seq<Cell>>, r: seq<seq<Cell>>, t: int)
    requires forall x :: HasKey(rows, ColumnKey(t), x) ==> x.Null? || x.Text?
    requires forall i :: 0 <= i < |r| ==> HasKey(rows, ColumnKey(t), At(r[i], t))
    ensures forall i :: 0 <= i < |r| ==> !IsInfCell(At(r[i], t))
  {
    forall i | 0 <= i < |r| ensures !IsInfCell(At(r[i], t)) {
      assert HasKey(rows, ColumnKey(t), At(r[i], t));
    }
  }

  /**
   * `row` carries the cells of `src` outside the columns `ks`, except that an
   * infinity may have become missing.
   */
  ghost predicate SameOutside(row: seq<Cell>, src: seq<Cell>, ks: seq<int>)
  {
    forall c :: c !in ks ==> At(row, c) == At(src, c) || (IsInfCell(At(src, c)) && At(row, c).Null?)
  }

  /** Each row the missing-value strategy returns agrees, outside the scores, with one of its input rows. */
  lemma HandleMissingOrigin(rows: seq<seq<Cell>>, esg: seq<int>, s: int, median: seq<Cell> -> Cell, j: int)
    requires 0 <= j < |HandleMissing(rows, esg, s, median)|
    ensures exists m :: 0 <= m < |rows| && SameOutside(HandleMissing(rows, esg, s, median)[j], rows[m], esg)
  {
    var r := HandleMissing(rows, esg, s, median);
    if DropsMissing(rows, esg) {
      assert r[j] in rows;
      var m :| 0 <= m < |rows| && rows[m] == r[j];
      assert SameOutside(r[j], rows[m], esg);
    } else {
      forall c | c !in esg ensures At(r[j], c) == At(rows[j], c) {
        FillColumnsKeepsOthers(rows, esg, s, median, c);
      }
      assert SameOutside(r[j], rows[j], esg);
    }
  }

  /** Each row the infinity step returns is one of its input rows, with some infinities made missing. */
  lemma RemoveInfiniteOrigin(rows: seq<seq<Cell>>, esg: seq<int>, i: int)
    requires 0 <= i < |RemoveInfinite(rows, esg)|
    ensures exists j :: 0 <= j < |rows| && SameOutside(RemoveInfinite(rows, esg)[i], rows[j], [])
  {
    var r := RemoveInfinite(rows, esg);
    if HasInfiniteScore(rows, esg) {
      var rep := ReplaceInfinite(rows);
      assert r[i] in rep;
      var j :| 0 <= j < |rep| && rep[j] == r[i];
      forall c ensures At(r[i], c) == InfToNull(At(rows[j], c)) {
      }
      assert SameOutside(r[i], rows[j], []);
    } else {
      assert SameOutside(r[i], rows[i], []);
    }
  }

  /**
   * A row left by the missing-value and infinity steps after de-duplication is
   * the first row of `norm` with its ticker, up to scores and infinities.
   */
  lemma CleanedRowOrigin(norm: seq<seq<Cell>>, esg: seq<int>, s: int, median: seq<Cell> -> Cell, t: int, i: int)
    requires t !in esg
    requires forall k :: 0 <= k < |norm| ==> !IsInfCell(At(norm[k], t))
    requires 0 <= i < |RemoveInfinite(HandleMissing(KeepFirst(norm, ColumnKey(t)), esg, s, median), esg)|
    ensures var out := RemoveInfinite(HandleMissing(KeepFirst(norm, ColumnKey(t)), esg, s, median), esg);
            exists k :: 0 <= k < |norm| && At(norm[k], t) == At(out[i], t) && !Duplicated(norm, ColumnKey(t), k)
                        && SameOutside(out[i], norm[k], esg)
  {
    var dedup := KeepFirst(norm, ColumnKey(t));
    var handled := HandleMissing(dedup, esg, s, median);
    var out := RemoveInfinite(handled, esg);
    RemoveInfiniteOrigin(handled, esg, i);
    var j :| 0 <= j < |handled| && SameOutside(out[i], handled[j], []);
    HandleMissingOrigin(dedup, esg, s, median, j);
    var m :| 0 <= m < |dedup| && SameOutside(handled[j], dedup[m], esg);
    KeepFirstOnlyFirsts(norm, ColumnKey(t), dedup[m]);
    var k :| 0 <= k < |norm| && norm[k] == dedup[m] && !Duplicated(norm, ColumnKey(t), k);
    SameOutsideCompose(out[i], handled[j], norm[k], esg, t);
  }

  /** `SameOutside` composes; a finite cell outside the columns passes through unchanged. */
  lemma SameOutsideCompose(row: seq<Cell>, mid: seq<Cell>, src: seq<Cell>, ks: seq<int>, t: int)
    requires SameOutside(row, mid, []) && SameOutside(mid, src, ks)
    requires t !in ks && !IsInfCell(At(src, t))
    ensures SameOutside(row, src, ks) && At(row, t) == At(src, t)
  {
    assert t !in [];
    forall c | c !in ks
      ensures At(row, c) == At(src, c) || (IsInfCell(At(src, c)) && At(row, c).Null?)
    {
      assert c !in [];
    }
  }

  /**
   * After cleaning no ticker repeats, every ticker is missing or upper-case and
   * stripped, and every output row is the first normalised input row with its
   * ticker: outside the score columns it keeps that row's cells, except
   * infinities made missing.
   */
  lemma CleanEsgTickers(f: Frame, median: seq<Cell> -> Cell)
    requires Valid(f)
    ensures var r := CleanEsg(f, median);
            var t := TickerColumn(f.columns);
            var norm := NormaliseTickers(f.rows, t);
            r.Ok? ==>
              DistinctKeys(r.value.rows, ColumnKey(t))
              && forall i :: 0 <= i < |r.value.rows| ==>
                   var x := At(r.value.rows[i], t);
                   (x.Null? || (x.Text? && IsNormalTicker(x.s)))
                   && exists k :: 0 <= k < |norm| && At(norm[k], t) == x && !Duplicated(norm, ColumnKey(t), k)
                                  && SameOutside(r.value.rows[i], norm[k], EsgColumns(f.columns))
  {
    var r := CleanEsg(f, median);
    if r.Ok? {
      var t := TickerColumn(f.columns);
      var esg := EsgColumns(f.columns);
      var s := SectorColumn(f.columns);
      var norm := NormaliseTickers(f.rows, t);
      var dedup := UniqueTickerRows(f);
      assert 0 <= t < |f.columns|;
      KeepFirstProperties(norm, ColumnKey(t));
      DeduplicatedTickers(f);
      TickerNotAmongEsg(f.columns);
      var handled := HandleMissing(dedup, esg, s, median);
      HandleMissingKeepsTickers(dedup, esg, s, median, t);
      FiniteTickers(dedup, handled, t);
      RemoveInfiniteKeepsTickers(handled, esg, t);
      var out := r.value.rows;
      assert out == RemoveInfinite(handled, esg);
      KeysWithin(dedup, handled, out, ColumnKey(t));
      forall i | 0 <= i < |out|
        ensures exists k :: 0 <= k < |norm| && At(norm[k], t) == At(out[i], t) && !Duplicated(norm, ColumnKey(t), k)
                            && SameOutside(out[i], norm[k], esg)
      {
        NormalisedTickers(f.rows, t);
        CleanedRowOrigin(norm, esg, s, median, t, i);
      }
    }
  }

  // ---------------------------------------------------------------------------
  // Missing values and infinities

  /** Cleaning never adds rows. */
  lemma CleanEsgShrinks(f: Frame, median: seq<Cell> -> Cell)
    ensures CleanEsg(f, median).Ok? ==>
              CleanEsg(f, median).value.columns == f.columns && |CleanEsg(f, median).value.rows| <= |f.rows|
  {
    var r := CleanEsg(f, median);
    if r.Ok? {
      var t := TickerColumn(f.columns);
      var esg := EsgColumns(f.columns);
      var norm := NormaliseTickers(f.rows, t);
      var dedup := UniqueTickerRows(f);
      KeepFirstProperties(norm, ColumnKey(t));
      MissingStrategy(dedup, esg, SectorColumn(f.columns), median);
      var handled := HandleMissing(dedup, esg, SectorColumn(f.columns), median);
      assert r.value.rows == RemoveInfinite(handled, esg);
      assert |RemoveInfinite(handled, esg)| <= |handled|;
    }
  }

  /**
   * Below the 5% threshold exactly the rows missing an ESG score are dropped;
   * at or above it no row is dropped and every cell outside the ESG columns
   * keeps its value.
   */
  lemma MissingStrategy(rows: seq<seq<Cell>>, esg: seq<int>, s: int, median: seq<Cell> -> Cell)
    ensures DropsMissing(rows, esg) ==>
              HandleMissing(rows, esg, s, median) == Filter(rows, (row: seq<Cell>) => !AnyNullAt(row, esg))
              && |HandleMissing(rows, esg, s, median)| == |rows| - MissingRows(rows, esg)
    ensures !DropsMissing(rows, esg) ==>
              |HandleMissing(rows, esg, s, median)| == |rows|
              && forall i, j :: 0 <= i < |rows| && j !in esg ==> At(HandleMissing(rows, esg, s, median)[i], j) == At(rows[i], j)
  {
    if !DropsMissing(rows, esg) {
      forall j | j !in esg {
        FillColumnsKeepsOthers(rows, esg, s, median, j);
      }
    } else {
      FilterSplit(rows, (row: seq<Cell>) => AnyNullAt(row, esg), (row: seq<Cell>) => !AnyNullAt(row, esg));
    }
  }

  /** The rows kept and the rows dropped by a filter add up to all rows. */
  lemma {:induction false} FilterSplit(rows: seq<seq<Cell>>, p: seq<Cell> -> bool, q: seq<Cell> -> bool)
    requires forall row :: q(row) == !p(row)
    ensures |Filter(rows, q)| == |rows| - CountWhere(rows, p)
    decreases |rows|
  {
    if |rows| > 0 {
      var init := rows[..|rows| - 1];
      FilterSplit(init, p, q);
      assert init + [rows[|rows| - 1]] == rows;
      FilterAppend(init, rows[|rows| - 1], q);
      FilterAppend(init, rows[|rows| - 1], p);
    }
  }

  /**
   * Imputation fills only missing scores: a present score keeps its value
   * (for a row with a sector, when sectors are used), and a missing score whose
   * group has some present score receives that group's median.
   */
  lemma FillColumnCell(rows: seq<seq<Cell>>, k: int, s: int, median: seq<Cell> -> Cell, i: int)
    requires 0 <= i < |rows| && 0 <= k < |rows[i]|
    requires forall vs: seq<Cell> :: |vs| > 0 ==> !median(vs).Null?
    ensures var c := At(FillColumn(rows, k, s, median)[i], k);
            var old_c := At(rows[i], k);
            (s < 0 || !At(rows[i], s).Null?) && !old_c.Null? ==> c == old_c
    ensures var c := At(FillColumn(rows, k, s, median)[i], k);
            s < 0 && At(rows[i], k).Null? && |Present(ColumnCells(rows, k))| > 0 ==> !c.Null?
    ensures var c := At(FillColumn(rows, k, s, median)[i], k);
            var group := Present(GroupCells(rows, k, s, At(rows[i], s)));
            s >= 0 && !At(rows[i], s).Null? && At(rows[i], k).Null? && |group| > 0 ==> c == median(group) && !c.Null?
    ensures s >= 0 && At(rows[i], s).Null? ==> At(FillColumn(rows, k, s, median)[i], k).Null?
  {
  }

  /** An ESG cell the infinity step keeps is never infinite. */
  lemma RemoveInfiniteNoInfinity(rows: seq<seq<Cell>>, esg: seq<int>)
    ensures var r := RemoveInfinite(rows, esg);
            |r| <= |rows| && forall i, j :: 0 <= i < |r| && 0 <= j < |esg| ==> !IsInfCell(At(r[i], esg[j]))
    ensures HasInfiniteScore(rows, esg) ==>
              var r := RemoveInfinite(rows, esg);
              forall i, j :: 0 <= i < |r| && 0 <= j < |esg| ==> !At(r[i], esg[j]).Null?
  {
    var r := RemoveInfinite(rows, esg);
    if HasInfiniteScore(rows, esg) {
      var rep := ReplaceInfinite(rows);
      forall i, j | 0 <= i < |r| && 0 <= j < |esg| ensures !IsInfCell(At(r[i], esg[j])) && !At(r[i], esg[j]).Null? {
        assert r[i] in rep;
        var m :| 0 <= m < |rep| && rep[m] == r[i];
        assert !AnyNullAt(r[i], esg);
      }
    }
  }

  /**
   * No output ESG score is infinite; below the 5% threshold, or when the
   * infinity step ran, no output ESG score is missing either.
   */
  lemma CleanEsgScores(f: Frame, median: seq<Cell> -> Cell)
    ensures var r := CleanEsg(f, median);
            var esg := EsgColumns(f.columns);
            r.Ok? ==> forall i, j :: 0 <= i < |r.value.rows| && 0 <= j < |esg| ==> !IsInfCell(At(r.value.rows[i], esg[j]))
    ensures var r := CleanEsg(f, median);
            var esg := EsgColumns(f.columns);
            r.Ok? && DropsMissing(UniqueTickerRows(f), esg) ==>
              forall i, j :: 0 <= i < |r.value.rows| && 0 <= j < |esg| ==> !At(r.value.rows[i], esg[j]).Null?
  {
    var r := CleanEsg(f, median);
    if r.Ok? {
      var esg := EsgColumns(f.columns);
      var rows := UniqueTickerRows(f);
      var handled := HandleMissing(rows, esg, SectorColumn(f.columns), median);
      RemoveInfiniteNoInfinity(handled, esg);
      if DropsMissing(rows, esg) && !HasInfiniteScore(handled, esg) {
        forall i, j | 0 <= i < |handled| && 0 <= j < |esg| ensures !At(handled[i], esg[j]).Null? {
          assert handled[i] in rows;
          assert !AnyNullAt(handled[i], esg);
        }
      }
    }
  }

  /**
   * The range check only warns: when no score is missing or infinite, cleaning
   * returns the de-duplicated rows with every score as it was, whatever its
   * range.
   */
  lemma CompleteScoresUnchanged(f: Frame, median: seq<Cell> -> Cell)
    requires FirstPresent(TickerCandidates, f.columns).Some? && HasStringTicker(f.rows, TickerColumn(f.columns))
    requires forall i, j :: 0 <= i < |f.rows| && 0 <= j < |EsgColumns(f.columns)| ==>
               var c := At(f.rows[i], EsgColumns(f.columns)[j]);
               !c.Null? && !IsInfCell(c)
    ensures CleanEsg(f, median) == Ok(Frame(f.columns, UniqueTickerRows(f)))
  {
    var esg := EsgColumns(f.columns);
    var rows := UniqueTickerRows(f);
    DeduplicatedScores(f);
    CompleteRowsKept(rows, esg, SectorColumn(f.columns), median);
  }

  /** De-duplication only selects rows, and normalisation leaves the ESG columns alone. */
  lemma DeduplicatedScores(f: Frame)
    requires FirstPresent(TickerCandidates, f.columns).Some?
    requires forall i, j :: 0 <= i < |f.rows| && 0 <= j < |EsgColumns(f.columns)| ==>
               var c := At(f.rows[i], EsgColumns(f.columns)[j]);
               !c.Null? && !IsInfCell(c)
    ensures forall i, j :: 0 <= i < |UniqueTickerRows(f)| && 0 <= j < |EsgColumns(f.columns)| ==>
              var c := At(UniqueTickerRows(f)[i], EsgColumns(f.columns)[j]);
              !c.Null? && !IsInfCell(c)
  {
    var t := TickerColumn(f.columns);
    var esg := EsgColumns(f.columns);
    var norm := NormaliseTickers(f.rows, t);
    var rows := UniqueTickerRows(f);
    TickerNotAmongEsg(f.columns);
    KeepFirstProperties(norm, ColumnKey(t));
    forall i, j | 0 <= i < |rows| && 0 <= j < |esg| ensures !At(rows[i], esg[j]).Null? && !IsInfCell(At(rows[i], esg[j])) {
      assert rows[i] in norm;
      var m :| 0 <= m < |norm| && norm[m] == rows[i];
      NormaliseKeepsOtherColumns(f.rows, t, esg[j]);
      assert At(norm[m], esg[j]) == At(f.rows[m], esg[j]);
    }
  }

  /** With no missing and no infinite score, the missing-value and infinity steps change nothing. */
  lemma CompleteRowsKept(rows: seq<seq<Cell>>, esg: seq<int>, s: int, median: seq<Cell> -> Cell)
    requires forall i, j :: 0 <= i < |rows| && 0 <= j < |esg| ==> !At(rows[i], esg[j]).Null? && !IsInfCell(At(rows[i], esg[j]))
    ensures RemoveInfinite(HandleMissing(rows, esg, s, median), esg) == rows
  {
    var hasNull := (row: seq<Cell>) => AnyNullAt(row, esg);
    var noNull := (row: seq<Cell>) => !AnyNullAt(row, esg);
    assert forall row :: row in rows ==> noNull(row);
    if |rows| > 0 {
      FilterNone(rows, hasNull);
      assert DropsMissing(rows, esg);
      FilterAll(rows, noNull);
    }
    assert HandleMissing(rows, esg, s, median) == rows;
    assert !HasInfiniteScore(rows, esg);
  }
}
