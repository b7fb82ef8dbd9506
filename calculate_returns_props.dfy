/**
 * What the return step guarantees: each return is the price over the previous
 * price of the same ticker minus one, the first row of every ticker has none,
 * the output keeps exactly the rows with a finite return (extreme ones
 * included) in (ticker, date) order, and with positive prices it loses one row
 * per ticker. For the market series: the first row never survives, and a
 * ticker row under the header is skipped.
 */
module ReturnProperties {
  import opened Wrappers
  import opened Floats
  import opened Cells
  import opened Text
  import opened Seqs
  import opened Columns
  import opened Frames
  import opened Sorting
  import opened ReturnCalculation

  // ---------------------------------------------------------------------------
  // One row's return

  /** The group of row `i` so far has a second row exactly when an earlier row has the same ticker. */
  lemma GroupPrefixRepeats(rows: seq<seq<Cell>>, t: int, k: int, i: int)
    requires 0 <= i < |rows|
    ensures |GroupPrefix(rows, t, k, i)| >= 2 <==> Duplicated(rows, ColumnKey(t), i)
  {
    GroupPrefixEnds(rows, t, k, i);
    GroupCellsEmpty(rows, t, At(rows[i], t), k, i);
  }

  /**
   * When row `j` is the previous row of row `i`'s ticker, the group so far
   * is the group up to row `j`, then rows `j` and `i`.
   */
  lemma GroupPrefixPrevious(rows: seq<seq<Cell>>, t: int, k: int, i: int, j: int)
    requires 0 <= j < i < |rows|
    requires At(rows[j], t) == At(rows[i], t)
    requires forall m :: j < m < i ==> At(rows[m], t) != At(rows[i], t)
    ensures GroupPrefix(rows, t, k, i) == GroupCells(rows, t, At(rows[i], t), k, j) + [At(rows[j], k), At(rows[i], k)]
  {
    var c := At(rows[i], t);
    GroupPrefixEnds(rows, t, k, i);
    GroupCellsSkip(rows, t, c, k, j + 1, i);
    assert GroupCells(rows, t, c, k, j + 1) == GroupCells(rows, t, c, k, j) + [At(rows[j], k)];
  }

  /**
   * The simple return of row `i` is its price over the price of the previous
   * row of the same ticker, minus one; the log return is the logarithm of that
   * ratio.
   */
  lemma ReturnOverPrevious(ln: real -> real, rows: seq<seq<Cell>>, t: int, p: int, i: int, j: int)
    requires 0 <= j < i < |rows| && !At(rows[i], t).Null?
    requires At(rows[j], t) == At(rows[i], t)
    requires forall m :: j < m < i ==> At(rows[m], t) != At(rows[i], t)
    requires At(rows[j], p).Num? && At(rows[j], p).v != 0.0 && At(rows[i], p).Num?
    ensures ReturnAt(Simple, ln, rows, t, p, i) == Num(At(rows[i], p).v / At(rows[j], p).v - 1.0)
    ensures ReturnAt(Log, ln, rows, t, p, i) == FromFloat(Ln(ln, Fin(At(rows[i], p).v / At(rows[j], p).v)))
  {
    GroupPrefixPrevious(rows, t, p, i, j);
    var g := GroupPrefix(rows, t, p, i);
    var h := g[..|g| - 1];
    assert h == GroupCells(rows, t, At(rows[i], t), p, j) + [At(rows[j], p)];
    assert LastPresent(g) == |g| - 1;
    assert LastPresent(h) == |h| - 1;
    SubFinite(At(rows[i], p).v / At(rows[j], p).v, 1.0);
  }

  /** The first row of a ticker has no return, simple or log. */
  lemma FirstRowNoReturn(kind: ReturnKind, ln: real -> real, rows: seq<seq<Cell>>, t: int, p: int, i: int)
    requires 0 <= i < |rows|
    requires forall m :: 0 <= m < i ==> At(rows[m], t) != At(rows[i], t)
    ensures ReturnAt(kind, ln, rows, t, p, i).Null?
  {
    GroupPrefixRepeats(rows, t, p, i);
  }

  /**
   * With a ticker on every row and only positive prices, a row has a return
   * exactly when it is not the first of its ticker, and that return is finite.
   */
  lemma PositivePricesReturn(ln: real -> real, rows: seq<seq<Cell>>, t: int, p: int, i: int)
    requires 0 <= i < |rows|
    requires forall row :: row in rows ==> !At(row, t).Null? && At(row, p).Num? && At(row, p).v > 0.0
    ensures ReturnAt(Simple, ln, rows, t, p, i).Num? <==> Duplicated(rows, ColumnKey(t), i)
    ensures ReturnAt(Simple, ln, rows, t, p, i).Null? || ReturnAt(Simple, ln, rows, t, p, i).Num?
  {
    GroupPrefixRepeats(rows, t, p, i);
    GroupPrefixEnds(rows, t, p, i);
    var c := At(rows[i], t);
    var g := GroupPrefix(rows, t, p, i);
    if |g| >= 2 {
      var h := GroupCells(rows, t, c, p, i);
      assert g[..|g| - 1] == h;
      assert LastPresent(g) == |g| - 1;
      var b := Padded(h);
      GroupCellsOrigin(rows, t, c, p, i);
      assert CellOfGroup(rows, t, c, p, i, b);
      var r :| 0 <= r < i && At(rows[r], t) == c && At(rows[r], p) == b;
      assert rows[r] in rows;
      SubFinite(At(rows[i], p).v / b.v, 1.0);
    }
  }

  // ---------------------------------------------------------------------------
  // The output table

  /** The rows of a table with its return column kept, and the rows without a finite return dropped. */
  lemma KeptRowsMembers(g: Frame, row: seq<Cell>)
    ensures var q := IndexOf(g.columns, "Return");
            row in KeptRows(g) <==> row in g.rows && !At(row, q).Null? && !IsInfCell(At(row, q))
  {
    var q := IndexOf(g.columns, "Return");
    var present := DropMissing(g.rows, q);
    if row in g.rows && !At(row, q).Null? && !IsInfCell(At(row, q)) {
      assert Present(q)(row);
      var i :| 0 <= i < |g.rows| && g.rows[i] == row;
      assert row in present;
      var m :| 0 <= m < |present| && present[m] == row;
      assert Finite(q)(present[m]);
    }
    if row in KeptRows(g) {
      var m :| 0 <= m < |KeptRows(g)| && KeptRows(g)[m] == row;
      assert row in present && Finite(q)(row);
      var n :| 0 <= n < |present| && present[n] == row;
      assert Present(q)(row);
    }
  }

  /** Writing a return column and keeping the rows with a finite return keeps exactly the rows whose return is a number. */
  lemma PutKept(columns: seq<string>, s: seq<seq<Cell>>, ret: seq<Cell>)
    requires Valid(Frame(columns, s)) && |ret| == |s|
    requires forall i :: 0 <= i < |s| ==> ret[i].Null? || ret[i].Num? || ret[i].PosInf? || ret[i].NegInf?
    ensures var g := WithReturn(columns, s, ret);
            var q := IndexOf(columns, "Return");
            (forall row :: row in KeptRows(g) ==> exists i :: 0 <= i < |s| && ret[i].Num? && row == PutCell(s[i], q, ret[i]))
            && (forall i :: 0 <= i < |s| && ret[i].Num? ==> PutCell(s[i], q, ret[i]) in KeptRows(g))
            && (forall row :: row in KeptRows(g) ==> At(row, IndexOf(g.columns, "Return")).Num?)
  {
    var g := WithReturn(columns, s, ret);
    var q := IndexOf(columns, "Return");
    var qg := IndexOf(g.columns, "Return");
    forall row | row in KeptRows(g)
      ensures exists i :: 0 <= i < |s| && ret[i].Num? && row == PutCell(s[i], q, ret[i])
      ensures At(row, qg).Num?
    {
      KeptRowsMembers(g, row);
      var i :| 0 <= i < |g.rows| && g.rows[i] == row;
      assert At(row, qg) == ret[i];
    }
    forall i | 0 <= i < |s| && ret[i].Num? ensures PutCell(s[i], q, ret[i]) in KeptRows(g) {
      assert g.rows[i] == PutCell(s[i], q, ret[i]);
      KeptRowsMembers(g, g.rows[i]);
    }
  }

  /**
   * The output rows are exactly the (ticker, date)-sorted rows whose return is
   * a finite number, each carrying that return; returns beyond +-100% are kept.
   */
  lemma ReturnsRows(f: Frame, kind: ReturnKind, ln: real -> real, t: int, d: int, p: int)
    requires Valid(f)
    ensures var s := SortedRows(f, t, d);
            var q := IndexOf(f.columns, "Return");
            var out := ReturnsTable(f, kind, ln, t, d, p);
            (forall row :: row in out.rows ==>
               exists i :: 0 <= i < |s| && ReturnAt(kind, ln, s, t, p, i).Num?
                           && row == PutCell(s[i], q, ReturnAt(kind, ln, s, t, p, i)))
            && (forall i :: 0 <= i < |s| && ReturnAt(kind, ln, s, t, p, i).Num?
                  ==> PutCell(s[i], q, ReturnAt(kind, ln, s, t, p, i)) in out.rows)
            && (forall row :: row in out.rows ==> At(row, IndexOf(out.columns, "Return")).Num?)
  {
    var s := SortedRows(f, t, d);
    var ret := ReturnColumn(kind, ln, s, t, p);
    PutKept(f.columns, s, ret);
  }

  /** The output stays in (ticker, date) order when neither key column is named `Return`. */
  lemma ReturnsSorted(f: Frame, kind: ReturnKind, ln: real -> real, t: int, d: int, p: int)
    requires Valid(f) && 0 <= t < |f.columns| && 0 <= d < |f.columns|
    requires f.columns[t] != "Return" && f.columns[d] != "Return"
    ensures SortedBy(ReturnsTable(f, kind, ln, t, d, p).rows, TickerDateKey(t, d))
  {
    var key := TickerDateKey(t, d);
    var s := SortedRows(f, t, d);
    SortBySorted(f.rows, key);
    var g := WithReturn(f.columns, s, ReturnColumn(kind, ln, s, t, p));
    forall i | 0 <= i < |s| ensures key(g.rows[i]) == key(s[i]) {
      assert At(g.rows[i], t) == At(s[i], t);
      assert At(g.rows[i], d) == At(s[i], d);
    }
    SameKeysSorted(s, g.rows, key);
    var q := IndexOf(g.columns, "Return");
    FilterSorted(g.rows, Present(q), key);
    FilterSorted(DropMissing(g.rows, q), Finite(q), key);
  }

  lemma ReturnNotAKey()
    ensures "Return" !in TickerCandidates && "Return" !in DateCandidates
  {
    assert "Return"[0] == 'R';
  }

  /** The resolved ticker and date columns are never named `Return`, so the output is sorted. */
  lemma CalculatedReturnsSorted(f: Frame, returnType: string, ln: real -> real)
    requires Valid(f) && Returns(f, returnType, ln).Some?
    ensures SortedBy(Returns(f, returnType, ln).value.rows,
                     TickerDateKey(ColumnOf(TickerCandidates, f.columns), ColumnOf(DateCandidates, f.columns)))
  {
    var t := ColumnOf(TickerCandidates, f.columns);
    var d := ColumnOf(DateCandidates, f.columns);
    ReturnNotAKey();
    ReturnsSorted(f, ParseKind(returnType).value, ln, t, d, ColumnOf(PriceCandidates, f.columns));
  }

  /** The tickers of a permutation of the rows are the tickers of the rows. */
  lemma PermutedKeys(a: seq<seq<Cell>>, b: seq<seq<Cell>>, t: int)
    requires multiset(a) == multiset(b)
    ensures Keys(a, ColumnKey(t)) == Keys(b, ColumnKey(t))
  {
    forall x | x in Keys(a, ColumnKey(t)) ensures x in Keys(b, ColumnKey(t)) {
      var i :| 0 <= i < |a| && ColumnKey(t)(a[i]) == x;
      assert a[i] in multiset(b);
      var j :| 0 <= j < |b| && b[j] == a[i];
      assert ColumnKey(t)(b[j]) == x;
    }
    forall x | x in Keys(b, ColumnKey(t)) ensures x in Keys(a, ColumnKey(t)) {
      var j :| 0 <= j < |b| && ColumnKey(t)(b[j]) == x;
      assert b[j] in multiset(a);
      var i :| 0 <= i < |a| && a[i] == b[j];
      assert ColumnKey(t)(a[i]) == x;
    }
  }

  /** When the returns mark exactly the repeated tickers, the kept rows and the first rows of the tickers make up the table. */
  lemma KeptCount(columns: seq<string>, s: seq<seq<Cell>>, ret: seq<Cell>, t: int)
    requires Valid(Frame(columns, s)) && |ret| == |s|
    requires forall i :: 0 <= i < |s| ==> (ret[i].Null? || ret[i].Num?) && (ret[i].Num? <==> Duplicated(s, ColumnKey(t), i))
    ensures |KeptRows(WithReturn(columns, s, ret))| + |KeepFirst(s, ColumnKey(t))| == |s|
  {
    var g := WithReturn(columns, s, ret);
    var q := IndexOf(g.columns, "Return");
    assert forall i :: 0 <= i < |s| ==> At(g.rows[i], q) == ret[i];
    DuplicatesCount(s, ColumnKey(t), g.rows, Present(q));
    var present := DropMissing(g.rows, q);
    forall row | row in present ensures Finite(q)(row) {
      var i :| 0 <= i < |g.rows| && g.rows[i] == row;
    }
    FilterAll(present, Finite(q));
  }

  /**
   * With a ticker on every row and only positive prices, simple returns drop
   * exactly one row per distinct ticker: its first.
   */
  lemma ReturnsCount(f: Frame, ln: real -> real, t: int, d: int, p: int)
    requires Valid(f)
    requires forall row :: row in f.rows ==> !At(row, t).Null? && At(row, p).Num? && At(row, p).v > 0.0
    ensures |ReturnsTable(f, Simple, ln, t, d, p).rows| == |f.rows| - |Keys(f.rows, ColumnKey(t))|
  {
    var s := SortedRows(f, t, d);
    forall row | row in s ensures !At(row, t).Null? && At(row, p).Num? && At(row, p).v > 0.0 {
      assert row in multiset(f.rows);
    }
    var ret := ReturnColumn(Simple, ln, s, t, p);
    forall i | 0 <= i < |s|
      ensures (ret[i].Null? || ret[i].Num?) && (ret[i].Num? <==> Duplicated(s, ColumnKey(t), i))
    {
      PositivePricesReturn(ln, s, t, p, i);
    }
    KeptCount(f.columns, s, ret, t);
    KeepFirstCount(s, ColumnKey(t));
    PermutedKeys(s, f.rows, t);
  }

  // ---------------------------------------------------------------------------
  // Market returns

  /**
   * The market output holds, for rows 1 onwards of the loaded table, exactly
   * those with a return, each carrying it.
   */
  lemma MarketRows(columns: seq<string>, rows: seq<seq<Cell>>, c: int)
    requires Valid(Frame(columns, rows))
    ensures var q := IndexOf(columns, "Market_Return");
            var out := MarketTableReturns(columns, rows, c);
            (forall row :: row in out.rows ==>
               exists i :: 1 <= i < |rows| && !MarketReturnAt(rows, c, i).Null?
                           && row == PutCell(rows[i], q, MarketReturnAt(rows, c, i)))
            && (forall i :: 1 <= i < |rows| && !MarketReturnAt(rows, c, i).Null?
                  ==> PutCell(rows[i], q, MarketReturnAt(rows, c, i)) in out.rows)
  {
    var q := IndexOf(columns, "Market_Return");
    var m := MarketColumn(rows, c);
    var g := PutColumn(Frame(columns, rows), "Market_Return", m);
    var qg := IndexOf(g.columns, "Market_Return");
    var out := MarketTableReturns(columns, rows, c);
    assert out.rows == DropMissing(g.rows, qg);
    forall row | row in out.rows
      ensures exists i :: 1 <= i < |rows| && !m[i].Null? && row == PutCell(rows[i], q, m[i])
    {
      var i :| 0 <= i < |g.rows| && g.rows[i] == row;
      assert At(row, qg) == m[i];
    }
    forall i | 1 <= i < |rows| && !m[i].Null? ensures PutCell(rows[i], q, m[i]) in out.rows {
      assert g.rows[i] == PutCell(rows[i], q, m[i]);
      assert Present(qg)(g.rows[i]);
    }
  }

  /** The first row of the loaded table never survives: it has no return. */
  lemma MarketFirstRowDropped(columns: seq<string>, rows: seq<seq<Cell>>, c: int)
    requires Valid(Frame(columns, rows)) && |rows| > 0
    ensures |MarketTableReturns(columns, rows, c).rows| <= |rows| - 1
  {
    var m := MarketColumn(rows, c);
    var g := PutColumn(Frame(columns, rows), "Market_Return", m);
    var qg := IndexOf(g.columns, "Market_Return");
    assert At(g.rows[0], qg) == m[0];
    FilterDropsFirst(g.rows, Present(qg));
    assert MarketTableReturns(columns, rows, c).rows == DropMissing(g.rows, qg);
  }

  /**
   * A table whose first row is a ticker row: with the intended test, the row
   * is skipped and every value cell made numeric before the returns are taken.
   */
  lemma TickerRowSkipped(f: Frame)
    requires Valid(f) && |f.columns| > 2 && |f.rows| > 0 && TickerRow(f.rows[0])
    requires IndexOf(f.columns, "Close") >= 1
    ensures MarketReturns(f) == Saved(f.columns, MarketTableReturns(f.columns, Map(f.rows[1..], CoerceValues), IndexOf(f.columns, "Close")))
  {
    var rows: seq<seq<Cell>> := MarketTable(f, TickerRow);
    var c := IndexOf(f.columns, "Close");
    assert rows == Map(f.rows[1..], CoerceValues);
    assert forall i :: 0 <= i < |rows| ==> !rows[i][c].Text?;
    assert !TextIn(rows, c);
  }

  /** Writing a non-string cell into a row without strings past the index leaves none. */
  lemma PutCellNoText(row: seq<Cell>, q: int, r: Cell)
    requires forall k :: 1 <= k < |row| ==> !row[k].Text?
    requires !r.Text?
    ensures |PutCell(row, q, r)| >= |row|
    ensures forall k :: 1 <= k < |PutCell(row, q, r)| ==> !PutCell(row, q, r)[k].Text?
  {
  }

  /** When no value cell of the loaded table is a string, no value cell of the output is one. */
  lemma MarketOutputNumeric(columns: seq<string>, rows: seq<seq<Cell>>, c: int)
    requires Valid(Frame(columns, rows))
    requires forall i, k :: 0 <= i < |rows| && 1 <= k < |rows[i]| ==> !rows[i][k].Text?
    ensures forall row: seq<Cell> :: row in MarketTableReturns(columns, rows, c).rows ==>
              forall k :: 1 <= k < |row| ==> !row[k].Text?
  {
    MarketRows(columns, rows, c);
    var q := IndexOf(columns, "Market_Return");
    var out := MarketTableReturns(columns, rows, c);
    forall row: seq<Cell> | row in out.rows
      ensures forall k :: 1 <= k < |row| ==> !row[k].Text?
    {
      var i :| 1 <= i < |rows| && !MarketReturnAt(rows, c, i).Null?
               && row == PutCell(rows[i], q, MarketReturnAt(rows, c, i));
      PutCellNoText(rows[i], q, MarketReturnAt(rows, c, i));
    }
  }

  /**
   * After the ticker row is skipped no value cell of the output is a string,
   * and neither the ticker row nor the first price row is in the output.
   */
  lemma SkippedTickerRowOutput(columns: seq<string>, src: seq<seq<Cell>>, c: int)
    requires Valid(Frame(columns, src)) && |src| > 0
    ensures var out := MarketTableReturns(columns, Map(src[1..], CoerceValues), c);
            |out.rows| <= |src| - 2 || |out.rows| == 0
    ensures forall row: seq<Cell> :: row in MarketTableReturns(columns, Map(src[1..], CoerceValues), c).rows ==>
              forall k :: 1 <= k < |row| ==> !row[k].Text?
  {
    var rows: seq<seq<Cell>> := Map(src[1..], CoerceValues);
    assert Valid(Frame(columns, rows));
    if |rows| > 0 {
      MarketFirstRowDropped(columns, rows, c);
    } else {
      MarketRows(columns, rows, c);
    }
    forall i, k | 0 <= i < |rows| && 1 <= k < |rows[i]| ensures !rows[i][k].Text? {
      assert rows[i] == CoerceValues(src[1..][i]);
    }
    MarketOutputNumeric(columns, rows, c);
  }

  /** The first row a multi-level yfinance header leaves: the index label, then the ticker under each field. */
  lemma GspcRowTests()
    ensures var row := [Text("Ticker"), Text("^GSPC"), Text("^GSPC")];
            !TickerRowAsWritten(row) && TickerRow(row)
  {
    var row := [Text("Ticker"), Text("^GSPC"), Text("^GSPC")];
    assert row[1].s[0] == '^' && row[2].s[0] == '^';
    assert !StartsWith(row[1].s, "GSPC") && !StartsWith(row[2].s, "GSPC");
    ContainsAt(row[1].s, "^GSPC", 0);
  }

  /**
   * As written, the regular expression `^GSPC` looks for "GSPC" at the start
   * of a cell, so the ticker row a multi-level yfinance header leaves under
   * the header goes unrecognised and `pct_change` meets the string "^GSPC";
   * the intended literal test skips it. (yfinance itself names the index
   * column "Price"; such a file fails at the save step under either test.)
   */
  lemma TickerRowMissedAsWritten()
    ensures var f := Frame(["Date", "Close", "High"],
                           [[Text("Ticker"), Text("^GSPC"), Text("^GSPC")],
                            [Day(0), Num(10.0), Num(11.0)],
                            [Day(1), Num(11.0), Num(12.0)]]);
            MarketReturnsAsWritten(f) == Err(NonNumericClose) && MarketReturns(f).Ok?
  {
    var f := Frame(["Date", "Close", "High"],
                   [[Text("Ticker"), Text("^GSPC"), Text("^GSPC")],
                    [Day(0), Num(10.0), Num(11.0)],
                    [Day(1), Num(11.0), Num(12.0)]]);
    GspcRowTests();
    assert IndexOf(f.columns, "Close") == 1;
    assert MarketTable(f, TickerRowAsWritten) == f.rows;
    assert f.rows[0][1].Text?;
    assert TextIn(f.rows, 1);
    TickerRowSkipped(f);
  }
}
