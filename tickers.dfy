/**
 * The per-ticker view of a long table: `df[ticker_col].unique()` and the
 * rows `df[df[ticker_col] == ticker]` of one ticker.
 */
module Tickers {
  import opened Cells
  import opened Seqs
  import opened Frames

  /** The fewest rows a ticker needs to get a metrics row (about eight months of trading days). */
  const MinTradingDays := 200

  /** `unique()` of the ticker column, in order of first appearance (NaN included once). */
  function UniqueTickers(rows: seq<seq<Cell>>, t: int): seq<Cell>
  {
    KeepFirst(ColumnCells(rows, t), (c: Cell) => c)
  }

  /** `df[df[ticker_col] == ticker]`: NaN equals nothing, so a missing ticker has no rows. */
  function TickerRows(rows: seq<seq<Cell>>, t: int, x: Cell): (r: seq<seq<Cell>>)
    ensures forall i :: 0 <= i < |r| ==> r[i] in rows && At(r[i], t) == x
    ensures !x.Null? ==> forall i :: 0 <= i < |rows| && At(rows[i], t) == x ==> rows[i] in r
  {
    if x.Null? then [] else Filter(rows, (row: seq<Cell>) => At(row, t) == x)
  }

  /** `len(ticker_data) >= 200`. */
  predicate Qualifies(rows: seq<seq<Cell>>, t: int, x: Cell)
  {
    |TickerRows(rows, t, x)| >= MinTradingDays
  }

  /** The tickers that get a metrics row, in the order the loop visits them. */
  function QualifyingTickers(rows: seq<seq<Cell>>, t: int): seq<Cell>
  {
    Filter(UniqueTickers(rows, t), (x: Cell) => Qualifies(rows, t, x))
  }

  /** The position of the first row of ticker `x`. */
  function FirstRow(rows: seq<seq<Cell>>, t: int, x: Cell): int
  {
    FirstKeyIndex(ColumnCells(rows, t), (c: Cell) => c, x)
  }

  /** The unique tickers are the distinct cells of the ticker column. */
  lemma UniqueTickersListed(w: seq<seq<Cell>>, t: int, x: Cell)
    requires exists row :: row in w && At(row, t) == x
    ensures Distinct(UniqueTickers(w, t)) && x in UniqueTickers(w, t)
  {
    var column := ColumnCells(w, t);
    var id := (c: Cell) => c;
    KeepFirstProperties(column, id);
    var row :| row in w && At(row, t) == x;
    var r :| 0 <= r < |w| && w[r] == row;
    assert id(column[r]) == x;
    assert HasKey(column, id, x);
    var j :| 0 <= j < |UniqueTickers(w, t)| && id(UniqueTickers(w, t)[j]) == x;
  }

  /**
   * A ticker gets a metrics row exactly when it is present and has at least
   * 200 rows; each such ticker gets one, and they come in the order of their
   * first rows.
   */
  lemma QualifyingTickersProperties(rows: seq<seq<Cell>>, t: int)
    ensures forall x :: x in QualifyingTickers(rows, t) <==> !x.Null? && |TickerRows(rows, t, x)| >= MinTradingDays
    ensures Distinct(QualifyingTickers(rows, t))
    ensures forall a, b :: 0 <= a < b < |QualifyingTickers(rows, t)| ==>
              FirstRow(rows, t, QualifyingTickers(rows, t)[a]) < FirstRow(rows, t, QualifyingTickers(rows, t)[b])
  {
    var u := UniqueTickers(rows, t);
    var q := QualifyingTickers(rows, t);
    var keep := (x: Cell) => Qualifies(rows, t, x);
    var id := (c: Cell) => c;
    var column := ColumnCells(rows, t);
    KeepFirstProperties(column, id);
    forall x: Cell | !x.Null? && |TickerRows(rows, t, x)| >= MinTradingDays ensures x in q {
      var r := TickerRows(rows, t, x);
      assert r[0] in rows;
      var i :| 0 <= i < |rows| && rows[i] == r[0];
      UniqueTickersListed(rows, t, x);
    }
    forall x: Cell | x in q ensures !x.Null? && |TickerRows(rows, t, x)| >= MinTradingDays {
      assert keep(x);
    }
    assert Distinct(u) by {
      forall a, b | 0 <= a < b < |u| ensures u[a] != u[b] {
        assert id(u[a]) != id(u[b]);
      }
    }
    FilterDistinctKeys(u, keep, id);
    assert Distinct(q) by {
      forall a, b | 0 <= a < b < |q| ensures q[a] != q[b] {
        assert id(q[a]) != id(q[b]);
      }
    }
    KeepFirstOrder(column, id);
    var first := (x: Cell) => FirstRow(rows, t, x);
    assert forall a, b :: 0 <= a < b < |u| ==> first(u[a]) < first(u[b]);
    FilterIncreasing(u, keep, first);
  }
}
