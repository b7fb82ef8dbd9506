/**
 * A DataFrame whose column names matter: an ordered list of distinct names and
 * rows of cells, one cell per column.
 */
module Frames {
  import opened Wrappers
  import opened Floats
  import opened Cells
  import opened Seqs
  import opened Columns

  datatype Frame = Frame(columns: seq<string>, rows: seq<seq<Cell>>)

  /** Column names are distinct and every row has one cell per column. */
  predicate Valid(f: Frame)
  {
    Distinct(f.columns) && forall i :: 0 <= i < |f.rows| ==> |f.rows[i]| == |f.columns|
  }

  /** Position of the column `name`, or -1 when the frame has no such column. */
  function IndexOf(columns: seq<string>, name: string): (k: int)
    ensures -1 <= k < |columns|
    ensures k >= 0 ==> columns[k] == name
    ensures k == -1 <==> name !in columns
    ensures k >= 0 ==> forall j :: 0 <= j < k ==> columns[j] != name
  {
    if |columns| == 0 then -1
    else if columns[0] == name then 0
    else
      var k := IndexOf(columns[1..], name);
      assert k >= 0 ==> columns[k + 1] == columns[1..][k];
      assert columns == [columns[0]] + columns[1..];
      if k == -1 then -1 else k + 1
  }

  /** The cell of `row` in column `k`; a missing value for a column the row lacks. */
  function At(row: seq<Cell>, k: int): Cell
  {
    if 0 <= k < |row| then row[k] else Null
  }

  /** `row` with the cell of column `k` replaced by `c`. */
  function SetAt(row: seq<Cell>, k: int, c: Cell): (r: seq<Cell>)
    ensures |r| == |row|
    ensures forall j :: 0 <= j < |row| && j != k ==> r[j] == row[j]
    ensures 0 <= k < |row| ==> r[k] == c
  {
    if 0 <= k < |row| then row[k := c] else row
  }

  /** The cells of column `k`, in row order. */
  function ColumnCells(rows: seq<seq<Cell>>, k: int): (cells: seq<Cell>)
    ensures |cells| == |rows| && forall i :: 0 <= i < |rows| ==> cells[i] == At(rows[i], k)
  {
    Map(rows, (row: seq<Cell>) => At(row, k))
  }

  /** `pd.to_numeric(rows[k])`: column `k` as float64 values. */
  function ColumnFloats(rows: seq<seq<Cell>>, k: int): (vals: seq<Float>)
    ensures |vals| == |rows| && forall i :: 0 <= i < |rows| ==> vals[i] == ToFloat(At(rows[i], k))
  {
    Map(rows, (row: seq<Cell>) => ToFloat(At(row, k)))
  }

  /** Some column among `ks` is missing in `row`: `isnull().any(axis=1)` over those columns. */
  predicate AnyNullAt(row: seq<Cell>, ks: seq<int>)
  {
    exists j :: 0 <= j < |ks| && At(row, ks[j]).Null?
  }

  /** Positions of the named columns, in the order of `names`. */
  function IndicesOf(columns: seq<string>, names: seq<string>): (ks: seq<int>)
    ensures |ks| == |names|
    ensures forall j :: 0 <= j < |names| ==> ks[j] == IndexOf(columns, names[j])
  {
    Map(names, (n: string) => IndexOf(columns, n))
  }

  /** The sort key of `sort_values(date)`. */
  function DateKey(d: int): seq<Cell> -> seq<Cell>
  {
    (row: seq<Cell>) => [At(row, d)]
  }

  function TickerDateKey(t: int, d: int): seq<Cell> -> seq<Cell>
  {
    (row: seq<Cell>) => [At(row, t), At(row, d)]
  }

  /** The cell of column `k`, as a key: `groupby` on that column. */
  function ColumnKey(k: int): seq<Cell> -> Cell
  {
    (row: seq<Cell>) => At(row, k)
  }

  /** Column `k` of those of the first `n` rows whose column `t` holds `c`: one group of `groupby(t)` so far. */
  function GroupCells(rows: seq<seq<Cell>>, t: int, c: Cell, k: int, n: int): seq<Cell>
    requires 0 <= n <= |rows|
    decreases n
  {
    if n == 0 then []
    else GroupCells(rows, t, c, k, n - 1) + (if At(rows[n - 1], t) == c then [At(rows[n - 1], k)] else [])
  }

  /** Column `k` of the rows up to `i` that share row `i`'s ticker: row `i`'s group so far. */
  function GroupPrefix(rows: seq<seq<Cell>>, t: int, k: int, i: int): seq<Cell>
    requires 0 <= i < |rows|
  {
    GroupCells(rows, t, At(rows[i], t), k, i + 1)
  }

  /** Position of the last present cell of `vals`, or -1 when every cell is missing. */
  function LastPresent(vals: seq<Cell>): (j: int)
    ensures -1 <= j < |vals|
    ensures j >= 0 ==> !vals[j].Null?
    ensures forall i :: j < i < |vals| ==> vals[i].Null?
    decreases |vals|
  {
    if |vals| == 0 then -1
    else if !vals[|vals| - 1].Null? then |vals| - 1
    else LastPresent(vals[..|vals| - 1])
  }

  /** Position of the first alias the table has, or -1 when it has none. */
  function ColumnOf(candidates: seq<string>, columns: seq<string>): (k: int)
    ensures k == -1 <==> FirstPresent(candidates, columns).None?
    ensures k >= 0 ==> k < |columns| && columns[k] == FirstPresent(candidates, columns).value
  {
    match FirstPresent(candidates, columns)
    case None => -1
    case Some(name) => IndexOf(columns, name)
  }

  /** A row with cell `c` written at column `k`, or appended when `k` is -1. */
  function PutCell(row: seq<Cell>, k: int, c: Cell): seq<Cell>
  {
    if k >= 0 then SetAt(row, k, c) else row + [c]
  }

  /**
   * `df[name] = cells`: the column is overwritten when the table has it,
   * otherwise appended; no other cell changes.
   */
  function PutColumn(f: Frame, name: string, cells: seq<Cell>): (g: Frame)
    requires Valid(f) && |cells| == |f.rows|
    ensures Valid(g) && |g.rows| == |f.rows|
    ensures g.columns == if name in f.columns then f.columns else f.columns + [name]
    ensures forall i :: 0 <= i < |f.rows| ==> g.rows[i] == PutCell(f.rows[i], IndexOf(f.columns, name), cells[i])
    ensures forall i :: 0 <= i < |f.rows| ==> At(g.rows[i], IndexOf(g.columns, name)) == cells[i]
    ensures forall i, j :: 0 <= i < |f.rows| && 0 <= j < |f.columns| && f.columns[j] != name ==> g.rows[i][j] == f.rows[i][j]
  {
    var k := IndexOf(f.columns, name);
    var columns := if k >= 0 then f.columns else f.columns + [name];
    assert IndexOf(columns, name) == if k >= 0 then k else |f.columns| by {
      if k < 0 {
        IndexOfLast(f.columns, name);
      }
    }
    assert Distinct(columns);
    var rows := seq(|f.rows|, i requires 0 <= i < |f.rows| => PutCell(f.rows[i], k, cells[i]));
    assert forall i :: 0 <= i < |rows| ==> |rows[i]| == |columns| && At(rows[i], IndexOf(columns, name)) == cells[i] by {
      forall i | 0 <= i < |rows| ensures |rows[i]| == |columns| && At(rows[i], IndexOf(columns, name)) == cells[i] {
        PutCellCells(f.rows[i], k, cells[i]);
      }
    }
    Frame(columns, rows)
  }

  /** Writing one column leaves every other column where it was, with its cells. */
  lemma PutColumnKeeps(f: Frame, name: string, cells: seq<Cell>, other: string)
    requires Valid(f) && |cells| == |f.rows| && other in f.columns && other != name
    ensures var g := PutColumn(f, name, cells);
            IndexOf(g.columns, other) == IndexOf(f.columns, other)
            && forall i :: 0 <= i < |f.rows| ==> At(g.rows[i], IndexOf(g.columns, other)) == At(f.rows[i], IndexOf(f.columns, other))
  {
    var g := PutColumn(f, name, cells);
    var k := IndexOf(f.columns, other);
    assert g.columns[k] == other;
    forall i | 0 <= i < |f.rows| ensures At(g.rows[i], k) == At(f.rows[i], k) {
      assert g.rows[i][k] == f.rows[i][k];
    }
  }

  /** The cells `PutCell` writes and the ones it leaves. */
  lemma PutCellCells(row: seq<Cell>, k: int, c: Cell)
    requires -1 <= k < |row|
    ensures |PutCell(row, k, c)| == if k >= 0 then |row| else |row| + 1
    ensures At(PutCell(row, k, c), if k >= 0 then k else |row|) == c
    ensures forall j :: 0 <= j < |row| && j != k ==> PutCell(row, k, c)[j] == row[j]
  {
  }

  /** A name appended to columns that lack it is found at the end. */
  lemma {:induction false} IndexOfLast(columns: seq<string>, name: string)
    requires name !in columns
    ensures IndexOf(columns + [name], name) == |columns|
  {
    var k := IndexOf(columns + [name], name);
    assert (columns + [name])[|columns|] == name;
  }

  /** The group of row `i` so far ends with row `i` itself. */
  lemma GroupPrefixEnds(rows: seq<seq<Cell>>, t: int, k: int, i: int)
    requires 0 <= i < |rows|
    ensures GroupPrefix(rows, t, k, i) == GroupCells(rows, t, At(rows[i], t), k, i) + [At(rows[i], k)]
  {
  }

  /** Rows without the group's key add nothing to the group. */
  lemma {:induction false} GroupCellsSkip(rows: seq<seq<Cell>>, t: int, c: Cell, k: int, a: int, n: int)
    requires 0 <= a <= n <= |rows|
    requires forall m :: a <= m < n ==> At(rows[m], t) != c
    ensures GroupCells(rows, t, c, k, n) == GroupCells(rows, t, c, k, a)
    decreases n
  {
    if n > a {
      GroupCellsSkip(rows, t, c, k, a, n - 1);
    }
  }

  /** The group is empty exactly when no row has its key. */
  lemma {:induction false} GroupCellsEmpty(rows: seq<seq<Cell>>, t: int, c: Cell, k: int, n: int)
    requires 0 <= n <= |rows|
    ensures |GroupCells(rows, t, c, k, n)| == 0 <==> forall m :: 0 <= m < n ==> At(rows[m], t) != c
    decreases n
  {
    if n > 0 {
      GroupCellsEmpty(rows, t, c, k, n - 1);
    }
  }

  /** Some row among the first `n` has key `c` in column `t` and `x` in column `k`. */
  predicate CellOfGroup(rows: seq<seq<Cell>>, t: int, c: Cell, k: int, n: int, x: Cell)
    requires 0 <= n <= |rows|
  {
    exists r :: 0 <= r < n && At(rows[r], t) == c && At(rows[r], k) == x
  }

  /** Every cell of the group is column `k` of a row with the group's key. */
  lemma {:induction false} GroupCellsOrigin(rows: seq<seq<Cell>>, t: int, c: Cell, k: int, n: int)
    requires 0 <= n <= |rows|
    ensures forall x :: x in GroupCells(rows, t, c, k, n) ==> CellOfGroup(rows, t, c, k, n, x)
    decreases n
  {
    if n > 0 {
      GroupCellsOrigin(rows, t, c, k, n - 1);
      forall x | x in GroupCells(rows, t, c, k, n) ensures CellOfGroup(rows, t, c, k, n, x) {
        if x in GroupCells(rows, t, c, k, n - 1) {
          var r :| 0 <= r < n - 1 && At(rows[r], t) == c && At(rows[r], k) == x;
        } else {
          assert At(rows[n - 1], t) == c && At(rows[n - 1], k) == x;
        }
      }
    }
  }

  /** A row restricted to the named columns. */
  function Project(row: seq<Cell>, columns: seq<string>, names: seq<string>): (r: seq<Cell>)
    ensures |r| == |names| && forall j :: 0 <= j < |names| ==> r[j] == At(row, IndexOf(columns, names[j]))
  {
    Map(names, (n: string) => At(row, IndexOf(columns, n)))
  }

  /** `f[names]`: the named columns in the order given; a `KeyError` names the first one missing. */
  function Select(f: Frame, names: seq<string>): (r: Result<Frame, string>)
    requires Valid(f) && Distinct(names)
    ensures r.Err? <==> exists j :: 0 <= j < |names| && names[j] !in f.columns
    ensures r.Err? ==> r.error in names && r.error !in f.columns
    ensures r.Ok? ==> Valid(r.value) && r.value.columns == names && |r.value.rows| == |f.rows|
    ensures r.Ok? ==> forall i, j :: 0 <= i < |f.rows| && 0 <= j < |names| ==> r.value.rows[i][j] == At(f.rows[i], IndexOf(f.columns, names[j]))
  {
    var missing := FirstPresent(names, Filter(names, (n: string) => n !in f.columns));
    if missing.Some? then Err(missing.value)
    else
      assert forall j :: 0 <= j < |names| ==> names[j] in f.columns;
      var ks := IndicesOf(f.columns, names);
      Ok(Frame(names, seq(|f.rows|, i requires 0 <= i < |f.rows| => seq(|ks|, j requires 0 <= j < |ks| => At(f.rows[i], ks[j])))))
  }

  /**
   * `if df[col].duplicated().any(): df = df.drop_duplicates(subset=[col])`:
   * one row per value of column `t`, each the first row with that value.
   */
  function Deduplicated(rows: seq<seq<Cell>>, t: int): (d: seq<seq<Cell>>)
    ensures DistinctKeys(d, ColumnKey(t))
    ensures forall x :: HasKey(d, ColumnKey(t), x) <==> HasKey(rows, ColumnKey(t), x)
    ensures forall row :: row in d ==> exists i :: 0 <= i < |rows| && rows[i] == row && !Duplicated(rows, ColumnKey(t), i)
    ensures |d| <= |rows|
  {
    if AnyDuplicated(rows, ColumnKey(t)) then
      KeepFirstProperties(rows, ColumnKey(t));
      forall row | row in KeepFirst(rows, ColumnKey(t))
        ensures exists i :: 0 <= i < |rows| && rows[i] == row && !Duplicated(rows, ColumnKey(t), i)
      {
        KeepFirstOnlyFirsts(rows, ColumnKey(t), row);
      }
      DropDuplicates(rows, ColumnKey(t))
    else
      assert DistinctKeys(rows, ColumnKey(t)) by {
        forall i, j | 0 <= i < j < |rows| ensures ColumnKey(t)(rows[i]) != ColumnKey(t)(rows[j]) {
          assert !Duplicated(rows, ColumnKey(t), j);
        }
      }
      DropDuplicates(rows, ColumnKey(t))
  }

  function ProjectOn(columns: seq<string>, names: seq<string>): seq<Cell> -> seq<Cell>
  {
    (row: seq<Cell>) => Project(row, columns, names)
  }

  /** The selected rows are the table's rows, each restricted to the named columns. */
  lemma SelectRows(f: Frame, names: seq<string>)
    requires Valid(f) && Distinct(names) && Select(f, names).Ok?
    ensures Select(f, names).value.rows == Map(f.rows, ProjectOn(f.columns, names))
  {
    var picked := Select(f, names).value;
    forall i | 0 <= i < |f.rows| ensures picked.rows[i] == Project(f.rows[i], f.columns, names) {
    }
  }

  /** Row `i` of a selection is row `i` of the frame restricted to the names. */
  lemma SelectRow(f: Frame, names: seq<string>, i: int)
    requires Valid(f) && Distinct(names) && Select(f, names).Ok? && 0 <= i < |f.rows|
    ensures Select(f, names).value.rows[i] == Project(f.rows[i], f.columns, names)
  {
  }

  /** Keeping some of a frame's rows under the same columns leaves it well formed. */
  lemma SubRowsValid(f: Frame, rows: seq<seq<Cell>>)
    requires Valid(f)
    requires forall row :: row in rows ==> row in f.rows
    ensures Valid(Frame(f.columns, rows))
  {
    forall i | 0 <= i < |rows| ensures |rows[i]| == |f.columns| {
      assert rows[i] in f.rows;
    }
  }

  /** Surviving rows keep the order in which their values first appear. */
  lemma DeduplicatedOrder(rows: seq<seq<Cell>>, t: int)
    ensures var d := Deduplicated(rows, t);
            forall a, b :: 0 <= a < b < |d| ==> FirstKeyIndex(rows, ColumnKey(t), At(d[a], t)) < FirstKeyIndex(rows, ColumnKey(t), At(d[b], t))
  {
    var key := ColumnKey(t);
    if AnyDuplicated(rows, key) {
      var d := KeepFirst(rows, key);
      assert Deduplicated(rows, t) == d;
      KeepFirstOrder(rows, key);
      forall a, b | 0 <= a < b < |d|
        ensures FirstKeyIndex(rows, ColumnKey(t), At(d[a], t)) < FirstKeyIndex(rows, ColumnKey(t), At(d[b], t))
      {
        assert key(d[a]) == At(d[a], t) && key(d[b]) == At(d[b], t);
        assert FirstKeyIndex(rows, key, key(d[a])) < FirstKeyIndex(rows, key, key(d[b]));
      }
    } else {
      assert Deduplicated(rows, t) == rows;
      forall a | 0 <= a < |rows| ensures FirstKeyIndex(rows, key, key(rows[a])) == a {
        var f := FirstKeyIndex(rows, key, key(rows[a]));
        assert !Duplicated(rows, key, a);
      }
    }
  }
}
