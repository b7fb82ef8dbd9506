/**
 * Table cells and the order `sort_values` uses on them: numbers (with the
 * infinities at the ends), then dates, then strings in code-point order, and
 * missing values last (`na_position="last"`).
 */
module Cells {
  import opened Floats

  /** A cell: missing (NaN/NaT/None), a number, an infinity, a string, or a day number. */
  datatype Cell = Null | Num(v: real) | PosInf | NegInf | Text(s: string) | Day(d: int)

  predicate IsInfCell(c: Cell) { c.PosInf? || c.NegInf? }

  /** A cell a numeric column can hold: a column holding a string or a date is not numeric. */
  predicate Numeric(c: Cell) { !c.Text? && !c.Day? }

  /** `pd.to_numeric(errors="coerce")`: anything that is not a number becomes NaN. */
  function ToFloat(c: Cell): Float
  {
    match c
    case Num(x) => Fin(x)
    case PosInf => Float.PosInf
    case NegInf => Float.NegInf
    case _ => NaN
  }

  function FromFloat(f: Float): Cell
  {
    match f
    case NaN => Null
    case Fin(x) => Num(x)
    case PosInf => Cell.PosInf
    case NegInf => Cell.NegInf
  }

  /** Python's string comparison `a <= b`. */
  predicate StrLe(a: string, b: string)
  {
    |a| == 0 || (|b| > 0 && (a[0] < b[0] || (a[0] == b[0] && StrLe(a[1..], b[1..]))))
  }

  function Rank(c: Cell): nat
  {
    match c
    case NegInf => 0
    case Num(_) => 1
    case PosInf => 2
    case Day(_) => 3
    case Text(_) => 4
    case Null => 5
  }

  predicate CellLe(a: Cell, b: Cell)
  {
    if Rank(a) != Rank(b) then Rank(a) < Rank(b)
    else match a
      case Num(x) => x <= b.v
      case Day(d) => d <= b.d
      case Text(s) => StrLe(s, b.s)
      case _ => true
  }

  /** Lexicographic order on sort keys (one cell per key column). */
  predicate LexLe(a: seq<Cell>, b: seq<Cell>)
  {
    |a| == 0 || (|b| > 0 && ((CellLe(a[0], b[0]) && a[0] != b[0]) || (a[0] == b[0] && LexLe(a[1..], b[1..]))))
  }

  lemma {:induction false} StrLeTotal(a: string, b: string)
    ensures StrLe(a, b) || StrLe(b, a)
    decreases |a|
  {
    if |a| > 0 && |b| > 0 && a[0] == b[0] {
      StrLeTotal(a[1..], b[1..]);
    }
  }

  lemma {:induction false} StrLeTrans(a: string, b: string, c: string)
    requires StrLe(a, b) && StrLe(b, c)
    ensures StrLe(a, c)
    decreases |a|
  {
    if |a| > 0 && a[0] == b[0] && b[0] == c[0] {
      StrLeTrans(a[1..], b[1..], c[1..]);
    }
  }

  lemma {:induction false} StrLeAntisym(a: string, b: string)
    requires StrLe(a, b) && StrLe(b, a)
    ensures a == b
    decreases |a|
  {
    if |a| > 0 {
      StrLeAntisym(a[1..], b[1..]);
      assert a == [a[0]] + a[1..] && b == [b[0]] + b[1..];
    }
  }

  lemma {:induction false} StrLeRefl(a: string)
    ensures StrLe(a, a)
    decreases |a|
  {
    if |a| > 0 { StrLeRefl(a[1..]); }
  }

  lemma CellLeRefl(a: Cell)
    ensures CellLe(a, a)
  {
    if a.Text? { StrLeRefl(a.s); }
  }

  lemma CellLeTotal(a: Cell, b: Cell)
    ensures CellLe(a, b) || CellLe(b, a)
  {
    if a.Text? && b.Text? { StrLeTotal(a.s, b.s); }
  }

  lemma CellLeTrans(a: Cell, b: Cell, c: Cell)
    requires CellLe(a, b) && CellLe(b, c)
    ensures CellLe(a, c)
  {
    if a.Text? && b.Text? && c.Text? { StrLeTrans(a.s, b.s, c.s); }
  }

  lemma CellLeAntisym(a: Cell, b: Cell)
    requires CellLe(a, b) && CellLe(b, a)
    ensures a == b
  {
    if a.Text? && b.Text? { StrLeAntisym(a.s, b.s); }
  }

  lemma {:induction false} LexLeTotal(a: seq<Cell>, b: seq<Cell>)
    ensures LexLe(a, b) || LexLe(b, a)
    decreases |a|
  {
    if |a| > 0 && |b| > 0 {
      CellLeTotal(a[0], b[0]);
      if a[0] == b[0] {
        LexLeTotal(a[1..], b[1..]);
      }
    }
  }

  lemma {:induction false} LexLeTrans(a: seq<Cell>, b: seq<Cell>, c: seq<Cell>)
    requires LexLe(a, b) && LexLe(b, c)
    ensures LexLe(a, c)
    decreases |a|
  {
    if |a| > 0 {
      if a[0] == b[0] && b[0] == c[0] {
        LexLeTrans(a[1..], b[1..], c[1..]);
      } else if a[0] != b[0] && b[0] != c[0] {
        CellLeTrans(a[0], b[0], c[0]);
        if a[0] == c[0] { CellLeAntisym(a[0], b[0]); }
      }
    }
  }

  lemma {:induction false} LexLeAntisym(a: seq<Cell>, b: seq<Cell>)
    requires |a| == |b| && LexLe(a, b) && LexLe(b, a)
    ensures a == b
    decreases |a|
  {
    if |a| > 0 {
      if a[0] != b[0] { CellLeAntisym(a[0], b[0]); }
      LexLeAntisym(a[1..], b[1..]);
      assert a == [a[0]] + a[1..] && b == [b[0]] + b[1..];
    }
  }

  /** For two-column keys the order is: first column, then second. */
  lemma LexLePair(a0: Cell, a1: Cell, b0: Cell, b1: Cell)
    ensures LexLe([a0, a1], [b0, b1]) <==> (CellLe(a0, b0) && a0 != b0) || (a0 == b0 && CellLe(a1, b1))
  {
    CellLeRefl(a1);
    assert [a0, a1][1..] == [a1] && [b0, b1][1..] == [b1];
    assert [a1][1..] == [] && [b1][1..] == [];
    assert LexLe([a1], [b1]) <==> CellLe(a1, b1);
  }
}
