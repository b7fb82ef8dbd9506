/**
 * `Series.ffill()` and `Series.bfill()` without a limit: a missing cell takes
 * the nearest present cell before it (after it, for `bfill`), and cells with
 * nothing to copy from stay missing.
 */
module Fills {
  import opened Cells
  import opened Frames

  /** `vals.ffill()`, defined from the right so that appending is one step. */
  function ForwardFill(vals: seq<Cell>): (r: seq<Cell>)
    ensures |r| == |vals|
    decreases |vals|
  {
    if |vals| == 0 then []
    else
      var init := ForwardFill(vals[..|vals| - 1]);
      var last := vals[|vals| - 1];
      init + [if last.Null? && |init| > 0 then init[|init| - 1] else last]
  }

  /** `vals.bfill()`, defined from the left. */
  function BackwardFill(vals: seq<Cell>): (r: seq<Cell>)
    ensures |r| == |vals|
    decreases |vals|
  {
    if |vals| == 0 then []
    else
      var rest := BackwardFill(vals[1..]);
      [if vals[0].Null? && |rest| > 0 then rest[0] else vals[0]] + rest
  }

  /** `vals.ffill().bfill()`. */
  function FillGaps(vals: seq<Cell>): (r: seq<Cell>)
    ensures |r| == |vals|
  {
    BackwardFill(ForwardFill(vals))
  }

  /** `isnull().sum() > 0`. */
  predicate AnyMissing(vals: seq<Cell>)
  {
    exists i :: 0 <= i < |vals| && vals[i].Null?
  }

  predicate AnyPresent(vals: seq<Cell>)
  {
    exists j :: 0 <= j < |vals| && !vals[j].Null?
  }

  /**
   * The reference meaning of a forward fill at position `i`: the last present
   * cell at or before `i`, or missing when there is none.
   */
  function LastPresentUpTo(vals: seq<Cell>, i: int): (c: Cell)
    requires 0 <= i < |vals|
    ensures !vals[i].Null? ==> c == vals[i]
    ensures c.Null? <==> forall j :: 0 <= j <= i ==> vals[j].Null?
    ensures c.Null? || c in vals[..i + 1]
  {
    var w := vals[..i + 1];
    var j := LastPresent(w);
    assert forall m :: 0 <= m <= i ==> w[m] == vals[m];
    if j >= 0 then w[j] else Null
  }

  /** The reference meaning at `i` only looks at positions up to `i`. */
  lemma LastPresentUpToPrefix(vals: seq<Cell>, m: int, i: int)
    requires 0 <= i < m <= |vals|
    ensures LastPresentUpTo(vals[..m], i) == LastPresentUpTo(vals, i)
  {
    assert vals[..m][..i + 1] == vals[..i + 1];
  }

  /** A missing cell at `i` inherits the reference meaning at `i - 1`. */
  lemma LastPresentUpToStep(vals: seq<Cell>, i: int)
    requires 0 < i < |vals| && vals[i].Null?
    ensures LastPresentUpTo(vals, i) == LastPresentUpTo(vals, i - 1)
  {
    assert vals[..i + 1][..i] == vals[..i];
  }

  /** The recursive forward fill agrees with the reference meaning at every position. */
  lemma {:induction false} ForwardFillIsLastPresent(vals: seq<Cell>)
    ensures forall i :: 0 <= i < |vals| ==> ForwardFill(vals)[i] == LastPresentUpTo(vals, i)
    decreases |vals|
  {
    if |vals| > 0 {
      var n := |vals| - 1;
      var init := vals[..n];
      ForwardFillIsLastPresent(init);
      var r := ForwardFill(vals);
      forall i | 0 <= i < |vals| ensures r[i] == LastPresentUpTo(vals, i) {
        if i < n {
          LastPresentUpToPrefix(vals, n, i);
          assert r[i] == ForwardFill(init)[i];
        } else if vals[n].Null? && n > 0 {
          LastPresentUpToStep(vals, n);
          LastPresentUpToPrefix(vals, n, n - 1);
        }
      }
    }
  }

  /** Position of the first present cell of `vals`, or `|vals|` when every cell is missing. */
  function FirstPresentIndex(vals: seq<Cell>): (j: int)
    ensures 0 <= j <= |vals|
    ensures j < |vals| ==> !vals[j].Null?
    ensures forall i :: 0 <= i < j ==> vals[i].Null?
    decreases |vals|
  {
    if |vals| == 0 || !vals[0].Null? then 0
    else
      var j := FirstPresentIndex(vals[1..]);
      assert forall i :: 0 < i <= j ==> vals[i] == vals[1..][i - 1];
      1 + j
  }

  /**
   * The reference meaning of a backward fill at position `i`: the first
   * present cell at or after `i`, or missing when there is none.
   */
  function NextPresentFrom(vals: seq<Cell>, i: int): (c: Cell)
    requires 0 <= i < |vals|
    ensures !vals[i].Null? ==> c == vals[i]
    ensures c.Null? <==> forall j :: i <= j < |vals| ==> vals[j].Null?
    ensures c.Null? || c in vals[i..]
  {
    var w := vals[i..];
    var j := FirstPresentIndex(w);
    assert forall m :: 0 <= m < |w| ==> w[m] == vals[i + m];
    if j < |w| then w[j] else Null
  }

  /** Dropping the first cell shifts the reference meaning by one position. */
  lemma NextPresentFromSuffix(vals: seq<Cell>, i: int)
    requires 0 < i < |vals|
    ensures NextPresentFrom(vals[1..], i - 1) == NextPresentFrom(vals, i)
  {
    assert vals[1..][i - 1..] == vals[i..];
  }

  /** A missing cell at `i` takes the reference meaning at `i + 1`. */
  lemma NextPresentFromStep(vals: seq<Cell>, i: int)
    requires 0 <= i < |vals| - 1 && vals[i].Null?
    ensures NextPresentFrom(vals, i) == NextPresentFrom(vals, i + 1)
  {
    var w := vals[i..];
    assert w[1..] == vals[i + 1..];
  }

  /** The recursive backward fill agrees with the reference meaning at every position. */
  lemma {:induction false} BackwardFillIsNextPresent(vals: seq<Cell>)
    ensures forall i :: 0 <= i < |vals| ==> BackwardFill(vals)[i] == NextPresentFrom(vals, i)
    decreases |vals|
  {
    if |vals| > 0 {
      var rest := vals[1..];
      BackwardFillIsNextPresent(rest);
      var r := BackwardFill(vals);
      forall i | 0 <= i < |vals| ensures r[i] == NextPresentFrom(vals, i) {
        if i > 0 {
          NextPresentFromSuffix(vals, i);
          assert r[i] == BackwardFill(rest)[i - 1];
        } else if vals[0].Null? && |rest| > 0 {
          NextPresentFromStep(vals, 0);
          NextPresentFromSuffix(vals, 1);
        }
      }
    }
  }

  /** A backward fill keeps every present cell and copies only cells of the input. */
  lemma {:induction false} BackwardFillCells(vals: seq<Cell>)
    ensures forall i :: 0 <= i < |vals| && !vals[i].Null? ==> BackwardFill(vals)[i] == vals[i]
    ensures forall i :: 0 <= i < |vals| ==> BackwardFill(vals)[i].Null? || BackwardFill(vals)[i] in vals
    decreases |vals|
  {
    if |vals| > 0 {
      var rest := vals[1..];
      BackwardFillCells(rest);
      var r := BackwardFill(vals);
      forall i | 0 < i < |vals| ensures r[i] == BackwardFill(rest)[i - 1] && vals[i] == rest[i - 1] {
      }
      forall i | 0 <= i < |vals| ensures r[i].Null? || r[i] in vals {
        if i > 0 && !r[i].Null? {
          assert BackwardFill(rest)[i - 1] in rest;
        } else if i == 0 && vals[0].Null? && |rest| > 0 && !r[0].Null? {
          assert BackwardFill(rest)[0] in rest;
        }
      }
    }
  }

  /** A sequence whose last cell is present has no missing cell after a backward fill. */
  lemma {:induction false} BackwardFillComplete(vals: seq<Cell>)
    requires |vals| > 0 && !vals[|vals| - 1].Null?
    ensures forall i :: 0 <= i < |vals| ==> !BackwardFill(vals)[i].Null?
    decreases |vals|
  {
    if |vals| > 1 {
      var rest := vals[1..];
      assert rest[|rest| - 1] == vals[|vals| - 1];
      BackwardFillComplete(rest);
      var r := BackwardFill(vals);
      forall i | 0 < i < |vals| ensures r[i] == BackwardFill(rest)[i - 1] {
      }
    }
  }

  /**
   * `ffill().bfill()` leaves no cell missing as soon as one cell is present,
   * keeps every present cell, and copies only cells of the input.
   */
  lemma FillGapsProperties(vals: seq<Cell>)
    ensures AnyPresent(vals) ==> forall i :: 0 <= i < |vals| ==> !FillGaps(vals)[i].Null?
    ensures forall i :: 0 <= i < |vals| && !vals[i].Null? ==> FillGaps(vals)[i] == vals[i]
    ensures forall i :: 0 <= i < |vals| ==> FillGaps(vals)[i].Null? || FillGaps(vals)[i] in vals
  {
    var f := ForwardFill(vals);
    ForwardFillIsLastPresent(vals);
    BackwardFillCells(f);
    if AnyPresent(vals) {
      var j :| 0 <= j < |vals| && !vals[j].Null?;
      assert !LastPresentUpTo(vals, |vals| - 1).Null?;
      BackwardFillComplete(f);
    }
    forall i | 0 <= i < |vals| && !FillGaps(vals)[i].Null? ensures FillGaps(vals)[i] in vals {
      var k :| 0 <= k < |f| && f[k] == FillGaps(vals)[i];
      assert LastPresentUpTo(vals, k) in vals[..k + 1];
    }
  }

  /** With nothing missing, `ffill().bfill()` changes nothing. */
  lemma FillGapsNothingMissing(vals: seq<Cell>)
    requires forall i :: 0 <= i < |vals| ==> !vals[i].Null?
    ensures FillGaps(vals) == vals
  {
    FillGapsProperties(vals);
  }

  /** With every cell missing, `ffill().bfill()` leaves every cell missing. */
  lemma FillGapsAllMissing(vals: seq<Cell>)
    requires forall i :: 0 <= i < |vals| ==> vals[i].Null?
    ensures FillGaps(vals) == vals
  {
    FillGapsProperties(vals);
    forall i | 0 <= i < |vals| ensures FillGaps(vals)[i] == vals[i] {
      assert forall c :: c in vals ==> c.Null?;
    }
  }
}
