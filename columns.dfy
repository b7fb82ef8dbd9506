/**
 * Column-name inference: every stage looks a logical field up under an
 * ordered list of aliases and takes the first one the table has, or selects
 * the columns whose name passes a test, in column order.
 */
module Columns {
  import opened Wrappers
  import opened Seqs

  /** The first candidate that is a column of the table, or None when no candidate is. */
  function FirstPresent(candidates: seq<string>, columns: seq<string>): (r: Option<string>)
    ensures r.Some? ==> r.value in candidates && r.value in columns
    ensures r.None? <==> forall k :: 0 <= k < |candidates| ==> candidates[k] !in columns
    ensures r.Some? ==> exists k :: 0 <= k < |candidates| && candidates[k] == r.value
                                    && forall j :: 0 <= j < k ==> candidates[j] !in columns
  {
    if |candidates| == 0 then None
    else if candidates[0] in columns then Some(candidates[0])
    else
      var rest := FirstPresent(candidates[1..], columns);
      assert rest.Some? ==> exists k :: 1 <= k < |candidates| && candidates[k] == rest.value
                                        && forall j :: 0 <= j < k ==> candidates[j] !in columns by {
        if rest.Some? {
          var k :| 0 <= k < |candidates[1..]| && candidates[1..][k] == rest.value
                   && forall j :: 0 <= j < k ==> candidates[1..][j] !in columns;
          assert candidates[k + 1] == rest.value;
          assert forall j :: 0 <= j < k + 1 ==> candidates[j] !in columns by {
            forall j | 0 <= j < k + 1 ensures candidates[j] !in columns {
              if j > 0 { assert candidates[j] == candidates[1..][j - 1]; }
            }
          }
        }
      }
      rest
  }

  /**
   * The alias loop `for col in candidates: if col in df.columns: found = col; break`.
   */
  method ResolveColumn(candidates: seq<string>, columns: seq<string>) returns (found: Option<string>)
    ensures found == FirstPresent(candidates, columns)
  {
    found := None;
    var i := 0;
    while i < |candidates|
      invariant 0 <= i <= |candidates|
      invariant found.None? && FirstPresent(candidates, columns) == FirstPresent(candidates[i..], columns)
    {
      if candidates[i] in columns {
        found := Some(candidates[i]);
        assert candidates[i..][0] == candidates[i];
        return;
      }
      assert candidates[i..][1..] == candidates[i + 1..];
      i := i + 1;
    }
  }

  /**
   * The selection loop `for col in df.columns: if keep(col): selected.append(col)`.
   */
  method CollectColumns(columns: seq<string>, keep: string -> bool) returns (selected: seq<string>)
    ensures selected == Filter(columns, keep)
  {
    selected := [];
    for i := 0 to |columns|
      invariant selected == Filter(columns[..i], keep)
    {
      assert columns[..i + 1] == columns[..i] + [columns[i]];
      FilterAppend(columns[..i], columns[i], keep);
      if keep(columns[i]) {
        selected := selected + [columns[i]];
      }
    }
    assert columns[..|columns|] == columns;
  }

  /** Selecting columns keeps exactly the names that pass the test, without repeating any. */
  lemma {:induction false} SelectedColumns(columns: seq<string>, keep: string -> bool)
    requires Distinct(columns)
    ensures Distinct(Filter(columns, keep))
    ensures forall c :: c in Filter(columns, keep) <==> c in columns && keep(c)
  {
    var id := (c: string) => c;
    assert DistinctKeys(columns, id);
    FilterDistinctKeys(columns, keep, id);
    assert DistinctKeys(Filter(columns, keep), id);
  }
}
