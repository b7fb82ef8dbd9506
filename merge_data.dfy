/**
 * `merge_all_data`: the returns table joined with the ESG scores (inner join
 * on the ticker), with the daily risk-free rate and the market return (left
 * joins on the date) and with the company facts (left join on the ticker);
 * then the excess return, the removal of repeated ticker-date pairs and of
 * rows holding an infinite number, and the sort by ticker and date.
 *
 * A file that is absent is `None`. `toDate` stands for `pd.to_datetime(...,
 * utc=True)` on one cell. A `KeyError` raised by a missing column ends the
 * step with `MissingColumn`.
 */
module MergeData {
  import opened Wrappers
  import opened Cells
  import opened Floats
  import opened Seqs
  import opened Sorting
  import opened Columns
  import opened Frames
  import opened Fills
  import opened Joins

  datatype MergeError =
    | NoReturnsFile
    | NoEsgFile
    | NoCommonTickers
      /** A `KeyError`: the table lacks the named column. */
    | MissingColumn(name: string)
      /** pandas' `MergeError`: on one side, a suffixed name repeats a name of that side. */
    | DuplicateColumns
      /**
       * A left name equals a right name after suffixing. pandas merges this
       * into a table with a repeated column name, which a `Frame` cannot hold.
       */
    | RepeatedColumns

  datatype How = Inner | Left

  const EsgTickerCandidates: seq<string> := ["Ticker", "Symbol", "ticker", "symbol"]
  const CompanyColumns: seq<string> := ["Ticker", "Market_Cap", "Sector", "Industry"]

  // ---------------------------------------------------------------------------
  // One merge

  /** `s` without its element at `k`. */
  function Without<T>(s: seq<T>, k: int): (r: seq<T>)
    requires 0 <= k < |s|
    ensures |r| == |s| - 1
    ensures forall j :: 0 <= j < k ==> r[j] == s[j]
    ensures forall j :: k <= j < |r| ==> r[j] == s[j + 1]
  {
    s[..k] + s[k + 1..]
  }

  /** A column both tables have, other than the key, takes the suffix of its side. */
  function Suffixed(name: string, other: seq<string>, key: string, suffix: string): string
  {
    if name != key && name in other then name + suffix else name
  }

  function LeftName(other: seq<string>, key: string): string -> string
  {
    (name: string) => Suffixed(name, other, key, "_x")
  }

  function RightName(other: seq<string>, key: string): string -> string
  {
    (name: string) => Suffixed(name, other, key, "_y")
  }

  /** The columns of `left.merge(right, on=key)`: the left ones, then the right ones but the key. */
  function MergedColumns(lc: seq<string>, rc: seq<string>, key: string, kr: int): (cs: seq<string>)
    requires 0 <= kr < |rc|
    ensures |cs| == |lc| + |rc| - 1
    ensures forall j :: 0 <= j < |lc| && lc[j] !in rc ==> cs[j] == lc[j]
    ensures forall j :: 0 <= j < |lc| && lc[j] == key ==> cs[j] == key
  {
    Map(lc, LeftName(rc, key)) + Map(Without(rc, kr), RightName(lc, key))
  }

  /**
   * The test of pandas' `_items_overlap_with_suffix`: the suffixed names of
   * one side repeat (left `A` and `A_x` with `A` on the right, say). A
   * repetition between a left and a right name is not checked.
   */
  predicate SuffixCollision(lc: seq<string>, rc: seq<string>, key: string)
    requires key in rc
  {
    !Distinct(Map(lc, LeftName(rc, key))) || !Distinct(Map(Without(rc, IndexOf(rc, key)), RightName(lc, key)))
  }

  function NullRow(n: int): (r: seq<Cell>)
    ensures |r| == if n > 0 then n else 0
    ensures forall j :: 0 <= j < |r| ==> r[j].Null?
  {
    seq(if n > 0 then n else 0, _ => Null)
  }

  /** The right part of a merged row: the right row but its key, or missing cells when no right row matched. */
  function RightPart(kr: int, width: int, r: Option<seq<Cell>>): seq<Cell>
  {
    if r.Some? && 0 <= kr < |r.value| then Without(r.value, kr) else NullRow(width - 1)
  }

  function PutRight(kr: int, width: int): (seq<Cell>, Option<seq<Cell>>) -> seq<Cell>
  {
    (l: seq<Cell>, r: Option<seq<Cell>>) => l + RightPart(kr, width, r)
  }

  /** The rows of the merge, once both key columns are known. */
  function MergedRows(left: Frame, right: Frame, kl: int, kr: int, how: How): seq<seq<Cell>>
  {
    var put := PutRight(kr, |right.columns|);
    if how == Inner then InnerJoin(left.rows, right.rows, ColumnKey(kl), ColumnKey(kr), put)
    else LeftJoin(left.rows, right.rows, ColumnKey(kl), ColumnKey(kr), put)
  }

  /**
   * `left.merge(right, on=key, how=how)`: a `KeyError` when either table
   * lacks the key, pandas' `MergeError` when the suffixes repeat a name of
   * one side, and `RepeatedColumns` when they make a left and a right name
   * equal.
   */
  function Merge(left: Frame, right: Frame, key: string, how: How): (r: Result<Frame, MergeError>)
    requires Valid(left) && Valid(right)
    ensures r.Err? <==> key !in left.columns || key !in right.columns
                        || !Distinct(MergedColumns(left.columns, right.columns, key, IndexOf(right.columns, key)))
    ensures r.Err? && (key !in left.columns || key !in right.columns) ==> r.error == MissingColumn(key)
    ensures r == Err(DuplicateColumns) <==>
              key in left.columns && key in right.columns && SuffixCollision(left.columns, right.columns, key)
    ensures r == Err(RepeatedColumns) <==>
              key in left.columns && key in right.columns && !SuffixCollision(left.columns, right.columns, key)
              && !Distinct(MergedColumns(left.columns, right.columns, key, IndexOf(right.columns, key)))
    ensures r.Ok? ==> Valid(r.value) && r.value.columns == MergedColumns(left.columns, right.columns, key, IndexOf(right.columns, key))
  {
    var kl := IndexOf(left.columns, key);
    var kr := IndexOf(right.columns, key);
    if kl < 0 || kr < 0 then Err(MissingColumn(key))
    else
      var cs := MergedColumns(left.columns, right.columns, key, kr);
      if SuffixCollision(left.columns, right.columns, key) then
        SuffixCollisionRepeats(left.columns, right.columns, key);
        Err(DuplicateColumns)
      else if !Distinct(cs) then Err(RepeatedColumns)
      else
        MergedWidth(left, right, kl, kr, how);
        Ok(Frame(cs, MergedRows(left, right, kl, kr, how)))
  }

  /** A repetition within one side is a repetition among the merged names. */
  lemma SuffixCollisionRepeats(lc: seq<string>, rc: seq<string>, key: string)
    requires key in rc && SuffixCollision(lc, rc, key)
    ensures !Distinct(MergedColumns(lc, rc, key, IndexOf(rc, key)))
  {
    RepeatsInConcat(Map(lc, LeftName(rc, key)), Map(Without(rc, IndexOf(rc, key)), RightName(lc, key)));
  }

  lemma RepeatsInConcat<T>(a: seq<T>, b: seq<T>)
    requires !Distinct(a) || !Distinct(b)
    ensures !Distinct(a + b)
  {
    if !Distinct(a) {
      var i, j :| 0 <= i < j < |a| && a[i] == a[j];
      assert (a + b)[i] == (a + b)[j];
    } else {
      var i, j :| 0 <= i < j < |b| && b[i] == b[j];
      assert (a + b)[|a| + i] == (a + b)[|a| + j];
    }
  }

  /** Every merged row has one cell per left column and per right column but the key. */
  lemma MergedWidth(left: Frame, right: Frame, kl: int, kr: int, how: How)
    requires Valid(left) && Valid(right) && 0 <= kl < |left.columns| && 0 <= kr < |right.columns|
    ensures forall i :: 0 <= i < |MergedRows(left, right, kl, kr, how)| ==>
              |MergedRows(left, right, kl, kr, how)[i]| == |left.columns| + |right.columns| - 1
  {
    var w := |left.columns| + |right.columns| - 1;
    var put := PutRight(kr, |right.columns|);
    var wide := (row: seq<Cell>) => |row| == w;
    if how == Inner {
      InnerJoinFrom(left.rows, right.rows, ColumnKey(kl), ColumnKey(kr), put);
    } else {
      forall i, m | 0 <= i < |left.rows| && 0 <= m < |JoinOne(left.rows[i], right.rows, ColumnKey(kl), ColumnKey(kr), put)|
        ensures wide(JoinOne(left.rows[i], right.rows, ColumnKey(kl), ColumnKey(kr), put)[m])
      {
        MatchesCells(left.rows[i], right.rows, ColumnKey(kl), ColumnKey(kr), put);
      }
      LeftJoinAll(left.rows, right.rows, ColumnKey(kl), ColumnKey(kr), put, wide);
    }
  }

  /**
   * An inner merge pairs rows of equal keys only: row `i` is left row `a`
   * followed by right row `b`, whose key is the same, without that key.
   */
  lemma InnerMergeRow(left: Frame, right: Frame, key: string, i: int) returns (a: int, b: int)
    requires Valid(left) && Valid(right)
    requires Merge(left, right, key, Inner).Ok?
    requires 0 <= i < |Merge(left, right, key, Inner).value.rows|
    ensures 0 <= a < |left.rows| && 0 <= b < |right.rows|
    ensures right.rows[b][IndexOf(right.columns, key)] == left.rows[a][IndexOf(left.columns, key)]
    ensures Merge(left, right, key, Inner).value.rows[i]
            == left.rows[a] + Without(right.rows[b], IndexOf(right.columns, key))
  {
    var kl := IndexOf(left.columns, key);
    var kr := IndexOf(right.columns, key);
    assert Merge(left, right, key, Inner).value.rows == MergedRows(left, right, kl, kr, Inner);
    a, b := InnerRowPaired(left, right, kl, kr, i);
  }

  /** The left and right rows that row `i` of an inner merge was put together from. */
  lemma InnerRowPaired(left: Frame, right: Frame, kl: int, kr: int, i: int) returns (a: int, b: int)
    requires Valid(left) && Valid(right) && 0 <= kl < |left.columns| && 0 <= kr < |right.columns|
    requires 0 <= i < |MergedRows(left, right, kl, kr, Inner)|
    ensures 0 <= a < |left.rows| && 0 <= b < |right.rows|
    ensures right.rows[b][kr] == left.rows[a][kl]
    ensures MergedRows(left, right, kl, kr, Inner)[i] == left.rows[a] + Without(right.rows[b], kr)
  {
    var put := PutRight(kr, |right.columns|);
    var rows := InnerJoin(left.rows, right.rows, ColumnKey(kl), ColumnKey(kr), put);
    assert rows == MergedRows(left, right, kl, kr, Inner);
    InnerJoinFrom(left.rows, right.rows, ColumnKey(kl), ColumnKey(kr), put);
    assert 0 <= i < |rows|;
    a, b :| 0 <= a < |left.rows| && 0 <= b < |right.rows|
            && ColumnKey(kr)(right.rows[b]) == ColumnKey(kl)(left.rows[a])
            && rows[i] == put(left.rows[a], Some(right.rows[b]));
    assert |right.rows[b]| == |right.columns|;
  }

  /**
   * An inner merge drops no pair of matching rows: a left row whose key the
   * right table has starts a merged row, and the merge is empty exactly when
   * no left key is a right key.
   */
  lemma InnerMergeKeeps(left: Frame, right: Frame, key: string)
    requires Valid(left) && Valid(right)
    requires Merge(left, right, key, Inner).Ok?
    ensures var kl := IndexOf(left.columns, key);
            var kr := IndexOf(right.columns, key);
            var out := Merge(left, right, key, Inner).value;
            (forall a :: 0 <= a < |left.rows| && HasKey(right.rows, ColumnKey(kr), left.rows[a][kl]) ==>
               exists i :: 0 <= i < |out.rows| && out.rows[i][..|left.columns|] == left.rows[a])
            && (|out.rows| == 0 <==> forall a :: 0 <= a < |left.rows| ==> !HasKey(right.rows, ColumnKey(kr), left.rows[a][kl]))
  {
    var kl := IndexOf(left.columns, key);
    var kr := IndexOf(right.columns, key);
    var put := PutRight(kr, |right.columns|);
    var out := Merge(left, right, key, Inner).value;
    forall a | 0 <= a < |left.rows| && HasKey(right.rows, ColumnKey(kr), left.rows[a][kl])
      ensures exists i :: 0 <= i < |out.rows| && out.rows[i][..|left.columns|] == left.rows[a]
    {
      assert ColumnKey(kl)(left.rows[a]) == left.rows[a][kl];
      MatchesCells(left.rows[a], right.rows, ColumnKey(kl), ColumnKey(kr), put);
      InnerJoinAt(left.rows, right.rows, ColumnKey(kl), ColumnKey(kr), put, a);
      var i := |InnerJoin(left.rows[..a], right.rows, ColumnKey(kl), ColumnKey(kr), put)|;
      var ms := Matches(left.rows[a], right.rows, ColumnKey(kl), ColumnKey(kr), put);
      assert out.rows[i] == ms[0];
      var b :| 0 <= b < |right.rows| && ms[0] == put(left.rows[a], Some(right.rows[b]));
      assert out.rows[i][..|left.columns|] == left.rows[a];
    }
    InnerJoinEmpty(left.rows, right.rows, ColumnKey(kl), ColumnKey(kr), put);
    assert forall a :: 0 <= a < |left.rows| ==> ColumnKey(kl)(left.rows[a]) == left.rows[a][kl];
  }

  /**
   * A left merge loses no left row: each starts a merged row, in left order.
   * With at most one right row per key it keeps them one for one, each
   * followed by the right row of its key, or by missing cells.
   */
  lemma LeftMergeKeeps(left: Frame, right: Frame, key: string)
    requires Valid(left) && Valid(right)
    requires Merge(left, right, key, Left).Ok?
    ensures var kl := IndexOf(left.columns, key);
            var kr := IndexOf(right.columns, key);
            var out := Merge(left, right, key, Left).value;
            |out.rows| >= |left.rows|
            && (forall a :: 0 <= a < |left.rows| ==> exists i :: 0 <= i < |out.rows| && out.rows[i][..|left.columns|] == left.rows[a])
            && (DistinctKeys(right.rows, ColumnKey(kr)) ==>
                  |out.rows| == |left.rows|
                  && forall a :: 0 <= a < |left.rows| ==>
                       out.rows[a] == left.rows[a] + RightPart(kr, |right.columns|, Lookup(right.rows, ColumnKey(kr), left.rows[a][kl])))
  {
    var kl := IndexOf(left.columns, key);
    var kr := IndexOf(right.columns, key);
    var out := Merge(left, right, key, Left).value;
    assert out.rows == MergedRows(left, right, kl, kr, Left);
    forall a | 0 <= a < |left.rows|
      ensures exists i :: 0 <= i < |Merge(left, right, key, Left).value.rows|
                          && Merge(left, right, key, Left).value.rows[i][..|left.columns|] == left.rows[a]
    {
      var i := LeftRowKept(left, right, kl, kr, a);
    }
    if DistinctKeys(right.rows, ColumnKey(kr)) {
      LeftJoinUnique(left.rows, right.rows, ColumnKey(kl), ColumnKey(kr), PutRight(kr, |right.columns|));
    }
  }

  /** The merged row that left row `a` starts. */
  lemma LeftRowKept(left: Frame, right: Frame, kl: int, kr: int, a: int) returns (i: int)
    requires Valid(left) && Valid(right) && 0 <= kl < |left.columns| && 0 <= kr < |right.columns|
    requires 0 <= a < |left.rows|
    ensures 0 <= i < |MergedRows(left, right, kl, kr, Left)|
    ensures |left.columns| <= |MergedRows(left, right, kl, kr, Left)[i]|
    ensures MergedRows(left, right, kl, kr, Left)[i][..|left.columns|] == left.rows[a]
  {
    var put := PutRight(kr, |right.columns|);
    var rows := LeftJoin(left.rows, right.rows, ColumnKey(kl), ColumnKey(kr), put);
    assert rows == MergedRows(left, right, kl, kr, Left);
    LeftJoinAt(left.rows, right.rows, ColumnKey(kl), ColumnKey(kr), put, a);
    i := |LeftJoin(left.rows[..a], right.rows, ColumnKey(kl), ColumnKey(kr), put)|;
    var j := JoinOne(left.rows[a], right.rows, ColumnKey(kl), ColumnKey(kr), put);
    assert rows[i] == j[0];
    MatchesCells(left.rows[a], right.rows, ColumnKey(kl), ColumnKey(kr), put);
    assert rows[i][..|left.columns|] == left.rows[a];
  }

  // ---------------------------------------------------------------------------
  // The steps

  /** `df["Date"] = pd.to_datetime(df["Date"], utc=True)`. */
  function ParseDates(f: Frame, toDate: Cell -> Cell): (r: Result<Frame, MergeError>)
    requires Valid(f)
    ensures r.Err? <==> "Date" !in f.columns
    ensures r.Err? ==> r.error == MissingColumn("Date")
    ensures r.Ok? ==> Valid(r.value) && r.value.columns == f.columns && |r.value.rows| == |f.rows|
    ensures r.Ok? ==> var d := IndexOf(f.columns, "Date");
                      forall i :: 0 <= i < |f.rows| ==> r.value.rows[i] == f.rows[i][d := toDate(f.rows[i][d])]
  {
    var d := IndexOf(f.columns, "Date");
    if d < 0 then Err(MissingColumn("Date"))
    else Ok(PutColumn(f, "Date", Map(ColumnCells(f.rows, d), toDate)))
  }

  /** Lines 47-57: the returns table with its dates parsed. */
  function LoadReturns(retTable: Option<Frame>, toDate: Cell -> Cell): (r: Result<Frame, MergeError>)
    requires retTable.Some? ==> Valid(retTable.value)
    ensures retTable.None? ==> r == Err(NoReturnsFile)
    ensures retTable.Some? ==> r == ParseDates(retTable.value, toDate)
  {
    if retTable.None? then Err(NoReturnsFile) else ParseDates(retTable.value, toDate)
  }

  /** `df.rename(columns={name: "Ticker"})` for the column at `k`. */
  function RenameTicker(f: Frame): (g: Frame)
    requires Valid(f)
    ensures Valid(g) && g.rows == f.rows && |g.columns| == |f.columns|
    ensures var k := ColumnOf(EsgTickerCandidates, f.columns);
            if k < 0 then g == f else g.columns == f.columns[k := "Ticker"] && IndexOf(g.columns, "Ticker") == k
  {
    var k := ColumnOf(EsgTickerCandidates, f.columns);
    if k < 0 then f
    else
      var cs := f.columns[k := "Ticker"];
      assert "Ticker" !in f.columns || f.columns[k] == "Ticker";
      assert Distinct(cs) by {
        forall i, j | 0 <= i < j < |cs| ensures cs[i] != cs[j] {
        }
      }
      assert IndexOf(cs, "Ticker") == k by {
        IndexOfUnique(cs, "Ticker", k);
      }
      Frame(cs, f.rows)
  }

  /**
   * Lines 61-90: the ESG ticker column renamed to `Ticker`, then the inner
   * merge on `Ticker`; no matching ticker ends the run.
   */
  function JoinEsg(master: Frame, esg: Option<Frame>): (r: Result<Frame, MergeError>)
    requires Valid(master) && (esg.Some? ==> Valid(esg.value))
    ensures esg.None? ==> r == Err(NoEsgFile)
    ensures r.Ok? ==> Valid(r.value) && |r.value.rows| > 0
  {
    if esg.None? then Err(NoEsgFile)
    else
      match Merge(master, RenameTicker(esg.value), "Ticker", Inner)
      case Err(e) => Err(e)
      case Ok(m) => if |m.rows| == 0 then Err(NoCommonTickers) else Ok(m)
  }

  /** A column of `n` copies of `c`. */
  function Constant(n: int, c: Cell): (cells: seq<Cell>)
    ensures |cells| == if n > 0 then n else 0
    ensures forall i :: 0 <= i < |cells| ==> cells[i] == c
  {
    seq(if n > 0 then n else 0, _ => c)
  }

  /**
   * Lines 106-111 (and 132-137): when column `name` has a missing value the
   * table is sorted by date and the column is filled forward, then backward.
   */
  function FillByDate(f: Frame, name: string): (r: Result<Frame, MergeError>)
    requires Valid(f)
    ensures r.Err? <==> name !in f.columns || (AnyMissing(ColumnCells(f.rows, IndexOf(f.columns, name))) && "Date" !in f.columns)
    ensures r.Ok? ==> Valid(r.value) && r.value.columns == f.columns && |r.value.rows| == |f.rows|
  {
    var v := IndexOf(f.columns, name);
    if v < 0 then Err(MissingColumn(name))
    else if !AnyMissing(ColumnCells(f.rows, v)) then Ok(f)
    else
      var d := IndexOf(f.columns, "Date");
      if d < 0 then Err(MissingColumn("Date"))
      else
        var sorted := SortBy(f.rows, DateKey(d));
        SortByMembers(f.rows, DateKey(d));
        var g := Frame(f.columns, sorted);
        assert Valid(g) by {
          forall i | 0 <= i < |sorted| ensures |sorted[i]| == |f.columns| {
            assert sorted[i] in f.rows;
          }
        }
        Ok(PutColumn(g, name, FillGaps(ColumnCells(sorted, v))))
  }

  /**
   * Lines 94-116 (risk-free rate, `absent` is 0.0) and 120-142 (market
   * return, `absent` is missing): a left merge with the `Date` and `name`
   * columns of the table, then the fill; the constant `absent` when the file
   * is absent.
   */
  function JoinDaily(master: Frame, table: Option<Frame>, name: string, absent: Cell, toDate: Cell -> Cell): (r: Result<Frame, MergeError>)
    requires Valid(master) && (table.Some? ==> Valid(table.value)) && name != "Date"
    ensures table.None? ==> r == Ok(PutColumn(master, name, Constant(|master.rows|, absent)))
    ensures r.Ok? ==> Valid(r.value)
  {
    if table.None? then Ok(PutColumn(master, name, Constant(|master.rows|, absent)))
    else
      match ParseDates(table.value, toDate)
      case Err(e) => Err(e)
      case Ok(parsed) =>
        match Select(parsed, ["Date", name])
        case Err(missing) => Err(MissingColumn(missing))
        case Ok(picked) =>
          match Merge(master, picked, "Date", Left)
          case Err(e) => Err(e)
          case Ok(merged) => FillByDate(merged, name)
  }

  /** Without the file: the market cap, sector and industry columns written with placeholders. */
  function UnknownCompany(master: Frame): (g: Frame)
    requires Valid(master)
    ensures Valid(g) && |g.rows| == |master.rows|
    ensures "Market_Cap" in g.columns && "Sector" in g.columns && "Industry" in g.columns
  {
    var n := |master.rows|;
    var a := PutColumn(master, "Market_Cap", Constant(n, Null));
    var b := PutColumn(a, "Sector", Constant(n, Text("Unknown")));
    PutColumn(b, "Industry", Constant(n, Text("Unknown")))
  }

  /** Without the file, every row has no market cap and the sector and industry "Unknown". */
  lemma UnknownCompanyCells(master: Frame, i: int)
    requires Valid(master) && 0 <= i < |master.rows|
    ensures var g := UnknownCompany(master);
            At(g.rows[i], IndexOf(g.columns, "Market_Cap")) == Null
            && At(g.rows[i], IndexOf(g.columns, "Sector")) == Text("Unknown")
            && At(g.rows[i], IndexOf(g.columns, "Industry")) == Text("Unknown")
  {
    var n := |master.rows|;
    var a := PutColumn(master, "Market_Cap", Constant(n, Null));
    assert At(a.rows[i], IndexOf(a.columns, "Market_Cap")) == Null;
    var b := PutColumn(a, "Sector", Constant(n, Text("Unknown")));
    assert "Sector"[0] != "Market_Cap"[0] && "Industry"[0] != "Market_Cap"[0] && "Industry"[0] != "Sector"[0];
    PutColumnKeeps(a, "Sector", Constant(n, Text("Unknown")), "Market_Cap");
    assert At(b.rows[i], IndexOf(b.columns, "Market_Cap")) == Null;
    assert At(b.rows[i], IndexOf(b.columns, "Sector")) == Text("Unknown");
    PutColumnKeeps(b, "Industry", Constant(n, Text("Unknown")), "Market_Cap");
    PutColumnKeeps(b, "Industry", Constant(n, Text("Unknown")), "Sector");
  }

  /**
   * Lines 146-173: a left merge with the company facts; without the file, a
   * missing market cap and the sector and industry "Unknown".
   */
  function JoinCompany(master: Frame, company: Option<Frame>): (r: Result<Frame, MergeError>)
    requires Valid(master) && (company.Some? ==> Valid(company.value))
    ensures r.Ok? ==> Valid(r.value)
    ensures r.Ok? ==> "Market_Cap" in r.value.columns && "Sector" in r.value.columns
  {
    if company.None? then Ok(UnknownCompany(master))
    else
      match Select(company.value, CompanyColumns)
      case Err(missing) => Err(MissingColumn(missing))
      case Ok(picked) =>
        match Merge(master, picked, "Ticker", Left)
        case Err(e) => Err(e)
        case Ok(merged) =>
          if "Market_Cap" !in merged.columns then Err(MissingColumn("Market_Cap"))
          else if "Sector" !in merged.columns then Err(MissingColumn("Sector"))
          else Ok(merged)
  }

  /** `Return - Daily_RF_Rate` on one row, as float64 arithmetic. */
  function ExcessOf(ret: Cell, rf: Cell): Cell
  {
    FromFloat(Sub(ToFloat(ret), ToFloat(rf)))
  }

  /** Line 177: `Excess_Return = Return - Daily_RF_Rate`. */
  function WithExcess(f: Frame): (r: Result<Frame, MergeError>)
    requires Valid(f)
    ensures r.Err? <==> "Return" !in f.columns || "Daily_RF_Rate" !in f.columns
    ensures r.Ok? ==> Valid(r.value) && |r.value.rows| == |f.rows|
  {
    var k := IndexOf(f.columns, "Return");
    var q := IndexOf(f.columns, "Daily_RF_Rate");
    if k < 0 then Err(MissingColumn("Return"))
    else if q < 0 then Err(MissingColumn("Daily_RF_Rate"))
    else Ok(PutColumn(f, "Excess_Return", seq(|f.rows|, i requires 0 <= i < |f.rows| => ExcessOf(f.rows[i][k], f.rows[i][q]))))
  }

  /** Column `k` holds only numbers and missing values, so pandas gives it a numeric dtype. */
  predicate NumericColumn(rows: seq<seq<Cell>>, k: int)
  {
    forall i :: 0 <= i < |rows| ==> Numeric(At(rows[i], k))
  }

  /** `np.isinf(df[numeric_cols]).any(axis=1)` for one row of `rows`. */
  predicate InfiniteRow(rows: seq<seq<Cell>>, row: seq<Cell>)
  {
    exists k :: 0 <= k < |row| && NumericColumn(rows, k) && IsInfCell(row[k])
  }

  function FiniteIn(rows: seq<seq<Cell>>): seq<Cell> -> bool
  {
    (row: seq<Cell>) => !InfiniteRow(rows, row)
  }

  predicate AnyInfinite(rows: seq<seq<Cell>>)
  {
    exists i :: 0 <= i < |rows| && InfiniteRow(rows, rows[i])
  }

  /** Lines 189-194: drop the rows holding an infinite number in a numeric column. */
  function FiniteRows(rows: seq<seq<Cell>>): seq<seq<Cell>>
  {
    if AnyInfinite(rows) then Filter(rows, FiniteIn(rows)) else rows
  }

  /** Lines 182-197: deduplication, removal of infinite rows and the sort by ticker and date. */
  function Cleanup(f: Frame): (r: Result<Frame, MergeError>)
    requires Valid(f)
    ensures r.Err? <==> "Ticker" !in f.columns || "Date" !in f.columns
    ensures r.Ok? ==> Valid(r.value) && r.value.columns == f.columns
  {
    var t := IndexOf(f.columns, "Ticker");
    var d := IndexOf(f.columns, "Date");
    if t < 0 then Err(MissingColumn("Ticker"))
    else if d < 0 then Err(MissingColumn("Date"))
    else
      var key := TickerDateKey(t, d);
      var rows := SortBy(FiniteRows(DropDuplicates(f.rows, key)), key);
      CleanupSubset(f.rows, t, d);
      assert forall i :: 0 <= i < |rows| ==> |rows[i]| == |f.columns| by {
        forall i | 0 <= i < |rows| ensures |rows[i]| == |f.columns| {
          assert rows[i] in rows;
          var j :| 0 <= j < |f.rows| && f.rows[j] == rows[i];
        }
      }
      Ok(Frame(f.columns, rows))
  }

  /** The loading and the four merges of `merge_all_data`, before the excess return and the cleanup. */
  function Assemble(retTable: Option<Frame>, esg: Option<Frame>, rf: Option<Frame>, market: Option<Frame>,
                    company: Option<Frame>, toDate: Cell -> Cell): (r: Result<Frame, MergeError>)
    requires retTable.Some? ==> Valid(retTable.value)
    requires esg.Some? ==> Valid(esg.value)
    requires rf.Some? ==> Valid(rf.value)
    requires market.Some? ==> Valid(market.value)
    requires company.Some? ==> Valid(company.value)
    ensures retTable.None? ==> r == Err(NoReturnsFile)
    ensures retTable.Some? && "Date" in retTable.value.columns && esg.None? ==> r == Err(NoEsgFile)
    ensures r.Ok? ==> Valid(r.value)
  {
    match LoadReturns(retTable, toDate)
    case Err(e) => Err(e)
    case Ok(base) =>
      match JoinEsg(base, esg)
      case Err(e) => Err(e)
      case Ok(m1) =>
        match JoinDaily(m1, rf, "Daily_RF_Rate", Num(0.0), toDate)
        case Err(e) => Err(e)
        case Ok(m2) =>
          match JoinDaily(m2, market, "Market_Return", Null, toDate)
          case Err(e) => Err(e)
          case Ok(m3) =>
            match JoinCompany(m3, company)
            case Err(e) => Err(e)
            case Ok(m4) => Ok(m4)
  }

  /** `merge_all_data`: the assembled table, cleaned up, or the first error. */
  function MergeAll(retTable: Option<Frame>, esg: Option<Frame>, rf: Option<Frame>, market: Option<Frame>,
                    company: Option<Frame>, toDate: Cell -> Cell): (r: Result<Frame, MergeError>)
    requires retTable.Some? ==> Valid(retTable.value)
    requires esg.Some? ==> Valid(esg.value)
    requires rf.Some? ==> Valid(rf.value)
    requires market.Some? ==> Valid(market.value)
    requires company.Some? ==> Valid(company.value)
    ensures retTable.None? ==> r == Err(NoReturnsFile)
    ensures retTable.Some? && "Date" in retTable.value.columns && esg.None? ==> r == Err(NoEsgFile)
    ensures r.Ok? ==> Valid(r.value)
  {
    match Assemble(retTable, esg, rf, market, company, toDate)
    case Err(e) => Err(e)
    case Ok(m4) =>
      match WithExcess(m4)
      case Err(e) => Err(e)
      case Ok(m5) => Cleanup(m5)
  }

  // ---------------------------------------------------------------------------
  // Properties of the steps

  /** The rows of the cleanup are rows of its input that survived the deduplication. */
  lemma CleanupSubset(rows: seq<seq<Cell>>, t: int, d: int)
    ensures var key := TickerDateKey(t, d);
            var dedup := DropDuplicates(rows, key);
            var fin := FiniteRows(dedup);
            forall x :: x in SortBy(fin, key) ==> x in fin && x in dedup && x in rows
  {
    var key := TickerDateKey(t, d);
    var dedup := DropDuplicates(rows, key);
    var fin := FiniteRows(dedup);
    SortByMembers(fin, key);
    if AnyDuplicated(rows, key) {
      KeepFirstProperties(rows, key);
    }
  }

  /** No row of the cleanup holds an infinite number in a numeric column. */
  lemma CleanupFinite(dedup: seq<seq<Cell>>)
    ensures forall x :: x in FiniteRows(dedup) ==> !InfiniteRow(dedup, x)
  {
    if !AnyInfinite(dedup) {
      forall x | x in dedup ensures !InfiniteRow(dedup, x) {
        var i :| 0 <= i < |dedup| && dedup[i] == x;
      }
    }
  }

  /** The first row of every ticker-date pair is kept when it holds no infinite number. */
  lemma CleanupKeeps(rows: seq<seq<Cell>>, t: int, d: int)
    ensures var key := TickerDateKey(t, d);
            var dedup := DropDuplicates(rows, key);
            forall i :: 0 <= i < |rows| && !Duplicated(rows, key, i) && !InfiniteRow(dedup, rows[i]) ==> rows[i] in SortBy(FiniteRows(dedup), key)
  {
    var key := TickerDateKey(t, d);
    var dedup := DropDuplicates(rows, key);
    var fin := FiniteRows(dedup);
    SortByMembers(fin, key);
    forall i | 0 <= i < |rows| && !Duplicated(rows, key, i) && !InfiniteRow(dedup, rows[i]) ensures rows[i] in SortBy(fin, key) {
      if AnyDuplicated(rows, key) {
        KeepFirstKeepsFirsts(rows, key, i);
      }
      assert rows[i] in dedup;
      if AnyInfinite(dedup) {
        assert FiniteIn(dedup)(rows[i]);
      }
    }
  }

  /**
   * The output of the cleanup: no ticker-date pair twice, no row with an
   * infinite number in a numeric column, sorted by ticker then date, every
   * row a row of the input, and every first finite row of a pair kept.
   */
  lemma CleanupProperties(f: Frame)
    requires Valid(f) && Cleanup(f).Ok?
    ensures var t := IndexOf(f.columns, "Ticker");
            var d := IndexOf(f.columns, "Date");
            var key := TickerDateKey(t, d);
            var dedup := DropDuplicates(f.rows, key);
            var out := Cleanup(f).value.rows;
            DistinctKeys(out, key)
            && SortedBy(out, key)
            && (forall x :: x in out ==> x in f.rows && !InfiniteRow(dedup, x))
            && (forall i :: 0 <= i < |f.rows| && !Duplicated(f.rows, key, i) && !InfiniteRow(dedup, f.rows[i]) ==> f.rows[i] in out)
  {
    var t := IndexOf(f.columns, "Ticker");
    var d := IndexOf(f.columns, "Date");
    var key := TickerDateKey(t, d);
    var dedup := DropDuplicates(f.rows, key);
    var fin := FiniteRows(dedup);
    var out := Cleanup(f).value.rows;
    CleanupSubset(f.rows, t, d);
    CleanupFinite(dedup);
    CleanupKeeps(f.rows, t, d);
    if AnyDuplicated(f.rows, key) {
      KeepFirstProperties(f.rows, key);
    } else {
      forall i, j | 0 <= i < j < |f.rows| ensures key(f.rows[i]) != key(f.rows[j]) {
        assert !Duplicated(f.rows, key, j);
      }
    }
    if AnyInfinite(dedup) {
      FilterDistinctKeys(dedup, FiniteIn(dedup), key);
    }
    DistinctKeysPermutation(fin, out, key);
    SortBySorted(fin, key);
  }

  /** Every row of the ESG merge carries a ticker of the returns table that the ESG table has too. */
  lemma EsgTickers(master: Frame, esg: Frame)
    requires Valid(master) && Valid(esg)
    requires JoinEsg(master, Some(esg)).Ok?
    ensures var t := IndexOf(master.columns, "Ticker");
            var e := RenameTicker(esg);
            var k := IndexOf(e.columns, "Ticker");
            var out := JoinEsg(master, Some(esg)).value;
            0 <= t < |master.columns| && 0 <= k < |e.columns|
            && forall i :: 0 <= i < |out.rows| ==>
                 0 <= t < |out.rows[i]| && HasKey(master.rows, ColumnKey(t), out.rows[i][t]) && HasKey(e.rows, ColumnKey(k), out.rows[i][t])
  {
    var t := IndexOf(master.columns, "Ticker");
    var e := RenameTicker(esg);
    var k := IndexOf(e.columns, "Ticker");
    var out := JoinEsg(master, Some(esg)).value;
    forall i | 0 <= i < |out.rows|
      ensures 0 <= t < |out.rows[i]| && HasKey(master.rows, ColumnKey(t), out.rows[i][t]) && HasKey(e.rows, ColumnKey(k), out.rows[i][t])
    {
      var a, b := InnerMergeRow(master, e, "Ticker", i);
      assert out.rows[i][t] == master.rows[a][t];
      assert ColumnKey(t)(master.rows[a]) == out.rows[i][t];
      assert ColumnKey(k)(e.rows[b]) == out.rows[i][t];
    }
  }

  /**
   * The ESG merge keeps every returns row whose ticker the ESG table has, and
   * ends the run with `NoCommonTickers` exactly when it has none of them.
   */
  lemma EsgKeeps(master: Frame, esg: Frame)
    requires Valid(master) && Valid(esg)
    requires Merge(master, RenameTicker(esg), "Ticker", Inner).Ok?
    ensures var t := IndexOf(master.columns, "Ticker");
            var e := RenameTicker(esg);
            var k := IndexOf(e.columns, "Ticker");
            var r := JoinEsg(master, Some(esg));
            (r == Err(NoCommonTickers) <==> forall a :: 0 <= a < |master.rows| ==> !HasKey(e.rows, ColumnKey(k), master.rows[a][t]))
            && (r.Ok? ==> forall a :: 0 <= a < |master.rows| && HasKey(e.rows, ColumnKey(k), master.rows[a][t]) ==>
                            exists i :: 0 <= i < |r.value.rows| && r.value.rows[i][..|master.columns|] == master.rows[a])
  {
    InnerMergeKeeps(master, RenameTicker(esg), "Ticker");
  }

  /**
   * Without the file, the column is the constant `absent` on every row and
   * nothing else changes.
   */
  lemma DailyAbsent(master: Frame, name: string, absent: Cell, toDate: Cell -> Cell)
    requires Valid(master) && name != "Date"
    ensures var out := JoinDaily(master, None, name, absent, toDate).value;
            var v := IndexOf(out.columns, name);
            |out.rows| == |master.rows| && 0 <= v
            && (forall i :: 0 <= i < |out.rows| ==> out.rows[i][v] == absent)
            && (forall i, j :: 0 <= i < |master.rows| && 0 <= j < |master.columns| && master.columns[j] != name ==> out.rows[i][j] == master.rows[i][j])
  {
    var out := JoinDaily(master, None, name, absent, toDate).value;
    assert IndexOf(out.columns, name) >= 0;
  }

  /** Sorting the rows by date moves the cells of a column without adding or losing a present one. */
  lemma SortedColumn(rows: seq<seq<Cell>>, d: int, v: int)
    ensures var col := ColumnCells(rows, v);
            var scol := ColumnCells(SortBy(rows, DateKey(d)), v);
            (forall c :: c in scol ==> c in col) && (AnyPresent(col) ==> AnyPresent(scol))
  {
    var sorted := SortBy(rows, DateKey(d));
    var col := ColumnCells(rows, v);
    var scol := ColumnCells(sorted, v);
    SortByMembers(rows, DateKey(d));
    forall c | c in scol ensures c in col {
      var i :| 0 <= i < |scol| && scol[i] == c;
      assert sorted[i] in rows;
      var j :| 0 <= j < |rows| && rows[j] == sorted[i];
      assert col[j] == c;
    }
    if AnyPresent(col) {
      var j :| 0 <= j < |col| && !col[j].Null?;
      assert rows[j] in multiset(sorted);
      var i :| 0 <= i < |sorted| && sorted[i] == rows[j];
      assert !scol[i].Null?;
    }
  }

  /**
   * The fill by date: every row is kept (sorted by date when a value was
   * missing), no value is missing once one is present, present values are
   * kept, and filled values are values of the column.
   */
  lemma FillByDateProperties(f: Frame, name: string)
    requires Valid(f) && FillByDate(f, name).Ok?
    ensures var v := IndexOf(f.columns, name);
            var col := ColumnCells(f.rows, v);
            var out := FillByDate(f, name).value;
            var filled := ColumnCells(out.rows, v);
            0 <= v < |f.columns|
            && |out.rows| == |f.rows|
            && (AnyPresent(col) ==> forall i :: 0 <= i < |filled| ==> !filled[i].Null?)
            && (forall i :: 0 <= i < |filled| ==> filled[i].Null? || filled[i] in col)
            && (AnyMissing(col) && name != "Date" ==> SortedBy(out.rows, DateKey(IndexOf(f.columns, "Date"))))
  {
    var v := IndexOf(f.columns, name);
    var col := ColumnCells(f.rows, v);
    var out := FillByDate(f, name).value;
    if AnyMissing(col) {
      var d := IndexOf(f.columns, "Date");
      var sorted := SortBy(f.rows, DateKey(d));
      var scol := ColumnCells(sorted, v);
      SortedColumn(f.rows, d, v);
      FillGapsProperties(scol);
      var filled := ColumnCells(out.rows, v);
      assert filled == FillGaps(scol);
      if name != "Date" {
        FillByDateSorted(f, name);
      }
    }
  }

  /** Filling a column other than the date keeps the rows sorted by date. */
  lemma FillByDateSorted(f: Frame, name: string)
    requires Valid(f) && FillByDate(f, name).Ok? && name != "Date"
    requires AnyMissing(ColumnCells(f.rows, IndexOf(f.columns, name)))
    ensures SortedBy(FillByDate(f, name).value.rows, DateKey(IndexOf(f.columns, "Date")))
  {
    var v := IndexOf(f.columns, name);
    var d := IndexOf(f.columns, "Date");
    var sorted := SortBy(f.rows, DateKey(d));
    var out := FillByDate(f, name).value;
    SortBySorted(f.rows, DateKey(d));
    PutColumnKeeps(Frame(f.columns, sorted), name, FillGaps(ColumnCells(sorted, v)), "Date");
    SameKeysSorted(sorted, out.rows, DateKey(d));
  }

  /** In a list of distinct names, the position of a name is where it stands. */
  lemma IndexOfUnique(columns: seq<string>, name: string, k: int)
    requires Distinct(columns) && 0 <= k < |columns| && columns[k] == name
    ensures IndexOf(columns, name) == k
  {
  }

  /** The table has the three columns, and every row's excess return is its return minus its risk-free rate. */
  predicate ExcessConsistent(f: Frame)
  {
    var k := IndexOf(f.columns, "Return");
    var q := IndexOf(f.columns, "Daily_RF_Rate");
    var x := IndexOf(f.columns, "Excess_Return");
    0 <= k && 0 <= q && 0 <= x
    && forall i :: 0 <= i < |f.rows| ==> At(f.rows[i], x) == ExcessOf(At(f.rows[i], k), At(f.rows[i], q))
  }

  /** Adding the excess return makes the table consistent, and keeps every other column. */
  lemma ExcessProperties(f: Frame)
    requires Valid(f) && WithExcess(f).Ok?
    ensures ExcessConsistent(WithExcess(f).value)
    ensures forall c :: c in f.columns ==> c in WithExcess(f).value.columns
  {
    var out := WithExcess(f).value;
    var k := IndexOf(f.columns, "Return");
    var q := IndexOf(f.columns, "Daily_RF_Rate");
    assert out.columns[k] == "Return" && out.columns[q] == "Daily_RF_Rate";
    IndexOfUnique(out.columns, "Return", k);
    IndexOfUnique(out.columns, "Daily_RF_Rate", q);
    forall i | 0 <= i < |out.rows|
      ensures At(out.rows[i], IndexOf(out.columns, "Excess_Return")) == ExcessOf(At(out.rows[i], k), At(out.rows[i], q))
    {
      assert At(out.rows[i], k) == f.rows[i][k] && At(out.rows[i], q) == f.rows[i][q];
    }
  }

  /** A risk-free rate of zero leaves a numeric return unchanged as the excess return. */
  lemma ExcessOfZeroRate(ret: Cell)
    requires Numeric(ret)
    ensures ExcessOf(ret, Num(0.0)) == ret
  {
  }

  /**
   * The saved table: when the merge succeeds, no ticker-date pair repeats,
   * the rows are sorted by ticker then date, and every row's excess return is
   * its return minus its risk-free rate.
   */
  lemma MergeAllProperties(retTable: Option<Frame>, esg: Option<Frame>, rf: Option<Frame>, market: Option<Frame>,
                           company: Option<Frame>, toDate: Cell -> Cell)
    requires retTable.Some? ==> Valid(retTable.value)
    requires esg.Some? ==> Valid(esg.value)
    requires rf.Some? ==> Valid(rf.value)
    requires market.Some? ==> Valid(market.value)
    requires company.Some? ==> Valid(company.value)
    requires MergeAll(retTable, esg, rf, market, company, toDate).Ok?
    ensures var out := MergeAll(retTable, esg, rf, market, company, toDate).value;
            var key := TickerDateKey(IndexOf(out.columns, "Ticker"), IndexOf(out.columns, "Date"));
            DistinctKeys(out.rows, key) && SortedBy(out.rows, key) && ExcessConsistent(out)
  {
    var m4 := Assemble(retTable, esg, rf, market, company, toDate).value;
    var m5 := WithExcess(m4).value;
    CleanupProperties(m5);
    ExcessProperties(m4);
    CleanupKeepsExcess(m5);
  }

  /** The cleanup keeps the columns, so it keeps a consistent excess return. */
  lemma CleanupKeepsExcess(f: Frame)
    requires Valid(f) && Cleanup(f).Ok? && ExcessConsistent(f)
    ensures ExcessConsistent(Cleanup(f).value)
  {
    var out := Cleanup(f).value;
    CleanupSubset(f.rows, IndexOf(f.columns, "Ticker"), IndexOf(f.columns, "Date"));
    forall i | 0 <= i < |out.rows|
      ensures At(out.rows[i], IndexOf(f.columns, "Excess_Return"))
              == ExcessOf(At(out.rows[i], IndexOf(f.columns, "Return")), At(out.rows[i], IndexOf(f.columns, "Daily_RF_Rate")))
    {
      assert out.rows[i] in out.rows;
      var j :| 0 <= j < |f.rows| && f.rows[j] == out.rows[i];
    }
  }

  // ---------------------------------------------------------------------------
  // The step as the source performs it

  /** `merge_all_data`: `master_df` rebuilt step by step, as the source does. */
  method MergeAllData(retTable: Option<Frame>, esg: Option<Frame>, rf: Option<Frame>, market: Option<Frame>,
                      company: Option<Frame>, toDate: Cell -> Cell) returns (r: Result<Frame, MergeError>)
    requires retTable.Some? ==> Valid(retTable.value)
    requires esg.Some? ==> Valid(esg.value)
    requires rf.Some? ==> Valid(rf.value)
    requires market.Some? ==> Valid(market.value)
    requires company.Some? ==> Valid(company.value)
    ensures r == MergeAll(retTable, esg, rf, market, company, toDate)
  {
    var step := LoadReturns(retTable, toDate);
    if step.Err? { return step; }
    var master := step.value;
    step := JoinEsg(master, esg);
    if step.Err? { return step; }
    master := step.value;
    step := JoinDaily(master, rf, "Daily_RF_Rate", Num(0.0), toDate);
    if step.Err? { return step; }
    master := step.value;
    step := JoinDaily(master, market, "Market_Return", Null, toDate);
    if step.Err? { return step; }
    master := step.value;
    step := JoinCompany(master, company);
    if step.Err? { return step; }
    master := step.value;
    assert step == Assemble(retTable, esg, rf, market, company, toDate);
    step := WithExcess(master);
    if step.Err? { return step; }
    master := step.value;
    r := Cleanup(master);
  }
}
