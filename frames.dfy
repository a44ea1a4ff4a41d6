/** The in-memory respondent table both implementations work on: a pandas
    DataFrame read as an ordered column list, the set of columns whose dtype is
    numeric, and one row per respondent mapping column names to cells. */
module Frames {
  import opened Strings
  import opened Seqs

  /** One cell: a number, a string, or a missing value (NaN / None). */
  datatype Cell = Num(n: int) | Str(s: string) | Null

  /** `str(value)` for a present cell. */
  function CellText(c: Cell): string
  {
    match c
    case Num(n) => IntToString(n)
    case Str(s) => s
    case Null => "nan"
  }

  type Row = map<string, Cell>

  datatype Table = Table(columns: seq<string>, numeric: set<string>, rows: seq<Row>)

  /** One column of a table, `frame[name]`: its cells in row order and
      whether its dtype is numeric. */
  datatype Series = Series(cells: seq<Cell>, numeric: bool)

  /** The cell of row `r` in column `c`; a row without the column reads as
      missing. */
  function Get(r: Row, c: string): Cell
  {
    if c in r then r[c] else Null
  }

  function Column(t: Table, c: string): Series
  {
    Series(seq(|t.rows|, i requires 0 <= i < |t.rows| => Get(t.rows[i], c)), c in t.numeric)
  }

  /** Every column name once, every row holding exactly the table's columns,
      and numeric columns holding only numbers and missing values. */
  ghost predicate WellFormed(t: Table)
  {
    && NoDup(t.columns)
    && (forall r :: r in t.rows ==> forall c :: c in r <==> c in t.columns)
    && (forall c :: c in t.numeric ==> c in t.columns)
    && (forall r, c :: r in t.rows && c in t.numeric ==> !Get(r, c).Str?)
  }

  /** Strings as cells, as a list of strings becomes a series. */
  function StrCells(ss: seq<string>): (r: seq<Cell>)
    ensures |r| == |ss|
  {
    seq(|ss|, i requires 0 <= i < |ss| => Str(ss[i]))
  }

  /** `series.dropna()`: the present cells, in order. */
  function NonNull(cells: seq<Cell>): (r: seq<Cell>)
    ensures |r| <= |cells|
    ensures forall c :: c in r <==> c in cells && c != Null
    decreases |cells|
  {
    if |cells| == 0 then []
    else
      var last := cells[|cells| - 1];
      assert forall c :: c in cells <==> c in cells[..|cells| - 1] || c == last;
      NonNull(cells[..|cells| - 1]) + (if last != Null then [last] else [])
  }

  /** Dropping missing values from a column without any leaves it as is. */
  lemma {:induction false} NonNullAllPresent(cells: seq<Cell>)
    requires forall i :: 0 <= i < |cells| ==> cells[i] != Null
    ensures NonNull(cells) == cells
  {
    if |cells| > 0 {
      NonNullAllPresent(cells[..|cells| - 1]);
      assert cells == cells[..|cells| - 1] + [cells[|cells| - 1]];
    }
  }

  /** The present cells of a concatenation are those of its halves. */
  lemma {:induction false} NonNullAppend(a: seq<Cell>, b: seq<Cell>)
    ensures NonNull(a + b) == NonNull(a) + NonNull(b)
    decreases |b|
  {
    if |b| == 0 {
      assert a + b == a;
    } else {
      assert (a + b)[..|a + b| - 1] == a + b[..|b| - 1];
      NonNullAppend(a, b[..|b| - 1]);
    }
  }

  /** `frame[mask]`: the rows whose position is marked, with every column. */
  function SelectRows(t: Table, keep: seq<bool>): (r: Table)
    requires |keep| == |t.rows|
    ensures r.columns == t.columns && r.numeric == t.numeric
    ensures forall row :: row in r.rows ==> row in t.rows
  {
    var rows := Select(t.rows, keep);
    assert forall row :: row in rows ==> row in t.rows by {
      forall row | row in rows
        ensures row in t.rows
      {
        SelectMembership(t.rows, keep, row);
      }
    }
    Table(t.columns, t.numeric, rows)
  }

  /** A selection of a well-formed table is well-formed. */
  lemma SelectRowsWellFormed(t: Table, keep: seq<bool>)
    requires |keep| == |t.rows| && WellFormed(t)
    ensures WellFormed(SelectRows(t, keep))
  {
  }

  // ---------------------------------------------------------------------
  // pd.concat(frames, ignore_index=True, sort=False)

  /** `acc` followed by the names of `cs` it does not hold yet, in order. */
  function AppendNew(acc: seq<string>, cs: seq<string>): (r: seq<string>)
    ensures |acc| <= |r| && r[..|acc|] == acc
    ensures forall c :: c in r <==> c in acc || c in cs
    ensures NoDup(acc) ==> NoDup(r)
    decreases |cs|
  {
    if |cs| == 0 then acc
    else
      var next := if cs[0] in acc then acc else acc + [cs[0]];
      var r := AppendNew(next, cs[1..]);
      assert r[..|acc|] == r[..|next|][..|acc|];
      assert forall c :: c in cs <==> c == cs[0] || c in cs[1..];
      r
  }

  /** The union of the parts' columns in first-seen order. */
  function UnionColumns(parts: seq<Table>): (r: seq<string>)
    ensures NoDup(r)
    ensures forall c :: c in r <==> exists k :: 0 <= k < |parts| && c in parts[k].columns
    decreases |parts|
  {
    if |parts| == 0 then []
    else
      var init := parts[..|parts| - 1];
      var r := AppendNew(UnionColumns(init), parts[|parts| - 1].columns);
      assert forall k :: 0 <= k < |init| ==> init[k] == parts[k];
      r
  }

  /** A row widened to `cols`: cells it lacks become missing. */
  function Fill(r: Row, cols: seq<string>): Row
  {
    map c | c in cols :: Get(r, c)
  }

  /** The number of rows of all parts together. */
  function TotalRows(parts: seq<Table>): nat
    decreases |parts|
  {
    if |parts| == 0 then 0 else TotalRows(parts[..|parts| - 1]) + |parts[|parts| - 1].rows|
  }

  function ConcatRows(parts: seq<Table>, cols: seq<string>): (r: seq<Row>)
    ensures |r| == TotalRows(parts)
    decreases |parts|
  {
    if |parts| == 0 then []
    else
      var p := parts[|parts| - 1];
      ConcatRows(parts[..|parts| - 1], cols)
        + seq(|p.rows|, i requires 0 <= i < |p.rows| => Fill(p.rows[i], cols))
  }

  /** A column stays numeric when every part that has it holds it as
      numeric; parts lacking it contribute only missing values. */
  function ConcatNumeric(parts: seq<Table>, cols: seq<string>): set<string>
  {
    set c | c in cols && forall k :: 0 <= k < |parts| && c in parts[k].columns ==> c in parts[k].numeric
  }

  /** The parts stacked one under another: columns in first-seen order, rows
      in part order, each part's own order kept. */
  function Concat(parts: seq<Table>): Table
  {
    var cols := UnionColumns(parts);
    Table(cols, ConcatNumeric(parts, cols), ConcatRows(parts, cols))
  }

  /** Row counts add up. */
  lemma ConcatRowCount(parts: seq<Table>)
    ensures |Concat(parts).rows| == TotalRows(parts)
  {
  }

  /** Row `i` of part `k` lands at position `TotalRows(parts[..k]) + i` of the
      merged rows, with every cell it had and a missing value in every column
      it lacked. */
  lemma {:induction false} ConcatCell(parts: seq<Table>, cols: seq<string>, k: int, i: int, c: string)
    requires 0 <= k < |parts| && 0 <= i < |parts[k].rows| && c in cols
    ensures TotalRows(parts[..k]) + i < |ConcatRows(parts, cols)|
    ensures ConcatRows(parts, cols)[TotalRows(parts[..k]) + i] == Fill(parts[k].rows[i], cols)
    decreases |parts|
  {
    var n := |parts|;
    var init := parts[..n - 1];
    var front := ConcatRows(init, cols);
    var p := parts[n - 1];
    var back := seq(|p.rows|, j requires 0 <= j < |p.rows| => Fill(p.rows[j], cols));
    assert ConcatRows(parts, cols) == front + back;
    if k < n - 1 {
      assert init[..k] == parts[..k];
      assert init[k] == parts[k];
      ConcatCell(init, cols, k, i, c);
    } else {
      assert init == parts[..k];
      assert back[i] == Fill(parts[k].rows[i], cols);
    }
  }

  /** Each cell of a part survives the merge unchanged, and a row of a
      well-formed part reads as missing in every column its part lacks. */
  lemma ConcatCellValue(parts: seq<Table>, k: int, i: int, c: string)
    requires 0 <= k < |parts| && 0 <= i < |parts[k].rows| && c in Concat(parts).columns
    ensures TotalRows(parts[..k]) + i < |Concat(parts).rows|
    ensures Get(Concat(parts).rows[TotalRows(parts[..k]) + i], c) == Get(parts[k].rows[i], c)
    ensures WellFormed(parts[k]) && c !in parts[k].columns ==>
      Get(Concat(parts).rows[TotalRows(parts[..k]) + i], c) == Null
  {
    assert parts[k].rows[i] in parts[k].rows;
    var cols := UnionColumns(parts);
    ConcatCell(parts, cols, k, i, c);
  }

  lemma {:induction false} TotalRowsPrefix(parts: seq<Table>, k: int)
    requires 0 <= k < |parts|
    ensures TotalRows(parts[..k]) + |parts[k].rows| <= TotalRows(parts)
    decreases |parts|
  {
    var n := |parts|;
    if k < n - 1 {
      assert parts[..n - 1][..k] == parts[..k];
      TotalRowsPrefix(parts[..n - 1], k);
    } else {
      assert parts[..n - 1] == parts[..k];
    }
  }

  /** Every merged row comes from some part's row. */
  lemma {:induction false} ConcatRowsOrigin(parts: seq<Table>, cols: seq<string>, j: int)
    requires 0 <= j < |ConcatRows(parts, cols)|
    ensures exists k, i :: (0 <= k < |parts| && 0 <= i < |parts[k].rows|
      && ConcatRows(parts, cols)[j] == Fill(parts[k].rows[i], cols))
    decreases |parts|
  {
    var n := |parts|;
    var init := parts[..n - 1];
    var front := ConcatRows(init, cols);
    if j < |front| {
      ConcatRowsOrigin(init, cols, j);
      var k, i :| 0 <= k < |init| && 0 <= i < |init[k].rows| && front[j] == Fill(init[k].rows[i], cols);
      assert init[k] == parts[k];
    } else {
      var i := j - |front|;
      assert ConcatRows(parts, cols)[j] == Fill(parts[n - 1].rows[i], cols);
    }
  }

  /** Merging well-formed parts gives a well-formed table. */
  lemma ConcatWellFormed(parts: seq<Table>)
    requires forall k :: 0 <= k < |parts| ==> WellFormed(parts[k])
    ensures WellFormed(Concat(parts))
  {
    var t := Concat(parts);
    var cols := t.columns;
    forall r | r in t.rows
      ensures forall c :: c in r <==> c in cols
    {
      var j :| 0 <= j < |t.rows| && t.rows[j] == r;
      ConcatRowsOrigin(parts, cols, j);
    }
    forall r, c | r in t.rows && c in t.numeric
      ensures !Get(r, c).Str?
    {
      var j :| 0 <= j < |t.rows| && t.rows[j] == r;
      ConcatRowsOrigin(parts, cols, j);
      var k, i :| 0 <= k < |parts| && 0 <= i < |parts[k].rows| && r == Fill(parts[k].rows[i], cols);
      assert parts[k].rows[i] in parts[k].rows;
    }
  }
}
