/**
 * The in-memory shape of the bug-report workbook: a header (column names in
 * order) and rows in file order. A row maps column names to cell text; a
 * column of the header that a row does not map is an empty cell.
 */
module Tables {
  import opened Wrappers

  type Row = map<string, string>

  datatype Table = Table(cols: seq<string>, rows: seq<Row>)

  /** Why a handler stops without writing the workbook. */
  datatype Failure =
    | DataFileMissing   // the workbook is read but does not exist
    | KeyColumnMissing  // the table has no bug_id column to match or de-duplicate on
    | DuplicateColumn   // renaming the imported header produced a name twice

  // Column names used by the application (note the capitals of the last three).
  const IssueType := "issue_type"
  const BugId := "bug_id"
  const Title := "title"
  const Steps := "steps"
  const Expected := "expected"
  const Actual := "actual"
  const Severity := "Severity"
  const ImagePath := "Image_Path"
  const Timestamp := "Timestamp"

  /** The cell value that stands for "no attachment". */
  const NoImage := "No Image"

  /** An empty cell read as text: pandas turns NaN into "nan". */
  const MissingCellText := "nan"

  /** The table a handler starts from when the workbook does not exist. */
  const EmptyTable := Table([], [])

  function ColSet(cols: seq<string>): set<string>
  {
    set c | c in cols
  }

  predicate Distinct(s: seq<string>)
  {
    forall i, j :: 0 <= i < j < |s| ==> s[i] != s[j]
  }

  /** A header without repeats, and no row holding a column outside it. */
  predicate WellFormed(t: Table)
  {
    Distinct(t.cols) && forall i :: 0 <= i < |t.rows| ==> t.rows[i].Keys <= ColSet(t.cols)
  }

  function Cell(r: Row, c: string): Option<string>
  {
    if c in r then Some(r[c]) else None
  }

  lemma RowsEqualByCells(r1: Row, r2: Row)
    requires forall c :: Cell(r1, c) == Cell(r2, c)
    ensures r1 == r2
  {
    assert forall c :: c in r1 <==> c in r2 by {
      forall c ensures c in r1 <==> c in r2 {
        assert Cell(r1, c) == Cell(r2, c);
      }
    }
    forall c | c in r1 ensures r1[c] == r2[c] {
      assert Cell(r1, c) == Cell(r2, c);
    }
  }

  /** The bug_id of a row as de-duplication compares it: an empty cell is None. */
  function Key(r: Row): Option<string>
  {
    Cell(r, BugId)
  }

  /** The bug_id of a row as text, as edit and delete compare it. */
  function KeyText(r: Row): string
  {
    if BugId in r then r[BugId] else MissingCellText
  }

  /** The columns of `cols` that are in `keep`, in their order in `cols`. */
  function Select(cols: seq<string>, keep: set<string>): (out: seq<string>)
    ensures forall c :: c in out <==> c in cols && c in keep
    ensures |out| <= |cols|
    ensures Distinct(cols) ==> Distinct(out)
    ensures (forall c :: c in cols ==> c in keep) ==> out == cols
    ensures (forall c :: c in cols ==> c !in keep) ==> out == []
  {
    if cols == [] then []
    else if cols[0] in keep then [cols[0]] + Select(cols[1..], keep)
    else Select(cols[1..], keep)
  }

  lemma {:induction false} SelectAgrees(cols: seq<string>, k1: set<string>, k2: set<string>)
    requires forall c :: c in cols ==> (c in k1 <==> c in k2)
    ensures Select(cols, k1) == Select(cols, k2)
  {
    if cols != [] {
      SelectAgrees(cols[1..], k1, k2);
    }
  }

  /** The header of two tables stacked one on the other: the first header, then the second's new names. */
  function UnionCols(a: seq<string>, b: seq<string>): (out: seq<string>)
    ensures ColSet(out) == ColSet(a) + ColSet(b)
    ensures |out| >= |a| && out[..|a|] == a
    ensures Distinct(a) && Distinct(b) ==> Distinct(out)
  {
    var extra := Select(b, ColSet(b) - ColSet(a));
    assert (a + extra)[..|a|] == a;
    assert Distinct(a) && Distinct(extra) ==> Distinct(a + extra) by {
      if Distinct(a) && Distinct(extra) {
        forall i, j | 0 <= i < j < |a + extra| ensures (a + extra)[i] != (a + extra)[j] {
          if j >= |a| && i < |a| {
            assert (a + extra)[j] in extra;
            assert (a + extra)[i] in a;
          }
        }
      }
    }
    a + extra
  }

  lemma UnionColsIdempotent(a: seq<string>, b: seq<string>)
    ensures UnionCols(UnionCols(a, b), b) == UnionCols(a, b)
  {
    var u := UnionCols(a, b);
    assert Select(b, ColSet(b) - ColSet(u)) == [];
  }

  function Restrict(r: Row, keys: set<string>): (out: Row)
    ensures forall c :: Cell(out, c) == if c in keys then Cell(r, c) else None
  {
    map k | k in r && k in keys :: r[k]
  }
}
