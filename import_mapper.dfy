/**
 * The mapping half of the import handler: rename the foreign header through
 * a fixed table, add the default columns the batch lacks, and keep only the
 * application's columns in the application's order.
 */
module ImportMapper {
  import opened Wrappers
  import opened Tables

  /** Foreign column names and the internal names they are renamed to. */
  const ColumnMapping: map<string, string> := map[
    "ID" := BugId,
    "Test Case" := Title,
    "Steps" := Steps,
    "Expected Result" := Expected,
    "Actual Result" := Actual,
    "Status" := Severity
  ]

  /** The columns an imported batch is cut down to, in this order. */
  const ValidCols: seq<string> := [IssueType, BugId, Title, Steps, Expected, Actual, Severity, ImagePath, Timestamp]

  /** The issue type given to imported rows that have none. */
  const Imported := "Imported"

  function RenameColumn(c: string): string
  {
    if c in ColumnMapping then ColumnMapping[c] else c
  }

  function RenameCols(cols: seq<string>): (out: seq<string>)
    ensures |out| == |cols| && forall i :: 0 <= i < |cols| ==> out[i] == RenameColumn(cols[i])
  {
    seq(|cols|, i requires 0 <= i < |cols| => RenameColumn(cols[i]))
  }

  /** A foreign row under the renamed header (`cols` is the foreign header). */
  function RenameRow(r: Row, cols: seq<string>): Row
  {
    if cols == [] then map[]
    else
      var rest := RenameRow(r, cols[1..]);
      if cols[0] in r then rest[RenameColumn(cols[0]) := r[cols[0]]] else rest
  }

  /** The rename step; a header that would name a column twice is refused. */
  function Rename(t: Table): Result<Table, Failure>
  {
    var cs := RenameCols(t.cols);
    if !Distinct(cs) then Err(DuplicateColumn)
    else Ok(Table(cs, seq(|t.rows|, i requires 0 <= i < |t.rows| => RenameRow(t.rows[i], t.cols))))
  }

  /** Add a column holding `v` in every row, at the end of the header. */
  function AddColumn(t: Table, c: string, v: string): (out: Table)
    ensures out.cols == t.cols + [c] && |out.rows| == |t.rows|
    ensures forall i, x :: 0 <= i < |t.rows| ==> Cell(out.rows[i], x) == if x == c then Some(v) else Cell(t.rows[i], x)
  {
    Table(t.cols + [c], seq(|t.rows|, i requires 0 <= i < |t.rows| => t.rows[i][c := v]))
  }

  /** Keep the columns of `wanted` the table has, in `wanted` order. */
  function Project(t: Table, wanted: seq<string>): (out: Table)
    ensures out.cols == Select(wanted, ColSet(t.cols)) && |out.rows| == |t.rows|
    ensures forall i, x :: 0 <= i < |t.rows| ==>
      Cell(out.rows[i], x) == if x in wanted && x in t.cols then Cell(t.rows[i], x) else None
  {
    var keep := ColSet(Select(wanted, ColSet(t.cols)));
    Table(Select(wanted, ColSet(t.cols)), seq(|t.rows|, i requires 0 <= i < |t.rows| => Restrict(t.rows[i], keep)))
  }

  // ---- Reference definition of the mapped batch, column by column ----

  /** The foreign column that arrives under internal name `v`, if any. */
  function Origin(fcols: seq<string>, v: string): (o: Option<string>)
    ensures o.Some? ==> o.value in fcols && RenameColumn(o.value) == v
    ensures o.None? ==> forall c :: c in fcols ==> RenameColumn(c) != v
  {
    if fcols == [] then None
    else if RenameColumn(fcols[0]) == v then Some(fcols[0])
    else Origin(fcols[1..], v)
  }

  /** The value a default column takes when the batch lacks it. */
  function DefaultFor(v: string, now: string): Option<string>
  {
    if v == IssueType then Some(Imported)
    else if v == ImagePath then Some(NoImage)
    else if v == Timestamp then Some(now)
    else None
  }

  /** Whether internal column `v` is in the mapped batch. */
  predicate Present(fcols: seq<string>, v: string)
  {
    v in ValidCols && (Origin(fcols, v).Some? || DefaultFor(v, "").Some?)
  }

  function PresentCols(fcols: seq<string>): (s: set<string>)
    ensures forall v :: v in s <==> Present(fcols, v)
  {
    set v | v in ValidCols && Present(fcols, v)
  }

  /** What an imported row holds in internal column `v`. */
  function MappedCell(r: Row, fcols: seq<string>, v: string, now: string): Option<string>
  {
    if v !in ValidCols then None
    else match Origin(fcols, v)
      case Some(c) => Cell(r, c)
      case None => DefaultFor(v, now)
  }

  function MappedRow(r: Row, fcols: seq<string>, now: string): (out: Row)
    ensures forall v :: Cell(out, v) == MappedCell(r, fcols, v, now)
  {
    map v | v in ValidCols && MappedCell(r, fcols, v, now).Some? :: MappedCell(r, fcols, v, now).value
  }

  /** The batch the import handler goes on to merge, defined cell by cell. */
  function MappedBatch(foreign: Table, now: string): Result<Table, Failure>
  {
    if !Distinct(RenameCols(foreign.cols)) then Err(DuplicateColumn)
    else
      Ok(Table(Select(ValidCols, PresentCols(foreign.cols)), MappedRows(foreign, now)))
  }

  /** Every foreign row, mapped. */
  function MappedRows(foreign: Table, now: string): (out: seq<Row>)
    ensures |out| == |foreign.rows|
    ensures forall i :: 0 <= i < |foreign.rows| ==> out[i] == MappedRow(foreign.rows[i], foreign.cols, now)
  {
    seq(|foreign.rows|, i requires 0 <= i < |foreign.rows| => MappedRow(foreign.rows[i], foreign.cols, now))
  }

  // ---- What the reference batch is ----

  lemma OriginIffRenamed(fcols: seq<string>, v: string)
    ensures Origin(fcols, v).Some? <==> v in RenameCols(fcols)
  {
    if v in RenameCols(fcols) {
      var j :| 0 <= j < |fcols| && RenameCols(fcols)[j] == v;
      assert fcols[j] in fcols;
    }
    if Origin(fcols, v).Some? {
      var j :| 0 <= j < |fcols| && fcols[j] == Origin(fcols, v).value;
      assert RenameCols(fcols)[j] == v;
    }
  }

  lemma ValidColsDistinct()
    ensures Distinct(ValidCols)
  {
  }

  /**
   * Shape of the mapped batch: the header is exactly the application columns
   * that some foreign column is renamed to, plus the three defaults, in the
   * application's order; the batch has one row per foreign row.
   */
  lemma MappedBatchShape(foreign: Table, now: string)
    ensures MappedBatch(foreign, now).Err? <==> !Distinct(RenameCols(foreign.cols))
    ensures MappedBatch(foreign, now).Ok? ==>
      var b := MappedBatch(foreign, now).value;
      && |b.rows| == |foreign.rows|
      && b.cols == Select(ValidCols, PresentCols(foreign.cols))
      && forall v :: v in b.cols <==>
           v in ValidCols && (v in RenameCols(foreign.cols) || v == IssueType || v == ImagePath || v == Timestamp)
  {
    if Distinct(RenameCols(foreign.cols)) {
      var b := MappedBatch(foreign, now).value;
      forall v ensures v in b.cols <==>
        v in ValidCols && (v in RenameCols(foreign.cols) || v == IssueType || v == ImagePath || v == Timestamp)
      {
        OriginIffRenamed(foreign.cols, v);
      }
    }
  }

  /** The mapped batch is a well-formed table. */
  lemma MappedBatchWellFormed(foreign: Table, now: string)
    requires Distinct(RenameCols(foreign.cols))
    ensures WellFormed(MappedBatch(foreign, now).value)
  {
    var b := MappedBatch(foreign, now).value;
    ValidColsDistinct();
    forall i | 0 <= i < |b.rows| ensures b.rows[i].Keys <= ColSet(b.cols) {
      var r := MappedRow(foreign.rows[i], foreign.cols, now);
      assert b.rows[i] == r;
      forall v | v in r ensures v in b.cols {
        assert MappedCell(foreign.rows[i], foreign.cols, v, now).Some?;
        assert Present(foreign.cols, v);
      }
    }
  }

  /**
   * A foreign cell reaches the batch under its renamed column, unchanged, when
   * that column is one the application keeps.
   */
  lemma MappedBatchCell(foreign: Table, now: string, i: int, c: string)
    requires Distinct(RenameCols(foreign.cols))
    requires 0 <= i < |foreign.rows| && c in foreign.cols && RenameColumn(c) in ValidCols
    ensures Cell(MappedBatch(foreign, now).value.rows[i], RenameColumn(c)) == Cell(foreign.rows[i], c)
  {
    assert MappedBatch(foreign, now).value.rows[i] == MappedRow(foreign.rows[i], foreign.cols, now);
    var v := RenameColumn(c);
    var o := Origin(foreign.cols, v);
    var cs := RenameCols(foreign.cols);
    var j :| 0 <= j < |foreign.cols| && foreign.cols[j] == c;
    var k :| 0 <= k < |foreign.cols| && foreign.cols[k] == o.value;
    assert Distinct(cs) && cs[j] == cs[k];
    assert o.value == c;
    assert MappedCell(foreign.rows[i], foreign.cols, v, now) == Cell(foreign.rows[i], c);
  }

  /**
   * A default column the foreign header does not supply holds its default in
   * every row; for the timestamp that is the one value passed for the batch.
   */
  lemma MappedBatchDefaults(foreign: Table, now: string)
    requires Distinct(RenameCols(foreign.cols))
    ensures var b := MappedBatch(foreign, now).value;
      forall i :: 0 <= i < |b.rows| ==>
        && (IssueType !in RenameCols(foreign.cols) ==> Cell(b.rows[i], IssueType) == Some(Imported))
        && (ImagePath !in RenameCols(foreign.cols) ==> Cell(b.rows[i], ImagePath) == Some(NoImage))
        && (Timestamp !in RenameCols(foreign.cols) ==> Cell(b.rows[i], Timestamp) == Some(now))
  {
    OriginIffRenamed(foreign.cols, IssueType);
    OriginIffRenamed(foreign.cols, ImagePath);
    OriginIffRenamed(foreign.cols, Timestamp);
  }

  // ---- The handler's own pipeline, proved equal to the reference ----

  lemma {:induction false} RenameRowCell(r: Row, cols: seq<string>, v: string)
    requires Distinct(RenameCols(cols))
    ensures Cell(RenameRow(r, cols), v) == match Origin(cols, v) case Some(c) => Cell(r, c) case None => None
  {
    if cols != [] {
      assert RenameCols(cols[1..]) == RenameCols(cols)[1..];
      RenameRowCell(r, cols[1..], v);
    }
  }

  lemma RenameCells(foreign: Table)
    requires Rename(foreign).Ok?
    ensures var t := Rename(foreign).value;
      |t.rows| == |foreign.rows| &&
      (forall v :: v in t.cols <==> Origin(foreign.cols, v).Some?) &&
      forall i, v :: 0 <= i < |t.rows| ==>
        Cell(t.rows[i], v) == match Origin(foreign.cols, v) case Some(c) => Cell(foreign.rows[i], c) case None => None
  {
    var t := Rename(foreign).value;
    forall v ensures v in t.cols <==> Origin(foreign.cols, v).Some? {
      if v in t.cols {
        var j :| 0 <= j < |t.cols| && t.cols[j] == v;
        assert foreign.cols[j] in foreign.cols;
      }
      if Origin(foreign.cols, v).Some? {
        var c := Origin(foreign.cols, v).value;
        var j :| 0 <= j < |foreign.cols| && foreign.cols[j] == c;
        assert t.cols[j] == v;
      }
    }
    forall i, v | 0 <= i < |t.rows|
      ensures Cell(t.rows[i], v) == match Origin(foreign.cols, v) case Some(c) => Cell(foreign.rows[i], c) case None => None
    {
      RenameRowCell(foreign.rows[i], foreign.cols, v);
    }
  }

  /**
   * Part way through adding defaults: the application columns the table has
   * are the renamed ones and the defaults `added` so far, each holding its
   * reference value.
   */
  ghost predicate Stage(t: Table, foreign: Table, now: string, added: set<string>)
  {
    && |t.rows| == |foreign.rows|
    && (forall v :: v in ValidCols ==> (v in t.cols <==> Origin(foreign.cols, v).Some? || v in added))
    && (forall v :: v in added ==> v in ValidCols && Origin(foreign.cols, v).None? && DefaultFor(v, now).Some?)
    && forall i, v :: 0 <= i < |t.rows| && v in ValidCols && v in t.cols ==>
         Cell(t.rows[i], v) == MappedCell(foreign.rows[i], foreign.cols, v, now)
  }

  lemma AddDefaultStep(t: Table, foreign: Table, now: string, added: set<string>, c: string)
    requires Stage(t, foreign, now, added)
    requires c in ValidCols && c !in t.cols && DefaultFor(c, now).Some?
    ensures Stage(AddColumn(t, c, DefaultFor(c, now).value), foreign, now, added + {c})
  {
  }

  lemma StageStart(foreign: Table, now: string)
    requires Rename(foreign).Ok?
    ensures Stage(Rename(foreign).value, foreign, now, {})
  {
    RenameCells(foreign);
    var t := Rename(foreign).value;
    forall i, v | 0 <= i < |t.rows| && v in ValidCols && v in t.cols
      ensures Cell(t.rows[i], v) == MappedCell(foreign.rows[i], foreign.cols, v, now)
    {
      assert Origin(foreign.cols, v).Some?;
    }
  }

  lemma StageCols(t: Table, foreign: Table, now: string, added: set<string>)
    requires Stage(t, foreign, now, added)
    requires IssueType in t.cols && ImagePath in t.cols && Timestamp in t.cols
    ensures Select(ValidCols, ColSet(t.cols)) == Select(ValidCols, PresentCols(foreign.cols))
    ensures forall v :: v in ValidCols ==> (v in t.cols <==> Present(foreign.cols, v))
  {
    forall v | v in ValidCols ensures v in t.cols <==> Present(foreign.cols, v) {
      assert DefaultFor(v, now).Some? <==> DefaultFor(v, "").Some?;
    }
    SelectAgrees(ValidCols, ColSet(t.cols), PresentCols(foreign.cols));
  }

  lemma StageRow(t: Table, foreign: Table, now: string, i: int)
    requires 0 <= i < |t.rows| && i < |foreign.rows|
    requires forall v :: v in ValidCols ==> (v in t.cols <==> Present(foreign.cols, v))
    requires forall v :: v in ValidCols && v in t.cols ==>
      Cell(t.rows[i], v) == MappedCell(foreign.rows[i], foreign.cols, v, now)
    ensures Project(t, ValidCols).rows[i] == MappedRow(foreign.rows[i], foreign.cols, now)
  {
    var p := Project(t, ValidCols).rows[i];
    var e := MappedRow(foreign.rows[i], foreign.cols, now);
    forall v ensures Cell(p, v) == Cell(e, v) {
      StageCell(t, foreign, now, i, v);
    }
    RowsEqualByCells(p, e);
  }

  lemma StageCell(t: Table, foreign: Table, now: string, i: int, v: string)
    requires 0 <= i < |t.rows| && i < |foreign.rows|
    requires v in ValidCols ==> (v in t.cols <==> Present(foreign.cols, v))
    requires v in ValidCols && v in t.cols ==> Cell(t.rows[i], v) == MappedCell(foreign.rows[i], foreign.cols, v, now)
    ensures Cell(Project(t, ValidCols).rows[i], v) == MappedCell(foreign.rows[i], foreign.cols, v, now)
  {
    if v in ValidCols && v !in t.cols {
      assert Origin(foreign.cols, v).None? && DefaultFor(v, "").None?;
    }
  }

  lemma StageComplete(t: Table, foreign: Table, now: string, added: set<string>)
    requires Distinct(RenameCols(foreign.cols))
    requires Stage(t, foreign, now, added)
    requires IssueType in t.cols && ImagePath in t.cols && Timestamp in t.cols
    ensures Ok(Project(t, ValidCols)) == MappedBatch(foreign, now)
  {
    StageCols(t, foreign, now, added);
    var projected := Project(t, ValidCols);
    var expected := MappedRows(foreign, now);
    forall i | 0 <= i < |projected.rows| ensures projected.rows[i] == expected[i] {
      StageRow(t, foreign, now, i);
    }
    assert projected.rows == expected;
  }

  /**
   * The import handler's mapping, step by step: rename, add each default
   * column the batch lacks (the timestamp is one value for the whole batch),
   * then keep the application's columns. It computes the reference batch.
   */
  method MapImport(foreign: Table, now: string) returns (res: Result<Table, Failure>)
    ensures res == MappedBatch(foreign, now)
  {
    var renamed := Rename(foreign);
    if renamed.Err? {
      return Err(renamed.error);
    }
    StageStart(foreign, now);
    var t := renamed.value;
    ghost var added: set<string> := {};
    if IssueType !in t.cols {
      AddDefaultStep(t, foreign, now, added, IssueType);
      t, added := AddColumn(t, IssueType, Imported), added + {IssueType};
    }
    assert Stage(t, foreign, now, added) && IssueType in t.cols;
    if ImagePath !in t.cols {
      AddDefaultStep(t, foreign, now, added, ImagePath);
      t, added := AddColumn(t, ImagePath, NoImage), added + {ImagePath};
    }
    assert Stage(t, foreign, now, added) && IssueType in t.cols && ImagePath in t.cols;
    if Timestamp !in t.cols {
      AddDefaultStep(t, foreign, now, added, Timestamp);
      t, added := AddColumn(t, Timestamp, now), added + {Timestamp};
    }
    StageComplete(t, foreign, now, added);
    res := Ok(Project(t, ValidCols));
  }
}
