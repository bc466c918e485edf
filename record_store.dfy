/**
 * The keyed row operations behind the save and delete handlers of
 * BugManagerApp: delete by bug_id, edit by bug_id, and append.
 * Edit and delete match rows on the bug_id cell read as text.
 */
module RecordStore {
  import opened Wrappers
  import opened Tables

  /** How many rows carry `key` as their bug_id text. */
  function CountKey(rows: seq<Row>, key: string): nat
  {
    if rows == [] then 0
    else (if KeyText(rows[0]) == key then 1 else 0) + CountKey(rows[1..], key)
  }

  lemma {:induction false} CountKeyAppend(rows: seq<Row>, r: Row, key: string)
    ensures CountKey(rows + [r], key) == CountKey(rows, key) + (if KeyText(r) == key then 1 else 0)
  {
    if rows != [] {
      assert (rows + [r])[1..] == rows[1..] + [r];
      CountKeyAppend(rows[1..], r, key);
    }
  }

  lemma {:induction false} CountKeyZero(rows: seq<Row>, key: string)
    ensures CountKey(rows, key) == 0 <==> forall i :: 0 <= i < |rows| ==> KeyText(rows[i]) != key
  {
    if rows != [] {
      CountKeyZero(rows[1..], key);
      assert forall i :: 1 <= i < |rows| ==> rows[i] == rows[1..][i - 1];
    }
  }

  /** `a` is `b` with some rows left out, the rest in their order. */
  predicate IsSubsequence(a: seq<Row>, b: seq<Row>)
    decreases |b|
  {
    if a == [] then true
    else if b == [] then false
    else if a[0] == b[0] then IsSubsequence(a[1..], b[1..])
    else IsSubsequence(a, b[1..])
  }

  /** The rows whose bug_id text differs from `key`, in their order. */
  function KeepOthers(rows: seq<Row>, key: string): seq<Row>
  {
    if rows == [] then []
    else if KeyText(rows[0]) == key then KeepOthers(rows[1..], key)
    else [rows[0]] + KeepOthers(rows[1..], key)
  }

  /** The kept rows are those of `rows` without the key, in order, as often as they occur. */
  lemma {:induction false} KeepOthersExact(rows: seq<Row>, key: string)
    ensures forall r :: r in KeepOthers(rows, key) ==> KeyText(r) != key
    ensures forall r :: multiset(KeepOthers(rows, key))[r] == if KeyText(r) == key then 0 else multiset(rows)[r]
    ensures IsSubsequence(KeepOthers(rows, key), rows)
  {
    if rows != [] {
      var rest := KeepOthers(rows[1..], key);
      KeepOthersExact(rows[1..], key);
      assert rows == [rows[0]] + rows[1..];
      assert multiset(rows) == multiset{rows[0]} + multiset(rows[1..]);
      if KeyText(rows[0]) != key {
        var out := [rows[0]] + rest;
        assert out[1..] == rest;
        assert multiset(out) == multiset{rows[0]} + multiset(rest);
      }
    }
  }

  lemma {:induction false} KeepOthersNoMatch(rows: seq<Row>, key: string)
    ensures (forall i :: 0 <= i < |rows| ==> KeyText(rows[i]) != key) ==> KeepOthers(rows, key) == rows
  {
    if rows != [] && forall i :: 0 <= i < |rows| ==> KeyText(rows[i]) != key {
      assert forall i :: 1 <= i < |rows| ==> rows[i] == rows[1..][i - 1];
      KeepOthersNoMatch(rows[1..], key);
    }
  }

  /**
   * Delete: keep exactly the rows whose bug_id text differs from `key`.
   * A table without a bug_id column fails (the source's lookup of that column raises).
   */
  function DeleteById(t: Table, key: string): (res: Result<Table, Failure>)
    ensures res.Err? <==> BugId !in t.cols
    ensures res.Err? ==> res.error == KeyColumnMissing
    ensures res.Ok? ==> res.value.cols == t.cols
    ensures res.Ok? ==> forall r :: r in res.value.rows ==> KeyText(r) != key
    ensures res.Ok? ==> forall r :: multiset(res.value.rows)[r] == if KeyText(r) == key then 0 else multiset(t.rows)[r]
    ensures res.Ok? ==> IsSubsequence(res.value.rows, t.rows)
    ensures res.Ok? && (forall i :: 0 <= i < |t.rows| ==> KeyText(t.rows[i]) != key) ==> res.value == t
    ensures res.Ok? && WellFormed(t) ==> WellFormed(res.value)
  {
    if BugId !in t.cols then Err(KeyColumnMissing)
    else
      var kept := KeepOthers(t.rows, key);
      KeepOthersExact(t.rows, key);
      KeepOthersNoMatch(t.rows, key);
      KeepOthersWellFormed(t, key);
      Ok(Table(t.cols, kept))
  }

  lemma KeepOthersWellFormed(t: Table, key: string)
    ensures WellFormed(t) ==> WellFormed(Table(t.cols, KeepOthers(t.rows, key)))
  {
    var kept := KeepOthers(t.rows, key);
    KeepOthersExact(t.rows, key);
    forall i | 0 <= i < |kept| ensures kept[i] in t.rows {
      assert kept[i] in multiset(t.rows);
    }
  }

  /**
   * Edit: every row whose bug_id text equals the submitted bug_id takes the
   * submitted cells; submitted columns the table lacks are added to its header.
   */
  function EditById(t: Table, data: Row, dataCols: seq<string>): (res: Result<Table, Failure>)
    ensures res.Err? <==> BugId !in t.cols
    ensures res.Err? ==> res.error == KeyColumnMissing
    ensures res.Ok? ==> res.value.cols == UnionCols(t.cols, dataCols)
    ensures res.Ok? ==> |res.value.rows| == |t.rows|
    ensures res.Ok? ==> forall i :: 0 <= i < |t.rows| && KeyText(t.rows[i]) != KeyText(data) ==>
      res.value.rows[i] == t.rows[i]
    ensures res.Ok? ==> forall i, c :: 0 <= i < |t.rows| && KeyText(t.rows[i]) == KeyText(data) ==>
      Cell(res.value.rows[i], c) == if c in data then Cell(data, c) else Cell(t.rows[i], c)
    ensures res.Ok? && (forall i :: 0 <= i < |t.rows| ==> KeyText(t.rows[i]) != KeyText(data)) ==>
      res.value.rows == t.rows
    ensures res.Ok? && WellFormed(t) && Distinct(dataCols) && data.Keys <= ColSet(dataCols) ==>
      WellFormed(res.value)
  {
    if BugId !in t.cols then Err(KeyColumnMissing)
    else
      Ok(Table(UnionCols(t.cols, dataCols), EditRows(t.rows, data)))
  }

  /** Every row edited with the same submission. */
  function EditRows(rows: seq<Row>, data: Row): (out: seq<Row>)
    ensures |out| == |rows|
    ensures forall i :: 0 <= i < |rows| ==> out[i] == EditRow(rows[i], data)
  {
    seq(|rows|, i requires 0 <= i < |rows| => EditRow(rows[i], data))
  }

  /** The edit of one row. */
  function EditRow(r: Row, data: Row): Row
  {
    if KeyText(r) == KeyText(data) then r + data else r
  }

  lemma EditRowIdempotent(r: Row, data: Row)
    ensures EditRow(EditRow(r, data), data) == EditRow(r, data)
  {
    if KeyText(r) == KeyText(data) {
      assert KeyText(r + data) == KeyText(data);
      assert (r + data) + data == r + data;
    }
  }

  /** Editing twice with the same submission is the same as editing once. */
  lemma EditIdempotent(t: Table, data: Row, dataCols: seq<string>)
    requires EditById(t, data, dataCols).Ok?
    ensures EditById(EditById(t, data, dataCols).value, data, dataCols) == EditById(t, data, dataCols)
  {
    var once := EditRows(t.rows, data);
    var twice := EditRows(once, data);
    UnionColsIdempotent(t.cols, dataCols);
    forall i | 0 <= i < |t.rows| ensures twice[i] == once[i] {
      EditRowIdempotent(t.rows[i], data);
    }
    assert twice == once;
  }

  /** A new save: the submitted row goes at the end, whatever its bug_id. */
  function AppendRow(t: Table, data: Row, dataCols: seq<string>): (out: Table)
    ensures out.cols == UnionCols(t.cols, dataCols)
    ensures |out.rows| == |t.rows| + 1 && out.rows[..|t.rows|] == t.rows && out.rows[|t.rows|] == data
    ensures WellFormed(t) && Distinct(dataCols) && data.Keys <= ColSet(dataCols) ==> WellFormed(out)
  {
    assert (t.rows + [data])[..|t.rows|] == t.rows;
    Table(UnionCols(t.cols, dataCols), t.rows + [data])
  }

  /**
   * No upsert: appending a row adds one more row with its bug_id, even when
   * rows with that bug_id already exist, and leaves every other bug_id's count alone.
   */
  lemma AppendNoUpsert(t: Table, data: Row, dataCols: seq<string>, key: string)
    ensures CountKey(AppendRow(t, data, dataCols).rows, key) ==
      CountKey(t.rows, key) + (if key == KeyText(data) then 1 else 0)
  {
    CountKeyAppend(t.rows, data, key);
  }
}
