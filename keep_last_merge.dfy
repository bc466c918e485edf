/**
 * The merge step of the import handler: stack the existing rows on the
 * imported ones and drop rows with a repeated bug_id, keeping the last
 * occurrence of each.
 */
module KeepLastMerge {
  import opened Wrappers
  import opened Tables

  /** The bug_ids (empty cells included, as None) that occur in `rows`. */
  function KeysOf(rows: seq<Row>): (ks: set<Option<string>>)
    ensures forall i :: 0 <= i < |rows| ==> Key(rows[i]) in ks
    ensures forall k :: k in ks ==> exists i :: 0 <= i < |rows| && Key(rows[i]) == k
  {
    if rows == [] then {}
    else
      var rest := KeysOf(rows[1..]);
      assert forall i :: 1 <= i < |rows| ==> rows[i] == rows[1..][i - 1];
      assert forall k :: k in rest ==> exists i :: 0 <= i < |rows| && Key(rows[i]) == k by {
        forall k | k in rest ensures exists i :: 0 <= i < |rows| && Key(rows[i]) == k {
          var j :| 0 <= j < |rows[1..]| && Key(rows[1..][j]) == k;
          assert Key(rows[j + 1]) == k;
        }
      }
      {Key(rows[0])} + rest
  }

  lemma {:induction false} KeysOfConcat(a: seq<Row>, b: seq<Row>)
    ensures KeysOf(a + b) == KeysOf(a) + KeysOf(b)
  {
    if a != [] {
      assert (a + b)[1..] == a[1..] + b;
      KeysOfConcat(a[1..], b);
    } else {
      assert a + b == b;
    }
  }

  /** The position of the last row whose bug_id is `k`. */
  function LastIndex(rows: seq<Row>, k: Option<string>): (i: nat)
    requires k in KeysOf(rows)
    ensures i < |rows| && Key(rows[i]) == k
    ensures forall j :: i < j < |rows| ==> Key(rows[j]) != k
  {
    assert rows != [];
    if k in KeysOf(rows[1..]) then
      var i := 1 + LastIndex(rows[1..], k);
      assert rows[i] == rows[1..][i - 1];
      assert forall j :: i < j < |rows| ==> rows[j] == rows[1..][j - 1];
      i
    else
      assert KeysOf(rows) == {Key(rows[0])} + KeysOf(rows[1..]);
      assert forall j :: 0 < j < |rows| ==> rows[j] == rows[1..][j - 1];
      0
  }

  /** Keep row i exactly when no later row has the same bug_id. */
  function KeepLast(rows: seq<Row>): (out: seq<Row>)
  {
    if rows == [] then []
    else if Key(rows[0]) in KeysOf(rows[1..]) then KeepLast(rows[1..])
    else [rows[0]] + KeepLast(rows[1..])
  }

  /** Every bug_id of the input survives de-duplication. */
  lemma {:induction false} KeepLastKeySet(rows: seq<Row>)
    ensures KeysOf(KeepLast(rows)) == KeysOf(rows)
  {
    if rows != [] {
      KeepLastKeySet(rows[1..]);
      assert rows == [rows[0]] + rows[1..];
      KeysOfConcat([rows[0]], rows[1..]);
      if Key(rows[0]) !in KeysOf(rows[1..]) {
        KeysOfConcat([rows[0]], KeepLast(rows[1..]));
      }
    }
  }

  lemma LastIndexTail(rows: seq<Row>, k: Option<string>)
    requires rows != [] && k in KeysOf(rows[1..])
    ensures k in KeysOf(rows) && LastIndex(rows, k) == 1 + LastIndex(rows[1..], k)
  {
    assert Key(rows[1..][LastIndex(rows[1..], k)]) == k;
  }

  /** Where a survivor of `rows` sits among the survivors of `rows[1..]`, unless it is `rows[0]` itself. */
  function TailPos(rows: seq<Row>, p: nat): int
    requires rows != []
  {
    if Key(rows[0]) in KeysOf(rows[1..]) then p else p - 1
  }

  lemma KeepLastShift(rows: seq<Row>, p: nat)
    requires rows != [] && p < |KeepLast(rows)|
    ensures Key(KeepLast(rows)[p]) in KeysOf(rows)
    ensures TailPos(rows, p) < 0 ==> KeepLast(rows)[p] == rows[0] && LastIndex(rows, Key(rows[0])) == 0
    ensures TailPos(rows, p) >= 0 ==>
      && TailPos(rows, p) < |KeepLast(rows[1..])|
      && KeepLast(rows)[p] == KeepLast(rows[1..])[TailPos(rows, p)]
      && Key(KeepLast(rows)[p]) in KeysOf(rows[1..])
      && LastIndex(rows, Key(KeepLast(rows)[p])) == 1 + LastIndex(rows[1..], Key(KeepLast(rows)[p]))
  {
    var rest := KeepLast(rows[1..]);
    if Key(rows[0]) in KeysOf(rows[1..]) {
      assert KeepLast(rows) == rest;
      SurvivorInTail(rows, p);
    } else {
      assert KeepLast(rows) == [rows[0]] + rest;
      if p > 0 {
        assert KeepLast(rows)[p] == rest[p - 1];
        SurvivorInTail(rows, p - 1);
      }
    }
  }

  lemma SurvivorInTail(rows: seq<Row>, i: nat)
    requires rows != [] && i < |KeepLast(rows[1..])|
    ensures var r := KeepLast(rows[1..])[i];
      && Key(r) in KeysOf(rows[1..]) && Key(r) in KeysOf(rows)
      && LastIndex(rows, Key(r)) == 1 + LastIndex(rows[1..], Key(r))
  {
    var rest := KeepLast(rows[1..]);
    KeepLastKeySet(rows[1..]);
    assert Key(rest[i]) in KeysOf(rest);
    LastIndexTail(rows, Key(rest[i]));
  }

  /** No bug_id appears twice after de-duplication. */
  lemma {:induction false} KeepLastDistinct(rows: seq<Row>)
    ensures IsKeyUnique(KeepLast(rows))
  {
    if rows != [] {
      KeepLastDistinct(rows[1..]);
      var rest := KeepLast(rows[1..]);
      var out := KeepLast(rows);
      forall p, q | 0 <= p < q < |out| ensures Key(out[p]) != Key(out[q]) {
        KeepLastShift(rows, p);
        KeepLastShift(rows, q);
        if TailPos(rows, p) >= 0 {
          assert Key(rest[TailPos(rows, p)]) != Key(rest[TailPos(rows, q)]);
        }
      }
    }
  }

  /** Each surviving row is the last occurrence of its bug_id in the input. */
  lemma {:induction false} KeepLastSurvivors(rows: seq<Row>)
    ensures KeysOf(KeepLast(rows)) == KeysOf(rows)
    ensures forall p :: 0 <= p < |KeepLast(rows)| ==>
      KeepLast(rows)[p] == rows[LastIndex(rows, Key(KeepLast(rows)[p]))]
  {
    KeepLastKeySet(rows);
    if rows != [] {
      KeepLastSurvivors(rows[1..]);
      forall p | 0 <= p < |KeepLast(rows)|
        ensures KeepLast(rows)[p] == rows[LastIndex(rows, Key(KeepLast(rows)[p]))]
      {
        KeepLastShift(rows, p);
      }
    }
  }

  /** Survivors keep the relative order of the last occurrences they come from. */
  lemma {:induction false} KeepLastOrder(rows: seq<Row>)
    ensures KeysOf(KeepLast(rows)) == KeysOf(rows)
    ensures forall p, q :: 0 <= p < q < |KeepLast(rows)| ==>
      LastIndex(rows, Key(KeepLast(rows)[p])) < LastIndex(rows, Key(KeepLast(rows)[q]))
  {
    KeepLastKeySet(rows);
    if rows != [] {
      KeepLastOrder(rows[1..]);
      forall p, q | 0 <= p < q < |KeepLast(rows)|
        ensures LastIndex(rows, Key(KeepLast(rows)[p])) < LastIndex(rows, Key(KeepLast(rows)[q]))
      {
        KeepLastShift(rows, p);
        KeepLastShift(rows, q);
      }
    }
  }

  lemma {:induction false} LastIndexConcat(a: seq<Row>, b: seq<Row>, k: Option<string>)
    requires k in KeysOf(a) + KeysOf(b)
    ensures KeysOf(a + b) == KeysOf(a) + KeysOf(b)
    ensures k in KeysOf(b) ==> LastIndex(a + b, k) == |a| + LastIndex(b, k)
    ensures k !in KeysOf(b) ==> LastIndex(a + b, k) == LastIndex(a, k)
  {
    KeysOfConcat(a, b);
    if k in KeysOf(b) {
      LastIndexInRight(a, b, k);
    } else {
      LastIndexInLeft(a, b, k);
    }
  }

  lemma LastIndexInRight(a: seq<Row>, b: seq<Row>, k: Option<string>)
    requires k in KeysOf(b)
    ensures k in KeysOf(a + b) && LastIndex(a + b, k) == |a| + LastIndex(b, k)
    ensures (a + b)[LastIndex(a + b, k)] == b[LastIndex(b, k)]
  {
    var j := LastIndex(b, k);
    forall m | |a| + j < m < |a + b| ensures Key((a + b)[m]) != k {
      assert (a + b)[m] == b[m - |a|];
    }
    assert (a + b)[|a| + j] == b[j];
    LastIndexUnique(a + b, k, |a| + j);
  }

  lemma LastIndexInLeft(a: seq<Row>, b: seq<Row>, k: Option<string>)
    requires k in KeysOf(a) && k !in KeysOf(b)
    ensures k in KeysOf(a + b) && LastIndex(a + b, k) == LastIndex(a, k)
    ensures (a + b)[LastIndex(a + b, k)] == a[LastIndex(a, k)]
  {
    var j := LastIndex(a, k);
    forall m | j < m < |a + b| ensures Key((a + b)[m]) != k {
      if m >= |a| {
        assert (a + b)[m] == b[m - |a|];
      }
    }
    assert (a + b)[j] == a[j];
    LastIndexUnique(a + b, k, j);
  }

  /** The last position holding `k` is the one with no later `k`. */
  lemma LastIndexUnique(rows: seq<Row>, k: Option<string>, j: nat)
    requires j < |rows| && Key(rows[j]) == k
    requires forall m :: j < m < |rows| ==> Key(rows[m]) != k
    ensures k in KeysOf(rows) && LastIndex(rows, k) == j
  {
  }

  /** The last row with bug_id `k` in `a + b` comes from `b` when `b` has `k`, else from `a`. */
  lemma LastOfConcat(a: seq<Row>, b: seq<Row>, k: Option<string>)
    requires k in KeysOf(a) + KeysOf(b)
    ensures KeysOf(a + b) == KeysOf(a) + KeysOf(b)
    ensures k in KeysOf(b) ==> (a + b)[LastIndex(a + b, k)] == b[LastIndex(b, k)]
    ensures k !in KeysOf(b) ==> k in KeysOf(a) && (a + b)[LastIndex(a + b, k)] == a[LastIndex(a, k)]
  {
    KeysOfConcat(a, b);
    if k in KeysOf(b) {
      LastIndexInRight(a, b, k);
    } else {
      LastIndexInLeft(a, b, k);
    }
  }

  /**
   * Import merge on rows: every bug_id of either side survives once; an
   * imported bug_id keeps the batch's last row for it (overriding any existing
   * row), and a bug_id only in the existing rows keeps its last existing row.
   */
  lemma ImportedRowsWin(existing: seq<Row>, batch: seq<Row>)
    ensures KeysOf(KeepLast(existing + batch)) == KeysOf(existing) + KeysOf(batch)
    ensures forall p :: 0 <= p < |KeepLast(existing + batch)| && Key(KeepLast(existing + batch)[p]) in KeysOf(batch) ==>
      KeepLast(existing + batch)[p] == batch[LastIndex(batch, Key(KeepLast(existing + batch)[p]))]
    ensures forall p :: 0 <= p < |KeepLast(existing + batch)| && Key(KeepLast(existing + batch)[p]) !in KeysOf(batch) ==>
      Key(KeepLast(existing + batch)[p]) in KeysOf(existing) &&
      KeepLast(existing + batch)[p] == existing[LastIndex(existing, Key(KeepLast(existing + batch)[p]))]
  {
    var all := existing + batch;
    var out := KeepLast(all);
    KeepLastSurvivors(all);
    KeysOfConcat(existing, batch);
    forall p | 0 <= p < |out|
      ensures Key(out[p]) in KeysOf(batch) ==> out[p] == batch[LastIndex(batch, Key(out[p]))]
      ensures Key(out[p]) !in KeysOf(batch) ==>
        Key(out[p]) in KeysOf(existing) && out[p] == existing[LastIndex(existing, Key(out[p]))]
    {
      var k := Key(out[p]);
      assert k in KeysOf(out);
      assert out[p] == all[LastIndex(all, k)];
      LastOfConcat(existing, batch, k);
    }
  }

  /** Stack `b` under `a`, as pandas concat does: the header grows by b's new names. */
  function Concat(a: Table, b: Table): (out: Table)
    ensures out.cols == UnionCols(a.cols, b.cols)
    ensures out.rows == a.rows + b.rows
    ensures WellFormed(a) && WellFormed(b) ==> WellFormed(out)
  {
    ConcatWellFormed(a, b);
    Table(UnionCols(a.cols, b.cols), a.rows + b.rows)
  }

  lemma ConcatWellFormed(a: Table, b: Table)
    ensures WellFormed(a) && WellFormed(b) ==> WellFormed(Table(UnionCols(a.cols, b.cols), a.rows + b.rows))
  {
    if WellFormed(a) && WellFormed(b) {
      var cols := UnionCols(a.cols, b.cols);
      RowsWithinConcat(a.rows, b.rows, ColSet(a.cols), ColSet(b.cols), ColSet(cols));
    }
  }

  lemma RowsWithinConcat(x: seq<Row>, y: seq<Row>, sx: set<string>, sy: set<string>, s: set<string>)
    requires sx <= s && sy <= s
    requires forall i :: 0 <= i < |x| ==> x[i].Keys <= sx
    requires forall i :: 0 <= i < |y| ==> y[i].Keys <= sy
    ensures forall i :: 0 <= i < |x + y| ==> (x + y)[i].Keys <= s
  {
    forall i | 0 <= i < |x + y| ensures (x + y)[i].Keys <= s {
      if i >= |x| {
        assert (x + y)[i] == y[i - |x|];
      }
    }
  }

  /**
   * Merge the existing table with an imported batch, keeping the last row per
   * bug_id. Without a bug_id column in either table the de-duplication fails.
   */
  function Merge(existing: Table, batch: Table): (res: Result<Table, Failure>)
    ensures res.Err? <==> BugId !in existing.cols && BugId !in batch.cols
    ensures res.Err? ==> res.error == KeyColumnMissing
    ensures res.Ok? ==> res.value.cols == UnionCols(existing.cols, batch.cols)
    ensures res.Ok? ==> res.value.rows == KeepLast(existing.rows + batch.rows)
    ensures res.Ok? ==> IsKeyUnique(res.value.rows)
    ensures res.Ok? ==> KeysOf(res.value.rows) == KeysOf(existing.rows) + KeysOf(batch.rows)
    ensures res.Ok? && WellFormed(existing) && WellFormed(batch) ==> WellFormed(res.value)
  {
    var all := Concat(existing, batch);
    if BugId !in all.cols then Err(KeyColumnMissing)
    else
      KeepLastKeySet(all.rows);
      KeepLastDistinct(all.rows);
      KeepLastSurvivors(all.rows);
      KeysOfConcat(existing.rows, batch.rows);
      Ok(Table(all.cols, KeepLast(all.rows)))
  }

  /** No two rows share a bug_id. */
  predicate IsKeyUnique(rows: seq<Row>)
  {
    forall p, q :: 0 <= p < q < |rows| ==> Key(rows[p]) != Key(rows[q])
  }
}
