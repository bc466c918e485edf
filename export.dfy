/** The export handler's projection: the workbook without its Image_Path column. */
module Export {
  import opened Wrappers
  import opened Tables

  function DropImagePath(t: Table): (out: Table)
    ensures |out.rows| == |t.rows|
    ensures out.cols == Select(t.cols, ColSet(t.cols) - {ImagePath})
    ensures ImagePath !in out.cols
    ensures WellFormed(t) ==> forall i, c :: 0 <= i < |t.rows| ==>
      Cell(out.rows[i], c) == if c == ImagePath then None else Cell(t.rows[i], c)
    ensures ImagePath !in t.cols ==> out == t
    ensures WellFormed(t) ==> WellFormed(out)
  {
    if ImagePath in t.cols then
      var out := Table(Select(t.cols, ColSet(t.cols) - {ImagePath}), DropKey(t.rows, ImagePath));
      DroppedCells(t, out);
      out
    else t
  }

  /** Every row without key `c`. */
  function DropKey(rows: seq<Row>, c: string): (out: seq<Row>)
    ensures |out| == |rows|
    ensures forall i :: 0 <= i < |rows| ==> out[i] == rows[i] - {c}
  {
    seq(|rows|, i requires 0 <= i < |rows| => rows[i] - {c})
  }

  lemma DroppedCells(t: Table, out: Table)
    requires out.cols == Select(t.cols, ColSet(t.cols) - {ImagePath})
    requires out.rows == DropKey(t.rows, ImagePath)
    ensures WellFormed(t) ==> forall i, c :: 0 <= i < |t.rows| ==>
      Cell(out.rows[i], c) == if c == ImagePath then None else Cell(t.rows[i], c)
    ensures WellFormed(t) ==> WellFormed(out)
  {
    if WellFormed(t) {
      forall i, c | 0 <= i < |t.rows|
        ensures Cell(out.rows[i], c) == if c == ImagePath then None else Cell(t.rows[i], c)
      {
        assert out.rows[i] == t.rows[i] - {ImagePath};
      }
      forall i | 0 <= i < |out.rows| ensures out.rows[i].Keys <= ColSet(out.cols) {
        assert out.rows[i] == t.rows[i] - {ImagePath};
        assert t.rows[i].Keys <= ColSet(t.cols);
      }
    }
  }
}
