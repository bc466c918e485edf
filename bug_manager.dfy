/**
 * The record handlers of the bug tracker application, with the user
 * interface, the spreadsheet I/O and the clock taken off: the workbook is a
 * field holding its table (None while the file does not exist), attachment
 * copies are logged in order, and the form's contents, the chosen files and
 * the current time arrive as parameters.
 */
module BugTracker {
  import opened Wrappers
  import opened Tables
  import opened RecordStore
  import opened KeepLastMerge
  import opened ImportMapper
  import opened Attachment
  import opened Export

  /** The text fields of the report form. */
  datatype FormInput = FormInput(
    issueType: string, bugId: string, title: string, steps: string, expected: string, actual: string)

  /** One copy of a screenshot into the asset folder. */
  datatype Copy = Copy(src: string, dest: string)

  /** The columns of a submitted record, in the order the save handler fills them. */
  const FormCols: seq<string> := [IssueType, BugId, Title, Steps, Expected, Actual, Severity, Timestamp, ImagePath]

  lemma FormColsDistinct()
    ensures Distinct(FormCols)
  {
  }

  /** The record the save handler submits: the form, the severity, the time and the attachment cell. */
  function Submission(form: FormInput, severity: string, now: string, image: string): (data: Row)
    ensures data.Keys == ColSet(FormCols)
    ensures KeyText(data) == form.bugId
  {
    map[IssueType := form.issueType, BugId := form.bugId, Title := form.title, Steps := form.steps,
        Expected := form.expected, Actual := form.actual, Severity := severity, Timestamp := now, ImagePath := image]
  }

  /** The copies the save handler makes: the chosen file into the asset folder, when it lies outside it. */
  function CopiesFor(imagePath: string, imageExists: bool, bugId: string): (made: seq<Copy>)
    ensures |made| <= 1
    ensures made != [] <==> CopiesFile(imagePath, imageExists)
    ensures made != [] ==> made[0] == Copy(imagePath, AttachmentPath(imagePath, imageExists, bugId))
  {
    if CopiesFile(imagePath, imageExists) then [Copy(imagePath, AttachmentPath(imagePath, imageExists, bugId))] else []
  }

  /**
   * The first half of the save handler: fill the record key by key and decide
   * its Image_Path cell, naming the copy to make when the chosen file lies
   * outside the asset folder.
   */
  method BuildRecord(form: FormInput, severity: string, now: string, imagePath: string, imageExists: bool)
    returns (data: Row, made: seq<Copy>)
    ensures data == Submission(form, severity, now, AttachmentPath(imagePath, imageExists, form.bugId))
    ensures made == CopiesFor(imagePath, imageExists, form.bugId)
  {
    data := map[IssueType := form.issueType, BugId := form.bugId, Title := form.title,
                Steps := form.steps, Expected := form.expected, Actual := form.actual];
    data := data[Severity := severity];
    data := data[Timestamp := now];
    ghost var attachment := AttachmentPath(imagePath, imageExists, form.bugId);
    ghost var record := Submission(form, severity, now, attachment);
    assert data == record - {ImagePath};
    ghost var partial := data;
    made := [];
    if imagePath != "" && imageExists {
      if !Contains(imagePath, ImageFolder) {
        var dest := Join(ImageFolder, form.bugId + Extension(imagePath));
        made := [Copy(imagePath, dest)];
        data := data[ImagePath := dest];
      } else {
        data := data[ImagePath := imagePath];
      }
    } else {
      data := data[ImagePath := NoImage];
    }
    assert data == partial[ImagePath := attachment];
    assert data.Keys == record.Keys;
  }

  /**
   * The table the save handler writes back: the keyed edit for an edit, the
   * append for a new report.
   */
  function Saved(current: Table, data: Row, isEdit: bool): (res: Result<Table, Failure>)
    ensures !isEdit ==> res.Ok?
    ensures res.Err? ==> res.error == KeyColumnMissing
    ensures res.Ok? && WellFormed(current) && data.Keys <= ColSet(FormCols) ==> WellFormed(res.value)
  {
    FormColsDistinct();
    if isEdit then EditById(current, data, FormCols) else Ok(AppendRow(current, data, FormCols))
  }

  class BugManagerApp {
    /** The data workbook's contents; None while the file does not exist. */
    var dataFile: Option<Table>
    /** The screenshot copies made into the asset folder, oldest first. */
    var copies: seq<Copy>

    ghost predicate Valid()
      reads this
    {
      dataFile.Some? ==> WellFormed(dataFile.value)
    }

    constructor (existing: Option<Table>)
      requires existing.Some? ==> WellFormed(existing.value)
      ensures Valid() && dataFile == existing && copies == []
    {
      dataFile := existing;
      copies := [];
    }

    /**
     * Import a foreign sheet: map it, then store it merged with the existing
     * workbook (keeping the last row per bug_id), or as it is when there is
     * no workbook yet. Reports the number of rows in the imported sheet.
     */
    method ImportExternalXlsx(foreign: Table, now: string) returns (res: Result<nat, Failure>)
      requires Valid()
      modifies this
      ensures Valid() && copies == old(copies)
      ensures res.Ok? ==> res.value == |foreign.rows|
      ensures res.Err? ==> dataFile == old(dataFile)
      ensures MappedBatch(foreign, now).Err? ==> res == Err(DuplicateColumn)
      ensures MappedBatch(foreign, now).Ok? && old(dataFile).None? ==>
        res.Ok? && dataFile == Some(MappedBatch(foreign, now).value)
      ensures MappedBatch(foreign, now).Ok? && old(dataFile).Some? ==>
        var merged := Merge(old(dataFile).value, MappedBatch(foreign, now).value);
        && (merged.Ok? ==> res.Ok? && dataFile == Some(merged.value))
        && (merged.Err? ==> res == Err(merged.error))
    {
      var mapped := MapImport(foreign, now);
      if mapped.Err? {
        MappedBatchShape(foreign, now);
        return Err(mapped.error);
      }
      var batch := mapped.value;
      MappedBatchShape(foreign, now);
      MappedBatchWellFormed(foreign, now);
      var final: Table;
      if dataFile.Some? {
        var merged := Merge(dataFile.value, batch);
        if merged.Err? {
          return Err(merged.error);
        }
        final := merged.value;
      } else {
        final := batch;
      }
      dataFile := Some(final);
      res := Ok(|batch.rows|);
    }

    /**
     * Save the form: build the record, copying a chosen screenshot into the
     * asset folder when it lies outside it; then overwrite the rows with the
     * record's bug_id (edit) or append the record (new report).
     */
    method SaveData(form: FormInput, severity: string, now: string, imagePath: string, imageExists: bool, isEdit: bool)
      returns (res: Result<(), Failure>)
      requires Valid()
      modifies this
      ensures Valid()
      ensures copies == old(copies) + CopiesFor(imagePath, imageExists, form.bugId)
      ensures var saved := Saved(
          if old(dataFile).Some? then old(dataFile).value else EmptyTable,
          Submission(form, severity, now, AttachmentPath(imagePath, imageExists, form.bugId)), isEdit);
        && (saved.Ok? ==> res.Ok? && dataFile == Some(saved.value))
        && (saved.Err? ==> res == Err(saved.error) && dataFile == old(dataFile))
    {
      var data, made := BuildRecord(form, severity, now, imagePath, imageExists);
      copies := copies + made;
      var df := if dataFile.Some? then dataFile.value else EmptyTable;
      var saved: Result<Table, Failure>;
      if isEdit {
        saved := EditById(df, data, FormCols);
      } else {
        saved := Ok(AppendRow(df, data, FormCols));
      }
      assert saved == Saved(df, data, isEdit);
      assert data.Keys <= ColSet(FormCols) && WellFormed(df);
      assert saved.Ok? ==> WellFormed(saved.value);
      if saved.Err? {
        return Err(saved.error);
      }
      dataFile := Some(saved.value);
      res := Ok(());
    }

    /** Delete every row whose bug_id, read as text, is `key`. */
    method DeleteSelected(key: string) returns (res: Result<(), Failure>)
      requires Valid()
      modifies this
      ensures Valid() && copies == old(copies)
      ensures old(dataFile).None? ==> res == Err(DataFileMissing) && dataFile == old(dataFile)
      ensures old(dataFile).Some? && DeleteById(old(dataFile).value, key).Ok? ==>
        res.Ok? && dataFile == Some(DeleteById(old(dataFile).value, key).value)
      ensures old(dataFile).Some? && DeleteById(old(dataFile).value, key).Err? ==>
        res == Err(KeyColumnMissing) && dataFile == old(dataFile)
    {
      if dataFile.None? {
        return Err(DataFileMissing);
      }
      var deleted := DeleteById(dataFile.value, key);
      if deleted.Err? {
        return Err(deleted.error);
      }
      dataFile := Some(deleted.value);
      res := Ok(());
    }

    /**
     * Export: the table written to the chosen destination, which is the
     * workbook without Image_Path; nothing when there is no workbook or no
     * destination was chosen. The workbook itself is not changed.
     */
    method DownloadReport(destinationChosen: bool) returns (written: Option<Table>)
      requires Valid()
      ensures written.Some? <==> dataFile.Some? && destinationChosen
      ensures written.Some? ==> written.value == DropImagePath(dataFile.value)
      ensures written.Some? ==> WellFormed(written.value) && |written.value.rows| == |dataFile.value.rows|
    {
      if dataFile.None? || !destinationChosen {
        return None;
      }
      written := Some(DropImagePath(dataFile.value));
    }
  }
}
