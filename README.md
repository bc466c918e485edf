# Bug tracker record handling, modelled in Dafny

This project models the record logic of the bug tracker desktop application
(`Bug_Tracker.py`, class `BugManagerApp`). The user interface, the spreadsheet
reading and writing, and the clock are taken off. What is left is a set of
transformations of one table, the bug-report workbook:

- **Import.** A foreign sheet is renamed through a fixed column map. The default
  columns it lacks are added (`issue_type = "Imported"`, `Image_Path = "No Image"`,
  one shared `Timestamp`). It is cut down to the application's columns, in the
  application's order. It is then merged into the workbook, keeping the last row
  for each `bug_id`, or stored as it is when no workbook exists yet. The handler
  reports the number of rows in the imported sheet.
- **Save.** The record is built from the form. The screenshot path is decided:
  it is copied into `bug_assets` as `<bug_id><ext>`, or kept when it already
  names that folder, or set to `"No Image"`. A new report is appended with no
  duplicate check. An edit overwrites the submitted cells of every row whose
  `bug_id`, read as text, equals the submitted one.
- **Delete.** Keeps exactly the rows whose `bug_id` text differs from the key.
- **Export.** The workbook without its `Image_Path` column.

A table is `Table(cols, rows)`. `cols` is the header in order. Each row maps
column names to cell text, and a header column that a row does not map is an
empty cell. Edit and delete read an empty `bug_id` as the text `"nan"`, as the
source's `astype(str)` does. The keep-last merge compares `bug_id` cells as
values, with all empty cells equal to each other.

The class `BugTracker.BugManagerApp` holds the workbook as the field `dataFile`,
which is `None` while the file does not exist. It logs screenshot copies, oldest
first, in the field `copies`. Its methods are the four handlers. These inputs are
parameters:

- whether the workbook exists (the field);
- the parsed foreign sheet;
- the form fields;
- the chosen file and whether it exists;
- whether a destination was chosen;
- the current time, already formatted.

The model follows the code, including these points:

- A new save always appends. It never updates an existing row with the same
  `bug_id`, so `bug_id` is not unique in the workbook. `AppendNoUpsert` states this.
- An application column that no foreign column maps to, other than the three
  defaults, is absent from the imported batch. It is not present as an empty column.
- Edit, delete and merge fail when the table has no `bug_id` column. The lookup of
  that column raises in the source.

## Model

| member | source | states |
|---|---|---|
| `RecordStore.DeleteById` | Bug_Tracker.py:223-226 | Built on `KeepOthers`, the row filter of line 225. Fails exactly when the table has no bug_id column. Otherwise the header is unchanged, and no kept row has the key as its bug_id text. Each other row is kept as often as it occurs (multiset), in its original order (subsequence). A key that matches no row leaves the table unchanged. Well-formedness is preserved. |
| `RecordStore.EditById` | Bug_Tracker.py:162-165 | Fails exactly when the table has no bug_id column. Otherwise the row count and order are unchanged. Rows whose bug_id text differs from the submitted id are untouched. On matching rows, each submitted column takes the submitted value and every other cell is kept. An id with no match changes no row. Submitted columns the table lacks are appended to the header. Well-formedness is preserved. |
| `RecordStore.EditIdempotent` | Bug_Tracker.py:165 | Applying the same edit twice gives the same table as applying it once. The proof goes through `EditRow`, the edit of one row: a matching row takes the submitted cells, any other row is kept. |
| `RecordStore.AppendRow` | Bug_Tracker.py:162-167 | A new save adds exactly one row, at the end, equal to the submitted record. The existing rows are unchanged, and the header gains the record's new columns. Well-formedness is preserved. |
| `RecordStore.AppendNoUpsert` | Bug_Tracker.py:166-167 | After an append, the number of rows with the record's bug_id text grows by one, even when rows with that id exist. Every other id's count is unchanged. |
| `KeepLastMerge.KeepLastKeySet` | Bug_Tracker.py:83-84 | De-duplication (`KeepLast`, which keeps a row exactly when no later row has its bug_id) keeps every bug_id of the input and adds none. |
| `KeepLastMerge.KeepLastDistinct` | Bug_Tracker.py:83-84 | No bug_id occurs twice in the result of de-duplication. |
| `KeepLastMerge.KeepLastSurvivors` | Bug_Tracker.py:83-84 | Each surviving row is the last occurrence of its bug_id in the input. |
| `KeepLastMerge.KeepLastOrder` | Bug_Tracker.py:83-84 | Survivors appear in the order of the last occurrences they come from. |
| `KeepLastMerge.ImportedRowsWin` | Bug_Tracker.py:81-84 | Merging existing rows with an imported batch keeps the ids of both. For an id in the batch, the survivor is the batch's last row with that id, which overrides any existing row. For an id only in the existing rows, the survivor is its last existing row. |
| `KeepLastMerge.Concat` | Bug_Tracker.py:83 | Stacking two tables gives the first table's rows, then the second's. The header is the first header followed by the second's new names. Well-formedness is preserved. |
| `KeepLastMerge.Merge` | Bug_Tracker.py:81-84 | Fails exactly when neither table has a bug_id column. Otherwise the result has the stacked header, its rows are `KeepLast` of the existing rows followed by the batch (so `ImportedRowsWin`, `KeepLastSurvivors` and `KeepLastOrder` apply to it), its bug_ids are pairwise distinct, and its id set is the union of both tables' ids. Well-formedness is preserved. |
| `ImportMapper.RenameCells` | Bug_Tracker.py:55-65 | After `Rename`, the batch has one row per foreign row. Its header holds exactly the names some foreign column is renamed to. The cell under a name is the foreign cell of the column renamed to it, or empty. |
| `ImportMapper.AddColumn` | Bug_Tracker.py:68-73 | Adding a default column appends it to the header and puts the value in that column of every row. All other cells are unchanged. |
| `ImportMapper.Project` | Bug_Tracker.py:76-78 | Projection keeps the wanted columns the table has, in the wanted order. Each kept cell is unchanged and every other cell is dropped. |
| `ImportMapper.MapImport` | Bug_Tracker.py:64-78 | The handler's rename, then defaults added in place, then projection, computes the reference batch `MappedBatch`, which is defined cell by cell. |
| `ImportMapper.MappedBatchShape` | Bug_Tracker.py:55-78 | Mapping fails exactly when renaming would repeat a column name. Otherwise the batch has one row per foreign row. Its header is exactly the application columns that a foreign column is renamed to, plus issue_type, Image_Path and Timestamp, in the application's column order. |
| `ImportMapper.MappedBatchWellFormed` | Bug_Tracker.py:76-78 | The mapped batch has no repeated column and no cell outside its header. |
| `ImportMapper.MappedBatchCell` | Bug_Tracker.py:55-65 | A foreign cell whose renamed column is one the application keeps reaches the batch unchanged under the renamed name. Examples: ID to bug_id, Test Case to title, Status to Severity. |
| `ImportMapper.MappedBatchDefaults` | Bug_Tracker.py:67-73 | When the foreign sheet does not supply issue_type, Image_Path or Timestamp, every row holds "Imported", "No Image" or the one timestamp passed for the batch. |
| `Attachment.Extension` | Bug_Tracker.py:153 | The extension is empty or a suffix of the path. A non-empty one starts with a dot and holds no further dot or slash. The file name (the part after the last slash) has a character other than a dot before it. |
| `Attachment.ExtensionPresent` | Bug_Tracker.py:153 | Conversely, when the file name has a dot somewhere after a character other than a dot, the extension is not empty. |
| `Attachment.Join` | Bug_Tracker.py:154 | Joining the asset folder with a name gives folder + "/" + name. A name that starts with "/" replaces the folder. |
| `Attachment.AttachmentPath` | Bug_Tracker.py:151-160 | No file, or a file that does not exist, gives "No Image". A path containing "bug_assets" is kept verbatim. Any other path gives bug_assets/<bug_id><ext>, or <bug_id><ext> when the id is an absolute path. |
| `Attachment.AttachmentStable` | Bug_Tracker.py:151-158 | When the id is not absolute and the caller hands back the stored path, saving again keeps that path and copies nothing. |
| `BugTracker.BuildRecord` | Bug_Tracker.py:147-160 | The submitted record holds the form fields, Severity, Timestamp and the decided Image_Path. A copy is named exactly when the chosen file exists and lies outside the asset folder, from that file to the decided path. |
| `BugTracker.BugManagerApp.constructor` | Bug_Tracker.py:17-18 | The application starts from the existing workbook, or none, with no copies made. |
| `BugTracker.BugManagerApp.ImportExternalXlsx` | Bug_Tracker.py:45-92 | A failed mapping or merge leaves the workbook unchanged. With no workbook, the mapped batch is stored as it is, duplicates included. Otherwise the keep-last merge of the workbook and the batch is stored. The reported count is the foreign sheet's row count. No file is copied. |
| `BugTracker.BugManagerApp.SaveData` | Bug_Tracker.py:146-169 | The copy log grows by the copy the record names, even when the save then fails. A new save stores the workbook (or an empty table) with the record appended. An edit stores the keyed overwrite. An edit without a bug_id column fails and leaves the workbook unchanged. |
| `BugTracker.BugManagerApp.DeleteSelected` | Bug_Tracker.py:214-232 | With no workbook, the delete fails. Otherwise the workbook becomes the keyed delete of it, or stays unchanged when the delete fails. |
| `BugTracker.BugManagerApp.DownloadReport` | Bug_Tracker.py:234-241 | Writes nothing when there is no workbook or no destination. Otherwise it writes the workbook without Image_Path: the same rows in the same order, every other cell unchanged. The workbook itself is untouched. |
| `Export.DropImagePath` | Bug_Tracker.py:238-240 | The same number of rows. The header loses Image_Path and nothing else, in order. Each row loses only its Image_Path cell. A table without that column is returned unchanged. Well-formedness is preserved. |
| `Tables.UnionCols` | Bug_Tracker.py:167 | The header after stacking holds the names of both headers, starts with the first header, and has no repeats when neither input has any. |

## Left out

- The user interface: `create_home_screen`, `open_bug_form`, `upload_image`, `open_report_view`, `refresh_report`, `edit_selected`, message boxes and file dialogs. A cancelled file dialog at the start of import is the caller not calling `ImportExternalXlsx`.
- The positional form lookups `edit_data[7]` and `edit_data[6]` (Bug_Tracker.py:102, 127). The edit form's screenshot path and severity are parameters of `SaveData`.
- The dependence of `edit_data[7]` on the column order. A workbook created by saving has the column order of lines 147-160, so index 7 is the Timestamp text. That text is not an existing file, so an edit of such a row stores "No Image" (lines 151, 160). Only a workbook created by import (the order of lines 76-77) has Image_Path at index 7. `AttachmentStable` assumes the caller hands back the stored path.
- Excel reading and writing. Cells are text and a sheet arrives already parsed. A workbook that exists but cannot be parsed is not modelled. Neither is pandas' conversion of numbers and dates, so `drop_duplicates` compares text (or the empty cell), not pandas' native values.
- The delete key arrives as text. The table view's own conversion of numeric-looking values, before `str()` is applied, is not modelled.
- `datetime.now()` and its formatting: the formatted time is a parameter.
- `os.path.exists` is a boolean parameter, or whether `dataFile` is `None`. `os.makedirs` of the asset folder is not modelled. `shutil.copy` is recorded in `copies`, and its own failures (missing source, copying a file onto itself) are not modelled.
- `Attachment.Extension` and `Attachment.Join` follow the POSIX rules of `os.path`. Windows separators are not modelled.
- A foreign sheet whose renaming repeats a column name (for example both `ID` and `bug_id`): the model refuses it with `DuplicateColumn`. The source keeps both labels. It then fails at the merge when a workbook exists, and without a workbook it writes a sheet with a repeated header.
- `SaveData` in edit mode when there is no `bug_id` column: the source raises out of the callback without writing. The model returns `KeyColumnMissing` and leaves the workbook unchanged.
- The PIL image library is imported but unused.
