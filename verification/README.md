# Order-export merger: a Dafny model

The tool gathers customer orders from many legacy spreadsheet exports (`.xls`).
It walks a directory tree and picks out the input files, leaving out its own
earlier outputs. It turns every readable row into an order record with a
canonical phone number and drops repeated phone numbers across all files,
keeping the last record of each. The result goes into one `processed_orders_<timestamp>.xlsx` file.

This project models the data shaping of `main.py` as pure functions over
sequences, with lemmas for the properties the code relies on.

| module | file | models |
|---|---|---|
| `Strings` | strings.dfy | `str.startswith` / `str.endswith` |
| `Phone` | phone.dfy | `clean_phone_number` |
| `Discovery` | discovery.dfy | `find_excel_files`: the walk and the filename test |
| `Orders` | orders.dfy | the six-column order record |
| `Ingest` | ingest.dfy | `process_excel_file`: row mapping, row skip, file failure |
| `Merge` | merge.dfy | `pd.concat` and `drop_duplicates(subset=phone, keep='last')` |
| `Pipeline` | pipeline.dfy | `main`: discovery, per-file processing, empty-frame skip, merge |
| `Wrappers` | wrappers.dfy | `Option`, for a row that cannot be read |

Modelling choices:
- A row is a map from column header to the cell's text. A missing header is
  the lookup failure (`KeyError`) that makes the source skip the row.
- Reading a file (`pd.read_excel`) is a function parameter
  `open: FilePath -> Workbook`. A `Workbook` is either `Sheet(rows)` or
  `Unreadable`; the second stands for the file-level exception.
- The directory walk (`os.walk`) is a sequence of `DirListing(root, files)` in
  walk order. `os.path.join(root, file)` is `FilePath(root, file)`, and its
  basename is `file`.
- `drop_duplicates(keep='last')` is modelled by its meaning: a record is
  dropped exactly when a later record has the same phone.
  `KeepsLastOccurrence` and `KeepsRelativeOrder` tie each survivor to the last
  position of its phone (`LastIndex`), so the result is fully determined.
- `Phone.Clean` runs the five `replace` calls in turn (`RemoveEach`).
  The contract of `RemoveEach` proves this equals a one-pass reference filter
  (`Drop`). The contract of `Clean` is stated against `Drop`.

## Model

| member | source | states |
|---|---|---|
| Phone.RemoveAll | main.py:13 | `replace(c, '')` leaves no `c` in the string and never makes it longer |
| Phone.Drop | main.py:12-13 | reference deletion: no character from the deleted set remains, and the result is never longer |
| Phone.DropKeepsCounts | main.py:12-13 | every character outside the deleted set is kept as often as it occurred |
| Phone.DropAppend | main.py:12-13 | deletion distributes over concatenation, so kept characters stay in their original order |
| Phone.DropIdentity | main.py:12-13 | a string with none of the deleted characters is left unchanged |
| Phone.RemoveAllThenDrop | main.py:12-13 | deleting one character and then a set equals deleting the enlarged set in one pass |
| Phone.RemoveEach | main.py:12-13 | the loop of successive `replace` calls equals one pass that drops exactly those characters |
| Phone.Clean | main.py:8-15 | the result starts with `+` and has no `-`, space, `(`, `)` or `:`; it is the input with exactly those removed, and one `+` is prepended exactly when that remainder does not already start with `+` |
| Phone.CleanKeepsOtherCharacters | main.py:12-15 | every character other than a separator or `+` occurs in the result as often as in the input |
| Phone.CleanFixedPoints | main.py:8-15 | `Clean(s) == s` exactly when `s` is canonical: it starts with `+` and has no separator |
| Phone.CleanIdempotent | main.py:8-15 | cleaning a cleaned number changes nothing |
| Phone.CleanExampleAddsPlus | main.py:12-15 | `"1-2"` becomes `"+12"` |
| Phone.CleanExampleKeepsPlus | main.py:15 | `"+(3)"` becomes `"+3"`: an existing `+` is not doubled |
| Discovery.XlsxNeverSelected | main.py:61 | no name ending in `.xlsx` passes the test, whatever its prefix |
| Discovery.OutputName | main.py:126-127 | the output name is `processed_orders`, then `_`, then the timestamp, then `.xlsx`: the timestamp can be read back from between prefix and extension |
| Discovery.InDir | main.py:59-62 | one directory's files joined with it: one path per listed name, in listing order, each with that name as basename |
| Discovery.Paths | main.py:58-59 | the walk's file list holds every listed file joined with its directory, and nothing that was not listed |
| Discovery.PathsSingle | main.py:58-59 | a walk of one directory lists exactly that directory's files |
| Discovery.Select | main.py:59-62 | every selected file passes `IsInputName`, the test of main.py:61 (ends in `.xls`, does not start with `processed_orders`); every walked file that passes is selected; nothing else is added |
| Discovery.SelectAppend | main.py:58-62 | selection over two parts of the walk is the two selections in order, so walk order is kept |
| Discovery.PathsAppend | main.py:58-59 | the walk's file list splits along its directory listings |
| Discovery.SelectInDir | main.py:59-62 | the inner loop collects exactly the selected files of one directory, in listing order |
| Discovery.FindExcelFiles | main.py:55-63 | the nested loop returns exactly the selected files of the whole walk, in walk order |
| Discovery.OutputNeverSelected | main.py:127 | the output name `processed_orders_<ts>.xlsx` fails the filename test for every timestamp |
| Discovery.SelectAround | main.py:58-62 | a walk split around one directory selects from the part before, that directory and the part after, in turn |
| Discovery.SelectSkipsOutput | main.py:59-62 | an output file anywhere among one directory's files adds nothing to that directory's selection |
| Discovery.RerunIgnoresOutput | main.py:55-63 | adding an output file to any directory of the tree, at any position among its files, leaves the selected inputs and their order unchanged |
| Discovery.InputNameExamples | main.py:61 | the test is literal and case-sensitive: `.xlsx`, `.XLS` and the output prefix are refused, and the prefix counts only at the start |
| Ingest.MapRow | main.py:25-36 | a row yields a record exactly when all five looked-up columns exist; that record's phone is the cleaned phone cell, the other four columns are copied from their cells, and its source is the file's basename |
| Ingest.RowsToRecords | main.py:24-47 | at most one record per row; every record has a canonical phone and the file's basename as source |
| Ingest.RowsToRecordsAppend | main.py:24-36 | consecutive blocks of rows give consecutive blocks of records, so row order is kept |
| Ingest.RowsToRecordsCount | main.py:24-47 | if every row is readable there is one record per row; if none is readable there are no records |
| Ingest.RowsToRecordsSingle | main.py:25-47 | one row gives its own record when readable and nothing when a lookup fails |
| Ingest.RowsToRecordsOrigin | main.py:24-36 | every record is the mapping of some row of the file |
| Ingest.RowsToRecordsComplete | main.py:24-36 | the record of every readable row appears in the result |
| Ingest.RecordPhonesFromRows | main.py:24-36 | every phone among the records is the cleaned phone cell of some readable row |
| Ingest.RowPhonesInRecords | main.py:24-36 | the cleaned phone cell of every readable row is the phone of some record |
| Ingest.RowsToRecordsPhones | main.py:24-36 | the records' phones are exactly the cleaned phone cells of the readable rows |
| Ingest.FileRecordsPhones | main.py:20-53 | a file's records carry exactly the cleaned phone cells of its readable rows, and no phone when it cannot be read |
| Ingest.FileRecords | main.py:49-53 | an unreadable file gives no records; every record names the file and has a canonical phone |
| Ingest.ProcessRows | main.py:22-49 | the row loop builds exactly the records of the readable rows, in row order |
| Ingest.ProcessFile | main.py:17-53 | the file's records, none for an unreadable file, never more than its rows |
| Merge.Concat | main.py:120 | every record of every frame is in the concatenation, and a single frame comes out unchanged (same records, order and multiplicities); with `ConcatAppend` this makes it the frames one after another, each unchanged |
| Merge.ConcatAppend | main.py:120 | concatenation splits along any division of the frame list |
| Merge.ConcatMembers | main.py:120 | every concatenated record belongs to one of the frames |
| Merge.ConcatEmpty | main.py:115-120 | the concatenation is empty exactly when every frame is empty |
| Merge.NonEmpty | main.py:112-113 | the kept frames are all non-empty, come from the input list, and are never more than it |
| Merge.NonEmptyAppend | main.py:110-113 | skipping empty frames splits along any division of the frame list |
| Merge.ConcatNonEmpty | main.py:110-120 | skipping empty frames does not change the concatenation, and leaves nothing exactly when there is no record at all |
| Merge.LastIndex | main.py:122-123 | the returned position holds the phone and no later record has that phone |
| Merge.DropDuplicatesKeepLast | main.py:122-123 | the result has the same set of phones as the input, no phone twice, no record not in the input, and never more records |
| Merge.KeepsLastOccurrence | main.py:122-123 | each surviving record is the input's last record with that phone |
| Merge.KeepsRelativeOrder | main.py:123 | survivors appear in the order of their last occurrences in the input |
| Merge.DistinctUnchanged | main.py:123 | a list whose phones are already distinct is left unchanged |
| Merge.DropDuplicatesIdempotent | main.py:123 | deduplicating twice equals deduplicating once |
| Merge.DropDuplicatesCount | main.py:134-135 | the deduplicated count is the number of distinct phones, so it never exceeds the total count |
| Merge.DropDuplicatesExample | main.py:122-123 | phones `+1, +2, +1` leave two records: the second and the third, in that order |
| Pipeline.Frames | main.py:110-111 | one record list per selected file, in discovery order: empty for an unreadable file, and every record names its file |
| Pipeline.FramesPhones | main.py:110-120 | the concatenated records carry exactly the cleaned phone cells of the readable rows of the readable selected files |
| Pipeline.CollectFrames | main.py:108-113 | the loop keeps exactly the non-empty per-file results, in discovery order |
| Pipeline.FramesRecords | main.py:27-33 | every record read from the selected files names an input file and has a canonical phone |
| Pipeline.NothingRead | main.py:112-117 | no frame is kept exactly when no selected file gave a record |
| Pipeline.MergedFacts | main.py:119-123 | the merged result is non-empty, no longer than the concatenation, has distinct phones, keeps every phone and names only input files |
| Pipeline.Run | main.py:95-135 | the run stops with no input exactly when nothing is selected, and with nothing processed exactly when every selected file gave no record; otherwise the saved records are the keep-last deduplication of all files' records, with distinct canonical phones, exactly the cleaned phone cells of the readable rows of the readable selected files as phones, source names that pass the filename test, and counts as printed |

## Left out

- Writing the result (`save_to_excel`, `pd.ExcelWriter`, `to_excel`, column widths, centre alignment): spreadsheet I/O and cosmetics. `Run` returns the records to save instead.
- `pd.read_excel`: replaced by the `open` parameter, so the model does not say how a file's cells are decoded.
- `os.walk` and `os.getcwd`: the walk is an input sequence, and its order is whatever the file system gives.
- `datetime.now()`: the timestamp in the output name is a parameter of `OutputName`.
- All `print` output: console logging. The two early exits become the `NoInputFiles` and `NothingProcessed` outcomes. The printed totals become `fileCount`, `totalCount` and the length of `records`.
- `str()` coercion of cell values (a missing cell becoming `"nan"`, a number becoming `"123.0"`): every cell is taken as its text. The order number, which the source copies without `str()`, is text as well.
- Exceptions raised while a row's record is built (main.py:27-34), other than a missing column, are not modelled: for example a `str()` or `clean_phone_number` call that raises. Such a row would be skipped like a row missing a column.
- A failing progress `print` is not modelled either. One at main.py:39-43 runs after the record is appended (main.py:36), so the row's record stays in place. One in the row handler at main.py:46 escapes to the file-level handler at main.py:51-53, which discards the records of the whole file. One at main.py:19, before the file-level `try`, or inside the file-level handler at main.py:52 escapes `process_excel_file`; `main` has no handler, so the whole run ends without saving anything.
