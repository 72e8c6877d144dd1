# Dialog selection and CSV export, modelled in Dafny

This project models the data handling of `ExcelDialog.js`, the popup of a
Tableau dashboard extension. The popup offers the dashboard's worksheets as
radio items. It keeps the names the user clicks in the module-level list
`selectedDatasources`. It exports the first selected worksheet's summary data
as a comma-separated file and stores the list in the extension settings when
it closes.

Two parts are modelled:

- **The selection list.** `updateDatasourceList` toggles a name: an absent
  name is pushed at the end, a present one is spliced out where `indexOf`
  finds it. The ready handler resets the list to `[]`. It then walks the
  dashboard's worksheets and renders one item per distinct name that
  contains `'*'`. The item's label is the name without its first `'*'`.
- **The export.** Each summary row becomes a plain object. Cell `i` is
  assigned under `columns[i]`, and only the first comma of its formatted
  value is removed. A cell past the last column reads `columns[i]` as
  `undefined`, so it is stored under the key `"undefined"`; all such cells
  of a row share that key and the last one wins. `csvmaker` writes the keys of the first object and then
  each object's values. Fields are joined by `,`, lines by `\n`, and nothing
  is quoted. The file is named after the sheet, without its first `'*'`,
  with `.csv` appended.

Modules, one per concern of the single source file:

- `Wrappers`: `Option` stands for `undefined`, `Result` for a thrown error.
- `Seqs`: `indexOf`, first-occurrence de-duplication, removal of every copy.
- `Text`: `replace` with a one-character string pattern, `join`, and the
  split that undoes a join.
- `Export`: JavaScript objects as ordered entries, the row-to-object
  `forEach`, `csvmaker`.
- `Sheets`: worksheets, the `'*'` marker, label, file name, `getSelectedSheet`.
- `Selection`: the toggle and the seeding loop of the ready handler.
- `Dialog`: the class holding `selectedDatasources` and its handlers.

The code behaves as follows where one might expect otherwise, and the model
follows the code:

- The prior selection is not reloaded on open: line 44 is commented out and
  line 45 resets the list. Every rendered item therefore starts unchecked.
- Toggling is not self-inverse for a present name: the second toggle pushes
  the name at the end (`Selection.ToggleTwicePresent`).
- An export with no rows does not produce a header-only file: `data[0]` is
  undefined and `csvmaker` throws (`NoData`).
- Only the first comma of a cell is removed, not every thousands separator
  (`Export.SecondCommaSurvives`).
- The header is the keys of the first record, not the column list. With
  duplicate column names it is the distinct names, and each takes the value
  of its last cell.
- An export with nothing selected is not a separate error: `getSelectedSheet`
  gets `undefined`, finds nothing, and the call on the missing worksheet
  throws. The model returns `NoWorksheet` for this and for a name that
  matches no worksheet.

## Model

| member | source | states |
|---|---|---|
| `Seqs.IndexOf` | ExcelDialog.js:66 | `indexOf` returns -1 exactly when the value is absent, otherwise a position holding it with no earlier copy |
| `Seqs.DistinctOrder` | ExcelDialog.js:53 | keeping only names not yet pushed lists them in order of first occurrence |
| `Text.RemoveFirst` | ExcelDialog.js:125 | `replace(c, '')` shortens the text by one character when `c` occurs and keeps its length otherwise |
| `Text.RemoveFirstAbsent` | ExcelDialog.js:125 | with no `c` in the text, `replace(c, '')` returns it unchanged |
| `Text.RemoveFirstAt` | ExcelDialog.js:125 | when `c` occurs, `replace(c, '')` deletes exactly the character at the first position of `c` |
| `Text.RemoveFirstAfter` | ExcelDialog.js:125 | a text whose first `c` follows a `c`-free prefix loses that `c` and nothing else; whatever follows, later copies included, stays |
| `Text.RemoveFirstKeeps` | ExcelDialog.js:125 | every character other than `c` occurs in the result iff it occurs in the text |
| `Text.RemoveFirstClears` | ExcelDialog.js:125 | the result is free of `c` iff the text held at most one `c` |
| `Text.OnlyFirstRemoved` | ExcelDialog.js:125 | when `c` occurs, `replace(c, '')` shortens the text by one and the removed character is a single copy of `c`: the multiset of characters loses exactly that one element |
| `Text.Join` | ExcelDialog.js:179-189 | a join of one or more parts starts with the first part, and with two or more parts the separator follows it |
| `Text.SplitJoin` | ExcelDialog.js:179-189 | splitting a join on its separator gives the parts back if and only if there is at least one part and none contains the separator |
| `Text.JoinChars` | ExcelDialog.js:179-189 | a joined line contains a character iff some part does, or it is the separator and there are two or more parts |
| `Text.SplitPair` | ExcelDialog.js:179-189 | a line made of two separator-free fields around one separator splits into exactly those two fields |
| `Selection.Toggled` | ExcelDialog.js:66-71 | a toggle shortens the list by one when `id` is present and otherwise lengthens it by one, with `id` pushed at the end |
| `Selection.ToggleKeepsOthers` | ExcelDialog.js:65-72 | after a toggle, every name other than `id` has the same presence and the same relative order as before |
| `Selection.ToggleFlips` | ExcelDialog.js:66-71 | on a duplicate-free list a toggle makes `id` present iff it was absent, changes the length by exactly +1 or -1, and leaves no duplicates |
| `Selection.ToggleStaysWithin` | ExcelDialog.js:86-88 | toggling only rendered names keeps every selected name a rendered one |
| `Selection.ToggleTwiceAbsent` | ExcelDialog.js:67-68 | toggling an absent name twice restores the identical list |
| `Selection.ToggleTwicePresent` | ExcelDialog.js:67-70 | toggling a present name twice keeps the same names but moves that name to the end |
| `Selection.VisibleStep` | ExcelDialog.js:53-56 | one round of the loop pushes a worksheet name iff it is not yet visible and contains `'*'` |
| `Selection.VisibleNamesSpec` | ExcelDialog.js:50-57 | the visible list has no duplicates, holds exactly the worksheet names containing `'*'`, and orders them by first occurrence on the dashboard |
| `Selection.SeedItems` | ExcelDialog.js:50-57 | the loop yields the visible list and one item per visible name, carrying the label of line 93 and checked iff the name is in the selection |
| `Sheets.Label` | ExcelDialog.js:93 | the label is one character shorter than the name when the name holds a `'*'`, and is the name itself otherwise |
| `Sheets.FileName` | ExcelDialog.js:161 | the file name is the label followed by `.csv` |
| `Sheets.LabelStripsFirstMarker` | ExcelDialog.js:93 | the label removes only the first `'*'` of the name; later ones stay |
| `Sheets.FileNameShape` | ExcelDialog.js:161 | the file name is the label followed by `.csv`, three or four characters longer than the sheet name |
| `Sheets.FindByName` | ExcelDialog.js:194-196 | `find` returns undefined iff no worksheet has the name, otherwise the worksheet at the name's first position |
| `Sheets.GetSelectedSheet` | ExcelDialog.js:192-197 | an undefined name or a name no worksheet has gives undefined; otherwise the result is the first worksheet with exactly that name |
| `Export.Get` | ExcelDialog.js:131 | reading a property is defined iff the key is among the object's keys |
| `Export.GetFirst` | ExcelDialog.js:131 | a defined read gives the value stored at the key's first position in key order |
| `Export.Assign` | ExcelDialog.js:131 | assigning to an existing key keeps the key order; a new key is appended at the end |
| `Export.AssignGet` | ExcelDialog.js:131 | after an assignment the key reads back the assigned value (last write wins), and every other key reads as before |
| `Export.CellText` | ExcelDialog.js:125 | a cell's text is its formatted value unchanged when it holds no comma, and one character shorter otherwise |
| `Export.ExtraCellsUndefined` | ExcelDialog.js:123-131 | a row longer than the column list yields a `"undefined"` property holding the text of the row's last cell |
| `Export.RowToRecord` | ExcelDialog.js:123-133 | the `forEach` builds the object that assigning every cell's text under its column, first to last, produces |
| `Export.BuildRecordShape` | ExcelDialog.js:122-134 | the object's keys are the column keys in first-occurrence order, and each key holds the text of the last cell under it |
| `Export.MapRows` | ExcelDialog.js:122-134 | `marks.data.map` gives one object per row, in row order |
| `Export.AlignedRecords` | ExcelDialog.js:118-134 | rows as long as the column list give objects whose keys are the distinct column names, so every record has as many values as the header has keys (a value that kept a comma still splits into more fields; see `Export.SecondCommaSurvives`) |
| `Export.AlignedRecordValues` | ExcelDialog.js:118-134 | with distinct column names an aligned row's object has the column names as keys and the cell texts as values, in column order |
| `Export.CellTextCommas` | ExcelDialog.js:125 | a cell's text is comma-free iff its formatted value had at most one comma; newlines are kept |
| `Export.SecondCommaSurvives` | ExcelDialog.js:125 | a value with two thousands separators keeps its second comma and splits into two fields |
| `Export.Keys` | ExcelDialog.js:174 | `Object.keys` lists one key per property |
| `Export.Values` | ExcelDialog.js:184 | `Object.values` lists one value per property |
| `Export.KeysValuesAt` | ExcelDialog.js:174-184 | `Object.keys` and `Object.values` list the properties' keys and values in the same insertion order |
| `Export.CsvText` | ExcelDialog.js:167-190 | csvmaker fails with `NoData` exactly when there are no records; a produced text starts with the header line, the first record's keys joined by `,` |
| `Export.CsvMaker` | ExcelDialog.js:167-190 | no records fail with `NoData`; otherwise the text is the header line, then one line per record, joined by `\n` |
| `Export.CsvDocument` | ExcelDialog.js:174-189 | csvmaker pushes `records + 1` lines; splitting recovers the lines iff no field holds `\n`, and recovers a line's fields iff the line has fields and none holds `,` |
| `Export.SummaryRoundTrip` | ExcelDialog.js:118-136 | for at least one row and one column, distinct column names free of `,` and `\n`, every row as long as the column list, and cells with no newline and at most one comma, csvmaker succeeds and the file splits back into the column names and each row's cell texts |
| `Dialog.ExportOutcome` | ExcelDialog.js:111-140 | with an empty selection, or a first name matching no worksheet, the export fails with `NoWorksheet`; a worksheet with no rows fails with `NoData`; otherwise the file is named after the first selected name and holds the csvmaker text |
| `Dialog.ExportOf` | ExcelDialog.js:111-140 | with nothing selected the export fails with `NoWorksheet`; a produced file is named after the first selected name |
| `Dialog.Dialog.constructor` | ExcelDialog.js:27 | the selection starts empty |
| `Dialog.Dialog.Open` | ExcelDialog.js:43-57 | the selection is reset to empty and every rendered item, one per visible name, starts unchecked |
| `Dialog.Dialog.UpdateDatasourceList` | ExcelDialog.js:65-72 | the new list is the toggle of the old one, and it stays free of duplicates |
| `Dialog.Dialog.ShowData` | ExcelDialog.js:111-140 | the export delivers what `ExportOf` describes for the current selection |
| `Dialog.Dialog.CloseDialog` | ExcelDialog.js:103-104 | the list is written unchanged under the key `selectedDatasources` |

## Left out

- Host calls: `initializeDialogAsync`, `settings.saveAsync` and `ui.closeDialog` are calls into the Tableau extensions library, which is not part of this model.
- `getSummaryDataAsync` is not modelled. Its result is an input field of each worksheet, so its `maxRows: 50000` cap is not modelled either.
- Promises: `ShowData` runs the `then` continuation at once. The source appends the worksheet name to the page (line 141) before the data arrives.
- `ShowData` stops at the download. The `closeDialog()` that follows it (line 139) is `Dialog.Dialog.CloseDialog`.
- DOM and jQuery: building the radio items and wiring the clicks are not modelled. The browser's checked state of the radio group is not modelled; the model records the toggle of each click.
- The Blob, the object URL and the anchor click of `download` are browser I/O. Only the file name and the text content are modelled.
- `JSON.stringify` of the selection is a library serialiser. The snapshot is the list itself.
- The interval open/close payload is passed through untouched and is not modelled.
- JavaScript object key quirks are not modelled: integer-like keys are listed first by `Object.keys`, and assigning to `__proto__` does not create a property. Column names are treated as ordinary strings.
- The intermediate one-property objects of `row.map` are folded into `RowToRecord`, which reads each one back as its key and value.
- Both kinds of missing worksheet surface as one error, `NoWorksheet`; in the source they are the same `TypeError`.
