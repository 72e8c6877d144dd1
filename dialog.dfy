/** The popup: the module-level list selectedDatasources and the handlers
    that fill it, toggle it, export the first selected worksheet and hand
    the list to the settings store. */
module Dialog {
  import opened Wrappers
  import opened Seqs
  import opened Text
  import opened Export
  import opened Sheets
  import opened Selection

  /** The file the browser is asked to save: its name and its text/csv body. */
  datatype Download = Download(fileName: string, content: string)

  /** The settings key the selection is saved under. */
  const DatasourcesSettingsKey: string := "selectedDatasources"

  /** selectedDatasources[0], which is undefined for an empty selection. */
  function FirstSelected(selected: seq<string>): Option<string> {
    if |selected| == 0 then None else Some(selected[0])
  }

  /** What showData delivers for a selection: the file built from the first
      selected worksheet's summary data, or why there is none. */
  function ExportOf(selected: seq<string>, worksheets: seq<Worksheet>): (r: Result<Download, ExportError>)
    ensures |selected| == 0 ==> r == Failure(NoWorksheet)
    ensures r.Success? ==> |selected| > 0 && r.value.fileName == FileName(selected[0])
  {
    match GetSelectedSheet(worksheets, FirstSelected(selected))
    case None => Failure(NoWorksheet)
    case Some(worksheet) =>
      match CsvText(ToRecords(worksheet.summary))
      case Failure(e) => Failure(e)
      case Success(csvdata) => Success(Download(FileName(worksheet.name), csvdata))
  }

  /** showData fails before any host call when nothing is selected or the
      first name matches no worksheet; it fails in csvmaker when that
      worksheet has no rows; otherwise the file is named after the first
      selected name and holds the csvmaker text of that worksheet's rows. */
  lemma ExportOutcome(selected: seq<string>, worksheets: seq<Worksheet>)
    ensures |selected| == 0 ==> ExportOf(selected, worksheets) == Failure(NoWorksheet)
    ensures |selected| > 0 && selected[0] !in Names(worksheets) ==>
      ExportOf(selected, worksheets) == Failure(NoWorksheet)
    ensures |selected| > 0 && selected[0] in Names(worksheets) ==>
      var marks := worksheets[IndexOf(Names(worksheets), selected[0])].summary;
      ExportOf(selected, worksheets) ==
        if |marks.data| == 0 then Failure(NoData)
        else Success(Download(FileName(selected[0]), Join(CsvLines(ToRecords(marks)), '\n')))
  {
  }

  class Dialog {
    /** selectedDatasources */
    var selected: seq<string>

    /** Toggling alone never puts a name in the list twice. */
    ghost predicate Valid()
      reads this
    {
      NoDup(selected)
    }

    /** let selectedDatasources = [] */
    constructor ()
      ensures Valid() && selected == []
    {
      selected := [];
    }

    /** The ready handler once initializeDialogAsync resolves: the selection
        is reset (the reload from settings is disabled), and one radio item
        per visible worksheet is rendered, every one unchecked. */
    method Open(worksheets: seq<Worksheet>) returns (items: seq<Item>)
      modifies this
      ensures Valid() && selected == []
      ensures |items| == |VisibleNames(worksheets)|
      ensures forall i :: 0 <= i < |items| ==>
        items[i] == Item(VisibleNames(worksheets)[i], Label(VisibleNames(worksheets)[i]), false)
    {
      selected := [];
      var visibleDatasources;
      visibleDatasources, items := SeedItems(worksheets, selected);
    }

    /** updateDatasourceList(id), run on every click of a radio item. */
    method UpdateDatasourceList(id: string)
      requires Valid()
      modifies this
      ensures Valid()
      ensures selected == Toggled(old(selected), id)
    {
      ToggleFlips(selected, id);
      var idIndex := IndexOf(selected, id);
      if idIndex < 0 {
        selected := selected + [id];
      } else {
        selected := selected[..idIndex] + selected[idIndex + 1..];
      }
    }

    /** showData up to the download: look up the first selected worksheet,
        turn each summary row into a record, and run csvmaker. */
    method ShowData(worksheets: seq<Worksheet>) returns (r: Result<Download, ExportError>)
      ensures r == ExportOf(selected, worksheets)
    {
      var worksheet := GetSelectedSheet(worksheets, FirstSelected(selected));
      if worksheet.None? {
        // worksheet.getSummaryDataAsync on undefined throws
        return Failure(NoWorksheet);
      }
      var datatest := MapRows(worksheet.value.summary);
      var csvdata := CsvMaker(datatest);
      match csvdata
      case Failure(e) =>
        r := Failure(e);
      case Success(text) =>
        r := Success(Download(FileName(worksheet.value.name), text));
    }

    /** closeDialog: the key and the list written to the settings store
        (the list is stored as its JSON text). */
    method CloseDialog() returns (key: string, snapshot: seq<string>)
      ensures key == DatasourcesSettingsKey && snapshot == selected
    {
      key, snapshot := DatasourcesSettingsKey, selected;
    }
  }
}
