/** The dashboard's worksheets as the dialog sees them: their names, the
    '*' naming convention, the label and file name derived from a name, and
    getSelectedSheet. */
module Sheets {
  import opened Wrappers
  import opened Seqs
  import opened Text
  import opened Export

  /** A worksheet of the dashboard: its name, and the summary data the host
      returns for it from getSummaryDataAsync. */
  datatype Worksheet = Worksheet(name: string, summary: SummaryData)

  /** A worksheet whose name contains this character is offered in the dialog. */
  const Marker: char := '*'

  /** worksheet.name for each worksheet, in dashboard order. */
  function Names(worksheets: seq<Worksheet>): (names: seq<string>)
    ensures |names| == |worksheets|
  {
    seq(|worksheets|, i requires 0 <= i < |worksheets| => worksheets[i].name)
  }

  /** The text of a worksheet's label: name.replace('*', ''). */
  function Label(name: string): (r: string)
    ensures |r| == if Marker in name then |name| - 1 else |name|
    ensures Marker !in name ==> r == name
  {
    // both branches are name.replace('*', ''); the second only brings in
    // RemoveFirstAbsent, which proves the identity clause above
    if Marker in name then RemoveFirst(name, Marker)
    else RemoveFirstAbsent(name, Marker); RemoveFirst(name, Marker)
  }

  /** The name of the downloaded file: sheetName.replace('*', '').concat('.csv'). */
  function FileName(sheetName: string): (r: string)
    ensures |r| >= 4 && r[..|r| - 4] == Label(sheetName) && r[|r| - 4..] == ".csv"
  {
    RemoveFirst(sheetName, Marker) + ".csv"
  }

  /** Only the first marker is stripped from a label; any later marker stays. */
  lemma LabelStripsFirstMarker(name: string)
    ensures Marker !in name ==> Label(name) == name
    ensures Marker in name ==>
      var i := IndexOf(name, Marker);
      Label(name) == name[..i] + name[i + 1..] &&
      multiset(Label(name))[Marker] == multiset(name)[Marker] - 1
  {
    if Marker in name {
      RemoveFirstAt(name, Marker);
      OnlyFirstRemoved(name, Marker);
    } else {
      RemoveFirstAbsent(name, Marker);
    }
  }

  /** The file name is the sheet name without its first marker, then ".csv". */
  lemma FileNameShape(sheetName: string)
    ensures |FileName(sheetName)| == |sheetName| + 4 - (if Marker in sheetName then 1 else 0)
    ensures FileName(sheetName)[..|FileName(sheetName)| - 4] == Label(sheetName)
    ensures FileName(sheetName)[|FileName(sheetName)| - 4..] == ".csv"
  {
    if Marker in sheetName {
      OnlyFirstRemoved(sheetName, Marker);
    }
  }

  /** worksheets.find(sheet => sheet.name === name): the first worksheet
      with exactly that name, or undefined. */
  function FindByName(worksheets: seq<Worksheet>, name: string): (r: Option<Worksheet>)
    ensures r.None? <==> name !in Names(worksheets)
    ensures r.Some? ==> r.value == worksheets[IndexOf(Names(worksheets), name)]
  {
    if |worksheets| == 0 then None
    else
      assert Names(worksheets) == [worksheets[0].name] + Names(worksheets[1..]);
      if worksheets[0].name == name then Some(worksheets[0])
      else FindByName(worksheets[1..], name)
  }

  /** getSelectedSheet(worksheetName). The name may be undefined (the first
      entry of an empty selection), which equals no worksheet's name. */
  function GetSelectedSheet(worksheets: seq<Worksheet>, worksheetName: Option<string>): (r: Option<Worksheet>)
    ensures r.Some? <==> worksheetName.Some? && worksheetName.value in Names(worksheets)
    ensures r.Some? ==>
      var i := IndexOf(Names(worksheets), worksheetName.value);
      r.value == worksheets[i] && r.value.name == worksheetName.value &&
      forall j :: 0 <= j < i ==> worksheets[j].name != worksheetName.value
  {
    match worksheetName
    case None => None
    case Some(name) =>
      var r := FindByName(worksheets, name);
      var i := IndexOf(Names(worksheets), name);
      assert r.Some? ==> forall j :: 0 <= j < i ==> Names(worksheets)[..i][j] == worksheets[j].name;
      r
  }
}
