/** The export pipeline of showData and csvmaker: summary rows become plain
    objects keyed by column name, and the objects become comma-separated
    text with one line per object under a header line. */
module Export {
  import opened Wrappers
  import opened Seqs
  import opened Text

  /** What getSummaryDataAsync hands back, reduced to what the export reads:
      each column's fieldName, and each row's cells by their formattedValue. */
  datatype SummaryData = SummaryData(columns: seq<string>, data: seq<seq<string>>)

  /** One own property of a JavaScript object whose values are strings. */
  datatype Entry = Entry(key: string, value: string)

  /** A plain JavaScript object: its properties in insertion order. */
  type Record = seq<Entry>

  /** Why an export produces no file. */
  datatype ExportError =
    | NoWorksheet  // the selected name is undefined or names no worksheet
    | NoData       // csvmaker was handed no rows, so data[0] is undefined

  /** Object.keys */
  function Keys(rec: Record): (ks: seq<string>)
    ensures |ks| == |rec|
  {
    if |rec| == 0 then [] else [rec[0].key] + Keys(rec[1..])
  }

  /** Object.values */
  function Values(rec: Record): (vs: seq<string>)
    ensures |vs| == |rec|
  {
    if |rec| == 0 then [] else [rec[0].value] + Values(rec[1..])
  }

  /** rec[k]: the value of the first property named k, or undefined. */
  function Get(rec: Record, k: string): (r: Option<string>)
    ensures r.Some? <==> k in Keys(rec)
  {
    if |rec| == 0 then None
    else if rec[0].key == k then Some(rec[0].value)
    else Get(rec[1..], k)
  }

  /** A property read finds the value at the key's first position. */
  lemma {:induction false} GetFirst(rec: Record, k: string)
    requires k in Keys(rec)
    ensures Get(rec, k) == Some(rec[IndexOf(Keys(rec), k)].value)
  {
    if rec[0].key != k {
      GetFirst(rec[1..], k);
      assert Keys(rec)[1..] == Keys(rec[1..]);
    }
  }

  /** rec[k] = v: an existing property keeps its place and takes the new
      value; a new one goes at the end. */
  function Assign(rec: Record, k: string, v: string): (r: Record)
    ensures Keys(r) == if k in Keys(rec) then Keys(rec) else Keys(rec) + [k]
  {
    if |rec| == 0 then [Entry(k, v)]
    else if rec[0].key == k then
      var r := [Entry(k, v)] + rec[1..];
      assert r[1..] == rec[1..];
      assert Keys(r) == [k] + Keys(rec[1..]) == Keys(rec);
      r
    else
      var t := Assign(rec[1..], k, v);
      var r := [rec[0]] + t;
      assert r[1..] == t;
      assert Keys(r) == [rec[0].key] + Keys(t);
      assert Keys(rec) == [rec[0].key] + Keys(rec[1..]);
      r
  }

  /** After rec[k] = v, reading k gives v and reading any other key gives
      what it gave before. */
  lemma {:induction false} AssignGet(rec: Record, k: string, v: string, k': string)
    ensures Get(Assign(rec, k, v), k) == Some(v)
    ensures k' != k ==> Get(Assign(rec, k, v), k') == Get(rec, k')
  {
    var r := Assign(rec, k, v);
    if |rec| > 0 {
      assert r[1..] == if rec[0].key == k then rec[1..] else Assign(rec[1..], k, v);
      if rec[0].key != k {
        AssignGet(rec[1..], k, v, k');
      }
    }
  }

  /** columns[index] as a property key: past the last column it is undefined,
      which becomes the key "undefined". */
  function ColumnKey(columns: seq<string>, index: nat): string {
    if index < |columns| then columns[index] else "undefined"
  }

  /** The keys the first n cells of a row are stored under. */
  function ColumnKeys(columns: seq<string>, n: nat): (ks: seq<string>)
    ensures |ks| == n
  {
    seq(n, i requires 0 <= i => ColumnKey(columns, i))
  }

  /** formattedValue.replace(',', '') */
  function CellText(formattedValue: string): (r: string)
    ensures |r| == if ',' in formattedValue then |formattedValue| - 1 else |formattedValue|
    ensures ',' !in formattedValue ==> r == formattedValue
  {
    // both branches are formattedValue.replace(',', ''); the second only
    // brings in RemoveFirstAbsent, which proves the identity clause above
    if ',' in formattedValue then RemoveFirst(formattedValue, ',')
    else RemoveFirstAbsent(formattedValue, ','); RemoveFirst(formattedValue, ',')
  }

  /** The object objtemp that the forEach over one row builds, assignment by
      assignment from the first cell to the last. */
  function BuildRecord(columns: seq<string>, row: seq<string>): Record
    decreases |row|
  {
    if |row| == 0 then []
    else
      var n := |row| - 1;
      Assign(BuildRecord(columns, row[..n]), ColumnKey(columns, n), CellText(row[n]))
  }

  /** The forEach over one row (the row.map to one-property objects is folded
      in: each cell's object is read back as its only key and value). */
  method RowToRecord(columns: seq<string>, row: seq<string>) returns (objtemp: Record)
    ensures objtemp == BuildRecord(columns, row)
  {
    objtemp := [];
    for index := 0 to |row|
      invariant objtemp == BuildRecord(columns, row[..index])
    {
      assert row[..index + 1][..index] == row[..index];
      objtemp := Assign(objtemp, ColumnKey(columns, index), CellText(row[index]));
    }
    assert row[..|row|] == row;
  }

  /** The texts of a row's cells, one per cell. */
  function CellTexts(row: seq<string>): (ts: seq<string>)
    ensures |ts| == |row|
  {
    seq(|row|, i requires 0 <= i < |row| => CellText(row[i]))
  }

  /** rec is what assigning vals[i] to ks[i], for i in order, builds. */
  ghost predicate Built(rec: Record, ks: seq<string>, vals: seq<string>)
    requires |ks| == |vals|
  {
    Keys(rec) == Distinct(ks) &&
    forall k :: Get(rec, k) == if k in ks then Some(vals[LastIndexOf(ks, k)]) else None
  }

  lemma BuiltStep(rec: Record, ks: seq<string>, vals: seq<string>, k: string, v: string)
    requires |ks| == |vals| && Built(rec, ks, vals)
    ensures Built(Assign(rec, k, v), ks + [k], vals + [v])
  {
    DistinctAppend(ks, k);
    forall k' ensures Get(Assign(rec, k, v), k') ==
      if k' in ks + [k] then Some((vals + [v])[LastIndexOf(ks + [k], k')]) else None
    {
      BuiltStepAt(rec, ks, vals, k, v, k');
    }
  }

  lemma BuiltStepAt(rec: Record, ks: seq<string>, vals: seq<string>, k: string, v: string, k': string)
    requires |ks| == |vals|
    requires Get(rec, k') == if k' in ks then Some(vals[LastIndexOf(ks, k')]) else None
    ensures Get(Assign(rec, k, v), k') ==
      if k' in ks + [k] then Some((vals + [v])[LastIndexOf(ks + [k], k')]) else None
  {
    AssignGet(rec, k, v, k');
    if k' != k {
      LastIndexOfAppend(ks, k, k');
      assert k' in ks + [k] <==> k' in ks;
    } else {
      assert (ks + [k])[|ks|] == k;
    }
  }

  lemma SnocKeysAndTexts(columns: seq<string>, row: seq<string>)
    requires |row| > 0
    ensures ColumnKeys(columns, |row|) == ColumnKeys(columns, |row| - 1) + [ColumnKey(columns, |row| - 1)]
    ensures CellTexts(row) == CellTexts(row[..|row| - 1]) + [CellText(row[|row| - 1])]
  {
  }

  lemma {:induction false} BuildRecordBuilt(columns: seq<string>, row: seq<string>)
    ensures Built(BuildRecord(columns, row), ColumnKeys(columns, |row|), CellTexts(row))
  {
    if |row| > 0 {
      var n := |row| - 1;
      var pre := row[..n];
      var ks, vals := ColumnKeys(columns, n), CellTexts(pre);
      var k, v := ColumnKey(columns, n), CellText(row[n]);
      BuildRecordBuilt(columns, pre);
      BuiltStep(BuildRecord(columns, pre), ks, vals, k, v);
      SnocKeysAndTexts(columns, row);
    }
  }

  /** The record's keys are the column keys in order of first occurrence, and
      each key holds the text of the LAST cell stored under it. */
  lemma BuildRecordShape(columns: seq<string>, row: seq<string>)
    ensures var rec, ks := BuildRecord(columns, row), ColumnKeys(columns, |row|);
      Keys(rec) == Distinct(ks) &&
      forall k :: Get(rec, k) == if k in ks then Some(CellText(row[LastIndexOf(ks, k)])) else None
  {
    BuildRecordBuilt(columns, row);
  }

  /** A row longer than the column list reads columns[index] past its end,
      which is undefined, so every extra cell is assigned under the key
      "undefined" and the last of them wins. */
  lemma ExtraCellsUndefined(columns: seq<string>, row: seq<string>)
    requires |columns| < |row|
    ensures "undefined" in Keys(BuildRecord(columns, row))
    ensures Get(BuildRecord(columns, row), "undefined") == Some(CellText(row[|row| - 1]))
  {
    var n := |row| - 1;
    var prev := BuildRecord(columns, row[..n]);
    assert ColumnKey(columns, n) == "undefined";
    assert BuildRecord(columns, row) == Assign(prev, "undefined", CellText(row[n]));
    AssignGet(prev, "undefined", CellText(row[n]), "undefined");
  }

  /** marks.data.map(...): one record per row. */
  function ToRecords(marks: SummaryData): (records: seq<Record>) {
    seq(|marks.data|, i requires 0 <= i < |marks.data| => BuildRecord(marks.columns, marks.data[i]))
  }

  /** marks.data.map(...), calling the per-row forEach for each row. */
  method MapRows(marks: SummaryData) returns (datatest: seq<Record>)
    ensures datatest == ToRecords(marks)
  {
    ghost var all := ToRecords(marks);
    datatest := [];
    for i := 0 to |marks.data|
      invariant |all| == |marks.data|
      invariant datatest == all[..i]
    {
      var objtemp := RowToRecord(marks.columns, marks.data[i]);
      assert objtemp == all[i];
      PrefixSnoc(all, datatest, objtemp);
      datatest := datatest + [objtemp];
    }
    assert all[..|all|] == all;
  }

  /** Rows as long as the column list give records keyed by the distinct
      column names, so every record has as many values as the header has
      keys. A value that kept a comma still splits into more fields when the
      line is read back (see SecondCommaSurvives). */
  lemma AlignedRecords(marks: SummaryData)
    requires forall r :: r in marks.data ==> |r| == |marks.columns|
    ensures forall i :: 0 <= i < |marks.data| ==>
      Keys(ToRecords(marks)[i]) == Distinct(marks.columns) &&
      |Values(ToRecords(marks)[i])| == |Distinct(marks.columns)|
  {
    forall i | 0 <= i < |marks.data|
      ensures Keys(ToRecords(marks)[i]) == Distinct(marks.columns)
    {
      assert marks.data[i] in marks.data;
      BuildRecordShape(marks.columns, marks.data[i]);
      assert ColumnKeys(marks.columns, |marks.columns|) == marks.columns;
    }
  }

  /** The lines csvmaker pushes: the keys of the first record, then each
      record's values, the fields of a line joined by ','. */
  function CsvLines(data: seq<Record>): (lines: seq<string>)
    requires |data| > 0
  {
    [Join(Keys(data[0]), ',')] + seq(|data|, i requires 0 <= i < |data| => Join(Values(data[i]), ','))
  }

  /** What csvmaker(data) returns: its lines joined by '\n' (no carriage
      returns, no trailing newline, nothing quoted). With no records, reading
      the keys of data[0] throws. */
  function CsvText(data: seq<Record>): (r: Result<string, ExportError>)
    ensures r.Failure? <==> |data| == 0
    ensures r.Failure? ==> r.error == NoData
    ensures r.Success? ==> Join(Keys(data[0]), ',') <= r.value
  {
    if |data| == 0 then Failure(NoData) else Success(Join(CsvLines(data), '\n'))
  }

  method CsvMaker(data: seq<Record>) returns (r: Result<string, ExportError>)
    ensures r == CsvText(data)
  {
    if |data| == 0 {
      return Failure(NoData);
    }
    var headers := Keys(data[0]);
    var csvRows := [Join(headers, ',')];
    for i := 0 to |data|
      invariant csvRows == CsvLines(data)[..i + 1]
    {
      csvRows := csvRows + [Join(Values(data[i]), ',')];
    }
    assert csvRows == CsvLines(data);
    r := Success(Join(csvRows, '\n'));
  }

  /** No header key and no value contains c. */
  predicate FieldsAvoid(data: seq<Record>, c: char)
    requires |data| > 0
  {
    Avoid(Keys(data[0]), c) && forall i :: 0 <= i < |data| ==> Avoid(Values(data[i]), c)
  }

  /** csvmaker's text has one line per record after the header; splitting it
      on '\n' gives those lines back exactly when no field holds a '\n', and
      splitting a line on ',' gives its fields back exactly when it has some
      and none holds a ','. */
  lemma CsvDocument(data: seq<Record>)
    requires |data| > 0
    ensures CsvText(data).Success?
    ensures |CsvLines(data)| == |data| + 1
    ensures Split(CsvText(data).value, '\n') == CsvLines(data) <==> FieldsAvoid(data, '\n')
    ensures Split(CsvLines(data)[0], ',') == Keys(data[0]) <==> |data[0]| > 0 && Avoid(Keys(data[0]), ',')
    ensures forall i :: 0 <= i < |data| ==>
      (Split(CsvLines(data)[i + 1], ',') == Values(data[i]) <==> |data[i]| > 0 && Avoid(Values(data[i]), ','))
  {
    var lines := CsvLines(data);
    SplitJoin(lines, '\n');
    SplitJoin(Keys(data[0]), ',');
    JoinChars(Keys(data[0]), ',', '\n');
    forall i | 0 <= i < |data|
      ensures Split(lines[i + 1], ',') == Values(data[i]) <==> |data[i]| > 0 && Avoid(Values(data[i]), ',')
      ensures '\n' in lines[i + 1] <==> !Avoid(Values(data[i]), '\n')
    {
      SplitJoin(Values(data[i]), ',');
      JoinChars(Values(data[i]), ',', '\n');
    }
    assert Avoid(lines, '\n') <==> FieldsAvoid(data, '\n') by {
      if Avoid(lines, '\n') {
        forall i | 0 <= i < |data| ensures Avoid(Values(data[i]), '\n') {
          assert '\n' !in lines[i + 1];
        }
      }
      if FieldsAvoid(data, '\n') {
        forall j | 0 <= j < |lines| ensures '\n' !in lines[j] {
          if j > 0 {
            assert Avoid(Values(data[j - 1]), '\n');
          }
        }
      }
    }
  }

  /** Keys and values line up with the entries. */
  lemma {:induction false} KeysValuesAt(rec: Record, j: nat)
    requires j < |rec|
    ensures Keys(rec)[j] == rec[j].key && Values(rec)[j] == rec[j].value
  {
    if j > 0 {
      KeysValuesAt(rec[1..], j - 1);
    }
  }

  /** The comma rule of a cell: its text is free of ',' exactly when the
      formatted value had at most one, and a second comma survives. */
  lemma CellTextCommas(formattedValue: string)
    ensures ',' !in CellText(formattedValue) <==> multiset(formattedValue)[','] <= 1
    ensures '\n' in CellText(formattedValue) <==> '\n' in formattedValue
  {
    RemoveFirstClears(formattedValue, ',');
    RemoveFirstKeeps(formattedValue, ',', '\n');
  }

  /** A value with two thousands separators, a,b,c, keeps its second comma,
      and the line it lands on splits into one field more than intended. */
  lemma SecondCommaSurvives(a: string, b: string, c: string)
    requires ',' !in a && ',' !in b && ',' !in c
    ensures CellText(a + [','] + b + [','] + c) == a + b + [','] + c
    ensures Split(CellText(a + [','] + b + [','] + c), ',') == [a + b, c]
  {
    RemoveFirstAfter(a, ',', b + [','] + c);
    AppendAssoc(a + [','], b + [','], c);
    AppendAssoc(a + [','], b, [',']);
    AppendAssoc(a, b + [','], c);
    AppendAssoc(a, b, [',']);
    assert ',' !in a + b;
    SplitPair(a + b, c, ',');
  }

  /** With distinct column names and rows as long as the column list, each
      record holds exactly the row's cell texts, in column order. */
  lemma AlignedRecordValues(columns: seq<string>, row: seq<string>)
    requires NoDup(columns) && |row| == |columns|
    ensures Keys(BuildRecord(columns, row)) == columns
    ensures Values(BuildRecord(columns, row)) == CellTexts(row)
  {
    var rec := BuildRecord(columns, row);
    ColumnKeysAligned(columns);
    BuildRecordShape(columns, row);
    DistinctOfNoDup(columns);
    forall j | 0 <= j < |rec| ensures Values(rec)[j] == CellTexts(row)[j] {
      ValueAtColumn(rec, columns, row, j);
    }
  }

  lemma ColumnKeysAligned(columns: seq<string>)
    ensures ColumnKeys(columns, |columns|) == columns
  {
  }

  lemma ValueAtColumn(rec: Record, columns: seq<string>, row: seq<string>, j: nat)
    requires NoDup(columns) && |row| == |columns| && j < |row|
    requires Keys(rec) == columns
    requires Get(rec, columns[j]) == Some(CellText(row[LastIndexOf(columns, columns[j])]))
    ensures Values(rec)[j] == CellText(row[j])
  {
    KeysValuesAt(rec, j);
    GetFirst(rec, columns[j]);
    assert IndexOf(Keys(rec), columns[j]) == j;
    assert LastIndexOf(columns, columns[j]) == j;
  }

  /** The export as a whole: for a table with at least one row and one
      column, distinct, comma- and newline-free column names, every row as
      long as the column list, and cells holding no newline and at most one
      comma, the file splits back into the column names and each row's cell
      texts. */
  lemma SummaryRoundTrip(marks: SummaryData)
    requires |marks.data| > 0 && |marks.columns| > 0 && NoDup(marks.columns)
    requires Avoid(marks.columns, ',') && Avoid(marks.columns, '\n')
    requires forall i :: 0 <= i < |marks.data| ==> |marks.data[i]| == |marks.columns|
    requires forall i, j :: 0 <= i < |marks.data| && 0 <= j < |marks.data[i]| ==>
      multiset(marks.data[i][j])[','] <= 1 && '\n' !in marks.data[i][j]
    ensures CsvText(ToRecords(marks)).Success?
    ensures var lines := Split(CsvText(ToRecords(marks)).value, '\n');
      |lines| == |marks.data| + 1 &&
      Split(lines[0], ',') == marks.columns &&
      forall i :: 0 <= i < |marks.data| ==> Split(lines[i + 1], ',') == CellTexts(marks.data[i])
  {
    var records := ToRecords(marks);
    forall i | 0 <= i < |marks.data|
      ensures Keys(records[i]) == marks.columns && Values(records[i]) == CellTexts(marks.data[i])
      ensures Avoid(Values(records[i]), ',') && Avoid(Values(records[i]), '\n')
    {
      AlignedRecordValues(marks.columns, marks.data[i]);
      forall j | 0 <= j < |marks.data[i]| ensures ',' !in CellTexts(marks.data[i])[j] && '\n' !in CellTexts(marks.data[i])[j] {
        CellTextCommas(marks.data[i][j]);
      }
    }
    CsvDocument(records);
  }
}
