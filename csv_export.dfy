/**
 * The CSV export: a header line with the row names, then one line per
 * top-level record giving, for each row name, the text of the record's first
 * child with that tag.
 */
module CsvExport {
  import opened Wrappers
  import opened XmlTree
  import opened SqlSchema

  /**
   * The file as written: the header, then one line of fields per record.
   * A field is None where the child exists but has no text (the CSV writer
   * renders that as an empty field).
   */
  datatype CsvFile = CsvFile(header: seq<string>, rows: seq<seq<Option<string>>>)

  /** `col.find(row)`: the text of the first child tagged `name`, or `""` when there is none. */
  function Cell(record: Element, name: string): (v: Option<string>)
    ensures (forall i :: 0 <= i < |record.children| ==> record.children[i].tag != name) ==> v == Some("")
    ensures forall i :: (0 <= i < |record.children| && record.children[i].tag == name &&
                         (forall m :: 0 <= m < i ==> record.children[m].tag != name)) ==> v == record.children[i].text
  {
    match FindChild(record, name)
    case None => Some("")
    case Some(child) => child.text
  }

  /** The inner loop: one field per name of `header`, in header order. */
  method BuildRow(record: Element, header: seq<string>) returns (row: seq<Option<string>>)
    ensures |row| == |header|
    ensures forall k :: 0 <= k < |header| ==> row[k] == Cell(record, header[k])
  {
    row := [];
    for k := 0 to |header|
      invariant |row| == k
      invariant forall m :: 0 <= m < k ==> row[m] == Cell(record, header[m])
    {
      var found := FindChild(record, header[k]);
      if found.Some? {
        row := row + [found.value.text];
      } else {
        row := row + [Some("")];
      }
    }
  }

  /**
   * The export loop: for each table the file is opened afresh and all records
   * are written, so the file left behind is the one the last table wrote,
   * and there is no file when there are no tables.
   */
  method WriteCsv(tables: seq<Table>, records: seq<Element>, header: seq<string>) returns (file: Option<CsvFile>)
    ensures file.None? <==> tables == []
    ensures file.Some? ==> file.value.header == header && |file.value.rows| == |records|
    ensures file.Some? ==> forall i :: 0 <= i < |records| ==> |file.value.rows[i]| == |header|
    ensures file.Some? ==> forall i, k :: 0 <= i < |records| && 0 <= k < |header| ==>
                             file.value.rows[i][k] == Cell(records[i], header[k])
  {
    file := None;
    for t := 0 to |tables|
      invariant t == 0 <==> file.None?
      invariant file.Some? ==> file.value.header == header && |file.value.rows| == |records|
      invariant file.Some? ==> forall i :: 0 <= i < |records| ==> |file.value.rows[i]| == |header|
      invariant file.Some? ==> forall i, k :: 0 <= i < |records| && 0 <= k < |header| ==>
                                 file.value.rows[i][k] == Cell(records[i], header[k])
    {
      var rows := [];
      for i := 0 to |records|
        invariant |rows| == i
        invariant forall m :: 0 <= m < i ==> |rows[m]| == |header|
        invariant forall m, k :: 0 <= m < i && 0 <= k < |header| ==> rows[m][k] == Cell(records[m], header[k])
      {
        var row := BuildRow(records[i], header);
        rows := rows + [row];
      }
      file := Some(CsvFile(header, rows));
    }
  }
}
