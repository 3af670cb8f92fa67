/**
 * The converter as a whole: the set of row names it accumulates while
 * reading a schema, the schema builders, and the run that picks a builder
 * and writes the CSV.
 */
module Converter {
  import opened Wrappers
  import opened Seqs
  import opened PyDict
  import opened XmlTree
  import opened SqlSchema
  import opened XsdSchema
  import opened Inference
  import opened CsvExport

  /** The attribute of the XML root naming its schema file. */
  const SchemaLocationAttr := "{http://www.w3.org/2001/XMLSchema-instance}noNamespaceSchemaLocation"

  /** What a run produces: the tables, and the CSV file if one was written. */
  datatype Output = Output(tables: Dict<Option<string>, Table>, csv: Option<CsvFile>)

  class Converter {
    /** The row names collected from the schema; they make the CSV header. */
    var allRows: set<string>

    constructor()
      ensures allRows == {}
    {
      allRows := {};
    }

    /** The innermost loop of the XSD builder: the columns of one table, each named leaf also added to the row names. */
    method ReadColumns(leaves: seq<Element>) returns (columns: seq<Column>)
      modifies this
      ensures columns == LeafColumns(leaves)
      ensures allRows == old(allRows) + LeafNames(leaves)
    {
      columns := [];
      for k := 0 to |leaves|
        invariant columns == LeafColumns(leaves[..k])
        invariant allRows == old(allRows) + LeafNames(leaves[..k])
      {
        LeafStep(leaves, k);
        var name := Get(leaves[k], "name");
        if name.None? {
          continue;
        }
        columns := columns + [Column(name.value, XsdTypeToSqlType(Get(leaves[k], "type")))];
        allRows := allRows + {name.value};
      }
      assert leaves[..|leaves|] == leaves;
    }

    /**
     * The middle loop of the XSD builder: one table per declaration of the
     * sequence, by name. A declaration without a complexType/sequence of its
     * own is a TypeError, after the row names of the declarations before it
     * were added.
     */
    method ReadTables(sequence: Element) returns (r: Result<Dict<Option<string>, Table>>)
      modifies this
      ensures r.Ok? ==> r.value.Valid()
      ensures r.Err? ==> r.error == TypeError
      ensures var decls := TableDecls(sequence);
              match FirstIndexWhere(decls, LacksSequence)
              case Some(k) => r == Err(TypeError) && allRows == old(allRows) + AddedNames(decls[..k])
              case None => r == Ok(FromPairs(TablePairs(decls))) && allRows == old(allRows) + AddedNames(decls)
    {
      var decls := TableDecls(sequence);
      var tables := Empty();
      for j := 0 to |decls|
        invariant forall m :: 0 <= m < j ==> !LacksSequence(decls[m])
        invariant tables == FromPairs(TablePairs(decls[..j]))
        invariant allRows == old(allRows) + AddedNames(decls[..j])
      {
        var name := Get(decls[j], "name");
        var leaves := ContentSequence(decls[j]);
        if leaves.None? {
          FirstIndexWhereAt(decls, LacksSequence, j);
          return Err(TypeError);
        }
        assert forall m :: 0 <= m < j + 1 ==> !LacksSequence(decls[m]);
        ghost var rowsBefore := allRows;
        var columns := ReadColumns(leaves.value.children);
        ReadStep(decls, j, tables, columns, rowsBefore, old(allRows));
        tables := tables.Put(name, Table(name, columns));
      }
      FirstIndexWhereNone(decls, LacksSequence);
      assert decls[..|decls|] == decls;
      FromPairsValid(TablePairs(decls));
      return Ok(tables);
    }

    /**
     * The XSD builder: the tables of the first declaration, in document
     * order, that has a complexType/sequence; none when no declaration has one.
     */
    method ParseXsdSchema(root: Element) returns (r: Result<Dict<Option<string>, Table>>)
      modifies this
      ensures r.Ok? ==> r.value.Valid()
      ensures r.Err? ==> r.error == TypeError
      ensures SchemaSequence(root).None? ==> r == Ok(Empty()) && allRows == old(allRows)
      ensures SchemaSequence(root).Some? ==>
                var decls := TableDecls(SchemaSequence(root).value);
                match FirstIndexWhere(decls, LacksSequence)
                case Some(k) => r == Err(TypeError) && allRows == old(allRows) + AddedNames(decls[..k])
                case None => r == Ok(FromPairs(TablePairs(decls))) && allRows == old(allRows) + AddedNames(decls)
    {
      var elements := ElementDecls(root);
      for i := 0 to |elements|
        invariant forall m :: 0 <= m < i ==> !HasSequence(elements[m])
        invariant allRows == old(allRows)
      {
        var complexType := ContentSequence(elements[i]);
        if complexType.Some? {
          FirstIndexWhereAt(elements, HasSequence, i);
          r := ReadTables(complexType.value);
          return;
        }
        assert forall m :: 0 <= m < i + 1 ==> !HasSequence(elements[m]);
      }
      return Ok(Empty());
    }

    /**
     * A run over a parsed XML document. A missing schema-location attribute
     * ends the run with KeyError; `xsdDocument` is the parsed schema file when
     * it exists. The
     * tables come from the schema when there is one and are inferred from the
     * records otherwise; then the CSV is written with the row names, in set
     * iteration order, as its header.
     */
    method Run(xmlRoot: Element, xsdDocument: Option<Element>) returns (r: Result<Output>)
      modifies this
      ensures r == Err(KeyError) <==> SchemaLocationAttr !in xmlRoot.attrs
      ensures SchemaLocationAttr !in xmlRoot.attrs || xsdDocument.None? ==> allRows == old(allRows)
      ensures SchemaLocationAttr in xmlRoot.attrs && xsdDocument.None? ==>
                && (r == Err(IndexError) <==> xmlRoot.children == [])
                && (r == Err(TypeError) <==> exists f :: f in Fields(xmlRoot.children) && !Inferable(f))
      ensures SchemaLocationAttr in xmlRoot.attrs && xsdDocument.None? && r.Ok? ==>
                var tables := r.value.tables;
                var first := Some(xmlRoot.children[0].tag);
                var fields := Fields(xmlRoot.children);
                && tables.keys == [first] && first in tables.entries
                && tables.entries[first].name == first
                && ColumnNames(tables.entries[first].columns) == Dedup(Tags(fields))
                && forall c :: c in tables.entries[first].columns ==> c.name in Tags(fields) && LastType(fields, c.name) == Ok(c.sqlType)
      ensures SchemaLocationAttr in xmlRoot.attrs && xsdDocument.Some? && r.Err? ==> r.error == TypeError
      ensures SchemaLocationAttr in xmlRoot.attrs && xsdDocument.Some? ==>
                match SchemaSequence(xsdDocument.value)
                case None => r.Ok? && r.value.tables == Empty() && allRows == old(allRows)
                case Some(sequence) =>
                  var decls := TableDecls(sequence);
                  match FirstIndexWhere(decls, LacksSequence)
                  case Some(k) => r == Err(TypeError) && allRows == old(allRows) + AddedNames(decls[..k])
                  case None => r.Ok? && r.value.tables == FromPairs(TablePairs(decls)) && allRows == old(allRows) + AddedNames(decls)
      ensures r.Ok? ==> r.value.tables.Valid() && (r.value.csv.None? <==> r.value.tables.keys == [])
      ensures r.Ok? && r.value.csv.Some? ==>
                var file := r.value.csv.value;
                && IsEnumeration(file.header, allRows)
                && |file.rows| == |xmlRoot.children|
                && |file.header| == |allRows|
                && (forall i :: 0 <= i < |file.rows| ==> |file.rows[i]| == |file.header|)
                && forall i, k :: 0 <= i < |xmlRoot.children| && 0 <= k < |file.header| ==>
                     file.rows[i][k] == Cell(xmlRoot.children[i], file.header[k])
      ensures r.Ok? && xsdDocument.None? && old(allRows) == {} ==>
                r.value.csv.Some? && forall row :: row in r.value.csv.value.rows ==> row == []
    {
      if SchemaLocationAttr !in xmlRoot.attrs {
        return Err(KeyError);
      }
      var built;
      if xsdDocument.Some? {
        built := ParseXsdSchema(xsdDocument.value);
      } else {
        built := CreateSqlSchema(xmlRoot);
      }
      if built.Err? {
        return Err(built.error);
      }
      var tables := built.value;
      var header := IterationOrder(allRows);
      EnumerationSize(header, allRows);
      var csv := WriteCsv(tables.Values(), xmlRoot.children, header);
      return Ok(Output(tables, csv));
    }
  }
}
