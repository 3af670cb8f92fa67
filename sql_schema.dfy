/**
 * The SQL column types the converter uses, the fixed mapping from XSD primitive
 * type names to them, and the plain values that stand for SQLAlchemy's
 * `Column` and `Table`.
 */
module SqlSchema {
  import opened Wrappers

  datatype SqlType = Integer | BigInteger | String | Numeric | Float

  /** The `xsd_type_mapping` table; keys are the literal attribute values, prefix included. */
  const XsdTypeMapping: map<string, SqlType> := map[
    "xsd:byte" := Integer,
    "xsd:short" := Integer,
    "xsd:int" := Integer,
    "xsd:long" := BigInteger,
    "xsd:string" := String,
    "xsd:decimal" := Numeric,
    "xsd:float" := Float,
    "xsd:double" := Float
  ]

  /**
   * `xsd_type_to_sql_type`: the table entry for the eight listed names and String
   * for anything else, including a missing `type` attribute (None).
   */
  function XsdTypeToSqlType(xsdType: Option<string>): (r: SqlType)
    ensures r == Integer <==> xsdType in {Some("xsd:byte"), Some("xsd:short"), Some("xsd:int")}
    ensures r == BigInteger <==> xsdType == Some("xsd:long")
    ensures r == Numeric <==> xsdType == Some("xsd:decimal")
    ensures r == Float <==> xsdType in {Some("xsd:float"), Some("xsd:double")}
  {
    match xsdType
    case Some(name) => if name in XsdTypeMapping then XsdTypeMapping[name] else String
    case None => String
  }

  datatype Column = Column(name: string, sqlType: SqlType)

  /** A table; its name is a Python None when the declaring XSD element has no `name`. */
  datatype Table = Table(name: Option<string>, columns: seq<Column>)

  function ColumnNames(cs: seq<Column>): (names: seq<string>)
    ensures |names| == |cs| && forall i :: 0 <= i < |cs| ==> names[i] == cs[i].name
  {
    seq(|cs|, i requires 0 <= i < |cs| => cs[i].name)
  }
}
