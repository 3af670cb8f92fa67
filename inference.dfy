/**
 * The inference-driven schema builder: the type of a field decided from the two
 * override sets or from whether its text is a Python `int()` literal, and the one
 * table built by scanning every record's fields.
 */
module Inference {
  import opened Wrappers
  import opened Seqs
  import opened PyDict
  import opened XmlTree
  import opened SqlSchema

  const CustomStrings: set<string> := {"AGE", "TEST"}
  const CustomFloats: set<string> := {"PRICE"}

  // ----- Python int() on a string, restricted to ASCII -----

  /**
   * The ASCII white space `int()` skips around the number (CPython's
   * `Py_ISSPACE`): tab, line feed, vertical tab, form feed, carriage return and
   * space. The separators 0x1C to 0x1F, which `str.isspace()` also accepts,
   * are not skipped.
   */
  predicate IsSpace(c: char) {
    var n := c as int;
    9 <= n <= 13 || n == 32
  }

  predicate IsDigit(c: char) {
    '0' <= c <= '9'
  }

  /** Where base-10 `int(s)` is while it reads the characters of `s` from left to right. */
  datatype ScanState =
    | Leading          // only white space so far
    | Signed           // read '+' or '-': a digit must follow
    | InDigits         // just read a digit
    | AfterUnderscore  // just read '_' after a digit: a digit must follow
    | Trailing         // white space after the number: only white space may follow

  /** `int()` accepts the rest `s` of its input when it has reached `state`. */
  predicate Accepts(s: string, state: ScanState)
    decreases |s|
  {
    if s == [] then state == InDigits || state == Trailing
    else
      var c := s[0];
      match state
      case Leading =>
        if IsSpace(c) then Accepts(s[1..], Leading)
        else if c == '+' || c == '-' then Accepts(s[1..], Signed)
        else IsDigit(c) && Accepts(s[1..], InDigits)
      case Signed => IsDigit(c) && Accepts(s[1..], InDigits)
      case InDigits =>
        if IsDigit(c) then Accepts(s[1..], InDigits)
        else if c == '_' then Accepts(s[1..], AfterUnderscore)
        else IsSpace(c) && Accepts(s[1..], Trailing)
      case AfterUnderscore => IsDigit(c) && Accepts(s[1..], InDigits)
      case Trailing => IsSpace(c) && Accepts(s[1..], Trailing)
  }

  /**
   * `int(s)` succeeds: optional white space, an optional sign, digits with single
   * underscores between them, optional white space.
   */
  predicate IsIntLiteral(s: string) {
    Accepts(s, Leading)
  }

  predicate AllSpace(s: string) {
    forall i :: 0 <= i < |s| ==> IsSpace(s[i])
  }

  lemma {:induction false} SpacePrefixIgnored(pre: string, s: string)
    requires AllSpace(pre)
    ensures Accepts(pre + s, Leading) == Accepts(s, Leading)
  {
    if pre != [] {
      assert (pre + s)[0] == pre[0] && IsSpace(pre[0]);
      assert (pre + s)[1..] == pre[1..] + s;
      assert Accepts(pre + s, Leading) == Accepts(pre[1..] + s, Leading);
      SpacePrefixIgnored(pre[1..], s);
    } else {
      assert pre + s == s;
    }
  }

  lemma {:induction false} SpaceSuffixIgnored(s: string, post: string, state: ScanState)
    requires AllSpace(post)
    ensures Accepts(s + post, state) == Accepts(s, state)
    decreases |s| + |post|
  {
    if s == [] {
      assert s + post == post;
      if post != [] {
        var next := match state
          case Leading => Leading
          case InDigits => Trailing
          case Trailing => Trailing
          case _ => state;
        SpaceSuffixIgnored([], post[1..], next);
        assert [] + post[1..] == post[1..];
      }
    } else {
      assert (s + post)[0] == s[0];
      assert (s + post)[1..] == s[1..] + post;
      SpaceSuffixIgnored(s[1..], post, Leading);
      SpaceSuffixIgnored(s[1..], post, Signed);
      SpaceSuffixIgnored(s[1..], post, InDigits);
      SpaceSuffixIgnored(s[1..], post, AfterUnderscore);
      SpaceSuffixIgnored(s[1..], post, Trailing);
    }
  }

  /** `int()` accepts a text exactly when it accepts it with white space added around it. */
  lemma IntLiteralIgnoresSurroundingSpace(pre: string, s: string, post: string)
    requires AllSpace(pre) && AllSpace(post)
    ensures IsIntLiteral(pre + s + post) == IsIntLiteral(s)
  {
    assert pre + s + post == pre + (s + post);
    SpacePrefixIgnored(pre, s + post);
    SpaceSuffixIgnored(s, post, Leading);
  }

  lemma IntLiteralExamples()
    ensures IsIntLiteral("42") && IsIntLiteral("-7") && IsIntLiteral("1_000") && IsIntLiteral(" 12\n")
    ensures !IsIntLiteral("9.99") && !IsIntLiteral("") && !IsIntLiteral("1__0") && !IsIntLiteral("_1")
    ensures !IsIntLiteral("bad") && !IsIntLiteral("- 1") && !IsIntLiteral("1_")
    ensures IsIntLiteral("\t+5\r") && !IsIntLiteral("\U{1C}5") && !IsIntLiteral("5\U{1F}")
  {
  }

  // ----- infer_column_type -----

  /**
   * `infer_column_type(tag, value)`. The override sets decide without looking
   * at the value; otherwise Integer when `int(value)` succeeds and String when
   * it raises ValueError. `int(None)` raises TypeError, which is not caught.
   */
  function InferColumnType(tag: string, value: Option<string>): (r: Result<SqlType>)
    ensures tag in CustomStrings ==> r == Ok(String)
    ensures tag !in CustomStrings && tag in CustomFloats ==> r == Ok(Float)
    ensures tag !in CustomStrings && tag !in CustomFloats ==>
              (r == Err(TypeError) <==> value.None?) &&
              (r == Ok(Integer) <==> value.Some? && IsIntLiteral(value.value)) &&
              (r == Ok(String) <==> value.Some? && !IsIntLiteral(value.value))
  {
    if tag in CustomStrings then Ok(String)
    else if tag in CustomFloats then Ok(Float)
    else match value
      case None => Err(TypeError)
      case Some(s) => if IsIntLiteral(s) then Ok(Integer) else Ok(String)
  }

  predicate Inferable(field: Element) {
    InferColumnType(field.tag, field.text).Ok?
  }

  predicate AllInferable(fields: seq<Element>) {
    forall i :: 0 <= i < |fields| ==> Inferable(fields[i])
  }

  // ----- create_sql_schema -----

  /** Every field of every record, records in order and each record's fields in order. */
  function Fields(records: seq<Element>): seq<Element> {
    if records == [] then []
    else Fields(records[..|records| - 1]) + records[|records| - 1].children
  }

  function Tags(fields: seq<Element>): (tags: seq<string>)
    ensures |tags| == |fields| && forall i :: 0 <= i < |fields| ==> tags[i] == fields[i].tag
  {
    seq(|fields|, i requires 0 <= i < |fields| => fields[i].tag)
  }

  /** The type inferred from the last field, in document order, that has tag `tag`. */
  function LastType(fields: seq<Element>, tag: string): Result<SqlType>
    requires tag in Tags(fields)
  {
    var f := fields[LastIndex(Tags(fields), tag)];
    InferColumnType(f.tag, f.text)
  }

  /** The type a field assigns to its tag when inference succeeds on it. */
  function AssignedType(f: Element): SqlType {
    match InferColumnType(f.tag, f.text)
    case Ok(t) => t
    case Err(_) => String
  }

  /** The assignments `identified_rows[item.tag] = <type>` made for `fields`. */
  function TypePairs(fields: seq<Element>): (ps: seq<(string, SqlType)>)
    ensures |ps| == |fields| && KeysOf(ps) == Tags(fields)
  {
    seq(|fields|, i requires 0 <= i < |fields| => (fields[i].tag, AssignedType(fields[i])))
  }

  /** The scanned dict lists each tag once, in first-seen order, holding its last field's type. */
  lemma TypePairsDict(fields: seq<Element>)
    requires AllInferable(fields)
    ensures FromPairs(TypePairs(fields)).Valid() && FromPairs(TypePairs(fields)).keys == Dedup(Tags(fields))
    ensures forall t :: t in FromPairs(TypePairs(fields)).entries ==>
              t in Tags(fields) && LastType(fields, t) == Ok(FromPairs(TypePairs(fields)).entries[t])
  {
    FromPairsSpec(TypePairs(fields));
  }

  /** The columns listed from the scanned dict, in its order, are the tags in first-seen order with their last types. */
  lemma ColumnsOfScan(fields: seq<Element>, columns: seq<Column>)
    requires AllInferable(fields)
    requires var d := FromPairs(TypePairs(fields));
             d.Valid() && |columns| == |d.keys| &&
             forall m :: 0 <= m < |columns| ==> columns[m] == Column(d.keys[m], d.entries[d.keys[m]])
    ensures ColumnNames(columns) == Dedup(Tags(fields))
    ensures forall c :: c in columns ==> c.name in Tags(fields) && LastType(fields, c.name) == Ok(c.sqlType)
  {
    TypePairsDict(fields);
    assert ColumnNames(columns) == FromPairs(TypePairs(fields)).keys;
  }

  lemma FieldsSnoc(records: seq<Element>, i: nat)
    requires i < |records|
    ensures Fields(records[..i + 1]) == Fields(records[..i]) + records[i].children
  {
    assert records[..i + 1][..i] == records[..i];
  }

  /** A field found in record `i` is one of the fields of the document. */
  lemma FoundUninferable(records: seq<Element>, i: nat, j: nat)
    requires i < |records| && j < |records[i].children| && !Inferable(records[i].children[j])
    ensures exists f :: f in Fields(records) && !Inferable(f)
  {
    FieldsSnoc(records, i);
    FieldsPrefix(records, i + 1);
    assert records[i].children[j] in Fields(records[..i + 1]);
  }

  lemma {:induction false} FieldsPrefix(records: seq<Element>, i: nat)
    requires i <= |records|
    ensures forall f :: f in Fields(records[..i]) ==> f in Fields(records)
    decreases |records| - i
  {
    if i < |records| {
      FieldsSnoc(records, i);
      FieldsPrefix(records, i + 1);
    } else {
      assert records[..i] == records;
    }
  }

  /** One step of the scan over a record's fields: field `j` is assigned after fields `..j`. */
  lemma ScanStep(before: seq<Element>, fields: seq<Element>, j: nat, rows: Dict<string, SqlType>)
    requires j < |fields|
    requires rows == FromPairs(TypePairs(before + fields[..j]))
    ensures rows.Put(fields[j].tag, AssignedType(fields[j])) == FromPairs(TypePairs(before + fields[..j + 1]))
  {
    var f := fields[j];
    assert before + fields[..j + 1] == (before + fields[..j]) + [f];
    assert TypePairs(before + fields[..j + 1]) == TypePairs(before + fields[..j]) + [(f.tag, AssignedType(f))];
    FromPairsSnoc(TypePairs(before + fields[..j]), f.tag, AssignedType(f));
  }

  /**
   * The inner loop of the first pass of `create_sql_schema` over one record:
   * `identified_rows[item.tag] = infer_column_type(item.tag, item.text)` for each
   * of its fields, continuing the assignments already made for the fields `before`.
   */
  method IdentifyRecordRows(record: Element, identifiedRows: Dict<string, SqlType>, ghost before: seq<Element>)
    returns (r: Result<Dict<string, SqlType>>)
    requires identifiedRows == FromPairs(TypePairs(before))
    ensures r.Err? <==> exists j :: 0 <= j < |record.children| && !Inferable(record.children[j])
    ensures r.Err? ==> r.error == TypeError
    ensures r.Ok? ==> r.value == FromPairs(TypePairs(before + record.children))
  {
    var rows := identifiedRows;
    var j := 0;
    assert before + record.children[..0] == before;
    while j < |record.children|
      invariant j <= |record.children|
      invariant rows == FromPairs(TypePairs(before + record.children[..j]))
      invariant forall m :: 0 <= m < j ==> Inferable(record.children[m])
    {
      var item := record.children[j];
      var t := InferColumnType(item.tag, item.text);
      if t.Err? {
        return Err(t.error);
      }
      assert forall m :: 0 <= m < j + 1 ==> Inferable(record.children[m]);
      ScanStep(before, record.children, j, rows);
      rows := rows.Put(item.tag, t.value);
      j := j + 1;
    }
    assert record.children[..j] == record.children;
    r := Ok(rows);
  }

  /**
   * The first pass of `create_sql_schema`: every field of every record assigns
   * its inferred type to its tag. It stops with TypeError at the first field
   * that `int()` cannot take.
   */
  method IdentifyRows(records: seq<Element>) returns (r: Result<Dict<string, SqlType>>)
    ensures r.Err? <==> exists f :: f in Fields(records) && !Inferable(f)
    ensures r.Err? ==> r.error == TypeError
    ensures r.Ok? ==> AllInferable(Fields(records)) && r.value == FromPairs(TypePairs(Fields(records)))
  {
    var identifiedRows: Dict<string, SqlType> := Empty();
    var i := 0;
    while i < |records|
      invariant i <= |records|
      invariant AllInferable(Fields(records[..i]))
      invariant identifiedRows == FromPairs(TypePairs(Fields(records[..i])))
    {
      FieldsSnoc(records, i);
      var next := IdentifyRecordRows(records[i], identifiedRows, Fields(records[..i]));
      if next.Err? {
        var j :| 0 <= j < |records[i].children| && !Inferable(records[i].children[j]);
        FoundUninferable(records, i, j);
        return next;
      }
      identifiedRows := next.value;
      i := i + 1;
    }
    assert records[..i] == records;
    r := Ok(identifiedRows);
  }

  /**
   * `create_sql_schema(xml_root)`: the tables dict `{first record's tag: Table}`.
   * Its columns are the distinct field tags in first-encounter order, each
   * typed as inferred from the last field carrying that tag. It raises
   * TypeError on a field `int()` cannot take (no text, no override) and
   * IndexError when the root has no records.
   */
  method CreateSqlSchema(root: Element) returns (r: Result<Dict<Option<string>, Table>>)
    ensures r == Err(IndexError) <==> root.children == []
    ensures r == Err(TypeError) <==> exists f :: f in Fields(root.children) && !Inferable(f)
    ensures r.Err? ==> r.error == IndexError || r.error == TypeError
    ensures r.Ok? ==> r.value.Valid() && r.value.keys == [Some(root.children[0].tag)]
    ensures r.Ok? ==>
              var columns := r.value.entries[Some(root.children[0].tag)].columns;
              var fields := Fields(root.children);
              && r.value.entries[Some(root.children[0].tag)].name == Some(root.children[0].tag)
              && ColumnNames(columns) == Dedup(Tags(fields))
              && forall c :: c in columns ==> c.name in Tags(fields) && LastType(fields, c.name) == Ok(c.sqlType)
  {
    var scanned := IdentifyRows(root.children);
    if scanned.Err? {
      return Err(scanned.error);
    }
    if |root.children| == 0 {
      return Err(IndexError);
    }
    var tableName := root.children[0].tag;
    ghost var fields := Fields(root.children);
    FromPairsValid(TypePairs(fields));
    var rowNames, rowTypes := scanned.value.keys, scanned.value.entries;
    assert forall m :: 0 <= m < |rowNames| ==> rowNames[m] in rowTypes;
    var columns: seq<Column> := [];
    for k := 0 to |rowNames|
      invariant |columns| == k
      invariant forall m :: 0 <= m < k ==> columns[m] == Column(rowNames[m], rowTypes[rowNames[m]])
    {
      columns := columns + [Column(rowNames[k], rowTypes[rowNames[k]])];
    }
    ColumnsOfScan(fields, columns);
    r := Ok(Dict([Some(tableName)], map[Some(tableName) := Table(Some(tableName), columns)]));
  }

  // ----- properties of the inferred types -----

  /** For a tag in either override set the text is never looked at. */
  lemma OverridesIgnoreText(tag: string, v1: Option<string>, v2: Option<string>)
    requires tag in CustomStrings || tag in CustomFloats
    ensures InferColumnType(tag, v1) == InferColumnType(tag, v2)
    ensures InferColumnType(tag, v1).Ok?
  {
  }

  /** "AGE" and "TEST" are always String and "PRICE" always Float, whatever the text, even none. */
  lemma ConfiguredOverrides(v: Option<string>)
    ensures InferColumnType("AGE", v) == Ok(String) && InferColumnType("TEST", v) == Ok(String)
    ensures InferColumnType("PRICE", v) == Ok(Float)
  {
  }

  /** A tag whose every field holds an integer literal (and that no override names) becomes Integer. */
  lemma AllIntegerTextsGiveInteger(fields: seq<Element>, tag: string)
    requires tag in Tags(fields) && tag !in CustomStrings && tag !in CustomFloats
    requires forall f :: f in fields && f.tag == tag ==> f.text.Some? && IsIntLiteral(f.text.value)
    ensures LastType(fields, tag) == Ok(Integer)
  {
    var k := LastIndex(Tags(fields), tag);
    assert fields[k] in fields;
  }

  /**
   * The type of a column is decided by its last field alone: the same two
   * fields in the other order give the other type.
   */
  lemma LastFieldDecidesType()
    ensures var one := Element("ID", Some("1"), map[], []);
            var bad := Element("ID", Some("x"), map[], []);
            "ID" in Tags([one, bad]) && "ID" in Tags([bad, one]) &&
            LastType([one, bad], "ID") == Ok(String) && LastType([bad, one], "ID") == Ok(Integer)
  {
    var one := Element("ID", Some("1"), map[], []);
    var bad := Element("ID", Some("x"), map[], []);
    assert Tags([one, bad]) == ["ID", "ID"];
    assert Tags([bad, one]) == ["ID", "ID"];
    assert IsIntLiteral("1") && !IsIntLiteral("x");
  }
}
