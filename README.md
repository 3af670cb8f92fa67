# xml2sql — a verified model of the converter's core

`xml2sql` turns an XML export into a SQL schema and a pipe-separated CSV
file. This project models, in Dafny, the part of `main.py` that works on the
parsed element tree:

- the XSD type mapping (`xsd_type_mapping`, `xsd_type_to_sql_type`);
- per-field type inference (`infer_column_type`), including which texts
  Python's `int()` accepts;
- the inference-driven schema builder (`create_sql_schema`);
- the XSD-driven schema builder (`parse_xsd_schema`) and the module-level set
  `all_rows` it fills;
- the CSV row construction of the main block, and the run that connects
  them (`parse_xsd_location`, choosing a builder, writing the CSV).

Module layout:

| file | module | what it holds |
|---|---|---|
| `wrappers.dfy` | `Wrappers` | `Option`, `Result`, and the Python exceptions the core raises |
| `seqs.dfy` | `Seqs` | first/last occurrences, de-duplication, and set iteration order |
| `pydict.dfy` | `PyDict` | an insertion-ordered Python `dict` and what a series of assignments builds |
| `xml_tree.dfy` | `XmlTree` | the element tree and the ElementTree queries used (`get`, `find`, `findall`, `.//`) |
| `sql_schema.dfy` | `SqlSchema` | SQL column types, the XSD mapping, and columns and tables as plain values |
| `inference.dfy` | `Inference` | `int()` acceptance, `infer_column_type`, and `create_sql_schema` |
| `xsd_schema.dfy` | `XsdSchema` | the XSD builder's specification: which sequence, which tables, which columns, which row names |
| `csv_export.dfy` | `CsvExport` | CSV cells, rows and the file written |
| `converter.dfy` | `Converter` | class `Converter` holding `all_rows`; the XSD builder's loops and the run |

Design choices:

- **Tree.** The tree is an `Element(tag, text, attrs, children)` value.
  Namespace prefixes are already resolved, so a schema element's tag is
  `{http://www.w3.org/2001/XMLSchema}element`.
- **`all_rows`.** The module-level set `all_rows` is the field
  `Converter.allRows`. The builders' loops are methods of that class, with
  `modifies this`.
- **Dicts.** A Python dict is a key sequence (the insertion order) plus a
  map. `PyDict.FromPairsSpec` proves what any series of `d[k] = v` builds:
  each key once, in first-assignment order, holding its last-assigned value.
  Both builders are proved against it.
- **Set order.** Python does not specify the iteration order of a set.
  `Seqs.IterationOrder` picks an arbitrary order that lists every element
  once, and every CSV property holds for any such order.
- **Failures.** Exceptions the source raises and does not catch are `Err`
  results, for example `int(None)` on an empty element or `xml_root[0]` with
  no records.
- **Tables of the same name.** Line 71 stores each table in a plain dict,
  and the model treats it as one: a later declaration with the same name
  replaces the earlier table, while the row names of both stay in
  `all_rows`, because line 69 runs before line 71. SQLAlchemy behaves
  otherwise, and `## Left out` says how. In the program a header
  name without a table cannot arise this way.

Where the documented behaviour and `main.py` disagree, the model follows the
code:

- **Missing schema attribute.** If the XML root has no
  `noNamespaceSchemaLocation` attribute, `parse_xsd_location`
  (main.py:38-40) raises `KeyError`. Nothing catches it, so the run stops.
  It does not fall back to inference. `Converter.Run` returns
  `Err(KeyError)`.
- **Declaration without a sequence.** A table declaration with no
  `complexType/sequence` of its own makes line 62 iterate `None`. That raises
  `TypeError`, after the row names of the declarations before it were
  already added.

## Model

| member | source | states |
|---|---|---|
| SqlSchema.XsdTypeToSqlType | main.py:22-44 | byte/short/int give Integer, long gives BigInteger, decimal gives Numeric, float/double give Float, each in both directions; everything else, including a missing `type`, gives String |
| Inference.InferColumnType | main.py:77-86 | a tag in `custom_strings` gives String; one only in `custom_floats` gives Float; otherwise TypeError exactly when there is no text, Integer exactly when `int()` accepts the text, String exactly when it does not |
| Inference.OverridesIgnoreText | main.py:78-81 | for a tag in either override set the result does not depend on the text and never fails |
| Inference.ConfiguredOverrides | main.py:17-18 | "AGE" and "TEST" are always String and "PRICE" always Float, whatever the text |
| Inference.IntLiteralIgnoresSurroundingSpace | main.py:83 | `int()` accepts a text exactly when it accepts it with white space added before and after |
| Inference.SpacePrefixIgnored | main.py:83 | leading white space does not change what `int()` accepts |
| Inference.SpaceSuffixIgnored | main.py:83 | trailing white space does not change acceptance, from any point of the scan |
| Inference.IsIntLiteral | main.py:83 | `int(text)` succeeds: the text is accepted by the scan `Accepts` starting in its leading-space state (a definition) |
| Inference.Accepts | main.py:83 | the scan `int()` makes: optional white space, an optional sign, digits with single underscores between them, optional white space; white space is tab to carriage return and space (a definition) |
| Inference.IsSpace | main.py:83 | the white space `int()` skips around the number, CPython's `Py_ISSPACE`: tab, line feed, vertical tab, form feed, carriage return and space (a definition) |
| Inference.IntLiteralExamples | main.py:83 | "42", "-7", "1_000" and " 12\n" are integers; "9.99", "", "1__0", "_1", "bad", "- 1" and "1_" are not; "\t+5\r" is, but a 0x1C or 0x1F separator around a number is not white space to `int()` |
| Inference.TypePairsDict | main.py:102-105 | the dict of tag types lists each tag once, in first-seen order, each holding the type inferred from its last field |
| Inference.Fields | main.py:103-104 | the fields in the order the two loops visit them: each record's children, record after record (a definition) |
| Inference.TypePairs | main.py:105 | the assignments `identified_rows[item.tag] = infer_column_type(...)`, one per field in that order, keyed by the fields' tags (used only when no field fails; a definition with its keys as contract) |
| Inference.LastType | main.py:103-105 | the type inferred from the last field with a given tag, the one whose assignment is the last for that key (a definition) |
| Inference.ColumnsOfScan | main.py:111-114 | the columns listed from that dict are the distinct tags in first-seen order, each with its last field's type |
| Inference.IdentifyRecordRows | main.py:104-105 | the scan of one record continues the assignments made before it; it fails with TypeError exactly when one of its fields cannot be inferred |
| Inference.IdentifyRows | main.py:103-105 | the scan of all records gives the dict the assignments of all fields build, or TypeError exactly when some field cannot be inferred |
| Inference.CreateSqlSchema | main.py:97-116 | IndexError exactly when there are no records; TypeError exactly when some field cannot be inferred; otherwise one table, keyed and named by the first record's tag, whose columns are the distinct tags in first-seen order with their last fields' types |
| Inference.AllIntegerTextsGiveInteger | main.py:103-105 | a tag no override names, whose every field holds an integer literal, becomes Integer |
| Inference.LastFieldDecidesType | main.py:103-105 | the same two fields in the two orders give the two different types: the last field decides |
| XsdSchema.NamedLeavesKeepOrder | main.py:62-68 | when every leaf is named, there is one column per leaf, in declaration order, typed through the XSD mapping |
| XsdSchema.UnnamedLeafSkipped | main.py:63-65 | a leaf without a name adds neither a column nor a row name |
| XsdSchema.LeafNamesAreColumnNames | main.py:63-69 | the row names a table adds are exactly its column names |
| XsdSchema.XsdTablesByName | main.py:57-71 | the tables are keyed by declaration name, each name once, in first-declared order, each holding the table of the last declaration with that name |
| XsdSchema.SameNameReplacesTable | main.py:60-71 | of two declarations with the same name, one table remains: the second one's |
| XsdSchema.TableColumnsAreAdded | main.py:62-71 | every column of every table built is among the row names added |
| XsdSchema.AddedNamesOfAllDecls | main.py:57-71 | a name is added to `all_rows` exactly when some declaration read has a leaf of that name, whether or not its table is later replaced in the dict |
| XmlTree.FindPathSelects | main.py:54 | `find('complexType/sequence')` finds nothing exactly when no complexType child has a sequence child; otherwise it finds the first sequence child of the first complexType child that has one |
| XmlTree.FindChild | main.py:218 | `find(tag)` returns the first child with that tag, and nothing exactly when no child has it |
| XmlTree.Tagged | main.py:57 | `findall(tag)` keeps exactly the elements with that tag |
| XmlTree.TaggedKeepsOrder | main.py:57 | `findall(tag)` yields the elements with that tag in document order, one entry per occurrence: their positions are strictly increasing and cover every matching position |
| XmlTree.TaggedFirst | main.py:53-57 | `findall(tag)` is empty exactly when no element has the tag; otherwise its first entry is the first element with the tag |
| XmlTree.Get | main.py:60-66 | `get(name)` is the attribute's value, or None when the element has no such attribute (a definition, no contract) |
| XmlTree.Descendants | main.py:53 | the `.//` walk: each child, then the elements below it, children in document order (a definition, no contract) |
| XmlTree.DescendantsAreBelow | main.py:53 | the `.//` walk visits exactly the elements that lie below the element |
| XmlTree.FindPath | main.py:54-62 | `find('a/b')`: the first element of the path selection, None when it is empty (a definition; its contract is `FindPathSelects`) |
| XmlTree.TaggedPath | main.py:54 | what the path `a/b` selects: for each `a` child in document order, its `b` children in order; it holds exactly the `b` children of `a` children |
| XsdSchema.ElementDecls | main.py:53 | `findall('.//xsd:element')`: the declarations among the elements below the root, in walk order (a definition) |
| XsdSchema.ElementDeclsAreDeclarationsBelow | main.py:53 | an element is among the declarations found exactly when it lies below the root and is tagged `xsd:element` |
| XsdSchema.ContentSequence | main.py:54-62 | a declaration's `complexType/sequence` (a definition, through `FindPath`) |
| XsdSchema.SchemaSequence | main.py:53-72 | the sequence of the first declaration, in walk order, that has one; the loop then stops (a definition, on `FirstIndexWhere`) |
| XsdSchema.TableDecls | main.py:57 | the `xsd:element` children of that sequence, in order (a definition, through `Tagged`) |
| XsdSchema.LeafColumn | main.py:63-67 | a leaf with a `name` declares the column of that name, typed by mapping its `type`; one without declares none (a definition) |
| XsdSchema.LeafColumns | main.py:62-68 | the columns of a table are never more than its leaves; their order is stated by `LeafColumnsKeepOrder` |
| XsdSchema.LeafColumnsKeepOrder | main.py:62-68 | the columns are those of the named leaves, in declaration order: they sit at strictly increasing leaf positions, each declared by the leaf there, and every named leaf contributes one, wherever unnamed leaves sit among them |
| XsdSchema.UnnamedLeafBetweenNamed | main.py:62-68 | a named leaf, an unnamed nested sequence and a named leaf give the two named leaves' columns, in that order |
| XsdSchema.SequenceLeaves | main.py:62 | the children of a declaration's `complexType/sequence`, which line 62 iterates; empty when there is none (a definition) |
| XsdSchema.LeafNames | main.py:62-69 | the names line 69 adds for one table: the `name` of each leaf that has one (a definition) |
| XsdSchema.AddedNames | main.py:57-69 | the names line 69 adds over a series of table declarations: the union of each one's `LeafNames` (a definition) |
| XsdSchema.TablePairs | main.py:57-71 | the assignments of line 71, one per declaration in order: its `name` and its table (a definition with its length and entries as contract) |
| XsdSchema.DeclaredTable | main.py:60-71 | a declaration's table is named by its `name` and has the columns of its sequence's leaves (a definition) |
| Converter.Converter.constructor | main.py:21 | `all_rows` starts empty |
| Converter.Converter.ReadColumns | main.py:62-69 | the columns are those of the named leaves, in order, and exactly their names are added to `all_rows` |
| Converter.Converter.ReadTables | main.py:57-71 | the tables the declarations build by name, with all their row names added; or TypeError at the first declaration without a sequence, with only the row names of the declarations before it added |
| Converter.Converter.ParseXsdSchema | main.py:47-74 | only the first declaration in document order that has a complexType/sequence is read; with none, no tables and `all_rows` unchanged |
| CsvExport.Cell | main.py:218-222 | a field is the text of the record's first child with that tag, or `""` when there is none |
| CsvExport.BuildRow | main.py:215-223 | a row has one field per header name, each that name's cell |
| CsvExport.WriteCsv | main.py:210-223 | no file when there are no tables; otherwise the header, then one row per record, as wide as the header, of its cells |
| Converter.Converter.Run | main.py:174-223 | KeyError exactly when the schema attribute is missing; without a schema, the errors `create_sql_schema` raises and otherwise its one table of deduplicated tags and last types; with a schema, no tables and `all_rows` unchanged when no declaration has a sequence, otherwise TypeError exactly when a table declaration lacks a sequence (with the row names of the declarations before it added), else the tables by name with every declaration's row names added; the CSV header is an enumeration of the resulting `all_rows`; one row per record, as wide as `all_rows`, of its cells; on the inference path `all_rows` is unchanged, and from an empty set every row is empty |
| PyDict.FromPairsSpec | main.py:102-105 | any series of dict assignments lists each key once, in first-assignment order, with its last value |
| PyDict.FromPairs | main.py:102-105 | the dict a series of `d[k] = v` builds, applied in order from an empty dict (a definition; `FromPairsSpec` states its content) |
| PyDict.Dict.Put | main.py:105 | `d[k] = v` keeps a present key's position and appends a new one |
| PyDict.Dict.Values | main.py:210 | `values()` lists the values in key insertion order |
| Seqs.IterationOrder | main.py:213-217 | iterating `all_rows` visits each element exactly once |
| Seqs.EnumerationSize | main.py:213-223 | such an iteration is exactly as long as the set is large |
| Seqs.Dedup | main.py:102-105 | the distinct elements, each once |
| Seqs.DedupKeepsFirstOccurrenceOrder | main.py:102-105 | the distinct elements are ordered by their first occurrence |

## Left out

- SQL generation is not modelled: `generate_sql_script`, `generate_insert_script`, and the SQLAlchemy `CreateTable`/`Insert` compilation (main.py:119-143). They call into a library and produce dialect-specific text. `generate_insert_script` is never called.
- SQLAlchemy `Table` and `Column` are plain name/columns values. Library code is not modelled, so its checks are missing. When a second `Table` of an existing name is built in one `MetaData` with columns, SQLAlchemy raises `InvalidRequestError` before line 71 assigns. Without columns it returns the first `Table`, so `tables` keeps the first declaration. It may also refuse a table whose name is `None`. The model treats line 71 as a plain dict assignment instead.
- XsdSchema.SameNameReplacesTable, XsdSchema.XsdTablesByName, XsdSchema.AddedNamesOfAllDecls and Converter.Converter.Run: for same-named table declarations they state the plain-dict outcome (the last table is kept, every declaration's row names are added), not SQLAlchemy's exception or its reuse of the first table.
- ElementTree parsing is not modelled; the tree arrives already parsed. ElementPath syntax inside a tag passed to `find` (main.py:218) is also not modelled: a row name is matched as a plain tag.
- The command line and file handling are left out: argument checks, path handling, `os.path.exists` and all file reads and writes (main.py:150-191). Whether the schema file exists is the parameter `xsdDocument` of `Converter.Run`. The CSV file that is written is a value, and writing it again for each table is modelled as replacing that value.
- CSV text rendering is left out: the `csv.writer` quoting with `|` and `"`, and the writing of a `None` text as an empty field. A field without text stays `None` in the model.
- Logging, timestamps, the 50,000-row progress counter and the `processXml` stub are left out (main.py:34-35, 146-147, 224-229).
- Seqs.IterationOrder: Python's set order is not reproduced. The model allows any order that lists each element once, and every property is proved for all such orders. The header and every row use one and the same order, as iterating an unchanged set twice does.
- Inference.IsIntLiteral: only ASCII input is modelled. Unicode digits and non-ASCII white space, which `int()` also accepts, are not. The limit on the number of digits `int()` converts is not modelled either: 4300 by default since Python 3.11 and in the 3.7 to 3.10 security releases, and settable with `sys.set_int_max_str_digits` or `PYTHONINTMAXSTRDIGITS`. Over the limit `int()` raises ValueError, so the program infers String where the model infers Integer. The limit depends on the interpreter and its settings, which the model does not see.
