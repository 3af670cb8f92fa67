/**
 * The XSD-driven schema builder's view of the schema document: which element
 * declares the tables, which elements are the tables, and the columns and
 * row names each table contributes.
 */
module XsdSchema {
  import opened Wrappers
  import opened Seqs
  import opened PyDict
  import opened XmlTree
  import opened SqlSchema

  /** Tags as ElementTree qualifies them once the `xsd` prefix is resolved. */
  const XsdNamespace := "{http://www.w3.org/2001/XMLSchema}"
  const ElementTag := XsdNamespace + "element"
  const ComplexTypeTag := XsdNamespace + "complexType"
  const SequenceTag := XsdNamespace + "sequence"

  /** `root.findall('.//xsd:element')`: every element declaration below the root, in document order. */
  function ElementDecls(root: Element): seq<Element> {
    Tagged(Descendants(root), ElementTag)
  }

  /** `findall('.//xsd:element')` yields exactly the element declarations below the root. */
  lemma ElementDeclsAreDeclarationsBelow(root: Element, x: Element)
    ensures x in ElementDecls(root) <==> Below(x, root) && x.tag == ElementTag
  {
    DescendantsAreBelow(root, x);
  }

  /** `e.find('xsd:complexType/xsd:sequence')` */
  function ContentSequence(e: Element): Option<Element> {
    FindPath(e, ComplexTypeTag, SequenceTag)
  }

  predicate HasSequence(e: Element) {
    ContentSequence(e).Some?
  }

  /**
   * The sequence the builder reads the tables from: that of the first
   * declaration, in document order, with a complexType/sequence.
   */
  function SchemaSequence(root: Element): Option<Element> {
    match FirstIndexWhere(ElementDecls(root), HasSequence)
    case None => None
    case Some(i) => ContentSequence(ElementDecls(root)[i])
  }

  /** `complex_type.findall('xsd:element')`: the declarations of the tables. */
  function TableDecls(sequence: Element): seq<Element> {
    Tagged(sequence.children, ElementTag)
  }

  /** The column a leaf declares, or None when it has no `name`. */
  function LeafColumn(leaf: Element): Option<Column> {
    match Get(leaf, "name")
    case None => None
    case Some(name) => Some(Column(name, XsdTypeToSqlType(Get(leaf, "type"))))
  }

  /** The columns of a table: its named leaves in declaration order; unnamed leaves are skipped. */
  function LeafColumns(leaves: seq<Element>): (cs: seq<Column>)
    ensures |cs| <= |leaves|
  {
    if leaves == [] then []
    else
      var n := |leaves| - 1;
      assert leaves == leaves[..n] + [leaves[n]];
      LeafColumns(leaves[..n]) + match LeafColumn(leaves[n]) case None => [] case Some(c) => [c]
  }

  /** When every leaf is named, there is one column per leaf, in declaration order. */
  lemma {:induction false} NamedLeavesKeepOrder(leaves: seq<Element>)
    requires forall i :: 0 <= i < |leaves| ==> Get(leaves[i], "name").Some?
    ensures |LeafColumns(leaves)| == |leaves|
    ensures forall i :: 0 <= i < |leaves| ==>
              LeafColumns(leaves)[i] == Column(Get(leaves[i], "name").value, XsdTypeToSqlType(Get(leaves[i], "type")))
  {
    if leaves != [] {
      var n := |leaves| - 1;
      assert forall i :: 0 <= i < n ==> leaves[..n][i] == leaves[i];
      NamedLeavesKeepOrder(leaves[..n]);
      var c := Column(Get(leaves[n], "name").value, XsdTypeToSqlType(Get(leaves[n], "type")));
      assert LeafColumn(leaves[n]) == Some(c);
      assert LeafColumns(leaves) == LeafColumns(leaves[..n]) + [c];
      forall i | 0 <= i < |leaves|
        ensures LeafColumns(leaves)[i] == Column(Get(leaves[i], "name").value, XsdTypeToSqlType(Get(leaves[i], "type")))
      {
        if i < n {
          assert LeafColumns(leaves)[i] == LeafColumns(leaves[..n])[i];
        }
      }
    }
  }

  /**
   * `cs` are the columns of the named leaves in declaration order: `idx` are
   * strictly increasing positions in `leaves`, the leaf at each declares the
   * column at the same place in `cs`, and every named leaf is among them.
   */
  ghost predicate PicksNamed(leaves: seq<Element>, cs: seq<Column>, idx: seq<int>) {
    && |idx| == |cs|
    && (forall k :: 0 <= k < |idx| ==> 0 <= idx[k] < |leaves| && LeafColumn(leaves[idx[k]]) == Some(cs[k]))
    && (forall k, l :: 0 <= k < l < |idx| ==> idx[k] < idx[l])
    && (forall i :: 0 <= i < |leaves| && Get(leaves[i], "name").Some? ==> i in idx)
  }

  /** Reading one more leaf extends the picked columns and their positions. */
  lemma PicksNamedSnoc(leaves: seq<Element>, cs: seq<Column>, idx: seq<int>)
    requires |leaves| > 0 && PicksNamed(leaves[..|leaves| - 1], cs, idx)
    ensures var n := |leaves| - 1;
            match LeafColumn(leaves[n])
            case None => PicksNamed(leaves, cs, idx)
            case Some(c) => PicksNamed(leaves, cs + [c], idx + [n])
  {
    var n := |leaves| - 1;
    assert forall k :: 0 <= k < |idx| ==> leaves[..n][idx[k]] == leaves[idx[k]];
    assert forall i :: 0 <= i < n ==> leaves[..n][i] == leaves[i];
  }

  lemma {:induction false} LeafColumnsPickNamed(leaves: seq<Element>) returns (idx: seq<int>)
    ensures PicksNamed(leaves, LeafColumns(leaves), idx)
  {
    if leaves == [] {
      idx := [];
    } else {
      var n := |leaves| - 1;
      var prev := LeafColumnsPickNamed(leaves[..n]);
      PicksNamedSnoc(leaves, LeafColumns(leaves[..n]), prev);
      idx := prev + if LeafColumn(leaves[n]).Some? then [n] else [];
    }
  }

  /**
   * The columns of a table are those of its named leaves, in declaration
   * order, wherever unnamed leaves (nested sequences) sit among them.
   */
  lemma LeafColumnsKeepOrder(leaves: seq<Element>)
    ensures exists idx :: PicksNamed(leaves, LeafColumns(leaves), idx)
  {
    var idx := LeafColumnsPickNamed(leaves);
  }

  /** `[id, <unnamed sequence>, label]` gives the columns of `id` and `label`, in that order. */
  lemma UnnamedLeafBetweenNamed(idLeaf: Element, nested: Element, labelLeaf: Element)
    requires Get(idLeaf, "name").Some? && Get(nested, "name").None? && Get(labelLeaf, "name").Some?
    ensures LeafColumns([idLeaf, nested, labelLeaf]) == [LeafColumn(idLeaf).value, LeafColumn(labelLeaf).value]
  {
    var leaves := [idLeaf, nested, labelLeaf];
    assert leaves[..2][..1] == [idLeaf] && [idLeaf][..0] == [];
    assert LeafColumns([idLeaf]) == [LeafColumn(idLeaf).value];
    assert LeafColumns(leaves[..2]) == [LeafColumn(idLeaf).value];
  }

  /** A leaf without a name adds no column. */
  lemma UnnamedLeafSkipped(leaves: seq<Element>, leaf: Element)
    requires Get(leaf, "name").None?
    ensures LeafColumns(leaves + [leaf]) == LeafColumns(leaves)
    ensures LeafNames(leaves + [leaf]) == LeafNames(leaves)
  {
    assert (leaves + [leaf])[..|leaves|] == leaves;
  }

  /** The names the leaves add to the row names. */
  function LeafNames(leaves: seq<Element>): set<string> {
    if leaves == [] then {}
    else
      var n := |leaves| - 1;
      LeafNames(leaves[..n]) + match Get(leaves[n], "name") case None => {} case Some(name) => {name}
  }

  /** The row names a table adds are exactly the names of its columns. */
  lemma {:induction false} LeafNamesAreColumnNames(leaves: seq<Element>)
    ensures forall name :: name in LeafNames(leaves) <==> name in ColumnNames(LeafColumns(leaves))
  {
    if leaves != [] {
      var n := |leaves| - 1;
      LeafNamesAreColumnNames(leaves[..n]);
      var prev := LeafColumns(leaves[..n]);
      assert ColumnNames(LeafColumns(leaves)) ==
        ColumnNames(prev) + match LeafColumn(leaves[n]) case None => [] case Some(c) => [c.name];
    }
  }

  /** The leaves of a declaration's complexType/sequence (none when it has no such sequence). */
  function SequenceLeaves(decl: Element): seq<Element> {
    match ContentSequence(decl)
    case None => []
    case Some(s) => s.children
  }

  /** The table a declaration defines when it has a complexType/sequence. */
  function DeclaredTable(decl: Element): Table {
    Table(Get(decl, "name"), LeafColumns(SequenceLeaves(decl)))
  }

  /** The assignments `tables[subelementname] = Table(...)`, one per table declaration. */
  function TablePairs(decls: seq<Element>): (ps: seq<(Option<string>, Table)>)
    ensures |ps| == |decls|
    ensures forall i :: 0 <= i < |decls| ==> ps[i] == (Get(decls[i], "name"), DeclaredTable(decls[i]))
  {
    seq(|decls|, i requires 0 <= i < |decls| => (Get(decls[i], "name"), DeclaredTable(decls[i])))
  }

  /** The row names the declarations add, each with its sequence's leaves. */
  function AddedNames(decls: seq<Element>): set<string> {
    if decls == [] then {}
    else
      var n := |decls| - 1;
      AddedNames(decls[..n]) + LeafNames(SequenceLeaves(decls[n]))
  }

  lemma AddedNamesSnoc(decls: seq<Element>)
    requires |decls| > 0
    ensures AddedNames(decls) == AddedNames(decls[..|decls| - 1]) + LeafNames(SequenceLeaves(decls[|decls| - 1]))
  {
  }

  /** One more table declaration read: its assignment is applied and its row names added. */
  lemma TableStep(decls: seq<Element>, j: nat)
    requires j < |decls|
    ensures FromPairs(TablePairs(decls[..j + 1])) == FromPairs(TablePairs(decls[..j])).Put(Get(decls[j], "name"), DeclaredTable(decls[j]))
    ensures AddedNames(decls[..j + 1]) == AddedNames(decls[..j]) + LeafNames(SequenceLeaves(decls[j]))
  {
    var ps := TablePairs(decls[..j + 1]);
    assert ps[..j] == TablePairs(decls[..j]);
    assert decls[..j + 1][..j] == decls[..j];
    AddedNamesSnoc(decls[..j + 1]);
  }

  /** Reading declaration `j`, which has a sequence, extends the tables and the row names read so far. */
  lemma ReadStep(decls: seq<Element>, j: nat, tables: Dict<Option<string>, Table>, columns: seq<Column>, rows: set<string>, rows0: set<string>)
    requires j < |decls| && HasSequence(decls[j])
    requires tables == FromPairs(TablePairs(decls[..j])) && rows == rows0 + AddedNames(decls[..j])
    requires columns == LeafColumns(ContentSequence(decls[j]).value.children)
    ensures tables.Put(Get(decls[j], "name"), Table(Get(decls[j], "name"), columns)) == FromPairs(TablePairs(decls[..j + 1]))
    ensures rows + LeafNames(ContentSequence(decls[j]).value.children) == rows0 + AddedNames(decls[..j + 1])
  {
    assert SequenceLeaves(decls[j]) == ContentSequence(decls[j]).value.children;
    assert DeclaredTable(decls[j]) == Table(Get(decls[j], "name"), columns);
    TableStep(decls, j);
  }

  /** One more leaf read: its column, if it has a name, is appended and its name added. */
  lemma LeafStep(leaves: seq<Element>, k: nat)
    requires k < |leaves|
    ensures LeafColumns(leaves[..k + 1]) == LeafColumns(leaves[..k]) + match LeafColumn(leaves[k]) case None => [] case Some(c) => [c]
    ensures LeafNames(leaves[..k + 1]) == LeafNames(leaves[..k]) + match Get(leaves[k], "name") case None => {} case Some(n) => {n}
  {
    assert leaves[..k + 1][..k] == leaves[..k];
  }

  predicate LacksSequence(e: Element) {
    ContentSequence(e).None?
  }

  /**
   * The tables built from the declarations: one per distinct name, in order of
   * first declaration, each the table of the LAST declaration with that name.
   */
  lemma XsdTablesByName(decls: seq<Element>)
    ensures var tables := FromPairs(TablePairs(decls));
            && tables.Valid()
            && tables.keys == Dedup(KeysOf(TablePairs(decls)))
            && forall name :: name in tables.entries ==>
                 exists i :: 0 <= i < |decls| && Get(decls[i], "name") == name && tables.entries[name] == DeclaredTable(decls[i]) &&
                   forall m :: i < m < |decls| ==> Get(decls[m], "name") != name
  {
    var ps := TablePairs(decls);
    var tables := FromPairs(ps);
    FromPairsSpec(ps);
    forall name | name in tables.entries
      ensures exists i :: 0 <= i < |decls| && Get(decls[i], "name") == name && tables.entries[name] == DeclaredTable(decls[i]) &&
                forall m :: i < m < |decls| ==> Get(decls[m], "name") != name
    {
      var ks := KeysOf(ps);
      var i := LastIndex(ks, name);
      assert ks[i] == ps[i].0 == Get(decls[i], "name");
      assert tables.entries[name] == ps[i].1 == DeclaredTable(decls[i]);
      forall m | i < m < |decls|
        ensures Get(decls[m], "name") != name
      {
        assert ks[m] == ps[m].0 == Get(decls[m], "name");
      }
    }
  }

  /** Every column of every table built is one of the row names the declarations add. */
  lemma {:induction false} TableColumnsAreAdded(decls: seq<Element>, i: nat)
    requires i < |decls|
    ensures forall c :: c in DeclaredTable(decls[i]).columns ==> c.name in AddedNames(decls)
  {
    var n := |decls| - 1;
    if i < n {
      TableColumnsAreAdded(decls[..n], i);
      assert decls[..n][i] == decls[i];
      AddedNamesSnoc(decls);
    } else {
      assert i == n;
      var leaves := SequenceLeaves(decls[n]);
      AddedNamesSnoc(decls);
      assert AddedNames(decls) == AddedNames(decls[..n]) + LeafNames(leaves);
      LeafNamesAreColumnNames(leaves);
      forall c | c in DeclaredTable(decls[i]).columns
        ensures c.name in LeafNames(leaves)
      {
        var k :| 0 <= k < |LeafColumns(leaves)| && LeafColumns(leaves)[k] == c;
        assert ColumnNames(LeafColumns(leaves))[k] == c.name;
      }
    }
  }

  /**
   * The row names the declarations add are exactly the named leaves of all of
   * them, since each adds its names before its table is stored: with two
   * declarations of one name, the model keeps only the later table but the
   * names of both.
   */
  lemma {:induction false} AddedNamesOfAllDecls(decls: seq<Element>, name: string)
    ensures name in AddedNames(decls) <==> exists i :: 0 <= i < |decls| && name in LeafNames(SequenceLeaves(decls[i]))
  {
    if name in AddedNames(decls) {
      var i := AddedByDecl(decls, name);
    } else if exists i :: 0 <= i < |decls| && name in LeafNames(SequenceLeaves(decls[i])) {
      var i :| 0 <= i < |decls| && name in LeafNames(SequenceLeaves(decls[i]));
      DeclNamesAdded(decls, i);
    }
  }

  lemma {:induction false} DeclNamesAdded(decls: seq<Element>, i: nat)
    requires i < |decls|
    ensures LeafNames(SequenceLeaves(decls[i])) <= AddedNames(decls)
  {
    var n := |decls| - 1;
    var earlier := decls[..n];
    AddedNamesSnoc(decls);
    assert AddedNames(earlier) <= AddedNames(decls);
    if i < n {
      DeclNamesAdded(earlier, i);
      assert earlier[i] == decls[i];
    } else {
      assert i == n;
    }
  }

  lemma {:induction false} AddedByDecl(decls: seq<Element>, name: string) returns (i: nat)
    requires name in AddedNames(decls)
    ensures i < |decls| && name in LeafNames(SequenceLeaves(decls[i]))
  {
    var n := |decls| - 1;
    AddedNamesSnoc(decls);
    if name in AddedNames(decls[..n]) {
      i := AddedByDecl(decls[..n], name);
      assert decls[..n][i] == decls[i];
    } else {
      i := n;
    }
  }

  /** Of two declarations with the same name, the dict keeps the second one's table. */
  lemma SameNameReplacesTable(decls: seq<Element>)
    requires |decls| == 2 && Get(decls[0], "name") == Get(decls[1], "name")
    ensures FromPairs(TablePairs(decls)).keys == [Get(decls[0], "name")]
    ensures FromPairs(TablePairs(decls)).entries == map[Get(decls[0], "name") := DeclaredTable(decls[1])]
  {
    FromPairsReassigned(TablePairs(decls));
  }
}
