/**
 * The parsed XML document as ElementTree presents it: a tag (namespace-qualified
 * as `{uri}local` where the document uses a namespace), the text before the first
 * child (None when there is none), the attributes and the child elements in
 * document order. The lookups are the ElementTree calls the converter makes.
 */
module XmlTree {
  import opened Wrappers
  import Seqs

  datatype Element = Element(
    tag: string,
    text: Option<string>,
    attrs: map<string, string>,
    children: seq<Element>)

  /** `e.get(name)` */
  function Get(e: Element, name: string): Option<string> {
    if name in e.attrs then Some(e.attrs[name]) else None
  }

  /** The elements of `es` whose tag is `tag`, in order (`findall(tag)` over children `es`). */
  function Tagged(es: seq<Element>, tag: string): (r: seq<Element>)
    ensures forall c :: c in r <==> c in es && c.tag == tag
  {
    if es == [] then []
    else
      var n := |es| - 1;
      assert es == es[..n] + [es[n]];
      Tagged(es[..n], tag) + (if es[n].tag == tag then [es[n]] else [])
  }

  /** `e.find(tag)`: the first child of `e` with that tag. */
  function FindChild(e: Element, tag: string): (r: Option<Element>)
    ensures r.None? <==> forall i :: 0 <= i < |e.children| ==> e.children[i].tag != tag
    ensures r.Some? ==> exists i :: 0 <= i < |e.children| && e.children[i] == r.value && r.value.tag == tag &&
                          forall m :: 0 <= m < i ==> e.children[m].tag != tag
  {
    match Seqs.FirstIndexWhere(e.children, (c: Element) => c.tag == tag)
    case None => None
    case Some(i) => Some(e.children[i])
  }

  /** The children tagged `b` of the children tagged `a` of the elements `es`, in document order. */
  function TaggedPath(es: seq<Element>, a: string, b: string): (r: seq<Element>)
    ensures forall x :: x in r <==> exists c :: c in es && c.tag == a && x in c.children && x.tag == b
  {
    if es == [] then []
    else
      var n := |es| - 1;
      assert es == es[..n] + [es[n]];
      TaggedPath(es[..n], a, b) + (if es[n].tag == a then Tagged(es[n].children, b) else [])
  }

  /**
   * `r` is `es` filtered by the tag, in order: `idx` are strictly increasing
   * positions in `es`, `r` holds the elements at those positions, and every
   * position whose element has the tag is among them.
   */
  ghost predicate PicksInOrder(es: seq<Element>, tag: string, r: seq<Element>, idx: seq<int>) {
    && |idx| == |r|
    && (forall k :: 0 <= k < |idx| ==> 0 <= idx[k] < |es| && es[idx[k]] == r[k] && r[k].tag == tag)
    && (forall k, l :: 0 <= k < l < |idx| ==> idx[k] < idx[l])
    && (forall i :: 0 <= i < |es| && es[i].tag == tag ==> i in idx)
  }

  /** Filtering one more element extends the filtered prefix and its positions. */
  lemma PicksSnoc(es: seq<Element>, tag: string, r: seq<Element>, idx: seq<int>)
    requires |es| > 0 && PicksInOrder(es[..|es| - 1], tag, r, idx)
    ensures var n := |es| - 1;
            if es[n].tag == tag then PicksInOrder(es, tag, r + [es[n]], idx + [n])
            else PicksInOrder(es, tag, r, idx)
  {
    var n := |es| - 1;
    assert forall k :: 0 <= k < |idx| ==> es[..n][idx[k]] == es[idx[k]];
    assert forall i :: 0 <= i < n ==> es[..n][i] == es[i];
  }

  lemma {:induction false} TaggedIndices(es: seq<Element>, tag: string) returns (idx: seq<int>)
    ensures PicksInOrder(es, tag, Tagged(es, tag), idx)
  {
    if es == [] {
      idx := [];
    } else {
      var n := |es| - 1;
      var prev := TaggedIndices(es[..n], tag);
      PicksSnoc(es, tag, Tagged(es[..n], tag), prev);
      idx := prev + if es[n].tag == tag then [n] else [];
    }
  }

  /** `findall(tag)` keeps document order and one entry per matching child. */
  lemma TaggedKeepsOrder(es: seq<Element>, tag: string)
    ensures exists idx :: PicksInOrder(es, tag, Tagged(es, tag), idx)
  {
    var idx := TaggedIndices(es, tag);
  }

  /** The first element `findall(tag)` yields is the first element with that tag. */
  lemma TaggedFirst(es: seq<Element>, tag: string)
    ensures Tagged(es, tag) == [] <==> forall i :: 0 <= i < |es| ==> es[i].tag != tag
    ensures Tagged(es, tag) != [] ==>
              exists i :: 0 <= i < |es| && es[i] == Tagged(es, tag)[0] && es[i].tag == tag &&
                forall m :: 0 <= m < i ==> es[m].tag != tag
  {
    var idx := TaggedIndices(es, tag);
    if idx != [] {
      assert forall k :: 0 <= k < |idx| ==> idx[0] <= idx[k];
    }
  }

  /** `e.find("a/b")`: the first element the path selects. */
  function FindPath(e: Element, a: string, b: string): Option<Element> {
    var sel := TaggedPath(e.children, a, b);
    if sel == [] then None else Some(sel[0])
  }

  /**
   * `es[i]` is the first element tagged `a` that has a child tagged `b`, and
   * `es[i].children[j]` is its first child tagged `b`.
   */
  ghost predicate FirstOnPath(es: seq<Element>, a: string, b: string, i: int, j: int) {
    && 0 <= i < |es| && es[i].tag == a
    && 0 <= j < |es[i].children| && es[i].children[j].tag == b
    && (forall m :: 0 <= m < j ==> es[i].children[m].tag != b)
    && forall m :: 0 <= m < i && es[m].tag == a ==> forall y :: y in es[m].children ==> y.tag != b
  }

  lemma {:induction false} TaggedPathFirst(es: seq<Element>, a: string, b: string) returns (i: int, j: int)
    requires TaggedPath(es, a, b) != []
    ensures FirstOnPath(es, a, b, i, j) && TaggedPath(es, a, b)[0] == es[i].children[j]
  {
    var n := |es| - 1;
    var pre := TaggedPath(es[..n], a, b);
    if pre != [] {
      i, j := TaggedPathFirst(es[..n], a, b);
      assert es[..n][i] == es[i];
      assert forall m :: 0 <= m < i ==> es[..n][m] == es[m];
    } else {
      assert es[n].tag == a;
      var cs := es[n].children;
      TaggedFirst(cs, b);
      j :| 0 <= j < |cs| && cs[j] == Tagged(cs, b)[0] && cs[j].tag == b && forall m :: 0 <= m < j ==> cs[m].tag != b;
      i := n;
      forall m, y | 0 <= m < n && es[m].tag == a && y in es[m].children
        ensures y.tag != b
      {
        assert es[..n][m] == es[m];
        assert y !in pre;
      }
    }
  }

  /**
   * `find('a/b')` finds nothing exactly when no `a` child has a `b` child;
   * otherwise it finds the first `b` child of the first `a` child that has one.
   */
  lemma FindPathSelects(e: Element, a: string, b: string)
    ensures FindPath(e, a, b).None? <==> forall c :: c in e.children && c.tag == a ==> forall x :: x in c.children ==> x.tag != b
    ensures FindPath(e, a, b).Some? ==>
              exists i, j :: FirstOnPath(e.children, a, b, i, j) && FindPath(e, a, b).value == e.children[i].children[j]
  {
    var sel := TaggedPath(e.children, a, b);
    if sel != [] {
      assert sel[0] in sel;
      var i, j := TaggedPathFirst(e.children, a, b);
    }
  }

  /** Every element strictly below `e`, in document (pre-)order. */
  function Descendants(e: Element): seq<Element>
    decreases e, 1
  {
    DescendantsOfAll(e.children)
  }

  function DescendantsOfAll(cs: seq<Element>): seq<Element>
    decreases cs, 0
  {
    if cs == [] then [] else [cs[0]] + Descendants(cs[0]) + DescendantsOfAll(cs[1..])
  }

  /** `x` lies strictly below `e`: it is a child of `e` or lies below one. */
  ghost predicate Below(x: Element, e: Element)
    decreases e
  {
    exists i :: 0 <= i < |e.children| && (x == e.children[i] || Below(x, e.children[i]))
  }

  /** The `.//` walk visits exactly the elements below `e`. */
  lemma {:induction false} DescendantsAreBelow(e: Element, x: Element)
    ensures x in Descendants(e) <==> Below(x, e)
    decreases e, 1
  {
    DescendantsOfAllAreBelow(e.children, x);
  }

  lemma {:induction false} DescendantsOfAllAreBelow(cs: seq<Element>, x: Element)
    ensures x in DescendantsOfAll(cs) <==> exists i :: 0 <= i < |cs| && (x == cs[i] || Below(x, cs[i]))
    decreases cs, 0
  {
    if cs != [] {
      DescendantsAreBelow(cs[0], x);
      DescendantsOfAllAreBelow(cs[1..], x);
      if x in DescendantsOfAll(cs[1..]) {
        var i :| 0 <= i < |cs[1..]| && (x == cs[1..][i] || Below(x, cs[1..][i]));
        assert cs[i + 1] == cs[1..][i];
      }
      if exists i :: 0 <= i < |cs| && (x == cs[i] || Below(x, cs[i])) {
        var i :| 0 <= i < |cs| && (x == cs[i] || Below(x, cs[i]));
        if i > 0 {
          assert cs[1..][i - 1] == cs[i];
        }
      }
    }
  }
}
