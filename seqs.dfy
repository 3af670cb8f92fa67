/** Facts about sequences shared by the schema builders: first/last occurrences and de-duplication. */
module Seqs {
  import opened Wrappers

  predicate NoDuplicates<T(==)>(s: seq<T>) {
    forall i, j :: 0 <= i < j < |s| ==> s[i] != s[j]
  }

  /** `order` lists every element of `s` exactly once: one possible iteration order of a Python set. */
  ghost predicate IsEnumeration<T(!new)>(order: seq<T>, s: set<T>) {
    NoDuplicates(order) && forall x :: x in order <==> x in s
  }

  /**
   * Iterating a Python set: every element once, in an order the language
   * leaves unspecified, so the choice here is arbitrary.
   */
  method IterationOrder<T(!new)>(s: set<T>) returns (order: seq<T>)
    ensures IsEnumeration(order, s)
  {
    order := [];
    var rest := s;
    while rest != {}
      invariant rest <= s
      invariant NoDuplicates(order)
      invariant forall x :: x in order <==> x in s && x !in rest
      decreases |rest|
    {
      var x :| x in rest;
      order := order + [x];
      rest := rest - {x};
    }
  }

  /** An enumeration of a set is as long as the set is large. */
  lemma {:induction false} EnumerationSize<T(!new)>(order: seq<T>, s: set<T>)
    requires IsEnumeration(order, s)
    ensures |order| == |s|
  {
    if order == [] {
      assert forall x :: x !in s;
      assert s == {};
    } else {
      var n := |order| - 1;
      var x := order[n];
      forall y
        ensures y in order[..n] <==> y in s - {x}
      {
        if y in order[..n] {
          var i :| 0 <= i < n && order[..n][i] == y;
          assert order[i] == y;
        }
        if y in s - {x} {
          var i :| 0 <= i < |order| && order[i] == y;
          assert order[..n][i] == y;
        }
      }
      EnumerationSize(order[..n], s - {x});
    }
  }

  /** Position of the first occurrence of `x` in `s`. */
  function FirstIndex<T(==)>(s: seq<T>, x: T): (k: nat)
    requires x in s
    ensures k < |s| && s[k] == x
    ensures forall m :: 0 <= m < k ==> s[m] != x
  {
    if s[0] == x then 0 else 1 + FirstIndex(s[1..], x)
  }

  /** Position of the last occurrence of `x` in `s`. */
  function LastIndex<T(==)>(s: seq<T>, x: T): (k: nat)
    requires x in s
    ensures k < |s| && s[k] == x
    ensures forall m :: k < m < |s| ==> s[m] != x
  {
    var n := |s| - 1;
    if s[n] == x then n
    else
      assert x in s[..n] by { var i :| 0 <= i < |s| && s[i] == x; assert s[..n][i] == x; }
      LastIndex(s[..n], x)
  }

  /** Position of the first element satisfying `p`, if there is one. */
  function FirstIndexWhere<T>(s: seq<T>, p: T -> bool): (r: Option<nat>)
    ensures r.Some? ==> r.value < |s| && p(s[r.value])
    ensures r.Some? ==> forall m :: 0 <= m < r.value ==> !p(s[m])
    ensures r.None? ==> forall m :: 0 <= m < |s| ==> !p(s[m])
  {
    if s == [] then None
    else if p(s[0]) then Some(0)
    else match FirstIndexWhere(s[1..], p)
      case None => None
      case Some(k) => Some(k + 1)
  }

  lemma FirstIndexWhereAt<T>(s: seq<T>, p: T -> bool, j: nat)
    requires j < |s| && p(s[j])
    requires forall m :: 0 <= m < j ==> !p(s[m])
    ensures FirstIndexWhere(s, p) == Some(j)
  {
  }

  lemma FirstIndexWhereNone<T>(s: seq<T>, p: T -> bool)
    requires forall m :: 0 <= m < |s| ==> !p(s[m])
    ensures FirstIndexWhere(s, p) == None
  {
  }

  /** The distinct elements of `s`, each kept where it first occurs (scanning left to right). */
  function Dedup<T(==,!new)>(s: seq<T>): (r: seq<T>)
    ensures NoDuplicates(r)
    ensures forall x :: x in r <==> x in s
  {
    if s == [] then []
    else
      var n := |s| - 1;
      var d := Dedup(s[..n]);
      assert s == s[..n] + [s[n]];
      if s[n] in d then d else d + [s[n]]
  }

  /** Adding an element at the end: the distinct elements grow by it exactly when it is new. */
  lemma DedupSnoc<T(!new)>(s: seq<T>, x: T)
    ensures Dedup(s + [x]) == if x in s then Dedup(s) else Dedup(s) + [x]
  {
    assert (s + [x])[..|s|] == s;
  }

  /** A first occurrence inside a prefix is the first occurrence in the whole sequence. */
  lemma FirstIndexInPrefix<T>(p: seq<T>, s: seq<T>, x: T)
    requires |p| <= |s| && s[..|p|] == p && x in p
    ensures x in s && FirstIndex(s, x) == FirstIndex(p, x)
  {
    var b := FirstIndex(p, x);
    assert s[b] == x;
    var a := FirstIndex(s, x);
    assert a <= b;
    assert p[a] == s[a];
  }

  /**
   * De-duplication keeps first-encounter order: an element listed earlier in
   * `Dedup(s)` occurs for the first time earlier in `s`.
   */
  lemma {:induction false} DedupKeepsFirstOccurrenceOrder<T(!new)>(s: seq<T>, i: nat, j: nat)
    requires i < j < |Dedup(s)|
    ensures FirstIndex(s, Dedup(s)[i]) < FirstIndex(s, Dedup(s)[j])
  {
    var n := |s| - 1;
    var p, x := s[..n], s[n];
    assert s == p + [x];
    DedupSnoc(p, x);
    var d := Dedup(p);
    FirstIndexInPrefix(p, s, d[i]);
    if j < |d| {
      DedupKeepsFirstOccurrenceOrder(p, i, j);
      FirstIndexInPrefix(p, s, d[j]);
    } else {
      assert Dedup(s)[j] == x && x !in p;
      assert FirstIndex(s, x) == n;
    }
  }
}
