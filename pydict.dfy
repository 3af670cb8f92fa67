/**
 * A Python `dict`: assigning to a new key appends it to the iteration order,
 * assigning to a present key replaces its value and keeps its position.
 */
module PyDict {
  import opened Seqs

  datatype Dict<K(==,!new), V> = Dict(keys: seq<K>, entries: map<K, V>) {

    /** The keys are listed once each, and they are exactly the keys that hold a value. */
    ghost predicate Valid() {
      NoDuplicates(keys) && forall k :: k in keys <==> k in entries
    }

    /** `d[k] = v` */
    function Put(k: K, v: V): (d: Dict<K, V>)
      ensures Valid() ==> d.Valid()
      ensures d.entries == entries[k := v]
      ensures k in entries ==> d.keys == keys
      ensures k !in entries ==> d.keys == keys + [k]
    {
      Dict(if k in entries then keys else keys + [k], entries[k := v])
    }

    /** `d.values()`, in insertion order */
    function Values(): (vs: seq<V>)
      requires Valid()
      ensures |vs| == |keys|
      ensures forall i :: 0 <= i < |keys| ==> vs[i] == entries[keys[i]]
    {
      seq(|keys|, i requires 0 <= i < |keys| => entries[keys[i]])
    }
  }

  function Empty<K(==,!new), V>(): (d: Dict<K, V>)
    ensures d.Valid() && d.keys == []
  {
    Dict([], map[])
  }

  function KeysOf<K, V>(ps: seq<(K, V)>): (ks: seq<K>)
    ensures |ks| == |ps| && forall i :: 0 <= i < |ps| ==> ks[i] == ps[i].0
  {
    seq(|ps|, i requires 0 <= i < |ps| => ps[i].0)
  }

  /** The dict that the assignments `d[k] = v`, one per pair of `ps` in order, build from `{}`. */
  function FromPairs<K(==,!new), V>(ps: seq<(K, V)>): Dict<K, V> {
    if ps == [] then Empty()
    else FromPairs(ps[..|ps| - 1]).Put(ps[|ps| - 1].0, ps[|ps| - 1].1)
  }

  lemma FromPairsSnoc<K(!new), V>(ps: seq<(K, V)>, k: K, v: V)
    ensures FromPairs(ps + [(k, v)]) == FromPairs(ps).Put(k, v)
  {
    assert (ps + [(k, v)])[..|ps|] == ps;
  }

  /**
   * Each key once, in order of its first assignment, holding the value of its
   * last assignment.
   */
  ghost predicate BuiltBy<K(!new), V>(d: Dict<K, V>, ps: seq<(K, V)>) {
    && d.Valid()
    && d.keys == Dedup(KeysOf(ps))
    && forall k :: k in d.entries ==> k in KeysOf(ps) && d.entries[k] == ps[LastIndex(KeysOf(ps), k)].1
  }

  lemma FromPairsValid<K(!new), V>(ps: seq<(K, V)>)
    ensures FromPairs(ps).Valid()
  {
    FromPairsSpec(ps);
  }

  /** Python's dict assignment semantics, for any sequence of assignments. */
  lemma {:induction false} FromPairsSpec<K(!new), V>(ps: seq<(K, V)>)
    ensures BuiltBy(FromPairs(ps), ps)
  {
    if ps != [] {
      var n := |ps| - 1;
      var p, x := ps[..n], ps[n];
      FromPairsSpec(p);
      assert ps == p + [x];
      assert KeysOf(ps) == KeysOf(p) + [x.0];
      DedupSnoc(KeysOf(p), x.0);
      var d := FromPairs(ps);
      forall k | k in d.entries
        ensures k in KeysOf(ps) && d.entries[k] == ps[LastIndex(KeysOf(ps), k)].1
      {
        if k != x.0 {
          var i := LastIndex(KeysOf(p), k);
          var j := LastIndex(KeysOf(ps), k);
          assert KeysOf(ps)[i] == k;
          assert j == i by {
            assert j <= i || KeysOf(p)[j] == k;
          }
        }
      }
    }
  }

  /** Two assignments to the same key leave one key holding the second value. */
  lemma FromPairsReassigned<K(!new), V>(ps: seq<(K, V)>)
    requires |ps| == 2 && ps[0].0 == ps[1].0
    ensures FromPairs(ps) == Dict([ps[0].0], map[ps[0].0 := ps[1].1])
  {
    var k := ps[0].0;
    assert ps[..1][0] == ps[0] && |ps[..1][..0]| == 0;
    assert FromPairs(ps[..1]) == Empty<K, V>().Put(k, ps[0].1);
    assert FromPairs(ps) == FromPairs(ps[..1]).Put(k, ps[1].1);
  }
}
