/**
 The conversion constructors Commitmap(const Indexmap&) and
 Indexmap(const Commitmap&): both walk the source map in ascending key order
 and assign `m[value] = key`, so a hash carried by several files ends up with
 the last, that is the greatest, of them.
 */
module Conversion {
  import opened Strings
  import opened OrderedMaps
  import opened Codec

  /** No two entries carry the same value (no two files share a hash). */
  ghost predicate DistinctValues(es: seq<Entry>)
  {
    forall i, j :: 0 <= i < j < |es| ==> es[i].value != es[j].value
  }

  /** The converted map is ordered, and its keys are exactly the values of the original. */
  lemma InvertedKeys(es: seq<Entry>)
    requires Sorted(es)
    ensures Sorted(Inverted(es))
    ensures ToMap(Inverted(es)).Keys == ToMap(es).Values
  {
    var ps := Swapped(es);
    InsertAllSorted([], ps);
    forall h
      ensures h in ToMap(Inverted(es)) <==> h in ToMap(es).Values
    {
      InsertAllKeys([], ps, h);
      if h in ToMap(es).Values {
        var f :| f in ToMap(es) && ToMap(es)[f] == h;
        ToMapKeys(es, f);
        var i :| 0 <= i < |es| && es[i].key == f;
        ToMapAt(es, i);
        assert ps[i].key == h;
      }
      if exists j :: 0 <= j < |ps| && ps[j].key == h {
        var j :| 0 <= j < |ps| && ps[j].key == h;
        ToMapAt(es, j);
        assert ToMap(es)[es[j].key] == h;
      }
    }
  }

  /** Each hash of the converted map goes to the greatest filename that carries it. */
  lemma InvertedPicksGreatest(es: seq<Entry>, h: string)
    requires Sorted(es) && h in ToMap(Inverted(es))
    ensures ToMap(Inverted(es))[h] in ToMap(es)
    ensures ToMap(es)[ToMap(Inverted(es))[h]] == h
    ensures forall g :: g in ToMap(es) && ToMap(es)[g] == h ==> LessEq(g, ToMap(Inverted(es))[h])
  {
    var ps := Swapped(es);
    InsertAllKeys([], ps, h);
    var i := LastWithKey(ps, h);
    InsertAllLast([], ps, i);
    ToMapAt(es, i);
    forall j | i < j < |es|
      ensures es[j].value != h
    {
      assert ps[j].key == es[j].value;
    }
    LastCarrierIsGreatest(es, h, i);
  }

  /** In ascending key order, the last entry holding `h` has the greatest key that `h` is stored under. */
  lemma LastCarrierIsGreatest(es: seq<Entry>, h: string, i: nat)
    requires Sorted(es) && i < |es| && es[i].value == h
    requires forall j :: i < j < |es| ==> es[j].value != h
    ensures forall g :: g in ToMap(es) && ToMap(es)[g] == h ==> LessEq(g, es[i].key)
  {
    forall g | g in ToMap(es) && ToMap(es)[g] == h
      ensures LessEq(g, es[i].key)
    {
      ToMapKeys(es, g);
      var m :| 0 <= m < |es| && es[m].key == g;
      ToMapAt(es, m);
    }
  }

  /** Two files with the same hash collapse: the converted map is strictly smaller. */
  lemma InversionCollapses(es: seq<Entry>, i: nat, j: nat)
    requires i < j < |es| && es[i].value == es[j].value
    ensures |Inverted(es)| < |es|
  {
    InsertAllCollapse([], Swapped(es), i, j);
  }

  /** Converting twice gives the original map back exactly when its hashes are pairwise distinct. */
  lemma DoubleInversion(es: seq<Entry>)
    requires Sorted(es)
    ensures Inverted(Inverted(es)) == es <==> DistinctValues(es)
  {
    var ys := Inverted(es);
    var zs := Inverted(ys);
    if DistinctValues(es) {
      InvertedKeys(es);
      InvertedKeys(ys);
      var e, y, z := ToMap(es), ToMap(ys), ToMap(zs);
      forall k | k in e
        ensures k in z
      {
        ToMapKeys(es, k);
        var i :| 0 <= i < |es| && es[i].key == k;
        ToMapAt(es, i);
        assert e[k] in y;
        InvertedPicksGreatest(es, e[k]);
        var g := y[e[k]];
        ToMapKeys(es, g);
        var m :| 0 <= m < |es| && es[m].key == g;
        ToMapAt(es, m);
        assert m == i;
        assert k in y.Values;
      }
      forall k | k in z
        ensures k in e && z[k] == e[k]
      {
        InvertedPicksGreatest(ys, k);
        InvertedPicksGreatest(es, z[k]);
      }
      assert z == e;
      SortedUnique(zs, es);
    } else {
      var i, j :| 0 <= i < j < |es| && es[i].value == es[j].value;
      InversionCollapses(es, i, j);
    }
  }

  /** A Commitmap loaded from an Indexmap's file equals the converted Indexmap. */
  lemma CommitReadsIndexText(es: seq<Entry>)
    requires Writable(es)
    ensures ParseCommit(SerialiseIndex(es)) == Inverted(es)
  {
    RecordsOfJoin(es);
  }

  /** An Indexmap loaded from a Commitmap's file equals the converted Commitmap. */
  lemma IndexReadsCommitText(es: seq<Entry>)
    requires Writable(Swapped(es))
    ensures ParseIndex(SerialiseCommit(es)) == Inverted(es)
  {
    RecordsOfJoin(Swapped(es));
  }
}
