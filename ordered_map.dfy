/**
 std::map<std::string, std::string>, the container behind both Indexmap and
 Commitmap, as the sequence of its entries in iteration order.  Assignment
 through operator[] is Insert; a loop of such assignments is InsertAll, where
 the last assignment to a key wins.
 */
module OrderedMaps {
  import opened Strings

  /** One element of the map: a key and the string it is mapped to. */
  datatype Entry = Entry(key: string, value: string)

  /** Iteration order of a std::map: keys strictly ascending, hence distinct. */
  ghost predicate Sorted(es: seq<Entry>)
  {
    forall i, j :: 0 <= i < j < |es| ==> Less(es[i].key, es[j].key)
  }

  /** The map that a sequence of entries stands for (a front entry hides a later one with the same key). */
  ghost function ToMap(es: seq<Entry>): map<string, string>
  {
    if es == [] then map[] else ToMap(es[1..])[es[0].key := es[0].value]
  }

  /** m[k] = v: overwrite the entry for `k`, or add one at its place in key order. */
  function Insert(es: seq<Entry>, k: string, v: string): (r: seq<Entry>)
    ensures ToMap(r) == ToMap(es)[k := v]
    ensures forall e :: e in r ==> e == Entry(k, v) || e in es
  {
    if es == [] then [Entry(k, v)]
    else if es[0].key == k then [Entry(k, v)] + es[1..]
    else if Less(k, es[0].key) then [Entry(k, v)] + es
    else
      var rest := Insert(es[1..], k, v);
      assert ToMap([es[0]] + rest) == ToMap(rest)[es[0].key := es[0].value];
      [es[0]] + rest
  }

  /** A loop `for (e : ps) m[e.key] = e.value;` starting from `acc`. */
  function InsertAll(acc: seq<Entry>, ps: seq<Entry>): (r: seq<Entry>)
    ensures forall e :: e in r ==> e in acc || e in ps
    decreases |ps|
  {
    if ps == [] then acc
    else InsertAll(Insert(acc, ps[0].key, ps[0].value), ps[1..])
  }

  /** std::map::at, std::map::count: the value stored under `k`, None when `k` is absent. */
  function Lookup(es: seq<Entry>, k: string): (r: Option<string>)
    ensures r.Some? <==> k in ToMap(es)
    ensures r.Some? ==> r.value == ToMap(es)[k]
  {
    if es == [] then None
    else if es[0].key == k then Some(es[0].value)
    else Lookup(es[1..], k)
  }

  /**
   The reverse scan of Indexmap::getFile and Commitmap::getHash: the key of
   the first entry in iteration order whose value is `v`, which is the
   smallest such key, or "" when no entry holds `v`.
   */
  function FirstKeyWith(es: seq<Entry>, v: string): (r: string)
    requires Sorted(es)
    ensures v !in ToMap(es).Values ==> r == ""
    ensures v in ToMap(es).Values ==>
              r in ToMap(es) && ToMap(es)[r] == v &&
              forall k :: k in ToMap(es) && ToMap(es)[k] == v ==> LessEq(r, k)
  {
    if es == [] then ""
    else
      SortedHead(es);
      if es[0].value == v then
        assert ToMap(es)[es[0].key] == v;
        es[0].key
      else
        var r := FirstKeyWith(es[1..], v);
        assert v in ToMap(es).Values <==> v in ToMap(es[1..]).Values by {
          if v in ToMap(es).Values {
            var k :| k in ToMap(es) && ToMap(es)[k] == v;
            assert k != es[0].key && k in ToMap(es[1..]);
          }
          if v in ToMap(es[1..]).Values {
            var k :| k in ToMap(es[1..]) && ToMap(es[1..])[k] == v;
            assert k in ToMap(es) && ToMap(es)[k] == v;
          }
        }
        r
  }

  /** Every entry turned round: the value becomes the key. */
  function Swapped(es: seq<Entry>): (r: seq<Entry>)
    ensures |r| == |es|
  {
    seq(|es|, i requires 0 <= i < |es| => Entry(es[i].value, es[i].key))
  }

  /** The conversion constructors Indexmap(const Commitmap&) and Commitmap(const Indexmap&). */
  function Inverted(es: seq<Entry>): (r: seq<Entry>)
    ensures |r| <= |es|
  {
    InsertAllSorted([], Swapped(es));
    InsertAll([], Swapped(es))
  }

  /** Turning every entry round twice gives the entries back. */
  lemma SwappedTwice(es: seq<Entry>)
    ensures Swapped(Swapped(es)) == es
  {
  }

  lemma SwappedConcat(a: seq<Entry>, b: seq<Entry>)
    ensures Swapped(a + b) == Swapped(a) + Swapped(b)
  {
  }

  // ---------------------------------------------------------------------------
  // The map a sorted sequence stands for

  lemma {:induction false} ToMapKeys(es: seq<Entry>, k: string)
    ensures k in ToMap(es) <==> exists i :: 0 <= i < |es| && es[i].key == k
  {
    if es != [] {
      ToMapKeys(es[1..], k);
      if k in ToMap(es[1..]) {
        var i :| 0 <= i < |es[1..]| && es[1..][i].key == k;
        assert es[i + 1].key == k;
      }
      if exists i :: 0 <= i < |es| && es[i].key == k {
        var i :| 0 <= i < |es| && es[i].key == k;
        if i > 0 {
          assert es[1..][i - 1].key == k;
        }
      }
    }
  }

  /** Splitting the first entry off a sorted sequence. */
  lemma SortedHead(es: seq<Entry>)
    requires Sorted(es) && es != []
    ensures Sorted(es[1..])
    ensures es[0].key !in ToMap(es[1..])
    ensures forall k :: k in ToMap(es[1..]) ==> Less(es[0].key, k)
  {
    forall k | k in ToMap(es[1..])
      ensures Less(es[0].key, k)
    {
      ToMapKeys(es[1..], k);
      var i :| 0 <= i < |es[1..]| && es[1..][i].key == k;
      assert es[i + 1].key == k;
    }
    if es[0].key in ToMap(es[1..]) {
      LessIrreflexive(es[0].key);
    }
  }

  lemma {:induction false} ToMapAt(es: seq<Entry>, i: nat)
    requires Sorted(es) && i < |es|
    ensures es[i].key in ToMap(es) && ToMap(es)[es[i].key] == es[i].value
  {
    if i > 0 {
      SortedHead(es);
      ToMapAt(es[1..], i - 1);
      assert es[1..][i - 1] == es[i];
    }
  }

  /** Two sorted sequences standing for the same map are the same sequence. */
  lemma {:induction false} SortedUnique(a: seq<Entry>, b: seq<Entry>)
    requires Sorted(a) && Sorted(b) && ToMap(a) == ToMap(b)
    ensures a == b
  {
    if a == [] || b == [] {
      if a != [] {
        ToMapAt(a, 0);
      } else if b != [] {
        ToMapAt(b, 0);
      }
    } else {
      SortedHead(a);
      SortedHead(b);
      ToMapAt(a, 0);
      ToMapAt(b, 0);
      if a[0].key != b[0].key {
        assert b[0].key in ToMap(a[1..]) && a[0].key in ToMap(b[1..]);
        LessAsymmetric(a[0].key, b[0].key);
      }
      assert ToMap(a[1..]) == ToMap(a) - {a[0].key};
      assert ToMap(b[1..]) == ToMap(b) - {b[0].key};
      SortedUnique(a[1..], b[1..]);
      assert a == [a[0]] + a[1..] && b == [b[0]] + b[1..];
    }
  }

  // ---------------------------------------------------------------------------
  // Insert

  /** Assignment keeps the iteration order, and adds an entry exactly when the key is new. */
  lemma {:induction false} InsertSorted(es: seq<Entry>, k: string, v: string)
    requires Sorted(es)
    ensures Sorted(Insert(es, k, v))
    ensures |Insert(es, k, v)| == if k in ToMap(es) then |es| else |es| + 1
  {
    var r := Insert(es, k, v);
    if es == [] {
    } else if es[0].key == k {
      assert forall i :: 0 <= i < |r| ==> r[i].key == es[i].key;
    } else if Less(k, es[0].key) {
      forall j | 0 < j < |es|
        ensures Less(k, es[j].key)
      {
        LessTransitive(k, es[0].key, es[j].key);
      }
      ToMapKeys(es, k);
    } else {
      LessTotal(k, es[0].key);
      SortedHead(es);
      InsertSorted(es[1..], k, v);
      var rest := Insert(es[1..], k, v);
      forall j | 0 <= j < |rest|
        ensures Less(es[0].key, rest[j].key)
      {
        assert rest[j] in rest;
        if rest[j] != Entry(k, v) {
          var i :| 0 <= i < |es[1..]| && es[1..][i] == rest[j];
          assert es[i + 1] == rest[j];
        }
      }
    }
  }

  /** Assigning a key greater than every present key appends. */
  lemma {:induction false} InsertAtEnd(es: seq<Entry>, k: string, v: string)
    requires forall i :: 0 <= i < |es| ==> Less(es[i].key, k)
    ensures Insert(es, k, v) == es + [Entry(k, v)]
  {
    if es != [] {
      LessIrreflexive(k);
      LessAsymmetric(es[0].key, k);
      InsertAtEnd(es[1..], k, v);
      assert [es[0]] + (es[1..] + [Entry(k, v)]) == es + [Entry(k, v)];
    }
  }

  // ---------------------------------------------------------------------------
  // InsertAll: a sequence of assignments

  lemma {:induction false} InsertAllSorted(acc: seq<Entry>, ps: seq<Entry>)
    requires Sorted(acc)
    ensures Sorted(InsertAll(acc, ps))
    ensures |InsertAll(acc, ps)| <= |acc| + |ps|
    decreases |ps|
  {
    if ps != [] {
      InsertSorted(acc, ps[0].key, ps[0].value);
      InsertAllSorted(Insert(acc, ps[0].key, ps[0].value), ps[1..]);
    }
  }

  /** Assigning keys in ascending order, each above the present ones, appends them all. */
  lemma {:induction false} InsertAllAppend(acc: seq<Entry>, ps: seq<Entry>)
    requires Sorted(acc + ps)
    ensures InsertAll(acc, ps) == acc + ps
    decreases |ps|
  {
    if ps != [] {
      forall i | 0 <= i < |acc|
        ensures Less(acc[i].key, ps[0].key)
      {
        assert (acc + ps)[i] == acc[i] && (acc + ps)[|acc|] == ps[0];
      }
      InsertAtEnd(acc, ps[0].key, ps[0].value);
      assert ps[0] == Entry(ps[0].key, ps[0].value);
      assert (acc + [ps[0]]) + ps[1..] == acc + ps;
      InsertAllAppend(acc + [ps[0]], ps[1..]);
    }
  }

  /** The last assignment to a key decides its value. */
  lemma {:induction false} InsertAllLast(acc: seq<Entry>, ps: seq<Entry>, i: nat)
    requires i < |ps|
    requires forall j :: i < j < |ps| ==> ps[j].key != ps[i].key
    ensures ps[i].key in ToMap(InsertAll(acc, ps))
    ensures ToMap(InsertAll(acc, ps))[ps[i].key] == ps[i].value
    decreases |ps|
  {
    var next := Insert(acc, ps[0].key, ps[0].value);
    if i == 0 {
      InsertAllUntouched(next, ps[1..], ps[0].key);
    } else {
      assert ps[1..][i - 1] == ps[i];
      InsertAllLast(next, ps[1..], i - 1);
    }
  }

  /** A key no assignment mentions keeps what it had. */
  lemma {:induction false} InsertAllUntouched(acc: seq<Entry>, ps: seq<Entry>, k: string)
    requires forall j :: 0 <= j < |ps| ==> ps[j].key != k
    ensures k in ToMap(InsertAll(acc, ps)) <==> k in ToMap(acc)
    ensures k in ToMap(acc) ==> ToMap(InsertAll(acc, ps))[k] == ToMap(acc)[k]
    decreases |ps|
  {
    if ps != [] {
      InsertAllUntouched(Insert(acc, ps[0].key, ps[0].value), ps[1..], k);
    }
  }

  /** The keys after a sequence of assignments: the old ones and the assigned ones. */
  lemma InsertAllKeys(acc: seq<Entry>, ps: seq<Entry>, k: string)
    ensures k in ToMap(InsertAll(acc, ps)) <==>
              k in ToMap(acc) || exists j :: 0 <= j < |ps| && ps[j].key == k
  {
    if exists j :: 0 <= j < |ps| && ps[j].key == k {
      var j := LastWithKey(ps, k);
      InsertAllLast(acc, ps, j);
    } else {
      InsertAllUntouched(acc, ps, k);
    }
  }

  /** The position of the last entry with key `k`. */
  lemma {:induction false} LastWithKey(ps: seq<Entry>, k: string) returns (i: nat)
    requires exists j :: 0 <= j < |ps| && ps[j].key == k
    ensures i < |ps| && ps[i].key == k
    ensures forall j :: i < j < |ps| ==> ps[j].key != k
  {
    var n := |ps| - 1;
    if ps[n].key == k {
      i := n;
    } else {
      var j :| 0 <= j < |ps| && ps[j].key == k;
      assert ps[..n][j].key == k;
      i := LastWithKey(ps[..n], k);
      assert ps[..n][i] == ps[i];
    }
  }

  /** When an assigned key is already present, the sequence grows by less than one per assignment. */
  lemma {:induction false} InsertAllPresent(acc: seq<Entry>, ps: seq<Entry>, j: nat)
    requires Sorted(acc) && j < |ps| && ps[j].key in ToMap(acc)
    ensures |InsertAll(acc, ps)| < |acc| + |ps|
    decreases |ps|
  {
    var next := Insert(acc, ps[0].key, ps[0].value);
    InsertSorted(acc, ps[0].key, ps[0].value);
    if j == 0 {
      InsertAllSorted(next, ps[1..]);
    } else {
      assert ps[1..][j - 1] == ps[j];
      InsertAllPresent(next, ps[1..], j - 1);
    }
  }

  /** Two assignments to one key leave fewer entries than assignments. */
  lemma {:induction false} InsertAllCollapse(acc: seq<Entry>, ps: seq<Entry>, i: nat, j: nat)
    requires Sorted(acc) && i < j < |ps| && ps[i].key == ps[j].key
    ensures |InsertAll(acc, ps)| < |acc| + |ps|
    decreases |ps|
  {
    var next := Insert(acc, ps[0].key, ps[0].value);
    InsertSorted(acc, ps[0].key, ps[0].value);
    assert ps[1..][j - 1] == ps[j];
    if i == 0 {
      InsertAllPresent(next, ps[1..], j - 1);
    } else {
      assert ps[1..][i - 1] == ps[i];
      InsertAllCollapse(next, ps[1..], i - 1, j - 1);
    }
  }
}
