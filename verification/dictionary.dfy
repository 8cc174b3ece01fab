/**
 Dictionaries as the translator builds and uses them. A dictionary is built
 from key/value pairs taken in order, a later pair overwriting an earlier one
 with the same key. A sequence is filtered down to the elements that are keys
 of a dictionary, and those elements are replaced by their values.
 */
module Dictionary {

  /**
   A dictionary built from key/value pairs taken in order: a pair whose key
   is already present overwrites the earlier value.
   */
  function BuildMap<K(==), V>(pairs: seq<(K, V)>): map<K, V>
    decreases |pairs|
  {
    if |pairs| == 0 then map[]
    else BuildMap(pairs[..|pairs| - 1])[pairs[|pairs| - 1].0 := pairs[|pairs| - 1].1]
  }

  /** The same pairs with key and value exchanged. */
  function Flip<K, V>(pairs: seq<(K, V)>): (r: seq<(V, K)>)
    ensures |r| == |pairs|
    ensures forall i :: 0 <= i < |r| ==> r[i].0 == pairs[i].1 && r[i].1 == pairs[i].0
  {
    seq(|pairs|, i requires 0 <= i < |pairs| => (pairs[i].1, pairs[i].0))
  }

  ghost predicate DistinctKeys<K, V>(pairs: seq<(K, V)>) {
    forall i, j :: 0 <= i < j < |pairs| ==> pairs[i].0 != pairs[j].0
  }

  /** The last pair listed wins: its key maps to its value, whatever came before. */
  lemma BuildMapLast<K, V>(pairs: seq<(K, V)>)
    requires |pairs| > 0
    ensures pairs[|pairs| - 1].0 in BuildMap(pairs)
    ensures BuildMap(pairs)[pairs[|pairs| - 1].0] == pairs[|pairs| - 1].1
  {
  }

  /**
   A later duplicate key overwrites an earlier one: a key maps to the value
   of the last pair that lists it.
   */
  lemma {:induction false} BuildMapLastOccurrence<K, V>(pairs: seq<(K, V)>, i: int)
    requires 0 <= i < |pairs|
    requires forall j :: i < j < |pairs| ==> pairs[j].0 != pairs[i].0
    ensures pairs[i].0 in BuildMap(pairs) && BuildMap(pairs)[pairs[i].0] == pairs[i].1
    decreases |pairs|
  {
    var n := |pairs| - 1;
    if i < n {
      var prefix := pairs[..n];
      assert prefix[i] == pairs[i];
      assert forall j :: i < j < |prefix| ==> prefix[j] == pairs[j];
      BuildMapLastOccurrence(prefix, i);
    }
  }

  /** Every listed key is in the dictionary. */
  lemma {:induction false} BuildMapHas<K, V>(pairs: seq<(K, V)>, i: int)
    requires 0 <= i < |pairs|
    ensures pairs[i].0 in BuildMap(pairs)
    decreases |pairs|
  {
    var n := |pairs| - 1;
    if i < n {
      var prefix := pairs[..n];
      assert prefix[i] == pairs[i];
      BuildMapHas(prefix, i);
    }
  }

  /** Every key of the dictionary is listed: `i` is a position listing it. */
  lemma {:induction false} BuildMapIndex<K, V>(pairs: seq<(K, V)>, k: K) returns (i: int)
    requires k in BuildMap(pairs)
    ensures 0 <= i < |pairs| && pairs[i].0 == k
    decreases |pairs|
  {
    var n := |pairs| - 1;
    if pairs[n].0 == k {
      i := n;
    } else {
      var prefix := pairs[..n];
      i := BuildMapIndex(prefix, k);
      assert prefix[i] == pairs[i];
    }
  }

  /** With no key repeated, every pair survives into the dictionary unchanged. */
  lemma {:induction false} BuildMapAt<K, V>(pairs: seq<(K, V)>, i: int)
    requires DistinctKeys(pairs)
    requires 0 <= i < |pairs|
    ensures pairs[i].0 in BuildMap(pairs) && BuildMap(pairs)[pairs[i].0] == pairs[i].1
    decreases |pairs|
  {
    var n := |pairs| - 1;
    if i < n {
      var prefix := pairs[..n];
      assert prefix[i] == pairs[i];
      BuildMapAt(prefix, i);
    }
  }

  /** With no key repeated, the dictionary has exactly one key per pair. */
  lemma {:induction false} BuildMapSize<K, V>(pairs: seq<(K, V)>)
    requires DistinctKeys(pairs)
    ensures |BuildMap(pairs)| == |pairs|
    decreases |pairs|
  {
    if |pairs| > 0 {
      var n := |pairs| - 1;
      var prefix := pairs[..n];
      BuildMapSize(prefix);
      if pairs[n].0 in BuildMap(prefix) {
        var j := BuildMapIndex(prefix, pairs[n].0);
        assert false;
      }
    }
  }

  /**
   Inverting a dictionary whose keys are distinct and whose values are
   distinct loses nothing: the two dictionaries undo each other and have
   one entry per pair.
   */
  lemma BuildMapInverse<K, V>(pairs: seq<(K, V)>)
    requires DistinctKeys(pairs) && DistinctKeys(Flip(pairs))
    ensures forall k :: k in BuildMap(pairs) ==>
      BuildMap(pairs)[k] in BuildMap(Flip(pairs)) && BuildMap(Flip(pairs))[BuildMap(pairs)[k]] == k
    ensures forall v :: v in BuildMap(Flip(pairs)) ==>
      BuildMap(Flip(pairs))[v] in BuildMap(pairs) && BuildMap(pairs)[BuildMap(Flip(pairs))[v]] == v
    ensures |BuildMap(pairs)| == |BuildMap(Flip(pairs))| == |pairs|
  {
    var flipped := Flip(pairs);
    var m, r := BuildMap(pairs), BuildMap(flipped);
    forall k | k in m
      ensures m[k] in r && r[m[k]] == k
    {
      var i := BuildMapIndex(pairs, k);
      BuildMapAt(pairs, i);
      BuildMapAt(flipped, i);
    }
    forall v | v in r
      ensures r[v] in m && m[r[v]] == v
    {
      var i := BuildMapIndex(flipped, v);
      BuildMapAt(pairs, i);
      BuildMapAt(flipped, i);
    }
    BuildMapSize(pairs);
    BuildMapSize(flipped);
  }

  /** The elements of `xs` that are keys of `m`, in order. */
  function Present<K, V>(xs: seq<K>, m: map<K, V>): (r: seq<K>)
    ensures |r| <= |xs|
    ensures forall i :: 0 <= i < |r| ==> r[i] in m
  {
    if |xs| == 0 then []
    else (if xs[0] in m then [xs[0]] else []) + Present(xs[1..], m)
  }

  /** The values of `m` for the elements of `xs` that are keys of `m`, in order. */
  function LookUp<K, V>(xs: seq<K>, m: map<K, V>): (r: seq<V>)
    ensures |r| == |Present(xs, m)|
  {
    if |xs| == 0 then []
    else (if xs[0] in m then [m[xs[0]]] else []) + LookUp(xs[1..], m)
  }

  /** The i-th value looked up is the value of the i-th element present. */
  lemma {:induction false} LookUpPresent<K, V>(xs: seq<K>, m: map<K, V>)
    ensures forall i :: 0 <= i < |LookUp(xs, m)| ==> LookUp(xs, m)[i] == m[Present(xs, m)[i]]
  {
    if |xs| > 0 {
      LookUpPresent(xs[1..], m);
      if xs[0] in m {
        assert Present(xs, m) == [xs[0]] + Present(xs[1..], m);
        assert LookUp(xs, m) == [m[xs[0]]] + LookUp(xs[1..], m);
      } else {
        assert Present(xs, m) == Present(xs[1..], m);
        assert LookUp(xs, m) == LookUp(xs[1..], m);
      }
    }
  }

  /** Filtering distributes over concatenation. */
  lemma {:induction false} PresentAppend<K, V>(a: seq<K>, b: seq<K>, m: map<K, V>)
    ensures Present(a + b, m) == Present(a, m) + Present(b, m)
  {
    if |a| > 0 {
      PresentAppend(a[1..], b, m);
      assert (a + b)[0] == a[0];
      assert (a + b)[1..] == a[1..] + b;
    } else {
      assert a + b == b;
    }
  }

  /** Looking up distributes over concatenation. */
  lemma {:induction false} LookUpAppend<K, V>(a: seq<K>, b: seq<K>, m: map<K, V>)
    ensures LookUp(a + b, m) == LookUp(a, m) + LookUp(b, m)
  {
    if |a| > 0 {
      var head := if a[0] in m then [m[a[0]]] else [];
      LookUpAppend(a[1..], b, m);
      assert (a + b)[0] == a[0];
      assert (a + b)[1..] == a[1..] + b;
      assert LookUp(a + b, m) == head + LookUp(a[1..] + b, m);
      assert LookUp(a, m) == head + LookUp(a[1..], m);
    } else {
      assert a + b == b;
    }
  }

  /** Looking up only the elements present gives the same values. */
  lemma {:induction false} LookUpOfPresent<K, V>(xs: seq<K>, m: map<K, V>)
    ensures LookUp(Present(xs, m), m) == LookUp(xs, m)
  {
    if |xs| > 0 {
      LookUpOfPresent(xs[1..], m);
      var rest := Present(xs[1..], m);
      if xs[0] in m {
        var p := [xs[0]] + rest;
        assert Present(xs, m) == p;
        assert p[0] == xs[0] && p[1..] == rest;
        assert LookUp(p, m) == [m[xs[0]]] + LookUp(rest, m);
        assert LookUp(xs, m) == [m[xs[0]]] + LookUp(xs[1..], m);
      } else {
        assert Present(xs, m) == rest;
        assert LookUp(xs, m) == LookUp(xs[1..], m);
      }
    }
  }

  /** A key survives the filter if and only if it occurs. */
  lemma {:induction false} PresentContains<K, V>(xs: seq<K>, m: map<K, V>, x: K)
    requires x in m
    ensures x in Present(xs, m) <==> x in xs
  {
    if |xs| > 0 {
      PresentContains(xs[1..], m, x);
      assert x in xs <==> x == xs[0] || x in xs[1..];
    }
  }

  /** A sequence made only of keys passes the filter whole. */
  lemma {:induction false} PresentAll<K, V>(xs: seq<K>, m: map<K, V>)
    requires forall i :: 0 <= i < |xs| ==> xs[i] in m
    ensures Present(xs, m) == xs
  {
    if |xs| > 0 {
      PresentAll(xs[1..], m);
      assert xs == [xs[0]] + xs[1..];
    }
  }

  /** An element that is not a key contributes nothing, wherever it stands. */
  lemma LookUpSkips<K, V>(a: seq<K>, x: K, b: seq<K>, m: map<K, V>)
    requires x !in m
    ensures LookUp(a + [x] + b, m) == LookUp(a + b, m)
  {
    LookUpAppend(a + [x], b, m);
    LookUpAppend(a, [x], m);
    LookUpAppend(a, b, m);
    assert LookUp([x], m) == [];
  }

  /** A key contributes its value, in place. */
  lemma LookUpKeeps<K, V>(a: seq<K>, x: K, b: seq<K>, m: map<K, V>)
    requires x in m
    ensures LookUp(a + [x] + b, m) == LookUp(a, m) + [m[x]] + LookUp(b, m)
  {
    LookUpAppend(a + [x], b, m);
    LookUpAppend(a, [x], m);
    assert LookUp([x], m) == [m[x]];
  }

  /**
   Looking up through a dictionary and then through an inverse of it gives
   back the elements that were present.
   */
  lemma {:induction false} LookUpInverse<K, V>(xs: seq<K>, m: map<K, V>, inv: map<V, K>)
    requires forall k :: k in m ==> m[k] in inv && inv[m[k]] == k
    ensures LookUp(LookUp(xs, m), inv) == Present(xs, m)
  {
    if |xs| > 0 {
      LookUpInverse(xs[1..], m, inv);
      var rest := LookUp(xs[1..], m);
      if xs[0] in m {
        var v := m[xs[0]];
        assert LookUp(xs, m) == [v] + rest;
        assert ([v] + rest)[1..] == rest;
      } else {
        assert LookUp(xs, m) == rest;
      }
    }
  }
}
