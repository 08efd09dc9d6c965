/**
  Insertion-ordered maps as association lists: the `LinkedHashMap` behind
  Kotlin's `Iterable<Pair<K, V>>.toMap()`. Keys are unique; putting an existing
  key overwrites its value where it stands, a new key goes at the end.
 */
module Assoc {

  /** No key occurs twice. */
  predicate UniqueKeys<K(==), V>(m: seq<(K, V)>) {
    forall i, j :: 0 <= i < j < |m| ==> m[i].0 != m[j].0
  }

  /** Position of the first entry with key `k`, or `|m|` when there is none. */
  function KeyIndex<K(==), V>(m: seq<(K, V)>, k: K): (i: nat)
    ensures i <= |m|
    ensures i < |m| ==> m[i].0 == k
    ensures forall j :: 0 <= j < i ==> m[j].0 != k
  {
    if m == [] then 0 else if m[0].0 == k then 0 else 1 + KeyIndex(m[1..], k)
  }

  /** The dictionary an association list with unique keys stands for. */
  function AsMap<K(==), V>(m: seq<(K, V)>): (r: map<K, V>)
    requires UniqueKeys(m)
  {
    map i | 0 <= i < |m| :: m[i].0 := m[i].1
  }

  /** Each entry of a list with unique keys is an entry of its dictionary. */
  lemma AsMapAt<K, V>(m: seq<(K, V)>, i: nat)
    requires UniqueKeys(m) && i < |m|
    ensures m[i].0 in AsMap(m) && AsMap(m)[m[i].0] == m[i].1
  {
  }

  /** When every entry of `m` is an entry of `n`, the dictionary of `n` extends that of `m`. */
  lemma AsMapOfSubset<K, V>(m: seq<(K, V)>, n: seq<(K, V)>)
    requires UniqueKeys(m) && UniqueKeys(n)
    requires forall e :: e in m ==> e in n
    ensures forall k :: k in AsMap(m) ==> k in AsMap(n) && AsMap(n)[k] == AsMap(m)[k]
  {
    forall k | k in AsMap(m) ensures k in AsMap(n) && AsMap(n)[k] == AsMap(m)[k] {
      var i :| 0 <= i < |m| && m[i].0 == k;
      assert m[i] in n;
      var j :| 0 <= j < |n| && n[j] == m[i];
      AsMapAt(m, i);
      AsMapAt(n, j);
    }
  }

  /** Lists with unique keys and the same dictionary hold the same entries. */
  lemma EntriesOfAsMap<K, V>(m: seq<(K, V)>, n: seq<(K, V)>)
    requires UniqueKeys(m) && UniqueKeys(n) && AsMap(m) == AsMap(n)
    ensures forall e :: e in m ==> e in n
  {
    forall e | e in m ensures e in n {
      var i :| 0 <= i < |m| && m[i] == e;
      AsMapAt(m, i);
      var j :| 0 <= j < |n| && n[j].0 == e.0;
      AsMapAt(n, j);
      assert n[j] == e;
    }
  }

  /**
    The dictionary obtained by inserting the pairs of `ps` one after the other
    into an empty one, a later pair overwriting an earlier pair's value.
   */
  function LastWins<K(==), V>(ps: seq<(K, V)>): map<K, V> {
    if ps == [] then map[]
    else LastWins(ps[..|ps| - 1])[ps[|ps| - 1].0 := ps[|ps| - 1].1]
  }

  /** `put(k, v)`: overwrite the value of `k` in place, or append `(k, v)`. */
  function Put<K(==), V>(m: seq<(K, V)>, k: K, v: V): (r: seq<(K, V)>)
    ensures |r| == if KeyIndex(m, k) < |m| then |m| else |m| + 1
    ensures r[KeyIndex(m, k)] == (k, v)
    ensures forall i :: 0 <= i < |m| ==> r[i].0 == m[i].0
    ensures forall i :: 0 <= i < |m| && i != KeyIndex(m, k) ==> r[i] == m[i]
    ensures UniqueKeys(m) ==> UniqueKeys(r)
  {
    var i := KeyIndex(m, k);
    if i < |m| then m[i := (k, v)] else m + [(k, v)]
  }

  /** `toMap()`: put every pair of `ps`, in order, into an empty map. */
  function ToMap<K(==), V>(ps: seq<(K, V)>): (r: seq<(K, V)>)
    ensures UniqueKeys(r)
    ensures forall i :: 0 <= i < |r| ==> r[i] in ps
    decreases |ps|
  {
    if ps == [] then []
    else
      var last := ps[|ps| - 1];
      Put(ToMap(ps[..|ps| - 1]), last.0, last.1)
  }

  /** Putting into a map with unique keys is a dictionary update. */
  lemma PutView<K, V>(m: seq<(K, V)>, k: K, v: V)
    requires UniqueKeys(m)
    ensures AsMap(Put(m, k, v)) == AsMap(m)[k := v]
  {
    var r := Put(m, k, v);
    var i := KeyIndex(m, k);
    forall x | x in AsMap(r)
      ensures x in AsMap(m)[k := v] && AsMap(r)[x] == AsMap(m)[k := v][x]
    {
      var j :| 0 <= j < |r| && r[j].0 == x;
      if j != i {
        assert r[j] == m[j];
      }
    }
    forall x | x in AsMap(m)[k := v] ensures x in AsMap(r) {
      if x != k {
        var j :| 0 <= j < |m| && m[j].0 == x;
        assert r[j].0 == x;
      } else {
        assert r[i].0 == k;
      }
    }
  }

  /**
    The map `toMap()` builds holds, for every key of `ps`, the value of its last
    occurrence: a later duplicate overwrites an earlier one.
   */
  lemma {:induction false} ToMapView<K, V>(ps: seq<(K, V)>)
    ensures AsMap(ToMap(ps)) == LastWins(ps)
    decreases |ps|
  {
    if ps != [] {
      var last := ps[|ps| - 1];
      ToMapView(ps[..|ps| - 1]);
      PutView(ToMap(ps[..|ps| - 1]), last.0, last.1);
    }
  }

  /** The value LastWins gives a key is the one of its last occurrence. */
  lemma {:induction false} LastWinsAt<K, V>(ps: seq<(K, V)>, j: nat)
    requires j < |ps|
    requires forall i :: j < i < |ps| ==> ps[i].0 != ps[j].0
    ensures ps[j].0 in LastWins(ps) && LastWins(ps)[ps[j].0] == ps[j].1
    decreases |ps|
  {
    if j < |ps| - 1 {
      LastWinsAt(ps[..|ps| - 1], j);
    }
  }

  /** The keys of LastWins(ps) are exactly the keys occurring in `ps`. */
  lemma {:induction false} LastWinsKeys<K, V>(ps: seq<(K, V)>)
    ensures forall k :: k in LastWins(ps) <==> KeyIndex(ps, k) < |ps|
    decreases |ps|
  {
    if ps != [] {
      var pre := ps[..|ps| - 1];
      LastWinsKeys(pre);
      forall k ensures k in LastWins(ps) <==> KeyIndex(ps, k) < |ps| {
        if KeyIndex(pre, k) < |pre| {
          KeyIndexPrefix(ps, k);
        } else if k != ps[|ps| - 1].0 {
          assert forall j :: 0 <= j < |pre| ==> ps[j] == pre[j];
        }
      }
    }
  }

  /**
    `toMap()` lists the keys in the order of their first occurrence in `ps`:
    overwriting a value does not move its key.
   */
  lemma {:induction false} ToMapOrder<K, V>(ps: seq<(K, V)>)
    ensures forall i, j :: 0 <= i < j < |ToMap(ps)| ==>
      KeyIndex(ps, ToMap(ps)[i].0) < KeyIndex(ps, ToMap(ps)[j].0)
    decreases |ps|
  {
    if ps != [] {
      var pre := ps[..|ps| - 1];
      var last := ps[|ps| - 1];
      var m := ToMap(pre);
      var r := ToMap(ps);
      ToMapOrder(pre);
      ToMapKeysInPrefix(ps);
      if KeyIndex(m, last.0) == |m| {
        NewLastKey(ps);
      }
      assert r == Put(m, last.0, last.1);
      forall i, j | 0 <= i < j < |r|
        ensures KeyIndex(ps, r[i].0) < KeyIndex(ps, r[j].0)
      {
        if j < |m| {
          assert r[i].0 == m[i].0 && r[j].0 == m[j].0;
        } else {
          assert r[j].0 == last.0 && r[i].0 == m[i].0;
        }
      }
    }
  }

  /** The keys `toMap()` makes of all but the last entry are first found before the last entry. */
  lemma ToMapKeysInPrefix<K, V>(ps: seq<(K, V)>)
    requires ps != []
    ensures var pre := ps[..|ps| - 1];
      forall i :: 0 <= i < |ToMap(pre)| ==>
        KeyIndex(ps, ToMap(pre)[i].0) == KeyIndex(pre, ToMap(pre)[i].0) < |pre|
  {
    var pre := ps[..|ps| - 1];
    var m := ToMap(pre);
    forall i | 0 <= i < |m|
      ensures KeyIndex(ps, m[i].0) == KeyIndex(pre, m[i].0) < |pre|
    {
      assert m[i] in pre;
      var j :| 0 <= j < |pre| && pre[j] == m[i];
      assert KeyIndex(pre, m[i].0) <= j;
      KeyIndexPrefix(ps, m[i].0);
    }
  }

  /** A last key that `toMap()` of the rest does not hold occurs first at the end. */
  lemma NewLastKey<K, V>(ps: seq<(K, V)>)
    requires ps != []
    requires KeyIndex(ToMap(ps[..|ps| - 1]), ps[|ps| - 1].0) == |ToMap(ps[..|ps| - 1])|
    ensures KeyIndex(ps, ps[|ps| - 1].0) == |ps| - 1
  {
    var pre := ps[..|ps| - 1];
    ToMapHasKeys(pre);
    assert forall j :: 0 <= j < |ps| - 1 ==> ps[j] == pre[j];
    LastKeyIndex(ps, ToMap(pre));
  }

  /** Every key of `ps` is a key of `toMap()`'s result. */
  lemma {:induction false} ToMapHasKeys<K, V>(ps: seq<(K, V)>)
    ensures forall j :: 0 <= j < |ps| ==> KeyIndex(ToMap(ps), ps[j].0) < |ToMap(ps)|
    decreases |ps|
  {
    if ps != [] {
      var pre := ps[..|ps| - 1];
      var last := ps[|ps| - 1];
      var m := ToMap(pre);
      var r := ToMap(ps);
      ToMapHasKeys(pre);
      assert r == Put(m, last.0, last.1);
      forall j | 0 <= j < |ps|
        ensures KeyIndex(r, ps[j].0) < |r|
      {
        if j < |pre| {
          assert ps[j] == pre[j];
          var i := KeyIndex(m, pre[j].0);
          assert r[i].0 == pre[j].0;
        } else {
          assert r[KeyIndex(m, last.0)].0 == last.0;
        }
      }
    }
  }

  /** A key occurring before the last entry has the same first index in the prefix. */
  lemma KeyIndexPrefix<K, V>(ps: seq<(K, V)>, k: K)
    requires ps != [] && KeyIndex(ps[..|ps| - 1], k) < |ps| - 1
    ensures KeyIndex(ps, k) == KeyIndex(ps[..|ps| - 1], k)
  {
    var pre := ps[..|ps| - 1];
    var i := KeyIndex(pre, k);
    assert forall j :: 0 <= j < i ==> ps[j] == pre[j];
    RunKeyIndex(ps, k, i);
  }

  /** A first occurrence in a prefix is a first occurrence in the whole. */
  lemma RunKeyIndex<K, V>(ps: seq<(K, V)>, k: K, i: nat)
    requires i < |ps| && ps[i].0 == k
    requires forall j :: 0 <= j < i ==> ps[j].0 != k
    ensures KeyIndex(ps, k) == i
  {
  }

  /** When the last key of `ps` is new to `m`, it is first found at the end. */
  lemma LastKeyIndex<K, V>(ps: seq<(K, V)>, m: seq<(K, V)>)
    requires ps != []
    requires KeyIndex(m, ps[|ps| - 1].0) == |m|
    requires forall j :: 0 <= j < |ps| - 1 ==> KeyIndex(m, ps[j].0) < |m|
    ensures KeyIndex(ps, ps[|ps| - 1].0) == |ps| - 1
  {
  }

  /** On a list whose keys are already unique, `toMap()` changes nothing. */
  lemma {:induction false} ToMapOfUnique<K, V>(ps: seq<(K, V)>)
    requires UniqueKeys(ps)
    ensures ToMap(ps) == ps
    decreases |ps|
  {
    if ps != [] {
      var pre := ps[..|ps| - 1];
      var last := ps[|ps| - 1];
      UniquePrefix(ps);
      ToMapOfUnique(pre);
      SplitLast(ps);
    }
  }

  lemma SplitLast<K, V>(ps: seq<(K, V)>)
    requires ps != []
    ensures ps == ps[..|ps| - 1] + [ps[|ps| - 1]]
  {
  }

  /** Dropping the last entry keeps keys unique, and that entry's key is new to the rest. */
  lemma UniquePrefix<K, V>(ps: seq<(K, V)>)
    requires UniqueKeys(ps) && ps != []
    ensures UniqueKeys(ps[..|ps| - 1])
    ensures KeyIndex(ps[..|ps| - 1], ps[|ps| - 1].0) == |ps| - 1
  {
    var pre := ps[..|ps| - 1];
    assert forall j :: 0 <= j < |pre| ==> pre[j] == ps[j];
  }
}
