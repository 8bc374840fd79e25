/** The order index of the map (HashMap.h, poses_ and values_): a sequence
    of slot indices, most recent insertion first, and the sequence of entries
    it points at, which is the iteration order. This module holds the value
    types and the facts about sequences of entries that the map needs. */
module OrderIndex {

  datatype Option<T> = None | Some(value: T)

  /** A stored (key, value) pair. */
  datatype Entry<K, V> = Entry(key: K, value: V)

  ghost predicate Distinct(s: seq<nat>) {
    forall i, j :: 0 <= i < j < |s| ==> s[i] != s[j]
  }

  ghost function Elems(s: seq<nat>): set<nat> {
    set x | x in s
  }

  /** A sequence without repetitions has as many elements as members. */
  lemma {:induction false} DistinctCard(s: seq<nat>)
    requires Distinct(s)
    ensures |Elems(s)| == |s|
  {
    if s != [] {
      var t := s[..|s| - 1];
      DistinctCard(t);
      assert Elems(s) == Elems(t) + {s[|s| - 1]};
      assert s[|s| - 1] !in Elems(t);
    }
  }

  /** The entries that the slot indices in `order` point at in `table`. */
  function Through<K, V>(order: seq<nat>, table: seq<Option<Entry<K, V>>>): seq<Entry<K, V>>
    requires forall i :: 0 <= i < |order| ==> order[i] < |table| && table[order[i]].Some?
  {
    seq(|order|, i requires 0 <= i < |order| => table[order[i]].value)
  }

  /** s back to front. */
  function Reverse<T>(s: seq<T>): (r: seq<T>)
    ensures |r| == |s|
  {
    if s == [] then [] else [s[|s| - 1]] + Reverse(s[..|s| - 1])
  }

  lemma {:induction false} ReverseIndex<T>(s: seq<T>, i: nat)
    requires i < |s|
    ensures Reverse(s)[i] == s[|s| - 1 - i]
  {
    if i > 0 {
      ReverseIndex(s[..|s| - 1], i - 1);
    }
  }

  /** Pushing x to the front of the reversal of s reverses s + [x]. */
  lemma PushFrontReverse<T>(s: seq<T>, x: T)
    ensures Reverse(s + [x]) == [x] + Reverse(s)
  {
    assert (s + [x])[..|s|] == s;
  }

  /** s with x taken out (std::list::erase at the slot's locator). */
  function Without(s: seq<nat>, x: nat): (r: seq<nat>)
  {
    if s == [] then []
    else if s[0] == x then Without(s[1..], x)
    else [s[0]] + Without(s[1..], x)
  }

  /** In a sequence without repetitions, taking out the element at position
      p removes exactly that position and keeps the others in order. */
  lemma {:induction false} WithoutAt(s: seq<nat>, p: nat)
    requires Distinct(s) && p < |s|
    ensures Without(s, s[p]) == s[..p] + s[p + 1..]
  {
    if p == 0 {
      WithoutAbsent(s[1..], s[0]);
    } else {
      assert Distinct(s[1..]);
      WithoutAt(s[1..], p - 1);
      assert s[1..][p - 1] == s[p];
      assert s[..p] + s[p + 1..] == [s[0]] + (s[1..][..p - 1] + s[1..][p..]);
    }
  }

  lemma {:induction false} WithoutAbsent(s: seq<nat>, x: nat)
    requires x !in s
    ensures Without(s, x) == s
  {
    if s != [] {
      WithoutAbsent(s[1..], x);
    }
  }

  ghost predicate UniqueKeys<K, V>(es: seq<Entry<K, V>>) {
    forall i, j :: 0 <= i < j < |es| ==> es[i].key != es[j].key
  }

  /** r is es with the value of every entry for key replaced by x. */
  ghost predicate Overwritten<K, V>(es: seq<Entry<K, V>>, key: K, x: V, r: seq<Entry<K, V>>) {
    && |r| == |es|
    && forall i :: 0 <= i < |es| ==> r[i] == if es[i].key == key then Entry(key, x) else es[i]
  }

  /** With distinct keys, replacing the entry at p overwrites its key's
      value and nothing else. */
  lemma OverwrittenAt<K, V>(es: seq<Entry<K, V>>, p: nat, x: V)
    requires UniqueKeys(es) && p < |es|
    ensures Overwritten(es, es[p].key, x, es[p := Entry(es[p].key, x)])
  {
    forall i | 0 <= i < |es| && i != p
      ensures es[i].key != es[p].key
    {
      if i < p {
        assert es[i].key != es[p].key;
      } else {
        assert es[p].key != es[i].key;
      }
    }
  }

  /** A second write to the same position of a sequence wins. */
  lemma SeqUpdateTwice<T>(s: seq<T>, i: nat, a: T, b: T)
    requires i < |s|
    ensures s[i := a][i := b] == s[i := b]
  {
  }

  /** The key-value map that a sequence of entries describes; an entry
      nearer the front wins (the map never holds a key twice, so this only
      matters for sequences of inserted pairs). */
  ghost function ToMap<K, V>(es: seq<Entry<K, V>>): map<K, V> {
    if es == [] then map[] else ToMap(es[1..])[es[0].key := es[0].value]
  }

  /** Every key of the map comes from an entry of the sequence. */
  lemma {:induction false} ToMapIndex<K, V>(es: seq<Entry<K, V>>, k: K) returns (i: nat)
    requires k in ToMap(es)
    ensures i < |es| && es[i].key == k
  {
    if es[0].key == k {
      i := 0;
    } else {
      var j := ToMapIndex(es[1..], k);
      i := j + 1;
    }
  }

  /** A key that no entry carries is not in the map. */
  lemma {:induction false} ToMapMissing<K, V>(es: seq<Entry<K, V>>, k: K)
    requires forall i :: 0 <= i < |es| ==> es[i].key != k
    ensures k !in ToMap(es)
  {
    if es != [] {
      assert forall i :: 0 <= i < |es[1..]| ==> es[1..][i].key != k;
      ToMapMissing(es[1..], k);
    }
  }

  /** With distinct keys, every entry of the sequence is in the map. */
  lemma {:induction false} ToMapHas<K, V>(es: seq<Entry<K, V>>, i: nat)
    requires UniqueKeys(es) && i < |es|
    ensures es[i].key in ToMap(es) && ToMap(es)[es[i].key] == es[i].value
  {
    if i > 0 {
      assert UniqueKeys(es[1..]);
      ToMapHas(es[1..], i - 1);
    }
  }

  /** With distinct keys, the map has as many keys as the sequence has
      entries. */
  lemma {:induction false} ToMapCard<K, V>(es: seq<Entry<K, V>>)
    requires UniqueKeys(es)
    ensures |ToMap(es)| == |es|
  {
    if es != [] {
      assert UniqueKeys(es[1..]);
      ToMapCard(es[1..]);
      assert forall j :: 0 <= j < |es[1..]| ==> es[1..][j].key != es[0].key;
      ToMapMissing(es[1..], es[0].key);
    }
  }

  /** Two sequences with distinct keys holding the same entries describe the
      same map, whatever their order. */
  lemma SameEntriesSameMap<K, V>(a: seq<Entry<K, V>>, b: seq<Entry<K, V>>)
    requires UniqueKeys(a) && UniqueKeys(b)
    requires forall i :: 0 <= i < |a| ==> a[i] in b
    requires forall j :: 0 <= j < |b| ==> b[j] in a
    ensures ToMap(a) == ToMap(b)
  {
    forall k | k in ToMap(a)
      ensures k in ToMap(b) && ToMap(b)[k] == ToMap(a)[k]
    {
      var i := ToMapIndex(a, k);
      ToMapHas(a, i);
      var j :| 0 <= j < |b| && b[j] == a[i];
      ToMapHas(b, j);
    }
    forall k | k in ToMap(b)
      ensures k in ToMap(a)
    {
      var j := ToMapIndex(b, k);
      var i :| 0 <= i < |a| && a[i] == b[j];
      ToMapHas(a, i);
    }
  }

  /** Reversing the iteration order keeps the keys distinct and the map the
      same. */
  lemma ReverseSameMap<K, V>(es: seq<Entry<K, V>>)
    requires UniqueKeys(es)
    ensures UniqueKeys(Reverse(es)) && ToMap(Reverse(es)) == ToMap(es)
  {
    var r := Reverse(es);
    var n := |es|;
    forall i | 0 <= i < n
      ensures r[i] == es[n - 1 - i]
    {
      ReverseIndex(es, i);
    }
    forall i | 0 <= i < n
      ensures es[i] in r
    {
      assert r[n - 1 - i] == es[i];
    }
    SameEntriesSameMap(r, es);
  }

  /** The sequence s with its entry at position p dropped. */
  function RemoveAt<T>(s: seq<T>, p: nat): (r: seq<T>)
    requires p < |s|
    ensures |r| == |s| - 1
  {
    s[..p] + s[p + 1..]
  }

  /** Position i of RemoveAt(s, p) holds what s holds at i, or at i + 1
      once past p. */
  lemma RemoveAtIndex<T>(s: seq<T>, p: nat, i: nat)
    requires p < |s| && i < |s| - 1
    ensures RemoveAt(s, p)[i] == s[if i < p then i else i + 1]
  {
  }

  lemma RemoveAtDistinct(s: seq<nat>, p: nat)
    requires Distinct(s) && p < |s|
    ensures Distinct(RemoveAt(s, p))
  {
    var r := RemoveAt(s, p);
    forall i, j | 0 <= i < j < |r|
      ensures r[i] != r[j]
    {
      RemoveAtIndex(s, p, i);
      RemoveAtIndex(s, p, j);
    }
  }

  /** Every element of s except the one at p is still there after it is
      dropped. */
  lemma RemoveAtKeeps<T>(s: seq<T>, p: nat, q: nat)
    requires p < |s| && q < |s| && q != p
    ensures s[q] in RemoveAt(s, p)
  {
    var j := if q < p then q else q - 1;
    RemoveAtIndex(s, p, j);
  }

  /** Dropping a position of the order index drops the same position of the
      entries it points at. */
  lemma ThroughRemoveAt<K, V>(order: seq<nat>, table: seq<Option<Entry<K, V>>>, p: nat)
    requires forall i :: 0 <= i < |order| ==> order[i] < |table| && table[order[i]].Some?
    requires p < |order|
    ensures forall i :: 0 <= i < |RemoveAt(order, p)| ==>
      RemoveAt(order, p)[i] < |table| && table[RemoveAt(order, p)[i]].Some?
    ensures Through(RemoveAt(order, p), table) == RemoveAt(Through(order, table), p)
  {
    var r := RemoveAt(order, p);
    forall i | 0 <= i < |r|
      ensures r[i] == order[if i < p then i else i + 1]
      ensures RemoveAt(Through(order, table), p)[i] == Through(order, table)[if i < p then i else i + 1]
    {
      RemoveAtIndex(order, p, i);
      RemoveAtIndex(Through(order, table), p, i);
    }
  }

  lemma RemoveAtUnique<K, V>(es: seq<Entry<K, V>>, p: nat)
    requires UniqueKeys(es) && p < |es|
    ensures UniqueKeys(RemoveAt(es, p))
  {
    var r := RemoveAt(es, p);
    forall i, j | 0 <= i < j < |r|
      ensures r[i].key != r[j].key
    {
      RemoveAtIndex(es, p, i);
      RemoveAtIndex(es, p, j);
    }
  }

  /** Removing the entry at position p of a sequence with distinct keys
      removes its key from the map and nothing else. */
  lemma RemoveAtMap<K, V>(es: seq<Entry<K, V>>, p: nat)
    requires UniqueKeys(es) && p < |es|
    ensures UniqueKeys(RemoveAt(es, p))
    ensures ToMap(RemoveAt(es, p)) == ToMap(es) - {es[p].key}
  {
    var r := RemoveAt(es, p);
    var k := es[p].key;
    RemoveAtUnique(es, p);
    forall x | x in ToMap(r)
      ensures x in ToMap(es) && x != k && ToMap(r)[x] == ToMap(es)[x]
    {
      var i := ToMapIndex(r, x);
      RemoveAtIndex(es, p, i);
      ToMapHas(r, i);
      ToMapHas(es, if i < p then i else i + 1);
    }
    forall x | x in ToMap(es) && x != k
      ensures x in ToMap(r)
    {
      var i := ToMapIndex(es, x);
      var j := if i < p then i else i - 1;
      RemoveAtIndex(es, p, j);
      ToMapHas(r, j);
    }
  }

  /** Changing the value of the entry at position p changes that key's
      value in the map and nothing else. */
  lemma {:induction false} ToMapSet<K, V>(es: seq<Entry<K, V>>, p: nat, x: V)
    requires UniqueKeys(es) && p < |es|
    ensures ToMap(es[p := Entry(es[p].key, x)]) == ToMap(es)[es[p].key := x]
  {
    var r := es[p := Entry(es[p].key, x)];
    if p == 0 {
      assert r[1..] == es[1..];
    } else {
      assert UniqueKeys(es[1..]);
      assert r[1..] == es[1..][p - 1 := Entry(es[p].key, x)];
      ToMapSet(es[1..], p - 1, x);
      assert es[0].key != es[p].key;
    }
  }

  /** The map built by inserting es one by one, front to back, into m, where
      inserting a key that is already present changes nothing. */
  ghost function InsertAll<K, V>(m: map<K, V>, es: seq<Entry<K, V>>): map<K, V> {
    if es == [] then m
    else
      var before := InsertAll(m, es[..|es| - 1]);
      var e := es[|es| - 1];
      if e.key in before then before else before[e.key := e.value]
  }

  /** The keys that a sequence of entries carries. */
  ghost function KeySet<K, V>(es: seq<Entry<K, V>>): set<K> {
    set e | e in es :: e.key
  }

  /** Inserting a sequence adds exactly its keys to those of m. */
  lemma {:induction false} InsertAllDomain<K, V>(m: map<K, V>, es: seq<Entry<K, V>>)
    ensures InsertAll(m, es).Keys == m.Keys + KeySet(es)
  {
    if es != [] {
      var init := es[..|es| - 1];
      InsertAllDomain(m, init);
      assert es == init + [es[|es| - 1]];
      assert KeySet(es) == KeySet(init) + {es[|es| - 1].key};
    }
  }

  /** A subset has no more members than its superset. */
  lemma {:induction false} SubsetCard<T>(a: set<T>, b: set<T>)
    requires a <= b
    ensures |a| <= |b|
    decreases |a|
  {
    if a != {} {
      var x :| x in a;
      SubsetCard(a - {x}, b - {x});
    }
  }

  /** While the pairs in front of position p are inserted, the map has
      fewer keys than the whole sequence carries unless the key at p is
      already in it. */
  lemma InsertAllFresh<K, V>(es: seq<Entry<K, V>>, p: nat)
    requires p < |es| && es[p].key !in InsertAll(map[], es[..p])
    ensures |InsertAll(map[], es[..p])| + 1 <= |KeySet(es)|
  {
    var m := InsertAll(map[], es[..p]);
    InsertAllDomain(map[], es[..p]);
    assert m.Keys == KeySet(es[..p]);
    assert es[p].key in KeySet(es);
    SubsetCard(m.Keys + {es[p].key}, KeySet(es));
  }

  /** Inserting a sequence never drops or overwrites a key of m. */
  lemma {:induction false} InsertAllKeeps<K, V>(m: map<K, V>, es: seq<Entry<K, V>>, k: K)
    requires k in m
    ensures k in InsertAll(m, es) && InsertAll(m, es)[k] == m[k]
  {
    if es != [] {
      InsertAllKeeps(m, es[..|es| - 1], k);
    }
  }

  /** A key that first occurs at position i, and not in m, gets the value of
      that occurrence: later duplicates are dropped. */
  lemma {:induction false} InsertAllFirstWins<K, V>(m: map<K, V>, es: seq<Entry<K, V>>, i: nat)
    requires i < |es| && es[i].key !in m
    requires forall j :: 0 <= j < i ==> es[j].key != es[i].key
    ensures es[i].key in InsertAll(m, es) && InsertAll(m, es)[es[i].key] == es[i].value
  {
    var init := es[..|es| - 1];
    if i < |es| - 1 {
      InsertAllFirstWins(m, init, i);
    } else if es[i].key in InsertAll(m, init) {
      var j := InsertAllOnly(m, init, es[i].key);
      assert false;
    }
  }

  /** Every key of the result is in m or is the key of some inserted pair. */
  lemma {:induction false} InsertAllOnly<K, V>(m: map<K, V>, es: seq<Entry<K, V>>, k: K) returns (i: nat)
    requires k in InsertAll(m, es) && k !in m
    ensures i < |es| && es[i].key == k
  {
    var init := es[..|es| - 1];
    if k in InsertAll(m, init) {
      i := InsertAllOnly(m, init, k);
    } else {
      i := |es| - 1;
    }
  }
}
