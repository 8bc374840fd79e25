/** The state of the open-addressing table (HashMap.h, state_, table_,
    poses_, occupancy_ and capacity_) as a value, the invariant every public
    operation keeps, and the facts about each step that changes it. The
    class in module HashMaps keeps its state in arrays and appeals to these
    lemmas on snapshots of them. */
module Tables {
  import opened Primes
  import opened Probing
  import opened OrderIndex

  /** A slot's state: never used (0), holding a live pair (1), or a
      tombstone left by erase (2). */
  datatype Slot = Empty | Occupied | Deleted

  /** A snapshot of the table: slot states, stored pairs (a tombstone keeps
      the pair it held), the order index (slots, most recent insertion
      first), the probe step at which each live pair was placed (proof
      only), the number of live pairs and the number of slots ever
      claimed. */
  datatype View<K, V> = View(
    state: seq<Slot>,
    pairs: seq<Option<Entry<K, V>>>,
    order: seq<nat>,
    dist: seq<nat>,
    occupancy: nat,
    capacity: nat)

  ghost predicate Shaped<K, V>(v: View<K, V>) {
    |v.pairs| == |v.state| && |v.dist| == |v.state| && IsPrime(|v.state|)
  }

  /** Every slot that is not Empty holds a pair. */
  ghost predicate Stored<K, V>(v: View<K, V>)
    requires Shaped(v)
  {
    forall h :: 0 <= h < |v.state| && v.state[h] != Empty ==> v.pairs[h].Some?
  }

  function KeyAt<K, V>(v: View<K, V>, h: nat): K
    requires Shaped(v) && Stored(v) && h < |v.state| && v.state[h] != Empty
  {
    v.pairs[h].value.key
  }

  /** The order index lists every live slot exactly once, and occupancy
      counts them. */
  ghost predicate Indexed<K, V>(v: View<K, V>)
    requires Shaped(v)
  {
    && (forall p :: 0 <= p < |v.order| ==> v.order[p] < |v.state| && v.state[v.order[p]] == Occupied)
    && Distinct(v.order)
    && (forall h :: 0 <= h < |v.state| && v.state[h] == Occupied ==> h in v.order)
    && v.occupancy == |v.order|
  }

  /** No key is live in two slots. */
  ghost predicate KeysDistinct<K, V>(v: View<K, V>)
    requires Shaped(v) && Stored(v)
  {
    forall h1, h2 ::
      (0 <= h1 < |v.state| && 0 <= h2 < |v.state| && h1 != h2 &&
       v.state[h1] == Occupied && v.state[h2] == Occupied) ==> KeyAt(v, h1) != KeyAt(v, h2)
  }

  /** The live pair in slot h sits at probe step dist[h] of its key, and
      every earlier step of that probe is a slot in use, so a lookup that
      stops only at an Empty slot walks past nothing but in-use slots on its
      way to h. */
  ghost predicate ChainOk<K, V>(hasher: K -> nat, v: View<K, V>, h: nat)
    requires Shaped(v) && Stored(v) && h < |v.state| && v.state[h] == Occupied
  {
    var k := hasher(KeyAt(v, h));
    && Probe(k, v.dist[h], |v.state|) == h
    && forall j :: 0 <= j < v.dist[h] ==> v.state[Probe(k, j, |v.state|)] != Empty
  }

  ghost predicate Chained<K, V>(hasher: K -> nat, v: View<K, V>)
    requires Shaped(v) && Stored(v)
  {
    forall h :: 0 <= h < |v.state| && v.state[h] == Occupied ==> ChainOk(hasher, v, h)
  }

  /** The slots that are not Empty: live pairs and tombstones. */
  ghost function Used<K, V>(v: View<K, V>): set<nat> {
    set h | 0 <= h < |v.state| && v.state[h] != Empty
  }

  /** The table invariant. capacity bounds the slots in use, which is what
      makes every probe loop stop. */
  ghost predicate Good<K, V>(hasher: K -> nat, v: View<K, V>) {
    && Shaped(v)
    && Stored(v)
    && Indexed(v)
    && KeysDistinct(v)
    && Chained(hasher, v)
    && |Used(v)| <= v.capacity
  }

  /** The pairs in iteration order (values_). */
  ghost function Entries<K, V>(v: View<K, V>): seq<Entry<K, V>>
    requires Shaped(v) && Stored(v) && Indexed(v)
  {
    Through(v.order, v.pairs)
  }

  /** The map the table represents. */
  ghost function Contents<K, V>(v: View<K, V>): map<K, V>
    requires Shaped(v) && Stored(v) && Indexed(v)
  {
    ToMap(Entries(v))
  }

  /** The probe loop's condition: keep going past a slot in use unless it
      holds `key` live. */
  ghost predicate Passes<K, V>(v: View<K, V>, h: nat, key: K)
    requires Shaped(v) && Stored(v) && h < |v.state|
  {
    v.state[h] != Empty && (KeyAt(v, h) != key || v.state[h] == Deleted)
  }

  /** The iteration order holds no key twice. */
  lemma EntriesUnique<K, V>(hasher: K -> nat, v: View<K, V>)
    requires Good(hasher, v)
    ensures UniqueKeys(Entries(v))
  {
    var es := Entries(v);
    forall i, j | 0 <= i < j < |es|
      ensures es[i].key != es[j].key
    {
      assert es[i].key == KeyAt(v, v.order[i]);
      assert es[j].key == KeyAt(v, v.order[j]);
    }
  }

  /** A live slot's pair is in the map. */
  lemma ContentsHas<K, V>(hasher: K -> nat, v: View<K, V>, h: nat)
    requires Good(hasher, v) && h < |v.state| && v.state[h] == Occupied
    ensures KeyAt(v, h) in Contents(v)
    ensures Contents(v)[KeyAt(v, h)] == v.pairs[h].value.value
  {
    var p :| 0 <= p < |v.order| && v.order[p] == h;
    EntriesUnique(hasher, v);
    ToMapHas(Entries(v), p);
  }

  /** Every key of the map is live in some slot. */
  lemma ContentsOnly<K, V>(hasher: K -> nat, v: View<K, V>, key: K) returns (h: nat)
    requires Good(hasher, v) && key in Contents(v)
    ensures h < |v.state| && v.state[h] == Occupied && KeyAt(v, h) == key
  {
    var p := ToMapIndex(Entries(v), key);
    h := v.order[p];
  }

  /** With distinct keys, the map has one key per live pair. */
  lemma ContentsSize<K, V>(hasher: K -> nat, v: View<K, V>)
    requires Good(hasher, v)
    ensures |Contents(v)| == v.occupancy
  {
    EntriesUnique(hasher, v);
    ToMapCard(Entries(v));
  }

  /** Where the probe loop stops: an Empty slot if the key is absent, and
      the key's live slot if it is present. */
  lemma StopSound<K, V>(hasher: K -> nat, v: View<K, V>, key: K, i: nat)
    requires Good(hasher, v)
    requires forall j :: 0 <= j < i ==> Passes(v, Probe(hasher(key), j, |v.state|), key)
    requires !Passes(v, Probe(hasher(key), i, |v.state|), key)
    ensures var h := Probe(hasher(key), i, |v.state|);
      && (v.state[h] == Occupied && KeyAt(v, h) == key <==> key in Contents(v))
      && (v.state[h] == Empty || (v.state[h] == Occupied && KeyAt(v, h) == key))
  {
    var n := |v.state|;
    var k := hasher(key);
    var h := Probe(k, i, n);
    if v.state[h] == Occupied && KeyAt(v, h) == key {
      ContentsHas(hasher, v, h);
    }
    if key in Contents(v) {
      var g := ContentsOnly(hasher, v, key);
      var d := v.dist[g];
      assert ChainOk(hasher, v, g);
      forall j | 0 <= j < i
        ensures Probe(k, j, n) != g
      {
        assert Passes(v, Probe(k, j, n), key);
      }
      assert d >= i;
      assert v.state[h] != Empty;
    }
  }

  /** insert and operator[] claiming slot h, reached at probe step i, for
      the new pair e (HashMap.h:152-161): the slot becomes live, the pair is
      stored, the slot goes to the front of the order index, and both
      counters grow (the claimed slot is always Empty, so capacity_ always
      grows). */
  function Add<K, V>(v: View<K, V>, h: nat, i: nat, e: Entry<K, V>): View<K, V>
    requires Shaped(v) && h < |v.state|
  {
    View(v.state[h := Occupied], v.pairs[h := Some(e)], [h] + v.order,
         v.dist[h := i], v.occupancy + 1, v.capacity + 1)
  }

  lemma AddIndexed<K, V>(v: View<K, V>, h: nat, i: nat, e: Entry<K, V>)
    requires Shaped(v) && Stored(v) && Indexed(v) && h < |v.state| && v.state[h] == Empty
    ensures var w := Add(v, h, i, e);
      Shaped(w) && Stored(w) && Indexed(w) && Entries(w) == [e] + Entries(v)
  {
    var w := Add(v, h, i, e);
    assert h !in v.order;
    assert Indexed(w);
  }

  lemma AddKeys<K, V>(hasher: K -> nat, v: View<K, V>, h: nat, i: nat, e: Entry<K, V>)
    requires Good(hasher, v) && e.key !in Contents(v) && h < |v.state| && v.state[h] == Empty
    ensures var w := Add(v, h, i, e); Shaped(w) && Stored(w) && KeysDistinct(w)
  {
    forall g | 0 <= g < |v.state| && v.state[g] == Occupied
      ensures KeyAt(v, g) != e.key
    {
      ContentsHas(hasher, v, g);
    }
  }

  lemma AddChains<K, V>(hasher: K -> nat, v: View<K, V>, e: Entry<K, V>, i: nat)
    requires Shaped(v) && Stored(v) && Chained(hasher, v)
    requires forall j :: 0 <= j < i ==> v.state[Probe(hasher(e.key), j, |v.state|)] != Empty
    requires v.state[Probe(hasher(e.key), i, |v.state|)] == Empty
    ensures var w := Add(v, Probe(hasher(e.key), i, |v.state|), i, e);
      Shaped(w) && Stored(w) && Chained(hasher, w)
  {
    var h := Probe(hasher(e.key), i, |v.state|);
    var w := Add(v, h, i, e);
    forall g | 0 <= g < |w.state| && w.state[g] == Occupied
      ensures ChainOk(hasher, w, g)
    {
      if g != h {
        assert ChainOk(hasher, v, g);
      }
    }
  }

  /** Claiming the slot where the probe for an absent key stopped keeps the
      invariant, puts the pair at the front of the iteration order and adds
      it to the map; the claimed slot joins the slots in use. */
  lemma AddPreserves<K, V>(hasher: K -> nat, v: View<K, V>, e: Entry<K, V>, i: nat)
    requires Good(hasher, v) && e.key !in Contents(v)
    requires forall j :: 0 <= j < i ==> v.state[Probe(hasher(e.key), j, |v.state|)] != Empty
    requires v.state[Probe(hasher(e.key), i, |v.state|)] == Empty
    ensures var w := Add(v, Probe(hasher(e.key), i, |v.state|), i, e);
      && Good(hasher, w)
      && Entries(w) == [e] + Entries(v)
      && Contents(w) == Contents(v)[e.key := e.value]
      && Used(w) == Used(v) + {Probe(hasher(e.key), i, |v.state|)}
  {
    var h := Probe(hasher(e.key), i, |v.state|);
    var w := Add(v, h, i, e);
    AddIndexed(v, h, i, e);
    AddKeys(hasher, v, h, i, e);
    AddChains(hasher, v, e, i);
    assert Used(w) == Used(v) + {h};
    assert ([e] + Entries(v))[1..] == Entries(v);
  }

  /** Writing x through the reference operator[] returns for the live slot
      h: the pair there keeps its key and takes the new value. */
  function SetValue<K, V>(v: View<K, V>, h: nat, x: V): View<K, V>
    requires Shaped(v) && Stored(v) && h < |v.state| && v.state[h] != Empty
  {
    v.(pairs := v.pairs[h := Some(Entry(KeyAt(v, h), x))])
  }

  lemma SetValueGood<K, V>(hasher: K -> nat, v: View<K, V>, h: nat, x: V)
    requires Good(hasher, v) && h < |v.state| && v.state[h] == Occupied
    ensures Good(hasher, SetValue(v, h, x))
  {
    var w := SetValue(v, h, x);
    forall g | 0 <= g < |w.state| && w.state[g] == Occupied
      ensures ChainOk(hasher, w, g)
    {
      assert ChainOk(hasher, v, g);
    }
  }

  lemma SetValueEntries<K, V>(hasher: K -> nat, v: View<K, V>, h: nat, x: V, p: nat)
    requires Good(hasher, v) && p < |v.order| && v.order[p] == h
    requires Good(hasher, SetValue(v, h, x))
    ensures Entries(SetValue(v, h, x)) == Entries(v)[p := Entry(KeyAt(v, h), x)]
  {
    var w := SetValue(v, h, x);
    var es := Entries(v);
    forall q | 0 <= q < |es|
      ensures Entries(w)[q] == es[p := Entry(KeyAt(v, h), x)][q]
    {
      if q != p {
        assert v.order[q] != h;
      }
    }
  }

  /** Writing a value into a live pair keeps the invariant and changes that
      key's value in the map and that entry of the iteration order only. */
  lemma SetValuePreserves<K, V>(hasher: K -> nat, v: View<K, V>, h: nat, x: V) returns (p: nat)
    requires Good(hasher, v) && h < |v.state| && v.state[h] == Occupied
    ensures p < |v.order| && v.order[p] == h
    ensures var w := SetValue(v, h, x);
      && Good(hasher, w)
      && Entries(w) == Entries(v)[p := Entry(KeyAt(v, h), x)]
      && Contents(w) == Contents(v)[KeyAt(v, h) := x]
  {
    p :| 0 <= p < |v.order| && v.order[p] == h;
    SetValueGood(hasher, v, h, x);
    SetValueEntries(hasher, v, h, x, p);
    EntriesUnique(hasher, v);
    ToMapSet(Entries(v), p, x);
  }

  /** Storing a new pair with value a and then writing b into its slot
      leaves the table that storing the pair with value b leaves. */
  lemma AddThenSet<K, V>(v: View<K, V>, h: nat, i: nat, k: K, a: V, b: V)
    requires Shaped(v) && Stored(v) && h < |v.state|
    ensures Shaped(Add(v, h, i, Entry(k, a))) && Stored(Add(v, h, i, Entry(k, a)))
    ensures SetValue(Add(v, h, i, Entry(k, a)), h, b) == Add(v, h, i, Entry(k, b))
  {
    SeqUpdateTwice(v.pairs, h, Some(Entry(k, a)), Some(Entry(k, b)));
  }

  /** erase of the live slot h (HashMap.h:172-177): the slot becomes a
      tombstone that keeps its pair, h leaves the order index, and only
      occupancy_ shrinks; capacity_ still counts the tombstone. */
  function Remove<K, V>(v: View<K, V>, h: nat): View<K, V>
    requires Shaped(v) && h < |v.state| && v.occupancy > 0
  {
    View(v.state[h := Deleted], v.pairs, Without(v.order, h), v.dist,
         v.occupancy - 1, v.capacity)
  }

  lemma RemoveIndexed<K, V>(v: View<K, V>, p: nat)
    requires Shaped(v) && Stored(v) && Indexed(v) && p < |v.order|
    ensures var w := Remove(v, v.order[p]);
      && Shaped(w) && Stored(w) && Indexed(w)
      && w.order == RemoveAt(v.order, p)
      && Entries(w) == RemoveAt(Entries(v), p)
  {
    var h := v.order[p];
    var w := Remove(v, h);
    WithoutAt(v.order, p);
    RemoveAtDistinct(v.order, p);
    ThroughRemoveAt(v.order, v.pairs, p);
    forall g | 0 <= g < |w.state| && w.state[g] == Occupied
      ensures g in w.order
    {
      var q :| 0 <= q < |v.order| && v.order[q] == g;
      RemoveAtKeeps(v.order, p, q);
    }
    forall q | 0 <= q < |w.order|
      ensures w.order[q] < |w.state| && w.state[w.order[q]] == Occupied
    {
      RemoveAtIndex(v.order, p, q);
    }
  }

  lemma RemoveChains<K, V>(hasher: K -> nat, v: View<K, V>, h: nat)
    requires Shaped(v) && Stored(v) && Chained(hasher, v) && KeysDistinct(v)
    requires h < |v.state| && v.state[h] == Occupied && v.occupancy > 0
    ensures var w := Remove(v, h);
      Shaped(w) && Stored(w) && Chained(hasher, w) && KeysDistinct(w) && Used(w) == Used(v)
  {
    var w := Remove(v, h);
    forall g | 0 <= g < |w.state| && w.state[g] == Occupied
      ensures ChainOk(hasher, w, g)
    {
      assert ChainOk(hasher, v, g);
    }
    assert Used(w) == Used(v);
  }

  /** Turning the live slot at position p of the order index into a
      tombstone keeps the invariant, drops that position from the iteration
      order and the key from the map. */
  lemma RemovePreserves<K, V>(hasher: K -> nat, v: View<K, V>, p: nat)
    requires Good(hasher, v) && p < |v.order|
    ensures var w := Remove(v, v.order[p]);
      && Good(hasher, w)
      && w.order == RemoveAt(v.order, p)
      && Entries(w) == RemoveAt(Entries(v), p)
      && Contents(w) == Contents(v) - {KeyAt(v, v.order[p])}
      && Used(w) == Used(v)
  {
    RemoveIndexed(v, p);
    RemoveChains(hasher, v, v.order[p]);
    EntriesUnique(hasher, v);
    RemoveAtMap(Entries(v), p);
  }

  /** The live slots. */
  ghost function Live<K, V>(v: View<K, V>): set<nat> {
    set h | 0 <= h < |v.state| && v.state[h] == Occupied
  }

  /** There are as many live slots as live pairs, no more of them than slots
      in use, and so at most capacity live pairs. */
  lemma LiveCount<K, V>(hasher: K -> nat, v: View<K, V>)
    requires Good(hasher, v)
    ensures Live(v) == Elems(v.order) && |Live(v)| == v.occupancy
    ensures Live(v) <= Used(v) && v.occupancy <= v.capacity
  {
    assert Live(v) == Elems(v.order);
    DistinctCard(v.order);
    SubsetCard(Live(v), Used(v));
  }

  /** The slot states after clear: the live slots become Empty (HashMap.h:
      260-264); tombstones stay. */
  function Cleared(state: seq<Slot>): (r: seq<Slot>)
    ensures |r| == |state|
  {
    seq(|state|, h requires 0 <= h < |state| => if state[h] == Occupied then Empty else state[h])
  }

  /** clear (HashMap.h:259-269): every live slot is emptied, the order index
      is emptied, and each live slot is taken off both occupancy_ and
      capacity_. */
  function ClearAll<K, V>(v: View<K, V>): View<K, V>
    requires v.occupancy <= v.capacity
  {
    View(Cleared(v.state), v.pairs, [], v.dist, 0, v.capacity - v.occupancy)
  }

  /** clear keeps the invariant and empties the map. The slots left in use
      are the tombstones, which the lowered capacity still covers. */
  lemma ClearPreserves<K, V>(hasher: K -> nat, v: View<K, V>)
    requires Good(hasher, v)
    ensures v.occupancy <= v.capacity
    ensures var w := ClearAll(v);
      && Good(hasher, w)
      && Entries(w) == [] && Contents(w) == map[]
      && Used(w) == Used(v) - Live(v)
  {
    LiveCount(hasher, v);
    var w := ClearAll(v);
    assert Used(w) == Used(v) - Live(v);
    assert |Used(w)| == |Used(v)| - |Live(v)|;
    assert Indexed(w);
  }

  /** A table of n slots, all Empty (the constructor, HashMap.h:111-119,
      and the start of rebuild, 300-302). */
  function Fresh<K, V>(n: nat): View<K, V> {
    View(seq(n, _ => Empty), seq(n, _ => None), [], seq(n, _ => 0), 0, 0)
  }

  lemma FreshGood<K, V>(hasher: K -> nat, n: nat)
    requires IsPrime(n)
    ensures Good(hasher, Fresh<K, V>(n))
    ensures Entries(Fresh<K, V>(n)) == [] && Contents(Fresh<K, V>(n)) == map[]
  {
    assert Used(Fresh<K, V>(n)) == {};
  }

  /** Part way through rebuild: w is the new table after the first |w.order|
      pairs of v's iteration order were placed, w.order is the reverse of
      the slots they went to (the hashes vector, HashMap.h:305-318), and the
      new table has no tombstones. */
  ghost predicate Rebuilding<K, V>(hasher: K -> nat, v: View<K, V>, w: View<K, V>) {
    && Good(hasher, v)
    && Good(hasher, w)
    && |w.order| <= |v.order|
    && w.capacity == w.occupancy
    && (forall h :: 0 <= h < |w.state| ==> w.state[h] != Deleted)
    && Entries(w) == Reverse(Entries(v)[..|w.order|])
  }

  /** In the new table every slot in use is live, so the probe loop of
      rebuild stays within the pairs placed so far. */
  lemma RebuildUsed<K, V>(hasher: K -> nat, v: View<K, V>, w: View<K, V>)
    requires Rebuilding(hasher, v, w)
    ensures |Used(w)| == |w.order|
  {
    LiveCount(hasher, w);
    assert Used(w) == Live(w);
  }

  /** Placing the next pair of the old iteration order in the Empty slot
      where its probe stopped keeps the rebuild going. */
  lemma RebuildStep<K, V>(hasher: K -> nat, v: View<K, V>, w: View<K, V>, i: nat)
    requires Rebuilding(hasher, v, w) && |w.order| < |v.order|
    requires var e := Entries(v)[|w.order|];
      (forall j :: 0 <= j < i ==> w.state[Probe(hasher(e.key), j, |w.state|)] != Empty)
    requires var e := Entries(v)[|w.order|];
      w.state[Probe(hasher(e.key), i, |w.state|)] == Empty
    ensures var e := Entries(v)[|w.order|];
      Rebuilding(hasher, v, Add(w, Probe(hasher(e.key), i, |w.state|), i, e))
  {
    var es := Entries(v);
    var p := |w.order|;
    var e := es[p];
    RebuildFreshKey(hasher, v, w);
    AddPreserves(hasher, w, e, i);
    ReverseGrow(es, p);
  }

  /** The next pair's key is not yet in the new table. */
  lemma RebuildFreshKey<K, V>(hasher: K -> nat, v: View<K, V>, w: View<K, V>)
    requires Rebuilding(hasher, v, w) && |w.order| < |v.order|
    ensures Entries(v)[|w.order|].key !in Contents(w)
  {
    var es := Entries(v);
    var p := |w.order|;
    EntriesUnique(hasher, v);
    forall q | 0 <= q < |Entries(w)|
      ensures Entries(w)[q].key != es[p].key
    {
      ReverseIndex(es[..p], q);
    }
    ToMapMissing(Entries(w), es[p].key);
  }

  lemma ReverseGrow<T>(s: seq<T>, p: nat)
    requires p < |s|
    ensures Reverse(s[..p + 1]) == [s[p]] + Reverse(s[..p])
  {
    assert s[..p + 1] == s[..p] + [s[p]];
    PushFrontReverse(s[..p], s[p]);
  }

  /** Once every pair is placed, the new table with the old capacity_
      (rebuild does not reset it) keeps the invariant, holds the same map,
      and iterates in the reverse of the old order. */
  lemma RebuildDone<K, V>(hasher: K -> nat, v: View<K, V>, w: View<K, V>, capacity: nat)
    requires Rebuilding(hasher, v, w) && |w.order| == |v.order| && |v.order| <= capacity
    ensures var r := w.(capacity := capacity);
      && Good(hasher, r)
      && Entries(r) == Reverse(Entries(v))
      && Contents(r) == Contents(v)
  {
    var es := Entries(v);
    assert es[..|w.order|] == es;
    EntriesUnique(hasher, v);
    ReverseSameMap(es);
  }
}
