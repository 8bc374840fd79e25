/** The hash map of HashMap.h: open addressing with double hashing over a
    table whose size is taken from a fixed list of primes, tombstones for
    erased slots, and a list of slots in insertion order (most recent
    first) that gives the iteration order. */
module HashMaps {
  import opened Primes
  import opened TableSizes
  import opened Probing
  import opened OrderIndex
  import opened Tables

  datatype Error = OutOfRange
  datatype Result<T> = Ok(value: T) | Err(error: Error)

  class HashMap<K(==), V> {
    /** hasher_: the key's hash, as an unbounded natural. */
    const hasher: K -> nat
    /** ValueType(): the value operator[] stores for a missing key. */
    const zero: V

    /** state_ and table_: slot states and the pair each slot holds. */
    var state: array<Slot>
    var table: array<Option<Entry<K, V>>>
    /** occupancy_: live pairs; capacity_: slots in use (live pairs and
        tombstones) plus the tombstones that earlier rebuilds purged. */
    var occupancy: nat
    var capacity: nat
    /** size_ind_: the index of the table size in Sizes. */
    var sizeInd: nat
    /** poses_: the live slots, most recently inserted first. */
    var order: seq<nat>
    /** poses_iterators_ and values_iterators_, indexed by slot: only their
        common length is kept, which must cover every slot. */
    var locators: nat
    /** The same state as a value, together with the probe step at which
        each live pair was placed. */
    ghost var view: View<K, V>

    /** The fields agree with the view. */
    ghost predicate Concrete()
      reads this, state, table
    {
      && state[..] == view.state
      && table[..] == view.pairs
      && order == view.order
      && occupancy == view.occupancy
      && capacity == view.capacity
    }

    ghost predicate Inv()
      reads this, state, table
    {
      && sizeInd < |Sizes|
      && state.Length == Sizes[sizeInd]
      && locators == state.Length
      && Concrete()
      && Good(hasher, view)
    }

    /** Inv, and the load test of insert holds: at most half the slots have
        been claimed. */
    ghost predicate Valid()
      reads this, state, table
    {
      Inv() && 2 * capacity <= state.Length
    }

    /** The pairs in iteration order (values_). */
    ghost function Entries(): seq<Entry<K, V>>
      reads this, state, table
      requires Inv()
    {
      Tables.Entries(view)
    }

    /** The map this table represents. */
    ghost function Contents(): map<K, V>
      reads this, state, table
      requires Inv()
    {
      Tables.Contents(view)
    }

    /** Claiming one more slot cannot run past the last table size. */
    ghost predicate Growable()
      reads this, state, table
      requires Inv()
    {
      sizeInd + 1 < |Sizes| || 2 * (capacity + 1) <= state.Length
    }

    /** The state after a new pair was claimed a slot: it is in the map,
        both counters grew, and either the table kept its size and the pair
        went in front of the iteration order in a slot that was Empty, or
        the load test failed and the table was rebuilt one size up, which
        reverses the iteration order and leaves no tombstones. */
    twostate predicate AddedNew(elem: Entry<K, V>)
      reads this, state, table
    {
      && old(Valid()) && Valid()
      && Contents() == old(Contents())[elem.key := elem.value]
      && occupancy == old(occupancy) + 1
      && capacity == old(capacity) + 1
      && if 2 * capacity > old(state.Length) then
           && sizeInd == old(sizeInd) + 1
           && Entries() == Reverse([elem] + old(Entries()))
           && forall g :: 0 <= g < state.Length ==> state[g] != Deleted
         else
           && sizeInd == old(sizeInd)
           && state == old(state) && table == old(table)
           && order == [order[0]] + old(order)
           && Entries() == [elem] + old(Entries())
           && old(state[..])[order[0]] == Empty
           && state[..] == old(state[..])[order[0] := Occupied]
           && table[..] == old(table[..])[order[0] := Some(elem)]
    }

    /** HashMap(hasher): an empty map of the first size. */
    constructor (hasher: K -> nat, zero: V)
      ensures Valid() && Contents() == map[] && Entries() == []
      ensures this.hasher == hasher && this.zero == zero
      ensures sizeInd == 0 && capacity == 0 && occupancy == 0
      ensures forall h :: 0 <= h < state.Length ==> state[h] == Empty
      ensures fresh(state) && fresh(table)
    {
      this.hasher := hasher;
      this.zero := zero;
      occupancy := 0;
      capacity := 0;
      sizeInd := 0;
      locators := Sizes[0];
      state := new Slot[Sizes[0]](_ => Empty);
      table := new Option<Entry<K, V>>[Sizes[0]](_ => None);
      order := [];
      view := Fresh(Sizes[0]);
      new;
      SizeIsPrime(0);
      FreshGood<K, V>(hasher, Sizes[0]);
      assert state[..] == view.state && table[..] == view.pairs;
    }

    /** HashMap(begin, end, hasher) and HashMap(list, hasher): an empty map
        into which every pair is inserted in turn, so the first pair with a
        given key is the one kept. The distinct keys may claim at most half
        the last table size. */
    static method FromEntries(hasher: K -> nat, zero: V, elems: seq<Entry<K, V>>) returns (m: HashMap<K, V>)
      requires 2 * |KeySet(elems)| <= Sizes[|Sizes| - 1]
      ensures fresh(m) && m.Valid() && m.hasher == hasher && m.zero == zero
      ensures m.Contents() == InsertAll(map[], elems)
    {
      m := new HashMap(hasher, zero);
      var p := 0;
      while p < |elems|
        invariant p <= |elems| && m.Valid() && m.hasher == hasher && m.zero == zero
        invariant fresh(m) && fresh(m.state) && fresh(m.table)
        invariant m.Contents() == InsertAll(map[], elems[..p])
        invariant m.capacity == m.occupancy
      {
        assert elems[..p + 1][..p] == elems[..p];
        if elems[p].key !in m.Contents() {
          ContentsSize(hasher, m.view);
          InsertAllFresh(elems, p);
          assert m.Growable();
        }
        m.Insert(elems[p]);
        p := p + 1;
      }
      assert elems[..p] == elems;
    }

    /** size(). */
    function Size(): (r: nat)
      reads this, state, table
      requires Inv()
      ensures r == |Contents()| && r == |Entries()|
    {
      ContentsSize(hasher, view);
      occupancy
    }

    /** empty(). */
    function IsEmpty(): (r: bool)
      reads this, state, table
      requires Inv()
      ensures r <==> Contents() == map[]
    {
      ContentsSize(hasher, view);
      occupancy == 0
    }

    /** The probe loop shared by insert, erase, find, operator[] and at:
        from Hash1 in steps of Hash2, past every slot in use unless it holds
        the key live. It stops at the key's live slot if the key is in the
        map, and at an Empty slot otherwise. */
    method Locate(key: K) returns (h: nat, ghost i: nat)
      requires Valid()
      ensures h < state.Length && h == Probe(hasher(key), i, state.Length)
      ensures forall j :: 0 <= j < i ==> state[Probe(hasher(key), j, state.Length)] != Empty
      ensures state[h] == Occupied && KeyAt(view, h) == key <==> key in Contents()
      ensures state[h] == Empty || (state[h] == Occupied && KeyAt(view, h) == key)
    {
      var n := state.Length;
      var k := hasher(key);
      SizeIsPrime(sizeInd);
      h := Hash1(k, n);
      i := 0;
      while state[h] != Empty && (table[h].value.key != key || state[h] == Deleted)
        invariant h == Probe(k, i, n)
        invariant forall j :: 0 <= j < i ==> Passes(view, Probe(k, j, n), key)
        invariant i <= |Used(view)|
        decreases |Used(view)| - i
      {
        forall j | 0 <= j < i + 1
          ensures Probe(k, j, n) in Used(view)
        {
          assert Passes(view, Probe(k, j, n), key);
        }
        ProbeBound(k, i + 1, n, Used(view));
        h := (h + Hash2(k, n)) % n;
        i := i + 1;
      }
      forall j | 0 <= j < i
        ensures state[Probe(k, j, n)] != Empty
      {
        assert Passes(view, Probe(k, j, n), key);
      }
      StopSound(hasher, view, key, i);
    }

    /** The new-key path of insert and operator[] (HashMap.h:152-164 and
        225-237): claim the Empty slot h where the probe stopped, then
        rebuild when more than half the slots are claimed. `grown` is that
        load test. */
    method AddNew(h: nat, ghost i: nat, elem: Entry<K, V>) returns (grown: bool)
      requires Valid() && elem.key !in Contents() && Growable()
      requires h == Probe(hasher(elem.key), i, state.Length)
      requires forall j :: 0 <= j < i ==> state[Probe(hasher(elem.key), j, state.Length)] != Empty
      requires state[h] == Empty
      modifies this, state, table
      ensures AddedNew(elem)
      ensures grown <==> 2 * capacity > old(state.Length)
      ensures grown ==> fresh(state) && fresh(table)
      ensures !grown ==> order[0] == h
    {
      ghost var es := Entries();
      Claim(h, i, elem);
      grown := 2 * capacity > state.Length;
      if grown {
        NextSizeFits(sizeInd, capacity);
        Rebuild();
        assert Entries() == Reverse([elem] + es);
      }
    }

    /** Store elem, whose key is absent, in the Empty slot h where its
        probe stopped at step i, and put h in front of the order index
        (HashMap.h:152-161). */
    method Claim(h: nat, ghost i: nat, elem: Entry<K, V>)
      requires Inv() && elem.key !in Tables.Contents(view)
      requires h == Probe(hasher(elem.key), i, state.Length)
      requires forall j :: 0 <= j < i ==> state[Probe(hasher(elem.key), j, state.Length)] != Empty
      requires state[h] == Empty && h < locators
      modifies this, state, table
      ensures Inv() && view == Add(old(view), h, i, elem)
      ensures Tables.Entries(view) == [elem] + Tables.Entries(old(view))
      ensures Tables.Contents(view) == Tables.Contents(old(view))[elem.key := elem.value]
      ensures state == old(state) && table == old(table) && sizeInd == old(sizeInd)
      ensures occupancy == old(occupancy) + 1 && capacity == old(capacity) + 1
      ensures state[..] == old(state[..])[h := Occupied]
      ensures table[..] == old(table[..])[h := Some(elem)]
    {
      AddPreserves(hasher, view, elem, i);
      Store(h, i, elem);
    }

    /** The assignments of Claim. */
    method Store(h: nat, ghost i: nat, elem: Entry<K, V>)
      requires Inv() && h < state.Length && state[h] == Empty
      requires Good(hasher, Add(view, h, i, elem))
      modifies this, state, table
      ensures Inv() && view == Add(old(view), h, i, elem)
      ensures state == old(state) && table == old(table) && sizeInd == old(sizeInd)
      ensures occupancy == old(occupancy) + 1 && capacity == old(capacity) + 1
      ensures state[..] == old(state[..])[h := Occupied]
      ensures table[..] == old(table[..])[h := Some(elem)]
    {
      ghost var v := view;
      occupancy := occupancy + 1;
      if state[h] == Empty {
        capacity := capacity + 1;
      }
      state[h] := Occupied;
      table[h] := Some(elem);
      order := [h] + order;
      view := Add(v, h, i, elem);
      assert state[..] == view.state && table[..] == view.pairs;
    }

    /** insert(elem): store the pair unless its key is already present. */
    method Insert(elem: Entry<K, V>)
      requires Valid() && (elem.key in Contents() || Growable())
      modifies this, state, table
      ensures Valid()
      ensures elem.key in old(Contents()) ==> unchanged(this) && unchanged(state) && unchanged(table)
      ensures elem.key !in old(Contents()) ==> AddedNew(elem)
      ensures (state == old(state) && table == old(table)) || (fresh(state) && fresh(table))
    {
      var h, i := Locate(elem.key);
      if state[h] == Occupied && table[h].value.key == elem.key {
        return;
      }
      var _ := AddNew(h, i, elem);
    }

    /** erase(key): turn the key's live slot into a tombstone and drop it
        from the order index; nothing happens if the key is absent. */
    method Erase(key: K)
      requires Valid()
      modifies this, state
      ensures Valid()
      ensures key !in old(Contents()) ==> unchanged(this) && unchanged(state)
      ensures key in old(Contents()) ==>
        && Contents() == old(Contents()) - {key}
        && occupancy == old(occupancy) - 1
        && capacity == old(capacity) && sizeInd == old(sizeInd)
        && state == old(state) && table == old(table)
        && exists p :: 0 <= p < |old(order)| && old(Entries())[p].key == key
             && order == RemoveAt(old(order), p)
             && Entries() == RemoveAt(old(Entries()), p)
             && state[..] == old(state[..])[old(order)[p] := Deleted]
    {
      var h, i := Locate(key);
      if state[h] == Occupied && table[h].value.key == key {
        ghost var p :| 0 <= p < |order| && order[p] == h;
        RemovePreserves(hasher, view, p);
        Tombstone(h, p);
      }
    }

    /** Turn the live slot h, at position p of the order index, into a
        tombstone (HashMap.h:173-176). */
    method Tombstone(h: nat, ghost p: nat)
      requires Inv() && p < |order| && order[p] == h
      requires h < locators
      requires Good(hasher, Remove(view, h))
      modifies this, state
      ensures Inv() && view == Remove(old(view), h)
      ensures state == old(state) && table == old(table) && sizeInd == old(sizeInd)
      ensures state[..] == old(state[..])[h := Deleted]
    {
      ghost var v := view;
      occupancy := occupancy - 1;
      state[h] := Deleted;
      order := Without(order, h);
      view := Remove(v, h);
      assert state[..] == view.state;
    }

    /** find(key), both overloads: the pair the returned iterator points at,
        or None for end(). */
    method Find(key: K) returns (r: Option<Entry<K, V>>)
      requires Valid()
      ensures r == if key in Contents() then Some(Entry(key, Contents()[key])) else None
    {
      var h, i := Locate(key);
      if state[h] == Occupied && table[h].value.key == key {
        ContentsHas(hasher, view, h);
        return table[h];
      }
      return None;
    }

    /** at(key): the key's value, or out_of_range when it is absent. */
    method At(key: K) returns (r: Result<V>)
      requires Valid()
      ensures key in Contents() ==> r == Ok(Contents()[key])
      ensures key !in Contents() ==> r == Err(OutOfRange)
    {
      var h, i := Locate(key);
      if state[h] == Occupied && table[h].value.key == key {
        ContentsHas(hasher, view, h);
        return Ok(table[h].value.value);
      }
      return Err(OutOfRange);
    }

    /** operator[](key), up to the reference it returns: the slot whose pair
        holds the key afterwards. A missing key is first stored with the
        value zero, and when that rebuilds the table the key is probed for
        again in the new one. */
    method Reference(key: K) returns (h: nat)
      requires Valid() && (key in Contents() || Growable())
      modifies this, state, table
      ensures Valid() && h < state.Length && state[h] == Occupied && KeyAt(view, h) == key
      ensures key in Contents() && Contents()[key] == table[h].value.value
      ensures key in old(Contents()) ==> unchanged(this) && unchanged(state) && unchanged(table)
      ensures key !in old(Contents()) ==> AddedNew(Entry(key, zero))
      ensures (state == old(state) && table == old(table)) || (fresh(state) && fresh(table))
    {
      ghost var i;
      h, i := Locate(key);
      if state[h] == Occupied && table[h].value.key == key {
        ContentsHas(hasher, view, h);
        return;
      }
      h := ReferenceNew(h, i, key);
    }

    /** The missing-key path of operator[] (HashMap.h:225-245): store the
        key with the value zero in the Empty slot h where its probe stopped,
        and after a rebuild probe for it again. */
    method ReferenceNew(h: nat, ghost i: nat, key: K) returns (r: nat)
      requires Valid() && key !in Contents() && Growable()
      requires h == Probe(hasher(key), i, state.Length)
      requires forall j :: 0 <= j < i ==> state[Probe(hasher(key), j, state.Length)] != Empty
      requires state[h] == Empty
      modifies this, state, table
      ensures Valid() && r < state.Length && state[r] == Occupied && KeyAt(view, r) == key
      ensures key in Contents() && Contents()[key] == table[r].value.value
      ensures AddedNew(Entry(key, zero))
      ensures (state == old(state) && table == old(table)) || (fresh(state) && fresh(table))
    {
      r := h;
      var grown := AddNew(h, i, Entry(key, zero));
      if grown {
        ghost var j;
        r, j := Locate(key);
      }
      ContentsHas(hasher, view, r);
    }

    /** Reading m[key]: the key's value, or zero after storing it. */
    method Index(key: K) returns (v: V)
      requires Valid() && (key in Contents() || Growable())
      modifies this, state, table
      ensures Valid() && key in Contents() && Contents()[key] == v
      ensures key in old(Contents()) ==>
        v == old(Contents())[key] && unchanged(this) && unchanged(state) && unchanged(table)
      ensures key !in old(Contents()) ==> v == zero && AddedNew(Entry(key, zero))
    {
      var h := Reference(key);
      v := table[h].value.value;
    }

    /** Writing m[key] = x through the reference operator[] returns: a
        present key has its value replaced where it stands, in place and in
        the iteration order; a missing key is added as insert adds it, with
        x as its value. operator[] stores ValueType() there and the
        assignment then overwrites it; the model stores x at once, which
        leaves the same slots (Tables.AddThenSet). */
    method Assign(key: K, x: V)
      requires Valid() && (key in Contents() || Growable())
      modifies this, state, table
      ensures Valid()
      ensures Contents() == old(Contents())[key := x]
      ensures occupancy == |Contents()|
      ensures key in old(Contents()) ==>
        && state == old(state) && table == old(table) && state[..] == old(state[..])
        && order == old(order) && sizeInd == old(sizeInd)
        && occupancy == old(occupancy) && capacity == old(capacity)
        && Overwritten(old(Entries()), key, x, Entries())
      ensures key !in old(Contents()) ==> AddedNew(Entry(key, x))
    {
      var h;
      ghost var i;
      h, i := Locate(key);
      if state[h] == Occupied && table[h].value.key == key {
        Overwrite(h, x);
      } else {
        var grown := AddNew(h, i, Entry(key, x));
      }
      ContentsSize(hasher, view);
    }

    /** The present-key path of m[key] = x: the value of the live pair in
        slot h is replaced and nothing else moves. */
    method Overwrite(h: nat, x: V)
      requires Valid() && h < state.Length && state[h] == Occupied
      modifies this, table
      ensures Valid() && Contents() == old(Contents())[KeyAt(old(view), h) := x]
      ensures state == old(state) && table == old(table) && state[..] == old(state[..])
      ensures order == old(order) && sizeInd == old(sizeInd)
      ensures occupancy == old(occupancy) && capacity == old(capacity)
      ensures Overwritten(old(Entries()), KeyAt(old(view), h), x, Entries())
    {
      EntriesUnique(hasher, view);
      ghost var p := SetValuePreserves(hasher, view, h, x);
      OverwrittenAt(Entries(), p, x);
      WriteValue(h, x);
    }

    /** Store x as the value of the live pair in slot h. */
    method WriteValue(h: nat, x: V)
      requires Inv() && h < state.Length && state[h] == Occupied
      requires Good(hasher, SetValue(view, h, x))
      modifies this, table
      ensures Inv() && view == SetValue(old(view), h, x)
      ensures state == old(state) && table == old(table) && sizeInd == old(sizeInd)
      ensures occupancy == old(occupancy) && capacity == old(capacity) && locators == old(locators)
      ensures order == old(order) && state[..] == old(state[..])
      ensures table[..] == old(table[..])[h := Some(Entry(KeyAt(old(view), h), x))]
    {
      table[h] := Some(Entry(table[h].value.key, x));
      view := SetValue(view, h, x);
      assert table[..] == view.pairs;
    }

    /** clear(): every live slot becomes Empty and is taken off both
        counters; tombstones stay, and so does the table size. */
    method Clear()
      requires Valid()
      modifies this, state
      ensures Valid() && Contents() == map[] && Entries() == []
      ensures state == old(state) && table == old(table) && sizeInd == old(sizeInd)
      ensures occupancy == 0 && capacity == old(capacity) - old(occupancy)
      ensures state[..] == Cleared(old(state[..]))
    {
      ghost var v := view;
      LiveCount(hasher, v);
      ClearPreserves(hasher, v);
      EmptyLiveSlots();
      order := [];
      view := ClearAll(v);
    }

    /** clear() as HashMap.h:267-268 write it: it also empties
        poses_iterators_ and values_iterators_, so the next insert would
        record its slot past the end of both (HashMap.h:160-161 and
        234-235). Clear above keeps them, as insert and erase need. */
    method ClearAsWritten()
      requires Valid()
      modifies this, state
      ensures Concrete() && Good(hasher, view)
      ensures Tables.Contents(view) == map[] && Tables.Entries(view) == []
      ensures state == old(state) && table == old(table) && sizeInd == old(sizeInd)
      ensures occupancy == 0 && capacity == old(capacity) - old(occupancy)
      ensures state[..] == Cleared(old(state[..]))
      ensures locators == 0 < state.Length && !Inv()
    {
      Clear();
      locators := 0;
    }

    /** The loop of clear (HashMap.h:260-264): empty each slot of the order
        index and take it off both counters. */
    method EmptyLiveSlots()
      requires forall q :: 0 <= q < |order| ==> order[q] < state.Length && state[order[q]] == Occupied
      requires forall g :: 0 <= g < state.Length && state[g] == Occupied ==> g in order
      requires occupancy == |order| <= capacity
      modifies this, state
      ensures state == old(state) && table == old(table) && order == old(order)
      ensures view == old(view) && sizeInd == old(sizeInd) && locators == old(locators)
      ensures occupancy == 0 && capacity == old(capacity) - old(occupancy)
      ensures state[..] == Cleared(old(state[..]))
    {
      ghost var s := state[..];
      var p := 0;
      while p < |order|
        invariant 0 <= p <= |order|
        invariant order == old(order) && state == old(state) && table == old(table)
        invariant view == old(view) && sizeInd == old(sizeInd) && locators == old(locators)
        invariant occupancy == |order| - p && capacity == old(capacity) - p
        invariant forall g :: 0 <= g < state.Length ==>
          state[g] == if g in order[..p] then Empty else s[g]
      {
        assert order[..p + 1] == order[..p] + [order[p]];
        state[order[p]] := Empty;
        occupancy := occupancy - 1;
        capacity := capacity - 1;
        p := p + 1;
      }
      assert order[..p] == order;
      assert state[..] == Cleared(s);
    }

    /** rebuild(): move every live pair into an Empty table of the next
        size, then rebuild the order index by pushing the new slots to its
        front one at a time. capacity_ is not reset. */
    method Rebuild()
      requires Inv() && sizeInd + 1 < |Sizes| && 2 * capacity <= Sizes[sizeInd + 1]
      modifies this
      ensures Valid()
      ensures sizeInd == old(sizeInd) + 1
      ensures occupancy == old(occupancy) && capacity == old(capacity)
      ensures Entries() == Reverse(old(Entries())) && Contents() == old(Contents())
      ensures forall g :: 0 <= g < state.Length ==> state[g] != Deleted
      ensures fresh(state) && fresh(table)
    {
      ghost var v := view;
      SizeIsPrime(sizeInd + 1);
      var newState, newTable, hashes, r := Rehash(Sizes[sizeInd + 1]);
      var newOrder := PushAllFront(hashes);
      Install(newState, newTable, newOrder, r);
      assert view == r;
    }

    /** The last assignments of rebuild: the new table, one size up, with
        its order index. */
    method Install(newState: array<Slot>, newTable: array<Option<Entry<K, V>>>,
                   newOrder: seq<nat>, ghost r: View<K, V>)
      requires sizeInd + 1 < |Sizes| && newState.Length == Sizes[sizeInd + 1]
      requires newState[..] == r.state && newTable[..] == r.pairs && newOrder == r.order
      requires r.occupancy == occupancy && r.capacity == capacity
      requires Good(hasher, r) && 2 * capacity <= newState.Length
      modifies this
      ensures Valid() && view == r && sizeInd == old(sizeInd) + 1
      ensures state == newState && table == newTable
      ensures occupancy == old(occupancy) && capacity == old(capacity)
    {
      sizeInd := sizeInd + 1;
      locators := newState.Length;
      state := newState;
      table := newTable;
      order := newOrder;
      view := r;
    }

    /** The first loop of rebuild (HashMap.h:307-318): place each pair, in
        iteration order, in the first Empty slot of its probe in a new table
        of m slots, and record the slots in `hashes`. The result r is the
        new table as it stands once the order index is rebuilt from
        `hashes`: the same pairs in reverse order, the same counters, and no
        tombstones. */
    method Rehash(m: nat) returns (newState: array<Slot>, newTable: array<Option<Entry<K, V>>>,
                                   hashes: seq<nat>, ghost r: View<K, V>)
      requires Concrete() && Good(hasher, view) && IsPrime(m) && 2 * capacity <= m
      ensures fresh(newState) && fresh(newTable)
      ensures newState[..] == r.state && newTable[..] == r.pairs && |r.state| == m
      ensures Good(hasher, r) && r.order == Reverse(hashes)
      ensures r.occupancy == occupancy && r.capacity == capacity
      ensures Tables.Entries(r) == Reverse(Tables.Entries(view))
      ensures Tables.Contents(r) == Tables.Contents(view)
      ensures forall g :: 0 <= g < |r.state| ==> r.state[g] != Deleted
    {
      LiveCount(hasher, view);
      FreshGood<K, V>(hasher, m);
      newState := new Slot[m](_ => Empty);
      newTable := new Option<Entry<K, V>>[m](_ => None);
      ghost var w := Fresh(m);
      assert newState[..] == w.state && newTable[..] == w.pairs;
      hashes := [];
      var p := 0;
      while p < |order|
        invariant p <= |order|
        invariant Rebuilding(hasher, view, w) && |w.order| == p
        invariant |w.state| == m && newState[..] == w.state && newTable[..] == w.pairs
        invariant w.order == Reverse(hashes)
        modifies newState, newTable
      {
        var h, i := PlaceNext(newState, newTable, p, w);
        ReverseGrow(hashes + [h], |hashes|);
        assert (hashes + [h])[..|hashes|] == hashes;
        hashes := hashes + [h];
        w := Add(w, h, i, Tables.Entries(view)[p]);
        p := p + 1;
      }
      RebuildDone(hasher, view, w, capacity);
      r := w.(capacity := capacity);
    }

    /** One round of the first loop of rebuild: the next pair of the
        iteration order goes to the first Empty slot of its probe in the
        new table, at the front of the new order index. */
    method PlaceNext(newState: array<Slot>, newTable: array<Option<Entry<K, V>>>, p: nat, ghost w: View<K, V>)
      returns (h: nat, ghost i: nat)
      requires Concrete() && Rebuilding(hasher, view, w) && p == |w.order| < |order|
      requires newState[..] == w.state && newTable[..] == w.pairs && 2 * capacity <= |w.state|
      modifies newState, newTable
      ensures var e := Tables.Entries(view)[p];
        && h < |w.state|
        && Rebuilding(hasher, view, Add(w, h, i, e))
        && newState[..] == Add(w, h, i, e).state && newTable[..] == Add(w, h, i, e).pairs
    {
      var e := table[order[p]].value;
      assert e == Tables.Entries(view)[p];
      RebuildUsed(hasher, view, w);
      LiveCount(hasher, view);
      h, i := FreeSlot(newState, hasher(e.key), Used(w));
      RebuildStep(hasher, view, w, i);
      newState[h] := Occupied;
      newTable[h] := Some(e);
      assert newState[..] == Add(w, h, i, e).state;
      assert newTable[..] == Add(w, h, i, e).pairs;
    }

    /** The probe loop of rebuild (HashMap.h:311-314): the first Empty slot
        of the probe for k in the new table. Every slot in use there is in
        `used`, a set smaller than the table, which bounds the loop. */
    method FreeSlot(newState: array<Slot>, k: nat, ghost used: set<nat>) returns (h: nat, ghost i: nat)
      requires IsPrime(newState.Length) && |used| < newState.Length
      requires forall g :: 0 <= g < newState.Length && newState[g] != Empty ==> g in used
      ensures h < newState.Length && h == Probe(k, i, newState.Length) && newState[h] == Empty
      ensures forall j :: 0 <= j < i ==> newState[Probe(k, j, newState.Length)] != Empty
    {
      var m := newState.Length;
      h := Hash1(k, m);
      i := 0;
      while newState[h] != Empty
        invariant h == Probe(k, i, m) && i <= |used|
        invariant forall j :: 0 <= j < i ==> newState[Probe(k, j, m)] != Empty
        decreases |used| - i
      {
        forall j | 0 <= j < i + 1
          ensures Probe(k, j, m) in used
        {
          assert newState[Probe(k, j, m)] != Empty;
        }
        ProbeBound(k, i + 1, m, used);
        h := (h + Hash2(k, m)) % m;
        i := i + 1;
      }
    }

    /** The second loop of rebuild (HashMap.h:321-326): push each slot of
        hashes to the front of a new order index. */
    method PushAllFront(hashes: seq<nat>) returns (r: seq<nat>)
      ensures r == Reverse(hashes)
    {
      r := [];
      var q := 0;
      while q < |hashes|
        invariant q <= |hashes| && r == Reverse(hashes[..q])
      {
        PushFrontReverse(hashes[..q], hashes[q]);
        assert hashes[..q + 1] == hashes[..q] + [hashes[q]];
        r := [hashes[q]] + r;
        q := q + 1;
      }
      assert hashes[..q] == hashes;
    }
  }
}
