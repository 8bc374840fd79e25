# HashMap: a verified model of an insertion-ordered open-addressing hash map

`HashMap.h` is a C++ key/value map built on open addressing with double hashing. Its parts:

- **Slot table.** A table of slots, each Empty, Occupied or Deleted (a tombstone left by `erase`), and the pair each slot holds.
- **Probing.** The first probed slot is `k % size` and the probe step is `1 + k % (size - 1)`.
- **Table sizes.** The size comes from a fixed ascending list of 19 primes. A table that becomes more than half claimed is rebuilt one size up.
- **Order index.** A list of live slots, newest first, gives the iteration order. Per-slot locators let `erase` remove a slot from that list in constant time.

The operations modelled are:
- the constructors;
- `size` and `empty`;
- `insert`;
- `erase`;
- `find` (both overloads);
- `operator[]`;
- `at`;
- `clear`;
- the private `rebuild`, `Hash1` and `Hash2`.

The model is organised in six modules:

- `Primes` (primes.dfy): primality, and trial division by the candidates 6j - 1 and 6j + 1 as a proof of it. It also proves that for a prime p, a product of two numbers strictly between 0 and p is not a multiple of p.
- `TableSizes` (sizes.dfy): the list `Sizes`, with a proof that every entry is prime and that each entry more than doubles the one before it.
- `Probing` (probe.dfy): `Hash1`, `Hash2` and the probe sequence. The main facts:
  - the i-th probe is `(Hash1 + i * Hash2) % size`;
  - for a prime size, the first `size` probes are pairwise distinct;
  - a probe that stays inside a set of slots takes at most as many steps as the set has members, which bounds every probe loop.
- `OrderIndex` (order.dfy): the order index and the map it describes:
  - reversal;
  - removal of one position (`std::list::erase` through a locator);
  - the map a sequence of pairs describes, with the newest pair winning;
  - repeated insertion, with the first pair winning.
- `Tables` (tables.dfy): the table state as a value (`View`) and the invariant `Good` that every public operation keeps:
  - every live slot is in the order index exactly once, and `occupancy_` counts them;
  - no key is live twice;
  - every live pair sits at the end of a probe chain whose earlier slots are all in use;
  - `capacity_` bounds the slots in use.

  It also defines each state change as a function (`Add`, `Remove`, `SetValue`, `ClearAll`, `Fresh`), each with a lemma saying what the change does to the invariant, the iteration order (`Entries`) and the map (`Contents`).
- `HashMaps` (hashmap.dfy): the class `HashMap`. It holds:
  - the arrays `state` and `table`;
  - the counters `occupancy` and `capacity`;
  - `sizeInd`;
  - the order index `order`;
  - the length `locators` of the locator vectors;
  - a ghost copy `view` of the whole state.

  Every method runs the source's loops over the arrays. Each state change is a small method whose contract ties the new view to one of the step functions of `Tables`.

The hash function is a parameter `hasher: K -> nat` fixed at construction. `ValueType()`, the value `operator[]` stores for a missing key, is a parameter `zero`. Keys are compared with Dafny's equality.

## Model

| member | source | states |
|---|---|---|
| Probing.Hash1 | HashMap.h:292-294 | the first probed slot lies in [0, size) |
| Probing.Hash2 | HashMap.h:295-297 | the probe step lies in [1, size - 1], so it is never 0 and never a multiple of the size |
| Probing.Walk | HashMap.h:146-148 | the slot reached after i iterations of `h = (h + step) % size` from a start slot; it lies in [0, size) |
| Probing.Probe | HashMap.h:144-148 | the slot the probe loop for hash value k visits after i steps: the walk from `Hash1(k)` with step `Hash2(k)`; it lies in [0, size) |
| Probing.WalkClosedForm | HashMap.h:146-148 | after i iterations of `h = (h + step) % size` from h0, the slot is (h0 + i * step) % size |
| Probing.WalkInjective | HashMap.h:146-148 | for a prime size and a step in (0, size), the first `size` slots of a walk are pairwise distinct |
| Probing.ProbeInjective | HashMap.h:146-148 | for a prime size, the first `size` probes for any hash value visit distinct slots, so the probe reaches every slot |
| Probing.ProbeBound | HashMap.h:146-148 | if the first i probes all lie in a set S, then i is at most the size of S; this is what makes every probe loop stop |
| Primes.PrimeByTrialDivision | HashMap.h:279-281 | a number not divisible by 2 or 3, and with no factor 6j - 1 or 6j + 1 up to its square root, is prime |
| Primes.ProductNotMultiple | HashMap.h:295-297 | for a prime p, a product of two numbers strictly between 0 and p is not a multiple of p; so i * step is never a multiple of the size for 0 < i < size |
| TableSizes.Sizes | HashMap.h:279-281 | the 19 table sizes of `sizes_`, in the source's order |
| TableSizes.SizeIsPrime | HashMap.h:279-281 | every entry of `sizes_` is prime |
| TableSizes.SizesGrow | HashMap.h:279-281 | every size is at least 3 and more than double the one before it |
| TableSizes.NextSizeFits | HashMap.h:162-163 | when one claim takes the table past half full and the size is not the last, the next size exists and holds the claimed slots at most half full |
| OrderIndex.DistinctCard | HashMap.h:287 | an order index without repeated slots has as many members as entries |
| OrderIndex.ReverseIndex | HashMap.h:321-326 | position i of the reversal is position n - 1 - i of the original |
| OrderIndex.PushFrontReverse | HashMap.h:321-326 | pushing x to the front of the reversal of s gives the reversal of s + [x] |
| OrderIndex.Without | HashMap.h:175 | `poses_.erase` of a slot: the order index with that slot taken out |
| OrderIndex.WithoutAt | HashMap.h:175 | removing a slot from an order index without repeats drops exactly its position and keeps the others in order |
| OrderIndex.WithoutAbsent | HashMap.h:175 | removing a slot that is not listed leaves the order index as it is |
| OrderIndex.ToMapIndex | HashMap.h:288 | every key of the map described by the pairs comes from one of the pairs |
| OrderIndex.ToMapMissing | HashMap.h:288 | a key no pair carries is not in the map |
| OrderIndex.ToMapHas | HashMap.h:288 | with distinct keys, every pair of the sequence is in the map with its value |
| OrderIndex.ToMapCard | HashMap.h:288 | with distinct keys, the map has one key per pair |
| OrderIndex.SameEntriesSameMap | HashMap.h:288 | two key-distinct sequences with the same pairs, in whatever order, describe the same map |
| OrderIndex.ReverseSameMap | HashMap.h:321-326 | reversing the iteration order keeps keys distinct and keeps the map |
| OrderIndex.RemoveAtIndex | HashMap.h:175-176 | after dropping position p, position i holds the old entry i before p and the old entry i + 1 from p on |
| OrderIndex.RemoveAtDistinct | HashMap.h:175 | dropping a position keeps an order index free of repeats |
| OrderIndex.RemoveAtKeeps | HashMap.h:175 | every other entry survives dropping a position |
| OrderIndex.ThroughRemoveAt | HashMap.h:175-176 | dropping a position of the order index keeps every remaining slot pointing at a stored pair |
| OrderIndex.RemoveAtUnique | HashMap.h:176 | dropping a pair keeps the keys of the iteration order distinct |
| OrderIndex.RemoveAtMap | HashMap.h:176 | dropping the pair at position p removes exactly its key from the map |
| OrderIndex.ToMapSet | HashMap.h:223 | overwriting the value of the pair at position p changes that key's value in the map and nothing else |
| OrderIndex.InsertAll | HashMap.h:122-125 | the map the range constructor's loop builds by inserting the pairs front to back, where a key already present is not changed |
| OrderIndex.InsertAllKeeps | HashMap.h:121-126 | inserting a sequence of pairs one by one never drops or overwrites a key already present |
| OrderIndex.InsertAllFirstWins | HashMap.h:121-126 | the value kept for a key is the one of its first occurrence in the inserted sequence |
| OrderIndex.InsertAllOnly | HashMap.h:121-126 | every new key comes from some inserted pair |
| OrderIndex.InsertAllDomain | HashMap.h:121-126 | inserting a sequence of pairs adds exactly the keys the pairs carry |
| OrderIndex.InsertAllFresh | HashMap.h:121-126 | before a pair whose key is new is inserted, the map has fewer keys than the whole sequence carries, so the distinct keys bound the slots the range constructor claims |
| Tables.EntriesUnique | HashMap.h:288 | under the invariant, the iteration order never holds a key twice |
| Tables.ContentsHas | HashMap.h:149-151 | the pair in a live slot is in the map, with its value |
| Tables.ContentsOnly | HashMap.h:149-151 | every key of the map is live in some slot |
| Tables.ContentsSize | HashMap.h:131-133 | the map has exactly `occupancy_` keys |
| Tables.Passes | HashMap.h:146 | the probe loop's condition: the slot is in use and does not hold the key live |
| Tables.StopSound | HashMap.h:146-148 | where the probe loop stops: at the key's live slot exactly when the key is in the map, and otherwise at an Empty slot, never at a tombstone |
| Tables.Add | HashMap.h:152-161 | the claim of an Empty slot: it becomes live with the pair, goes to the front of the order index, and both counters grow by one |
| Tables.AddIndexed | HashMap.h:156-159 | claiming an Empty slot puts it in front of the order index, and the new pair in front of the iteration order |
| Tables.AddKeys | HashMap.h:149-157 | claiming a slot for an absent key keeps keys distinct |
| Tables.AddChains | HashMap.h:146-157 | claiming the Empty slot where the probe stopped keeps every probe chain intact |
| Tables.AddPreserves | HashMap.h:152-161 | claiming that slot keeps the invariant, puts the pair in front of the iteration order, adds it to the map, and adds the slot to the slots in use |
| Tables.SetValue | HashMap.h:223 | a write through the reference to a live slot: its pair keeps the key and takes the new value |
| Tables.SetValueGood | HashMap.h:223 | writing a value into a live pair keeps the invariant |
| Tables.SetValueEntries | HashMap.h:223 | writing a value changes only that pair in the iteration order |
| Tables.SetValuePreserves | HashMap.h:223 | writing a value keeps the invariant and changes only that key's value, both in the map and in the iteration order |
| Tables.Remove | HashMap.h:172-177 | erase of a live slot: it becomes a tombstone that keeps its pair, leaves the order index, and only `occupancy_` drops |
| Tables.RemoveIndexed | HashMap.h:173-176 | a tombstone drops exactly its position from the order index and from the iteration order |
| Tables.RemoveChains | HashMap.h:174 | a tombstone keeps every probe chain and leaves the slots in use unchanged |
| Tables.RemovePreserves | HashMap.h:172-177 | erasing a live slot keeps the invariant, drops its position from the order and iteration order, removes only its key from the map, and leaves the slots in use unchanged |
| Tables.LiveCount | HashMap.h:286-287 | the live slots are exactly the order index, there are `occupancy_` of them, and they are among the slots in use, so `occupancy_ <= capacity_` |
| OrderIndex.SubsetCard | HashMap.h:286 | a subset has no more members than its superset (the live slots against the slots in use) |
| Tables.Cleared | HashMap.h:260-264 | the slot states after clear: live slots become Empty, tombstones and Empty slots stay; the length is kept |
| Tables.ClearAll | HashMap.h:259-269 | clear: the slot states become `Cleared`, the order index empties, `occupancy_` becomes 0 and `capacity_` drops by the live count |
| Tables.ClearPreserves | HashMap.h:259-269 | clear keeps the invariant, empties the map and the iteration order, and leaves exactly the tombstones in use |
| Tables.Fresh | HashMap.h:111-119 | a table of n slots, all Empty, with empty order index and zero counters (also the start of rebuild, HashMap.h:300-302) |
| Tables.FreshGood | HashMap.h:111-119 | a table of prime size with every slot Empty satisfies the invariant and is the empty map |
| Tables.RebuildUsed | HashMap.h:311-314 | during rebuild, every slot in use in the new table is live, so there are as many as pairs placed |
| Tables.RebuildStep | HashMap.h:307-318 | placing the next pair of the old order in the Empty slot where its probe stopped keeps the rebuild going |
| Tables.RebuildFreshKey | HashMap.h:307-317 | the next pair's key is not yet in the new table |
| Tables.ReverseGrow | HashMap.h:317 | recording one more slot in `hashes` adds it in front of the reversed order |
| Tables.RebuildDone | HashMap.h:319-326 | once every pair is placed, the new table with the old `capacity_` keeps the invariant, holds the same map, and iterates in the reverse of the old order |
| HashMaps.HashMap.constructor | HashMap.h:111-119 | the new map is valid and empty, at the first size, with both counters 0, every slot Empty and fresh arrays |
| HashMaps.HashMap.FromEntries | HashMap.h:120-129 | the map built from a sequence of pairs is valid and contains what inserting the pairs one by one gives, so the first pair with a key wins |
| HashMaps.HashMap.Size | HashMap.h:131-133 | the count returned is the number of keys in the map and of pairs in the iteration order |
| HashMaps.HashMap.IsEmpty | HashMap.h:134-136 | true exactly when the map is empty |
| HashMaps.HashMap.Locate | HashMap.h:146-148 | the probe loop ends at probe step i, having passed only slots in use; it stops at the key's live slot exactly when the key is in the map, and otherwise at an Empty slot |
| HashMaps.HashMap.Insert | HashMap.h:142-165 | a live key changes nothing; an absent key is added with its value, both counters grow by one, and either the pair goes in front of the iteration order in a slot that was Empty, or the table was rebuilt one size up, with the order reversed and no tombstones; afterwards the table is at most half claimed |
| HashMaps.HashMap.AddNew | HashMap.h:152-164 | the new-key path: as for Insert, and the rebuild happens exactly when the load test fails |
| HashMaps.HashMap.Claim | HashMap.h:152-161 | the Empty slot where the probe for an absent key stopped becomes live with the pair; the pair goes in front of the iteration order and into the map; both counters grow |
| HashMaps.HashMap.Store | HashMap.h:152-158 | the assignments of a claim: the slot, the pair and the order index are updated together with the view |
| HashMaps.HashMap.Erase | HashMap.h:166-178 | an absent key changes nothing; a live key leaves the map, its slot becomes a tombstone, exactly its position leaves the order index and the iteration order, `occupancy_` drops by one, and `capacity_` does not change |
| HashMaps.HashMap.Tombstone | HashMap.h:172-177 | the live slot becomes Deleted and leaves the order index; only `occupancy_` drops |
| HashMaps.HashMap.Find | HashMap.h:193-214 | both overloads: the key's pair when it is in the map, end (None) otherwise; nothing is modified |
| HashMaps.HashMap.At | HashMap.h:247-257 | the key's value when it is in the map, out_of_range otherwise; nothing is modified |
| HashMaps.HashMap.Reference | HashMap.h:216-246 | the slot `operator[]` refers to is live and holds the key; a live key changes nothing, and a missing key is added with the value zero as by insert |
| HashMaps.HashMap.ReferenceNew | HashMap.h:225-245 | the missing-key path: the key is stored with the value zero as by insert, and after a rebuild the new slot is found by a fresh probe |
| HashMaps.HashMap.Index | HashMap.h:216-246 | reading `m[key]` gives the key's value when present, and zero otherwise, with the key then added |
| HashMaps.HashMap.Assign | HashMap.h:216-246 | writing `m[key] = x` leaves the map as the old map with key set to x; for a present key the arrays, slot states, order index, counters and size class stay and the iteration order has only that key's value replaced; for a missing key the state is the one insert of (key, x) leaves (`AddedNew`) |
| HashMaps.HashMap.Overwrite | HashMap.h:222-223 | the value of the live pair in slot h is replaced; the map changes at that key only, the iteration order at that key's entry only, and the slot states, order index and counters stay |
| OrderIndex.OverwrittenAt | HashMap.h:223 | with distinct keys, replacing the entry at one position gives every entry of that key the new value and leaves every other entry as it was |
| Tables.AddThenSet | HashMap.h:228-245 | storing a new pair with `ValueType()` and then writing x into its slot leaves the same table as storing the pair with x |
| HashMaps.HashMap.WriteValue | HashMap.h:223 | writing through the reference changes the value of that slot's pair and nothing else |
| HashMaps.HashMap.Clear | HashMap.h:259-268 | the map and the iteration order become empty; every live slot becomes Empty and every other slot, tombstones included, keeps its state; `occupancy_` is 0 and `capacity_` drops by the number of live pairs; the size class and the locator vectors stay |
| HashMaps.HashMap.ClearAsWritten | HashMap.h:259-269 | the source's clear, which also empties the locator vectors: the fields still agree with the view, live slots become Empty and tombstones stay, the map and iteration order are empty, `occupancy_` becomes 0 and `capacity_` drops by the live count, the arrays and size class stay; but no slot of the table is inside the locator vectors any more and the invariant no longer holds |
| HashMaps.HashMap.EmptyLiveSlots | HashMap.h:260-264 | the loop of clear: exactly the live slots become Empty, and both counters drop by their number |
| HashMaps.HashMap.Rebuild | HashMap.h:299-327 | the size index grows by one; the map is unchanged; the iteration order is reversed; no slot is Deleted; `occupancy_` and `capacity_` are unchanged; the table is at most half claimed |
| HashMaps.HashMap.Install | HashMap.h:300-304 | the new arrays, size index, locator length and order index take effect together and the invariant holds |
| HashMaps.HashMap.Rehash | HashMap.h:307-318 | the pairs of the old iteration order are placed in a fresh table with no tombstones; the slots recorded in `hashes`, reversed, give an order index under which the new table has the same map and the reversed iteration order |
| HashMaps.HashMap.PlaceNext | HashMap.h:308-317 | one round of rebuild's first loop: the next pair goes to the first Empty slot of its probe in the new table |
| HashMaps.HashMap.FreeSlot | HashMap.h:311-314 | rebuild's probe loop ends at an Empty slot of the new table, having passed only slots in use |
| HashMaps.HashMap.PushAllFront | HashMap.h:321-326 | pushing each recorded slot to the front of an empty list yields the reversal of `hashes` |

## Left out

- The iterator and const_iterator classes with `begin` and `end` (HashMap.h:15-95, 180-191) are not modelled. Iteration order is the sequence `Entries()`, the pairs the order index points at.
- The `values_` list and the `shared_ptr` ownership of pairs are not modelled separately. `values_` always holds the same pairs as `poses_` points at, in the same order, so `Entries()` stands for it.
- The locator vectors `poses_iterators_` and `values_iterators_` are modelled only by their common length `locators`. The locators themselves are positions in `order`, which Dafny's sequences give directly.
- `operator=` (HashMap.h:97-109) is defined only for `HashMap<int, int>` and copies list iterators that point into the other object's lists. It is not modelled.
- `print` (HashMap.h:271-275) is console output and is not modelled.
- `hash_function` (HashMap.h:138-140) only returns the hasher; the model's `hasher` field stands for it.
- The load test `capacity_ / size > 0.5` in `double` arithmetic (HashMap.h:162, 236) is modelled as `2 * capacity > size`. The two agree for every size in the list: all are odd and below 2^53.
- Hash values are natural numbers without the `size_t` range. The model uses only `k % size` and `k % (size - 1)`, whose values do not depend on that range.
- HashMaps.HashMap.Insert, HashMaps.HashMap.Reference, HashMaps.HashMap.Index and HashMaps.HashMap.Assign require `Growable()`: a new key must not make rebuild run past the last of the 19 sizes. In the source that case indexes `sizes_` out of range (HashMap.h:300), which is undefined behaviour.
- HashMaps.HashMap.FromEntries requires that the distinct keys of the pairs fit in the last size at most half full, for the same reason: a repeated key claims no slot. Its contract states the resulting map but not the resulting iteration order: every rebuild reverses the order, so the final order depends on which inserts trip the load test, and stating it would mean replaying the load test for every prefix of the pairs.
- HashMaps.HashMap.Index and HashMaps.HashMap.Assign stand for `operator[]`, which returns a reference. Index reads through it and Assign writes one value through it. A reference kept and used later is not modelled.
- HashMaps.HashMap.Assign, for a missing key, stores (key, x) in the claimed slot at once, where `operator[]` stores (key, `ValueType()`) and the assignment then overwrites the value. Tables.AddThenSet proves that the two leave the same table when no rebuild follows. After a rebuild the contract states the same map and iteration order, but not that the new slot arrays are the same ones.
- The scalar counters are unbounded naturals. The source's `size_t` counters cannot overflow within the 19 table sizes.

Where the code and its documentation differ, the model follows the code:

- insert and `operator[]` never reuse a tombstone. The probe passes over Deleted slots and stops only at an Empty slot or at the key's live slot, so `capacity_` always grows for a new key (Tables.StopSound, Tables.Add).
- rebuild does not reset `capacity_`, so after a rebuild it still counts the purged tombstones, and it goes on counting them until the map is destroyed. The model keeps this value (Tables.RebuildDone, HashMaps.HashMap.Rebuild). A consequence: every new-key insert raises `capacity_` for good, even one that re-adds a key erased just before, since the probe passes the tombstone and claims a fresh Empty slot (HashMaps.HashMap.AddedNew gives `capacity == old(capacity) + 1`; HashMaps.HashMap.Erase and HashMaps.HashMap.Rebuild keep `capacity`). About 701,821 insert/erase cycles of a single key therefore take the table through all 19 sizes, and the next rebuild reads past the end of `sizes_` (HashMap.h:300-301) with one key live. The model's `Growable()` precondition excludes that step.
- rebuild reverses the iteration order: it walks `poses_` into `hashes` and then pushes each slot of `hashes` to the front (HashMaps.HashMap.Rebuild).
- clear empties only the live slots. Tombstones stay Deleted, and `capacity_` drops only by the number of live pairs (HashMaps.HashMap.Clear).

## Findings

| source | as written | input that shows it | evidently intended | confidence | as-written member | corrected member |
|---|---|---|---|---|---|---|
| HashMap.h:267-268 | `clear` also calls `clear()` on `poses_iterators_` and `values_iterators_`, leaving both vectors empty while the table keeps its size | `clear()` followed by `insert` of any key: insert writes `poses_iterators_[h]` and `values_iterators_[h]` (HashMap.h:160-161) with h < size but both vectors of length 0 | empty only the lists `poses_` and `values_`, and keep one locator per slot as the constructor and rebuild do (HashMap.h:117-118, 303-304) | high; not executed | HashMaps.HashMap.ClearAsWritten | HashMaps.HashMap.Clear |
