# hash_map.h in Dafny

This project models `HashMap<Key, Value, Hash>` from `hash_map.h`. It is an
open-addressing hash table with linear probing. The table keeps two
parallel arrays of `2^log_capacity_` slots:

- a metadata array with one byte per slot: empty (0), deleted (0xFF), or
  a 7-bit fingerprint of the key's hash plus one;
- a data array of key/value pairs.

It also keeps two counters, `size_` and `full_`.

- A probe cursor, `Metadata::Rider<mode>`, walks the metadata array
  cyclically from a hash. It stops at the first byte whose category is in
  its mode.
- `find_generic` and `find_allow_deleted_generic` are built on riders.
  `insert`, `erase`, `operator[]` and `at` are built on those two probes.
- `IteratorBase` is a rider that stops at full slots. It becomes the end
  iterator when a step wraps around.
- `resize` rebuilds the table by iterating over it into a fresh table.
  Then it swaps the new table's fields in.

The modules follow the parts of the header. Each module imports the
modules it uses.

- `Wrappers` (metadata.dfy): the `Option` type that `Metadata.Stop` returns.
- `Metadata` (metadata.dfy): `u8` and `u64`, the sentinel bytes, the
  fingerprint, and the categories a rider can stop at.
- `Probing` (probing.dfy): powers of two, the masked step
  `(i + 1) & mask`, and probe positions `ProbeSlot(home, d, cap)` along a
  cyclic path.
- `Riders` (riders.dfy): class `Rider`. Its `Next` is the do-while loop of
  `next()`, proved against the probe path and ended by a wanted byte that
  must exist.
- `Slots` (slots.dfy): the arrays seen as sequences, including:
  - the representation invariant `Inv`, which ties the arrays to a ghost
    map `Contents` through a ghost slot index (every key sits in a full slot
    holding its fingerprint, with no empty byte on its probe path before it);
  - the counts of empty, deleted and full bytes;
  - the list of full slots in index order, which is what iteration walks;
  - `InsertAll`, the first-wins map that a sequence of `insert` calls builds.
- `Iterators` (iterators.dfy): class `IteratorBase`.
- `HashMaps` (hash_map.dfy): class `HashMap`, its members, and the lemmas
  for the two find loops.

Two predicates on `HashMap` carry the table's meaning:

- `Valid()` holds after every operation except `FullClear`. It gives the
  sizes of the arrays and `Inv`, and says that `size_` equals both the size
  of the map and the number of full bytes.
- `Sound()` adds two facts: the non-empty bytes are at most `full_`, and
  they fill at most half the table. Every operation except the as-written
  copy constructor and `FullClear` preserves `Sound()`. `Sound()` is what
  guarantees an empty byte for a probe that misses.
- `FullClear` is the exception to both, as in the source. It releases both
  arrays and sets the log-capacity to 0, so the table is unusable until
  `Allocate` or a copy refills it. Both callers inside the header, the copy
  loop and `operator=`, refill it straight away; a user who calls the public
  `full_clear()` is left with an unusable table.

The probe methods require that the key is present or that an empty byte
exists (`HasEmpty`). This is exactly what makes the source's unbounded
loops stop. `SoundHasEmpty` derives it from `Sound()`.

The hasher is a parameter of type `K -> u64`. Key equality is Dafny
equality. Arrays that the source allocates with `new[]` or releases with
`delete[]` are fresh Dafny arrays. A null array is an empty one.

## Model

| member | source | states |
|---|---|---|
| Metadata.GetEmpty | hash_map.h:139 | the byte of a slot that has never been written is 0, distinct from the tombstone |
| Metadata.GetDeleted | hash_map.h:143 | the tombstone is -1 converted to an unsigned byte, i.e. 0xFF |
| Metadata.GetHash | hash_map.h:141 | a fingerprint lies in 1..128, so it is never the empty or the deleted byte |
| Metadata.FingerprintLowBits | hash_map.h:141 | two hashes share a fingerprint exactly when their seven low bits agree |
| Metadata.LowBitsAreRemainder | hash_map.h:141 | on a 64-bit value, `& 0x7F` is the remainder modulo 128, which the model uses for it |
| Metadata.Stop | hash_map.h:180-200 | the switch of `next()`: it stops exactly at a byte whose category is in the mode, and the category reported lies in the mode and describes the byte (a hash stop sees the rider's fingerprint) |
| Probing.MaskOf | hash_map.h:289 | `(1 << L) - 1` for L <= 30 is a mask of the table, and its capacity is at most 2^30 |
| Probing.NextIndex | hash_map.h:179 | `(current + 1) & mask`, for a mask `2^L - 1`, stays within the mask |
| Probing.FirstIndex | hash_map.h:150 | a rider starts at `hash - 1` with 64-bit wrap-around, and its first step `(current + 1) & mask` lands on `hash & mask`, also when hash is 0 |
| Probing.NextIndexAfterSlot | hash_map.h:179 | from a slot of the table, the step goes to the cyclic successor |
| Probing.ProbeSlotIsMod | hash_map.h:179 | the d-th slot of a probe path from home is `(home + d) mod capacity` |
| Probing.Dist | hash_map.h:179 | every slot is reached from home after fewer steps than the capacity, and after none only when it is home |
| Riders.Rider.constructor | hash_map.h:148-150 | the rider keeps the array and mask, takes `get_hash(hash)` as its fingerprint and starts at `hash - 1`; its next slot is the home slot `hash & mask` |
| Riders.Rider.Next | hash_map.h:176-203 | `next()` returns the first slot along the path from the upcoming slot whose byte is wanted by the mode, with its category; every slot skipped is unwanted; the next call starts at the cyclic successor |
| Riders.Rider.GetLogCapacity | hash_map.h:163-168 | the loop returns the least L with `2^L` above the mask, which is the log-capacity the mask came from |
| Riders.Rider.Copy | hash_map.h:25-31 | the implicit copy of a rider has the same array, mask, fingerprint and position, and compares equal to the original |
| Riders.Rider.Same | hash_map.h:152-156 | `operator==` compares the array, the current position and the mask, not the fingerprint; `SameRidersAgree` gives it its content |
| Riders.SameRidersAgree | hash_map.h:152-156 | riders that compare equal continue at the same slot |
| Iterators.IteratorBase.constructor | hash_map.h:209-214 | a non-end iterator advances to the first full slot at or cyclically after `index & mask` |
| Iterators.IteratorBase.Copy | hash_map.h:49-53 | the implicit copy of an iterator, made when one is passed by value, has a fresh rider at the same slot over the same arrays, compares equal, and has the same walk |
| Iterators.IteratorBase.Remaining | hash_map.h:209-214 | the slots still to be walked are empty exactly for an end iterator, and otherwise start at the current slot |
| Iterators.IteratorBase.Current | hash_map.h:216-219 | `operator*` is the first entry of the remaining walk |
| Iterators.IteratorBase.Increment | hash_map.h:226-234 | `++` drops exactly the first slot of the remaining walk of full slots in increasing index order; it becomes the end iterator exactly when no full slot follows |
| Iterators.IteratorBase.GetLogCapacity | hash_map.h:257-260 | the log-capacity of the rider's mask |
| Iterators.IteratorBase.Span | hash_map.h:243-250 | the number of `++` steps from this iterator to r is zero exactly when the two compare equal |
| Iterators.Advance | hash_map.h:343 | one `++l` of a loop `l != r` removes the first entry of the range [l, r) and brings l one step closer to r |
| Iterators.CopyReaches | hash_map.h:335 | a by-value copy of l reaches whatever l reaches, over the same range of entries |
| Iterators.PassByValue | hash_map.h:335 | passing l by value gives the callee a fresh iterator over the same arrays and the same range [l, r) |
| Iterators.IteratorBase.Equal | hash_map.h:243-250 | `operator==`: two end iterators are equal, an end and a non-end one are not, and two non-end ones are equal when their riders and data arrays are; `EndsEqual`, `EqualIteratorsAgree` and `EqualReaches` give it its content |
| Iterators.EndsEqual | hash_map.h:243-250 | any two end iterators compare equal |
| Iterators.EqualIteratorsAgree | hash_map.h:243-250 | iterators that compare equal walk the same slots and entries |
| Iterators.EqualReaches | hash_map.h:243-250 | an iterator equal to r reaches r with nothing in between |
| Slots.InsertKeepsInv | hash_map.h:264-268 | writing an absent key into a non-full slot with a clear probe path before it keeps the invariant and adds the key to the map |
| Slots.AssignKeepsInv | hash_map.h:554 | overwriting the value in a present key's slot keeps the invariant and maps exactly that key to the new value |
| Slots.EraseKeepsInv | hash_map.h:276-278 | turning a key's slot into a tombstone keeps the invariant and removes exactly that key |
| Slots.SomeEmpty | hash_map.h:287-302 | when fewer bytes than slots are non-empty, some byte is empty, so a probe for a missing key stops |
| Slots.NoEmpty | hash_map.h:287-302 | when every byte is non-empty, no byte can stop a probe for a missing key |
| Slots.CountAfterFill | hash_map.h:267 | filling a non-full slot adds one full byte, and adds a non-empty byte only when the slot was empty |
| Slots.CountAfterErase | hash_map.h:278 | a tombstone removes one full byte and leaves the non-empty count unchanged |
| Slots.FullFromIncreasing | hash_map.h:226-234 | the walk of full slots lists slot indices in strictly increasing order |
| Slots.FullFromMembers | hash_map.h:226-234 | the walk from slot i lists exactly the full slots at or after i |
| Slots.FullFromCount | hash_map.h:226-234 | the walk from slot i has as many slots as there are full bytes at or after i |
| Slots.NextFull | hash_map.h:226-234 | the rider step of `++` from a full slot reaches the next full slot of the walk, or wraps around to a slot at or before it when none follows |
| Slots.InsertAllKeys | hash_map.h:343-345 | the keys after a sequence of inserts are the keys present before and the keys inserted |
| Slots.InsertAllFirstWins | hash_map.h:343-345 | a key absent at first gets the value of its first occurrence in the sequence |
| Slots.InsertAllKeeps | hash_map.h:532-537 | a present key keeps its value whatever is inserted after it |
| Slots.InsertAllSnoc | hash_map.h:343-345 | one more `insert(*l)` at the end of the loop inserts that entry last |
| Slots.EntriesFrom | hash_map.h:343-345 | inserting the entries of the full slots from i on, in slot order, adds exactly the entries indexed at or after i |
| Slots.AllEntries | hash_map.h:350 | inserting every entry of the table in iteration order rebuilds its map |
| HashMaps.HashMap.SlotOf | hash_map.h:264-268 | each key of the map sits in a full slot that holds the key and its value |
| HashMaps.HashMap.SoundHasEmpty | hash_map.h:270-272 | a table whose non-empty bytes fill at most half of it has an empty byte |
| HashMaps.HashMap.constructor | hash_map.h:357-363 | default construction gives an empty map with two empty slots and both counters at 0 |
| HashMaps.HashMap.CopySlots | hash_map.h:369-374 | the element-by-element loop yields fresh arrays equal to the originals |
| HashMaps.HashMap.CopyAsWritten | hash_map.h:366-375 | the copy has the same map, size, capacity and bytes, but `full_` is 0 |
| HashMaps.HashMap.Copy | hash_map.h:366-375 | the corrected copy constructor, which carries `full_` over as `operator=` does, has the same map and stays Sound when the original is |
| HashMaps.HashMap.FromRange | hash_map.h:390-394 | the range constructor holds the first-wins map of [l, r), with no tombstones and `full_ == size_`, at 2^log slots unless the range overflows half of them; the caller's iterators are left as they were, since they are passed by value |
| HashMaps.HashMap.FromRangeSameCapacity | hash_map.h:386-388 | as above, with `l.get_log_capacity()`, and the caller's iterators are left as they were |
| HashMaps.HashMap.FromList | hash_map.h:406-412 | the initializer-list constructor uses one more than the least L with `2^L >= n`: the list fills at most half of the slots, the capacity is below four times the length, and the map is the list's first-wins map |
| HashMaps.HashMap.CopyFromList | hash_map.h:335-346 | `copy_from_iterators_generic` over a list leaves the list's first-wins map, with no tombstones, at the requested capacity when the list fits half of it |
| HashMaps.HashMap.FullClear | hash_map.h:579-589 | both counters and the log-capacity become 0 and both arrays are released to length 0, which `Valid()` rejects (log-capacity 0 means one slot) until the table is refilled |
| HashMaps.HashMap.Allocate | hash_map.h:337-341 | after `full_clear` the table has 2^log empty slots and represents the empty map |
| HashMaps.HashMap.InsertNext | hash_map.h:344 | one `insert(*l)` of the copy loop extends the first-wins map by the entry, keeps the table free of tombstones, and grows the table only when the entries overflow half of it |
| HashMaps.HashMap.CopyFromIterators | hash_map.h:333-346 | the table ends with the first-wins map of [l, r), no tombstones, `full_ == size_`, and 2^log slots unless the range overflows half of them; the loop advances a copy of l, so the caller's iterators do not move |
| HashMaps.HashMap.BeginCopy | hash_map.h:335-341 | the loop starts with its own fresh copy of l, over the entries of the caller's [l, r), and a cleared table of 2^log empty slots |
| HashMaps.HashMap.OpenTable | hash_map.h:337-341 | `full_clear` and the allocation leave 2^log empty slots, the empty map, and the whole range [l, r) still to insert |
| HashMaps.HashMap.Reset | hash_map.h:337-341 | `full_clear` followed by the allocation leaves fresh arrays holding the empty map with no full and no deleted slot, the hash function kept, and exactly 2^log slots whenever the range to come fits in half of them |
| HashMaps.HashMap.InsertCurrent | hash_map.h:344 | `insert(*l)` adds the entry under l to the first-wins map and leaves the iterators alone |
| HashMaps.HashMap.AdvanceCopy | hash_map.h:343 | `++l` consumes the entry just inserted and leaves the table alone |
| HashMaps.HashMap.CopyStep | hash_map.h:343-345 | one pass of the loop consumes one entry of [l, r) and inserts it |
| HashMaps.HashMap.Walk | hash_map.h:350 | the `begin(), end()` pair resize passes is a valid range over the table whose entries, inserted in order, rebuild the map, `size_` of them |
| HashMaps.HashMap.Rebuilt | hash_map.h:350 | the temporary built from `begin()`..`end()` holds the same map and size at the new capacity, with no tombstones, so its non-empty count equals `size_` |
| HashMaps.HashMap.Resize | hash_map.h:348-355 | resize keeps the map, `size_`, and `full_` as it was, sets the capacity to 2^L, and leaves no tombstones |
| HashMaps.HashMap.SwapIn | hash_map.h:351-354 | the swaps take `size_`, `log_capacity_` and both arrays from the temporary, so the table represents the temporary's map; `full_` is not swapped |
| HashMaps.HashMap.FindGeneric | hash_map.h:286-302 | it reports true exactly when the key is in the map, and then the key's own slot with its fingerprint and entry; otherwise an empty slot with no empty byte before it on the key's probe path |
| HashMaps.HashMap.ProbeTarget | hash_map.h:287-302 | the slot that ends every probe for the key: its own slot, reachable without crossing an empty byte, or some empty slot |
| HashMaps.HashMap.FindAllowDeletedGeneric | hash_map.h:304-331 | it reports true exactly when the key is in the map, and then the key's slot; otherwise the first slot on the probe path that is not full, i.e. the first tombstone if one comes before the empty byte that ends the path |
| HashMaps.HashMap.InsertGeneric | hash_map.h:263-273 | the entry is written at the given slot and both counters grow by 1; the table doubles exactly when `full_` exceeds half of the old capacity; the map gains the key; Sound is kept |
| HashMaps.HashMap.Place | hash_map.h:265-268 | the writes and counter bumps of insert_generic, slot by slot |
| HashMaps.HashMap.EraseGeneric | hash_map.h:275-284 | the slot becomes a tombstone, `size_` drops by 1, `full_` is unchanged; the table halves exactly when `size_` drops below an eighth of the old capacity, which never takes the log-capacity below 2; Sound is kept |
| HashMaps.HashMap.Insert | hash_map.h:531-537 | a present key leaves the whole table unchanged; an absent key is added with both counters raised by 1; Sound is kept |
| HashMaps.HashMap.Erase | hash_map.h:539-545 | an absent key leaves the table unchanged; a present key is removed, its byte becomes the tombstone unless the table shrinks, `size_` drops by 1 and `full_` stays; Sound is kept |
| HashMaps.HashMap.Subscript | hash_map.h:547-555 | an absent key is inserted with `ValueType()`, a present one keeps its value; the slot returned after the second probe holds the key and its value, also after a resize; a present key leaves the whole table unchanged, and an absent one raises both counters by 1 and doubles the table exactly when `full_` exceeds half of it, as `insert` does |
| HashMaps.HashMap.SetValue | hash_map.h:554 | `t[key] = v` through the returned reference: the map now sends key to v, the bytes, counters and capacity are unchanged, the data array differs only at that slot, and Valid and Sound are kept |
| HashMaps.HashMap.Clear | hash_map.h:566-577 | back to two empty slots, the empty map and both counters at 0 |
| HashMaps.HashMap.Assign | hash_map.h:421-445 | nothing changes when both arrays are already shared; otherwise every field, `full_` included, and both arrays are copied, so the map is the other's and Sound carries over |
| HashMaps.HashMap.AssignFields | hash_map.h:426-438 | after `full_clear`, every field, `full_` included, is the other's, the arrays are fresh copies slot by slot, and the table represents the other's map |
| HashMaps.HashMap.Size | hash_map.h:460-463 | `size()` is the number of keys in the map |
| HashMaps.HashMap.Empty | hash_map.h:465-468 | `empty()` holds exactly when the map is empty |
| HashMaps.HashMap.At | hash_map.h:557-564 | `at` yields the key's value, and out_of_range exactly on a miss |
| HashMaps.HashMap.End | hash_map.h:495-499 | `end()` is an end iterator over the table's arrays |
| HashMaps.HashMap.Begin | hash_map.h:477-484 | `begin()` walks all full slots from slot 0, and is the end iterator when `size_ == 0` |
| HashMaps.HashMap.Find | hash_map.h:507-516 | `find` is the end iterator exactly on a miss; otherwise it dereferences to the key's entry and walks on from the key's slot |
| HashMaps.FindStep | hash_map.h:290-301 | one `next()` of find_generic: an empty stop proves the key absent with a clear path, a hash stop carries the fingerprint, and a stop at another key leaves the path open before its end |
| HashMaps.FindAllowDeletedStep | hash_map.h:310-330 | one `next()` of find_allow_deleted_generic: the flags keep track of the first tombstone, and an empty stop reports the first non-full slot of the path |
| HashMaps.TakeDropStep | hash_map.h:343-345 | bookkeeping for one turn of the copy loop: the entry under l is the first unconsumed one, and after it the consumed prefix is one longer |
| HashMaps.IterationVisitsEachEntry | hash_map.h:226-234 | the walk from `begin()` visits every full slot once, in strictly increasing index order, as many as `size_`, and inserting what it visits rebuilds the map |
| HashMaps.CopyAsWrittenThenFill | hash_map.h:366-375 | copying a four-slot table that holds two keys, then inserting two new keys, fills every byte with no growth, and the copy is not Sound |
| HashMaps.AssignThenAt | hash_map.h:548-564 | `t[key] = v` followed by `t.at(key)` yields v, whether key was present before or not, and the map sends key to v |
| HashMaps.CopyThenFill | hash_map.h:366-375 | with `full_` copied, the same inserts grow the table, which keeps an empty byte and stays Sound |

## Left out

- Allocation with `new[]`, `memset` and `delete[]`, and the destructor: arrays are fresh Dafny arrays, a null array is an empty one, and releasing is dropping the reference.
- Probing.NextIndex: the model writes `x & mask` as `x mod (mask + 1)`. Its precondition restricts the mask to `2^L - 1` with L <= 30, the masks the table builds, and for those the two agree. The bit-level identity is proved only for the fingerprint mask 0x7F (`Metadata.LowBitsAreRemainder`), not for every L.
- The `int`-width `1 << log_capacity_`: the log-capacity is bounded by 30, the widest for which that shift is defined.
- Pointer identity in rider and iterator equality and in the self-assignment test of `operator=`: they are Dafny array reference equality.
- The `reinterpret_cast` to pairs with constant keys, and the duplicate `const_iterator` and `iterator` overloads of `begin`, `end`, `find` and the range constructors: one version of each is modelled.
- The commented-out move constructor and move assignment: they are not live code.
- The `assert(false)` branch of `operator=` for a hasher that cannot be copied: it is a compile-time branch, and the model's hasher is a value.
- `std::hash` and the concrete hasher: the hasher is an arbitrary function `K -> u64`.
- `hash_function()`, `operator->`, `get_current_hash()`, `operator!=` and postfix `++`: they are accessors, or negations and copies of modelled members.
- `std::out_of_range`: it is the `OutOfRange` value of `At`.
- HashMaps.HashMap.Subscript: it returns the slot of the value rather than a reference to it. A write through that reference is `HashMap.SetValue` on the returned slot; other uses of the reference, such as holding it across a later insert, are not modelled.
- HashMaps.HashMap.Insert: there is no ensures that `full_ <= 2^log_capacity_ / 2` after an insert, because the code does not keep that bound. `resize` does not reset `full_`. A table of 16 slots with `full_` at 8 that shrinks to 8 slots keeps `full_` at 8. The next insert raises it to 9 and grows the table back to 16 slots, and 9 > 16 / 2. The model proves the bound for the non-empty bytes that `full_` stands for: `Sound()` keeps them at most `full_` and at most half the table.
- HashMaps.HashMap.EraseGeneric: there is no ensures that `size_ >= capacity / 8` after every erase, because the code does not keep that bound either. Each erase halves the table at most once. A table that `resize` built larger than its size needs can therefore stay below an eighth after one erase. The model states what one call does: it halves exactly when `size_` drops below an eighth of the old capacity.
- The log-capacity never drops below 1: this is not an invariant of the model, because the range constructors accept a log-capacity of 0 (one slot). Erase alone never takes it below 2.
- The probe methods require that the key is present or that an empty byte exists. Without one, the source's loops do not stop; `CopyAsWrittenThenFill` reaches such a table.

## Findings

| source | as written | input that shows it | evidently intended | confidence | as-written member | corrected member |
|---|---|---|---|---|---|---|
| hash_map.h:366-375 | the copy constructor copies `size_` and `log_capacity_` but leaves `full_` at 0 | copy a table of 4 slots holding 2 keys, then insert 2 new keys: `full_` reaches only 2, so neither insert grows the table, every byte is full, and a later `find` of a missing key never stops | copy `full_` as `operator=` does (hash_map.h:432) | not executed | HashMaps.CopyAsWrittenThenFill | HashMaps.CopyThenFill |
