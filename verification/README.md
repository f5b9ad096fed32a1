# A verified model of a minimal open-addressing `HashMap<V>`

The crate is a small hash table. Its keys are `usize` values and its hash
function is `key % capacity`. It keeps one buffer of `capacity` slots, and
`capacity` is 0 or a power of two. Each slot is EMPTY or TAKEN; a TAKEN slot
holds a key and a value. Collisions are resolved by linear probing with step
one: the probe sequence for a hash `h` visits `(h + idx) % capacity` for
`idx` in `0..capacity`. `insert` grows the buffer through `reserve` and
`resize` to the next power of two that holds one more item. `remove` empties
the slot it finds and leaves no tombstone.

The model has four modules:

- `PowerOfTwo` (`pow2.dfy`) defines powers of two and `NextPow2`, which
  behaves like `usize::next_power_of_two`: it maps 0 to 1, and it maps every
  other `n` to the least power of two that is at least `n`.
- `Probing` (`probing.dfy`) treats the buffer as a value of type
  `seq<Slot<V>>`. It defines:
  - the probe sequence, `ProbeIndex` and its inverse `ProbeOffset`;
  - the scan of `find`, as `FindIn`;
  - the scan of `find_insert_slot`, as `FirstEmptyIn`;
  - `get`, as `LookupIn`;
  - the buffer `remove` leaves behind, as `RemoveIn`;
  - the stored pairs, as the multiset `Entries`.

  It also states the invariant under which `find` is complete, `Clean`: keys
  are unique, and every TAKEN slot is reachable from its key's hash through
  TAKEN slots only (`Chained`).
- `HashTable` (`hashmap.dfy`) is the table itself. `HashMap<V>` is a class
  whose fields are `slots: array<Slot<V>>`, `items` and `capacity`, and its
  methods update them in place. Every method is proved against the
  `Probing` functions: `Find` returns `FindIn(slots[..], key)`, `Remove`
  leaves `RemoveIn(old(slots[..]), key)`, and so on. `Valid()` is the
  invariant every operation keeps:
  - the buffer length is the capacity;
  - the capacity is 0 or a power of two;
  - `items` counts the TAKEN slots.

  `Clean` is kept by `new`, `with_capacity`, `insert`, `reserve` and
  `resize`. It is not kept by `remove`.
- `Scenarios` (`scenarios.dfy`) replays the crate's deterministic tests
  against the model. It also contains a history that shows the behaviour of
  `remove` described below.

### `remove` and probe chains

`remove` sets the slot back to EMPTY. A later `find` for a key that had
probed past that slot stops at the new EMPTY slot and reports the key
missing, even though its pair is still stored. The model keeps this
behaviour as written; it does not fix it:

- `Remove` keeps `Valid()`. It does not promise `Clean`.
- `Probing.RemoveInEntries` shows that `remove` drops exactly the pair `get`
  returned. With unique keys, the removed key is then gone.
- `Scenarios.RemoveCanHideKey` shows, on a clean buffer of four slots
  holding keys 0 and 4 (both hash to 0), that removing 0 hides 4 from `get`
  and breaks `Chained`.
- `Scenarios.RemoveThenReinsert` runs this history on the table: insert 0,
  insert 4, remove 0, insert 4. The second insert of 4 returns `None` and
  stores key 4 a second time. The final buffer is
  `[Taken(4, 0.3), Taken(4, 0.2), Empty, Empty]` and `len()` is 2.

## Model

| member | source | states |
|---|---|---|
| PowerOfTwo.NextPow2 | src/lib.rs:36 | the result is a power of two, at least `n`, and less than `2n` unless it is 1 (so 0 maps to 1) |
| PowerOfTwo.NextPow2IsLeast | src/lib.rs:36 | no power of two that is at least `n` lies below `NextPow2(n)` |
| PowerOfTwo.NextPow2OfPow2 | src/lib.rs:36 | a power of two is left unchanged |
| PowerOfTwo.NextPow2OfTwelve | src/lib.rs:235-237 | `next_power_of_two(12)` is 16, the capacity `with_capacity(12)` allocates |
| Probing.ProbeIndex | src/lib.rs:57-60 | every probe index lies below the capacity |
| Probing.ProbeOffset | src/lib.rs:57-60 | every slot is reached by some probe step below the capacity, from any hash |
| Probing.ProbeOffsetOfIndex | src/lib.rs:57-60 | `ProbeOffset` inverts `ProbeIndex` on the first `capacity` steps |
| Probing.ProbeIndexInjective | src/lib.rs:57-60 | the first `capacity` probe steps visit pairwise distinct slots, so each slot is visited once |
| Probing.FindFrom | src/lib.rs:70-82 | the scan from step `d` returns only a TAKEN slot holding `key`, inside the buffer |
| Probing.FindIn | src/lib.rs:62-83 | `find` returns only a TAKEN slot holding `key`; it returns nothing on a zero-capacity table |
| Probing.FindSkips | src/lib.rs:70-80 | probe steps over TAKEN slots with other keys do not change the scan's outcome |
| Probing.FindStopsAtEmpty | src/lib.rs:73-75 | `find` gives up at the first EMPTY slot of the probe sequence, even when the key is stored further on |
| Probing.FindStopsAtKey | src/lib.rs:77-79 | `find` returns the first slot of the probe sequence holding the key when no EMPTY slot comes before it |
| Probing.MissSkipsKey | src/lib.rs:70-80 | a scan that missed the key went over no slot holding it |
| Probing.FullMissAbsent | src/lib.rs:62-83 | when every slot is TAKEN and `find` misses a key, no pair for that key is stored |
| Probing.FullMissRehashed | src/lib.rs:145-148 | a key missed in a full buffer is missed in any buffer holding the same pairs, such as the one `resize` builds |
| Probing.FreshInsertFound | src/lib.rs:110-113 | for a key `find` misses in a buffer with an EMPTY slot, `find_insert_slot` succeeds and the pair written there is what `get` returns, without the clean invariant |
| Probing.FindComplete | src/lib.rs:62-83 | in a clean buffer `find` locates every stored key, at the slot that holds it |
| Probing.LookupIn | src/lib.rs:99-105 | `get` returns a value exactly when `find` locates a slot, and the value is that slot's |
| Probing.LookupMatchesEntries | src/lib.rs:99-101 | in a clean buffer `get(key)` is `Some(v)` if and only if the pair `(key, v)` is stored |
| Probing.LookupAgrees | src/lib.rs:99-101 | two clean buffers that store the same pairs for a key answer `get` for it alike |
| Probing.LookupAbsent | src/lib.rs:99-101 | `get` returns nothing for a key with no stored pair |
| Probing.AllEmptyIsClean | src/lib.rs:36-38 | the zeroed (all-EMPTY) buffer holds no pair and is clean |
| Probing.FirstEmptyFrom | src/lib.rs:88-94 | the slot found is EMPTY, and every probe step before it from step `d` is TAKEN; finding none means every such step is TAKEN |
| Probing.FirstEmptyIn | src/lib.rs:85-97 | `find_insert_slot` returns the first EMPTY slot of the probe sequence, and reaches `unreachable!()` if and only if every slot is TAKEN |
| Probing.FindFromIgnoresValues | src/lib.rs:107-109 | replacing the value of a TAKEN slot leaves every scan unchanged |
| Probing.LookupAfterReplace | src/lib.rs:107-109 | after the value of the found slot is replaced, `get` returns the new value |
| Probing.ReplaceKeepsChained | src/lib.rs:107-109 | replacing a value keeps every probe chain |
| Probing.ReplaceSlot | src/lib.rs:107-109 | replacing a found value trades the old pair for the new one, keeps the entry count, makes `get` return the new value and keeps a clean buffer clean |
| Probing.PutKeepsClean | src/lib.rs:107-115 | after either branch of `insert` on a clean buffer, the buffer is clean, `get(key)` is the new value and every other key is answered as before |
| Probing.FillKeepsChained | src/lib.rs:117-128 | writing a pair into the first EMPTY slot of its key's probe sequence keeps every probe chain |
| Probing.FillSlot | src/lib.rs:117-131 | that write adds exactly the pair, one entry more (still at most the capacity), and keeps the probe chains |
| Probing.ClearSlot | src/lib.rs:134-140 | emptying a TAKEN slot drops exactly its pair; with unique keys it leaves no pair for that key and `get` then finds nothing |
| Probing.RemoveIn | src/lib.rs:134-138 | the buffer `remove` leaves behind has the length of the old one |
| Probing.RemoveInEntries | src/lib.rs:134-143 | `remove` changes nothing when `get` finds nothing; otherwise it drops exactly the pair `get` returns, one entry fewer; with unique keys the keys stay unique and the key is gone |
| Probing.MoveSlot | src/lib.rs:164-168 | moving a TAKEN old slot into the first EMPTY slot of its probe sequence in the new buffer moves its pair and nothing else, and keeps the new buffer chained |
| HashTable.Swap | src/lib.rs:167 | the two slots change places and nothing else in either buffer changes |
| HashTable.HashMap.constructor | src/lib.rs:26-33 | `new`: capacity 0, no items, nothing stored, clean, and `get` finds nothing for any key |
| HashTable.HashMap.WithCapacity | src/lib.rs:35-54 | a fresh all-EMPTY buffer of `NextPow2(n)` slots, no items, clean, and `get` finds nothing |
| HashTable.HashMap.Capacity | src/lib.rs:176-178 | the capacity is the buffer length, 0 or a power of two |
| HashTable.HashMap.Len | src/lib.rs:180-182 | the length is the number of stored pairs, at most the capacity |
| HashTable.HashMap.Find | src/lib.rs:62-83 | the loop returns `FindIn` of the buffer: a TAKEN slot holding the key, or nothing |
| HashTable.HashMap.FindInsertSlot | src/lib.rs:85-97 | the loop returns the first EMPTY slot of the probe sequence; with fewer items than slots, `unreachable!()` is never reached |
| HashTable.HashMap.Get | src/lib.rs:99-105 | `get` returns `LookupIn` of the buffer; in a clean table it returns `Some(v)` exactly when `(key, v)` is stored |
| HashTable.HashMap.InsertInner | src/lib.rs:117-132 | writes the pair into the first EMPTY slot of the key's probe sequence and changes no other slot; one more item; the pair is added to the contents; probe chains are kept |
| HashTable.HashMap.Reserve | src/lib.rs:145-149 | afterwards `items + additional <= capacity`; the buffer is untouched unless `items + additional` exceeded the capacity, in which case it is fresh with `NextPow2(items + additional)` slots; contents are kept |
| HashTable.HashMap.MoveTaken | src/lib.rs:164-169 | one TAKEN old slot moves into the new table and becomes EMPTY in the old buffer; stored pairs across both buffers are preserved |
| HashTable.HashMap.MoveIn | src/lib.rs:162-169 | one step of the resize loop: the old slot ends EMPTY and stored pairs across both buffers are preserved |
| HashTable.HashMap.Absorb | src/lib.rs:161-170 | after the resize loop the new table holds its own pairs plus every pair of the old buffer, and the old buffer is all EMPTY |
| HashTable.HashMap.Resize | src/lib.rs:151-174 | requires `new_size >= items`; the new buffer has `NextPow2(new_size)` slots, the same items and the same multiset of pairs, and is chained; the old buffer, dropped with the swapped-out table, is left with no TAKEN slot and no pair |
| HashTable.HashMap.ReplaceValue | src/lib.rs:108-109 | the found slot's value is replaced and the old one returned; no other slot changes; the old pair is traded for the new one; `get` returns the new value; a clean table stays clean |
| HashTable.HashMap.InsertMissing | src/lib.rs:110-113 | one more item and the pair added to the contents; `get` then returns the new value, in any valid table. Without growth the pair goes to the first EMPTY slot of the old buffer and nothing else changes. When the table was full, the buffer is a fresh chained one of `NextPow2(items + 1)` slots: the rehashed old pairs with the new pair in the first EMPTY slot of its probe sequence |
| HashTable.HashMap.Insert | src/lib.rs:107-115 | returns the old value of the key, and `get` then returns the new value in any valid table. For an existing key it replaces the value in place with nothing else changed. For a new key it adds one item in the first EMPTY slot of its probe sequence; when the table was full, that slot is in the fresh chained buffer holding the rehashed old pairs. A clean table stays clean and other keys are answered as before |
| HashTable.HashMap.Remove | src/lib.rs:134-143 | returns what `get` returned, leaves the buffer `RemoveIn` describes (the found slot EMPTY, no tombstone), decrements `items` only when something was removed, and keeps `Valid` |
| HashTable.HashMap.Drop | src/lib.rs:185-205 | needs only a buffer of `capacity` slots, so it also covers the table `resize` drops with a stale item count; with `needs_drop` the values of exactly the TAKEN slots are released, one per stored pair (as many as `len()` in a valid table); otherwise nothing is |
| Scenarios.EmptyHashmap | src/lib.rs:219-223 | a new table has capacity 0 and `get(0)` is `None` |
| Scenarios.ResizeOnInsert | src/lib.rs:226-232 | a one-slot table grows to two slots and both keys are found with their values |
| Scenarios.CapacityRoundsUp | src/lib.rs:235-240 | `with_capacity(12)` has capacity 16, still 16 after one insert |
| Scenarios.Collision | src/lib.rs:243-250 | keys 2 and 4 collide in two slots; both are found, 4 in the slot after 2 |
| Scenarios.DoubleInsert | src/lib.rs:253-259 | inserting a stored key returns the old value, `get` returns the new one, and the length stays 1 |
| Scenarios.ReinsertScans | src/lib.rs:70-94 | the results of `find` and `find_insert_slot` on each buffer of the history insert 0, insert 4, remove 0, insert 4 in four slots |
| Scenarios.RemoveThenReinsert | src/lib.rs:134-143 | that history leaves key 4 stored twice: the second insert returns `None`, `len()` is 2 |
| Scenarios.HiddenKeyBufferClean | src/lib.rs:62-83 | the buffer after insert 0, insert 4 in four slots is clean and `get(4)` finds the second pair |
| Scenarios.RemoveCanHideKey | src/lib.rs:134-143 | removing key 0 from that buffer leaves the pair of 4 stored, but `get(4)` finds nothing and the buffer is no longer chained |

## Left out

- Raw memory is not modelled: `Layout`, `alloc_zeroed`, `dealloc`, `handle_alloc_error`, `NonNull` and `PhantomData`. The buffer is a Dafny array, and a fresh buffer is all EMPTY, as zeroed memory is.
- The value an EMPTY slot holds is not modelled: it is zeroed memory that is never read, and `remove` leaves a zeroed value and a stale key there. The model's `Empty` carries neither.
- `usize` arithmetic is not modelled: keys and sizes are unbounded naturals. So the overflow of `additional + self.items`, of `hash + idx` and of `next_power_of_two` near `usize::MAX` is not covered.
- The `assert!` of `resize` is a precondition of `Resize` (`newSize >= items`); the panic path is not modelled. Its only caller in the crate, `reserve`, always meets it; since `resize` is public, a caller outside the crate can still reach the panic, which the precondition excludes.
- `unreachable!()` in `find_insert_slot` is excluded by the precondition `items < capacity` of `FindInsertSlot`. `FirstEmptyIn` shows it is reached only when every slot is TAKEN.
- `get_mut` is not modelled apart from `get`: both return the value of the slot `find` locates, and the borrow kind makes no difference to the values.
- `Drop`: `std::mem::needs_drop::<V>()` is a parameter, and running a value's destructor (`drop_in_place`) is modelled as returning the released pairs. `dealloc` is not modelled.
- `unsafe impl Send` is not modelled: there is no concurrency in the model.
- The randomised test `dont_die_please` and the two benchmarks are not replayed: they depend on random values. What the randomised test checks (every inserted distinct key is found with its value) follows from the `get` clauses of `Insert`.
- The tests use `f32` values; the scenarios use `real` literals, because only equality of the stored values matters.
- A `remove` that keeps probe chains (tombstones or a backward shift) is not modelled: the model keeps the crate's behaviour as written.
