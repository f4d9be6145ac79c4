# tp3 dictionary: a verified model

`tp3.c` implements a dictionary from C strings to opaque `void *` values. It is
an open-addressed hash table with these properties:

- Starts with 16 slots.
- Each slot is Empty, live, or a tombstone. A tombstone is a deleted entry that keeps its key.
- The home slot of a key is the djb2-style hash `hash * 33 + byte`, computed in `size_t` and reduced modulo the capacity.
- Collisions are resolved by quadratic probing `(h0 + j + j*j) % capacity`.
- The capacity doubles before a `put` that would pass a 7/10 load factor.
- An optional `destroy` callback receives every value the dictionary gives up.

The model has five modules:

- `Wrappers`: `Option`. `None` stands for a NULL pointer.
- `Hashing`: defines the following, with the number theory behind them:
  - the hash, with `size_t` wrap-around written out modulo 2^64;
  - the probe sequence.

  Two results of that number theory:
  - the first `capacity/2` probe positions of any key are pairwise distinct;
  - every probe position has the parity of the home slot.
- `Slots`: the slot array as a sequence of values. It also defines:
  - the well-formedness predicate `WellPlaced`;
  - the abstract dictionary `LiveMap`;
  - the counting and one-slot-update lemmas;
  - the values handed to `destroy` at teardown.
- `Dict`: the class `Dictionary` and the load-factor constants.
  - Fields: an `array` of slots, `size`, `capacity`, the flag `hasDestroy`, and two ghost fields, `destroyed` and `steps`.
    - `destroyed` logs every value passed to the callback.
    - `steps`, for each key that owns a slot, records the probe step at which it sits.
  - Methods: one per operation of the file, and the loops exactly as written.
  - A top-level function `Size` handles the NULL table.
- `Scenario`: a client that stores, overwrites, deletes, revives and tears down one key. It shows what the callback receives.

The class invariant `Valid()` says:

- the array has `capacity` slots, a power of two, at least 16;
- every key that owns a slot lies on its own probe path, behind occupied slots only, so keys are unique;
- `size` counts the live slots;
- when a callback is set, no tombstone holds a value. `delete` clears the value and `pop` always does.
- the live entries stay within the 7/10 load factor: `size * 10 <= capacity * 7`, because `put` grows the table before it would pass it.

`Contents()` maps each live key to its value. Every operation is specified against `Contents()`, `size` and `destroyed`.

Four facts about the code shape the model:

- **Hash multiplier.** `(hash << 5) + hash` is `hash * 33`, so the hash is the base-33 polynomial of the key bytes (tp3.c:46).
- **Probing.** The probe `(h0 + j + j*j) % capacity` (C1 = C2 = 1) adds an even step, `j + j*j`, to the home slot, so in an even-sized table it visits only slots with the home slot's parity. As a result:
  - `put` can fail while Empty slots remain on the other parity;
  - without a resize, `put` fails exactly when the key owns no slot and all `capacity` of its probe positions are occupied, which forces at least half the table to be occupied;
  - after a resize it always succeeds, because the load factor keeps fewer than half the new slots occupied.
- **Tombstones on resize.** The resize loop passes a tombstone's value to `destroy` only when it is non-NULL (tp3.c:67-71). When a callback is set, every tombstone's value is NULL: `delete` clears it after calling `destroy` (tp3.c:134-137), and `pop` always clears it (tp3.c:161). So resize never calls `destroy`. The model logs what the loop would pass and proves that log empty.
- **The resize loop.** The reinsertion probe at tp3.c:60-63 has no bound of its own. The model proves it stops within its first capacity/2 steps, because fewer than half the new slots are occupied while it runs.

`size_t` is taken to be 64 bits. The hash accumulator's wrap-around modulo 2^64 is written out. For a power-of-two capacity it does not change the home slot, because the capacity divides 2^64 (`HashIgnoresWrap`). The same reasoning covers the probe arithmetic, which the model computes without wrap-around.

## Model

| member | source | states |
|---|---|---|
| Hashing.HashFunction | tp3.c:43-48 | the home slot of a key is below the capacity |
| Hashing.Djb2IsPolynomialMod | tp3.c:44-46 | the wrapping `size_t` accumulator equals the exact base-33 polynomial of the unsigned key bytes reduced modulo 2^64 |
| Hashing.HashIgnoresWrap | tp3.c:43-48 | for a power-of-two capacity, `size_t` wrap-around does not change the home slot: it is the exact polynomial modulo the capacity |
| Hashing.Probe | tp3.c:93 | a probe position always lies inside the table |
| Hashing.ProbeParity | tp3.c:93 | in an even-sized table every probe position has the parity of the home slot, so at most half the slots are ever visited |
| Hashing.ProbePeriodic | tp3.c:93 | the probe sequence repeats after `capacity` steps, so a probe of `capacity` steps sees every position the sequence can reach |
| Hashing.ProbeDistinct | tp3.c:60-63 | in a power-of-two table, probe steps a < b with a + b + 1 < capacity visit different slots |
| Hashing.ProbeSetSize | tp3.c:60-63 | the first j <= capacity/2 probe steps visit exactly j distinct slots |
| Slots.KeysUnique | tp3.c:80-91 | in a well-formed table two occupied slots with equal keys are the same slot, so `put` matches at most one entry |
| Slots.LiveSlotInMap | tp3.c:113-116 | a live slot's key is in the abstract dictionary with that slot's value |
| Slots.LiveMapSize | tp3.c:87-100 | the number of keys of the abstract dictionary equals the number of live slots |
| Slots.NotStoredIfSearchMisses | tp3.c:80-95 | a probe that meets only other keys' entries before an Empty slot, or for `capacity` steps, proves the key owns no slot, live or tombstone |
| Slots.NotLiveIfSearchMisses | tp3.c:112-123 | a probe that skips tombstones and meets no live entry for the key before an Empty slot, or for `capacity` steps, proves the key is absent |
| Slots.UpdateSlot | tp3.c:82-89 | rewriting the slot a key owns keeps the table well formed; the key maps to the new value when live and is removed when a tombstone; other keys keep their values |
| Slots.InsertSlot | tp3.c:96-100 | storing a key that owns no slot at the first Empty position of its probe keeps the table well formed and adds exactly that pair |
| Slots.EmptyTable | tp3.c:35-38 | an all-Empty array is a well-formed table with no keys, no live and no occupied slots |
| Slots.DisposedIsLiveValues | tp3.c:197-203 | when tombstones hold no value, the values teardown hands to `destroy` are exactly the non-NULL values of the live slots, in slot order |
| Slots.LiveValuesOfMap | tp3.c:197-203 | those values are no more than the keys, and are exactly the non-NULL values of the abstract dictionary |
| Slots.NoTombstonesAllLive | tp3.c:56-72 | in a well-formed table without tombstones, the keys owning slots are exactly the live keys |
| Slots.AbandonedCleared | tp3.c:67-71 | when no tombstone holds a value, the resize loop hands `destroy` nothing |
| Dict.Bury | tp3.c:134-139 | turning a live entry into a tombstone keeps the invariant with one live entry less and removes exactly that key |
| Dict.Overwrite | tp3.c:81-90 | rewriting the slot of a key, live or tombstone, keeps the invariant, counts one more live entry exactly when the slot was a tombstone, and maps the key to the new value |
| Dict.Insert | tp3.c:96-100 | storing a new key at the first Empty slot of its probe keeps the invariant with one more live entry and adds exactly that pair |
| Dict.RebuildStart | tp3.c:54 | the fresh all-Empty array of twice the capacity is the rebuilt table for no old slots |
| Dict.RebuildRoom | tp3.c:56-63 | while old slots remain, fewer than half the new slots are occupied |
| Dict.RebuildSkip | tp3.c:67-71 | an old tombstone or Empty slot adds nothing to the new table |
| Dict.RebuildMove | tp3.c:57-66 | reinserting an old live entry at the first Empty slot of its new probe adds exactly that pair, keeps the new table well formed and tombstone-free |
| Dict.RebuildDone | tp3.c:73-75 | after all old slots, the new table satisfies the invariant with the same size and the same pairs; every key it holds is live, and its occupied slots number exactly `size` |
| Dict.FindVacant | tp3.c:58-63 | the reinsertion probe stops within its first capacity/2 steps, at an Empty slot behind occupied ones only |
| Dict.ProbeRoom | tp3.c:60-63 | in a less-than-half-occupied table, a probe whose first j + 1 positions are occupied still has room: 2(j + 1) < capacity |
| Dict.FullProbeHalfOccupied | tp3.c:80-95 | a probe meeting only occupied slots for `capacity` steps, as a failing `put` does, proves at least half the table is occupied |
| Dict.Dictionary.SizeIsLiveCount | tp3.c:87-100 | `size` equals the number of live slots and the number of keys in the dictionary |
| Dict.Dictionary.constructor | tp3.c:32-41 | `dictionary_create`: 16 Empty slots, size 0, no keys, nothing destroyed, the invariant holds |
| Dict.Dictionary.FindLive | tp3.c:109-121 | the lookup probe finds a slot exactly when the key is live, and then it is the key's own slot, holding its value |
| Dict.Dictionary.Get | tp3.c:104-124 | err is false exactly when the key is valid and present; then the value is the stored one, otherwise NULL |
| Dict.Dictionary.Contains | tp3.c:175-189 | true exactly when the key is valid and present |
| Dict.Dictionary.MarkDeleted | tp3.c:136-139 | the key's slot becomes a tombstone, the key leaves the dictionary, size drops by one, the invariant holds |
| Dict.Dictionary.Rewrite | tp3.c:82-89 | the key's slot, and only it, becomes live with the new value; size grows by one exactly when it was a tombstone; the replaced value goes to `destroy` exactly when it was live, non-NULL and a callback is set |
| Dict.Dictionary.Place | tp3.c:96-100 | a new key is stored at the first Empty slot of its probe; size grows by one |
| Dict.Dictionary.Delete | tp3.c:126-147 | true exactly when the key is valid and present; then the key is removed, size drops by one, and a non-NULL value goes to `destroy` when a callback is set; otherwise nothing changes |
| Dict.Dictionary.Pop | tp3.c:149-173 | err is false exactly when the key is valid and present; then the stored value is returned and the key removed, size drops by one; `destroy` is never called |
| Dict.Dictionary.ProbeForPut | tp3.c:77-95 | the put probe matches exactly when the key owns a slot, live or tombstone; otherwise it returns the first Empty slot of the probe, or reports that all `capacity` positions are occupied |
| Dict.Dictionary.Rehash | tp3.c:53-72 | the resize loop terminates and builds a tombstone-free table of twice the capacity holding exactly the live pairs; `destroy` receives the non-NULL values of the old tombstones, in slot order, when a callback is set |
| Dict.Dictionary.Move | tp3.c:56-71 | one round of the resize loop extends the rebuilt table by the old slot's live pair, if any, and hands `destroy` the old slot's value exactly when it is a tombstone with a non-NULL value and a callback is set |
| Dict.Dictionary.Grow | tp3.c:52-76 | resize doubles the capacity, keeps size and contents, drops every tombstone and keeps the invariant; `destroy` receives nothing; afterwards the occupied slots are exactly the live ones and one more key fits under the load factor |
| Dict.Dictionary.Store | tp3.c:77-102 | on success exactly one slot changes, to a live entry for the key holding the value, and only the key's probe step may be new; the key is mapped to the value, reviving its tombstone or taking the first Empty slot; a live old non-NULL value goes to `destroy`; it fails exactly when the key owns no slot and its whole probe is occupied, which means at least half the table is |
| Dict.Dictionary.Put | tp3.c:50-102 | an invalid key changes nothing; resize happens exactly when (size + 1) * 10 > capacity * 7, and then the put always succeeds; without a resize it fails exactly when the key owns no slot and its whole probe is occupied, and on success exactly one slot changes; on success the key maps to the value, size grows exactly for a new key, the replaced live non-NULL value goes to `destroy`; an existing key, or a tombstone without resize, always succeeds |
| Dict.Dictionary.Destroy | tp3.c:195-206 | teardown hands `destroy` the non-NULL value of every occupied slot, no more values than there are keys, and exactly the dictionary's non-NULL values |
| Dict.Size | tp3.c:191-193 | 0 for a NULL table, otherwise the number of keys |
| Scenario.StoreFirst | tp3.c:96-100 | on a fresh table the first put succeeds |
| Scenario.DeleteFirst | tp3.c:134-139 | delete hands the value to the callback and leaves the key's tombstone |
| Scenario.ReviveFirst | tp3.c:85-89 | putting a deleted key again, without a resize, revives its tombstone and succeeds |
| Scenario.DestroyAll | tp3.c:197-203 | teardown hands the single remaining value to the callback exactly once |
| Scenario.OverwriteDeleteRevive | tp3.c:50-206 | put, overwrite, delete, revive and read one key; the value read back is the last one stored and the table holds one key |

## Left out

- Memory: `malloc`, `calloc` and `free`, and every allocation failure (tp3.c:33-36, 54-55, 97). The pointer operations are not modelled.
- Dict.Dictionary.Put: never fails for lack of memory. An allocation failure of the resized array or of the key copy is not modelled.
- `my_strdup`: the key copy is not modelled. A key is a byte sequence stored by value, so the model captures nothing about aliasing between the caller's string and the table's copy.
- Freeing keys and the table at teardown and on resize: memory is not modelled. `Destroy` only models the callback calls.
- The `destroy` callback is not called. It is modelled as the flag `hasDestroy` plus the ghost log `destroyed` of the values it receives, and values are compared by equality. `Destroy` logs values in slot order.
- NULL table: only `dictionary_size(NULL)` is modelled (`Dict.Size`). The other operations require a valid object. For them the source returns false or sets `err`, which needs no model here.
- The `err` out-pointer may be NULL in the source. That is not modelled; `err` is always returned.
- Key bytes: a key is a sequence of unsigned bytes without its terminating NUL. The model also admits keys that contain a zero byte, which a C string cannot represent.
- `size_t` overflow in `capacity * 2`, `(size + 1) * 10`, `capacity * 7` and `i * i`: not modelled. Integers are unbounded there. As noted above, wrap-around in the probe would not change any slot.
- `tp3.h` is not part of this model.
