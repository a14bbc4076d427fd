# Hash-Tables in Dafny

A model of the two string-keyed hash tables of the Hash-Tables repository,
with proofs about them:

- **The chained table** is in `full_hashtable/hashtables.c`. Each storage slot holds a
  singly linked list of key/value pairs. The model is `Chained.Table`: a
  capacity, a count, and one `seq` of pairs per bucket, in list order.
- **The single-slot table** is in `basic_hashtable/b_hashtables.c`. Each slot holds at
  most one pair. The model is `Basic.Table`: a capacity and a `seq` of
  `Option` slots.
- **djb2 hash.** Both tables use the same hash (`Djb2.Hash`). It is defined once and
  imported by both modules. A key is the content of a C string: a sequence of
  byte values in 1..255, without the terminating NUL. `unsigned long` is taken
  to be 64 bits wide, and every wrap-around of `((hash << 5) + hash) + c` is
  written out explicitly (`Djb2.ShiftAdd`). Values are Dafny strings. They are
  stored and returned but never compared.

The main modules, `Chained` and `Basic`, model the code **as written**, not as
its comments describe it. Where the code and the comments disagree, or the
code and the intended design of a counted, migrating table disagree, the
model follows the code. A counterexample lemma then shows each gap. Corrected
definitions live in `ChainedFixed` and `BasicFixed`, and the intended property
is proved about each one (see "## Findings"). The `main` scenarios of both
programs run on the as-written operations, because they reproduce what those
programs compute.

Files:

- `arith.dfy`: remainder lemmas used by the hash proofs.
- `options.dfy`: `Option`.
- `djb2.dfy`: the hash.
- `chained.dfy`, `chained_scenario.dfy`, `chained_fixed.dfy`: the chained table.
- `basic.dfy`, `basic_scenario.dfy`, `basic_fixed.dfy`: the single-slot table.

## Model

| member | source | states |
|---|---|---|
| `Djb2.Hash` | full_hashtable/hashtables.c:61-73 | For every key and every `max >= 1` the index lies in `[0, max)`. Both tables share this one definition. |
| `Djb2.ShiftAdd` | full_hashtable/hashtables.c:69 | In 64-bit unsigned arithmetic, shift-by-5, add and add wrap to the same result as one multiplication by 33 plus `c`, taken modulo 2^64. |
| `Djb2.Djb2` | full_hashtable/hashtables.c:63-70 | The accumulator after every byte, in 64-bit unsigned arithmetic, always lies below 2^64: 5381 for the empty key, otherwise (previous accumulator * 33 + byte) mod 2^64. |
| `Djb2.CString` | basic_hashtable/b_hashtables.c:56-58 | The walked bytes are exactly the buffer's bytes before its first NUL, and a NUL follows them. |
| `Djb2.HashCString` | basic_hashtable/b_hashtables.c:52-64 | The pointer walk that stops at NUL computes exactly the djb2 index of the C string, reduced modulo `max`. |
| `Djb2.Djb2Mod32` | full_hashtable/hashtables.c:63-70 | The low five bits of the djb2 accumulator are those of 5381 plus the byte sum. This holds because 33 = 1 mod 32 and 32 divides 2^64. |
| `Djb2.HashSmallModulus` | full_hashtable/hashtables.c:61-73 | When `max` divides 32, the index is `(5381 + byte sum) % max`. |
| `Chained.FirstMatch` | full_hashtable/hashtables.c:123-129 | The scan position is at most the chain length. No earlier pair holds the key. A position inside the chain holds the key. |
| `Chained.ChainInsert` | full_hashtable/hashtables.c:120-143 | Walking a non-empty chain overwrites the value of the first pair for the key in place. Length and order stay the same. If no pair holds the key, the new pair is appended after the tail. |
| `Chained.ChainFind` | full_hashtable/hashtables.c:224-238 | The result is the value of the first pair holding the key, or none when no pair holds it. |
| `Chained.Create` | full_hashtable/hashtables.c:80-93 | Creation fails exactly when the capacity is below 1. Otherwise the table has that capacity, count 0, all buckets empty, and it satisfies the invariant. |
| `Chained.Insert` | full_hashtable/hashtables.c:104-144 | Only bucket `hash(k)` changes, along one of three paths: update in place, append at the tail, or a new one-element chain. `count` rises by one only on the empty-bucket path. |
| `Chained.Retrieve` | full_hashtable/hashtables.c:212-239 | A found value belongs to a pair for `k` in bucket `hash(k)`. The result is none exactly when that bucket holds no pair for `k`. |
| `Chained.Remove` | full_hashtable/hashtables.c:154-177 | An empty bucket is left alone. A non-empty bucket `hash(k)` loses its head, whatever key the head holds. No other bucket changes, and `count` never changes. |
| `Chained.Resize` | full_hashtable/hashtables.c:258-263 | The result has twice the capacity, count 0 and only empty buckets. The doubled capacity must fit in a C `int`. |
| `Chained.CreateRetrievesNothing` | full_hashtable/hashtables.c:80-93 | A fresh table finds no key. |
| `Chained.RetrieveIffStored` | full_hashtable/hashtables.c:212-239 | Under the invariant, `retrieve(k) == v` holds exactly when the pair `(k, v)` is stored in some bucket. |
| `Chained.InsertKeepsValid` | full_hashtable/hashtables.c:104-144 | Insert keeps every pair in the bucket its key hashes to, and keeps every chain free of repeated keys. |
| `Chained.InsertedChain` | full_hashtable/hashtables.c:120-143 | The chain insert leaves in bucket `h`, by overwrite or by append, still holds only keys hashing to `h` and never holds a key twice. |
| `Chained.ReplaceBucketKeepsValid` | full_hashtable/hashtables.c:104-144 | Swapping one bucket of a valid table for a duplicate-free chain whose keys all hash to that bucket keeps the table valid. |
| `Chained.ChainFindAfterInsert` | full_hashtable/hashtables.c:131-143 | The chain left by insert finds the new value for the key, and the lookup of every other key is unchanged. |
| `Chained.InsertThenRetrieve` | full_hashtable/hashtables.c:104-144 | After `insert(k, v)`, `retrieve(k)` is `v`, and every other key retrieves what it did before. |
| `Chained.RemoveKeepsValid` | full_hashtable/hashtables.c:154-177 | Remove keeps the hashing and no-duplicate invariant. |
| `Chained.RemoveThenRetrieve` | full_hashtable/hashtables.c:167-177 | After `remove(k)`, the key at the head of bucket `hash(k)` is gone, whichever key that is. Every other key retrieves what it did before. |
| `Chained.InsertGrowth` | full_hashtable/hashtables.c:111-143 | The stored pairs grow by one whenever the key is new to its bucket. `count` grows only when the bucket was empty. |
| `Chained.ResizeForgetsEverything` | full_hashtable/hashtables.c:250-263 | No key retrieves anything from the resized table. |
| `ChainedScenario.BucketIndices` | full_hashtable/hashtables.c:268-272 | With two buckets, "line_1" and "line_3" go to bucket 1 and "line_2" goes to bucket 0. |
| `ChainedScenario.Filled` | full_hashtable/hashtables.c:268-272 | The table after the three inserts of `main` has capacity 2 and satisfies the invariant. |
| `ChainedScenario.FilledLayout` | full_hashtable/hashtables.c:268-272 | After the inserts, "line_2" is alone in bucket 0, "line_3" follows "line_1" in bucket 1, and the count is 2. |
| `ChainedScenario.MainInserts` | full_hashtable/hashtables.c:270-276 | All three keys retrieve their values. `count` is 2 while 3 pairs are stored. |
| `ChainedScenario.MainRemove` | full_hashtable/hashtables.c:279-285 | After `remove("line_2")`, "line_1" and "line_3" still retrieve and "line_2" is not found. |
| `ChainedScenario.RemoveDropsWrongPair` | full_hashtable/hashtables.c:171-177 | On the same table, `remove("line_3")` deletes "line_1", and "line_3" still retrieves. |
| `ChainedScenario.RemoveEmptiesBuckets` | full_hashtable/hashtables.c:171-176 | Removing "line_1" from the table that holds only "line_1" leaves both buckets empty and `count` at 1. |
| `ChainedScenario.RemoveKeepsCount` | full_hashtable/hashtables.c:171-176 | After inserting and then removing "line_1", no pair is stored but `count` is still 1. |
| `ChainedFixed.InsertCounted` | full_hashtable/hashtables.c:138-143 | Insert with the count bumped for every new pair. It keeps the chains of `Insert` and keeps `count` equal to the number of stored pairs. |
| `ChainedFixed.ChainRemove` | full_hashtable/hashtables.c:179-197 | The first pair holding the key is unlinked and the later pairs move up one place. A chain without the key is unchanged. |
| `ChainedFixed.ChainRemoveDrops` | full_hashtable/hashtables.c:183-197 | In a chain without repeated keys, the unlinked chain keeps only original pairs and none holds the key. |
| `ChainedFixed.ChainRemoveUnique` | full_hashtable/hashtables.c:183-197 | Unlinking keeps a chain free of repeated keys. |
| `ChainedFixed.ChainRemoveOthers` | full_hashtable/hashtables.c:183-197 | Unlinking one key leaves the lookup of every other key unchanged. |
| `ChainedFixed.RemoveMatching` | full_hashtable/hashtables.c:146-153 | Remove with the key compared: only bucket `hash(k)` changes, and a correct count stays correct. |
| `ChainedFixed.RemoveMatchingForgetsKey` | full_hashtable/hashtables.c:146-202 | The table stays valid. `k` retrieves nothing, and every other key retrieves what it did before. |
| `ChainedFixed.Flatten` | full_hashtable/hashtables.c:253-254 | The list of all stored pairs has one entry per stored pair, and each entry comes from some bucket. |
| `ChainedFixed.InsertAll` | full_hashtable/hashtables.c:253-254 | Reinserting pairs one by one keeps the capacity and the table invariant. |
| `ChainedFixed.ResizeMigrating` | full_hashtable/hashtables.c:250-263 | The migrating resize doubles the capacity. |
| `ChainedFixed.LastFind` | full_hashtable/hashtables.c:253-254 | The result is none exactly when no pair holds the key. Otherwise it is the value of the last pair for the key. |
| `ChainedFixed.LastFindFlatten` | full_hashtable/hashtables.c:253-254 | When only one bucket can hold a key, the last pair for it among all pairs is the one that bucket's lookup finds. |
| `ChainedFixed.FlattenUnique` | full_hashtable/hashtables.c:253-254 | Chains hashed to their own positions, each without repeated keys, flatten into a list without repeated keys. |
| `ChainedFixed.InsertAllRetrieve` | full_hashtable/hashtables.c:253-254 | Reinserting a list leaves each listed key with its last listed value. Every other key keeps what it retrieved before. |
| `ChainedFixed.InsertAllCount` | full_hashtable/hashtables.c:253-254 | Reinserting distinct keys that were absent raises the count by the number of keys. |
| `ChainedFixed.ResizeMigratingKeepsEntries` | full_hashtable/hashtables.c:250-263 | The migrating resize keeps the invariant and every key's value, and it carries a correct count over unchanged. |
| `ChainedFixed.ResizeMigratingRetrieves` | full_hashtable/hashtables.c:250-263 | Every key retrieves from the migrated table what it retrieved from the old one. |
| `ChainedFixed.ResizeMigratingCount` | full_hashtable/hashtables.c:250-263 | The migrated table's count equals the number of pairs stored in the old table. |
| `ChainedFixed.FixedScenario` | full_hashtable/hashtables.c:279-285 | On `main`'s table, the key-matching remove of "line_3" keeps "line_1" and forgets "line_3". |
| `Basic.Create` | basic_hashtable/b_hashtables.c:72-84 | Creation fails exactly when the capacity is below 1. Otherwise the table has that many slots, all empty. |
| `Basic.Insert` | basic_hashtable/b_hashtables.c:93-118 | Slot `hash(k)` holds exactly `(k, v)`, whether it was empty or held a different key. Every other slot is unchanged. |
| `Basic.Retrieve` | basic_hashtable/b_hashtables.c:143-149 | The result is none exactly when slot `hash(k)` is empty. Otherwise it is the value of that slot's pair, whatever its key. |
| `Basic.Remove` | basic_hashtable/b_hashtables.c:125-136 | Slot `hash(k)` ends up empty, whatever key it held. Every other slot is unchanged. |
| `Basic.Destroy` | basic_hashtable/b_hashtables.c:156-164 | On a valid table, the loop that removes each occupied slot by its own key empties every slot. |
| `Basic.CreateRetrievesNothing` | basic_hashtable/b_hashtables.c:72-84 | A fresh table finds no key. |
| `Basic.InsertKeepsValid` | basic_hashtable/b_hashtables.c:99-117 | Insert keeps every occupied slot holding a key that hashes to that slot. |
| `Basic.RemoveKeepsValid` | basic_hashtable/b_hashtables.c:125-136 | Remove keeps that invariant. |
| `Basic.InsertThenRetrieve` | basic_hashtable/b_hashtables.c:99-117 | After `insert(k, v)`, every key that hashes to `k`'s slot retrieves `v`, `k` included. Every other key is unchanged. |
| `Basic.RemoveThenRetrieve` | basic_hashtable/b_hashtables.c:125-136 | After `remove(k)`, every key that hashes to `k`'s slot retrieves nothing. Every other key is unchanged. |
| `Basic.RemoveIdempotent` | basic_hashtable/b_hashtables.c:125-136 | Removing twice equals removing once. |
| `BasicScenario.SlotIndices` | basic_hashtable/b_hashtables.c:176-181 | With 16 slots, "line" goes to slot 13, "linee" to slot 2 and "enil" to slot 13. |
| `BasicScenario.Filled` | basic_hashtable/b_hashtables.c:176-178 | The table after inserting "line" has 16 slots and satisfies the invariant. |
| `BasicScenario.MainScenario` | basic_hashtable/b_hashtables.c:176-189 | "line" retrieves "Here today...\n" and "linee" retrieves nothing. After `remove("line")`, "line" retrieves nothing. |
| `BasicScenario.MainDestroy` | basic_hashtable/b_hashtables.c:195 | The final destroy of `main` leaves all 16 slots empty. |
| `BasicScenario.RetrieveReturnsForeignValue` | basic_hashtable/b_hashtables.c:143-149 | "enil" was never inserted, yet it retrieves the value of "line". |
| `BasicScenario.RemoveDropsForeignPair` | basic_hashtable/b_hashtables.c:125-136 | Removing the absent "enil" deletes "line". |
| `BasicFixed.RetrieveChecked` | basic_hashtable/b_hashtables.c:147-148 | A found value is the value of a pair for `k` itself in slot `hash(k)`. None means the slot holds no pair for `k`. |
| `BasicFixed.RemoveChecked` | basic_hashtable/b_hashtables.c:130-135 | Slot `hash(k)` is emptied only when it holds `k`. Every other slot is unchanged. |
| `BasicFixed.RetrieveCheckedIffStored` | basic_hashtable/b_hashtables.c:141-149 | Under the invariant, checked retrieval finds `v` for `k` exactly when `(k, v)` is stored. |
| `BasicFixed.RetrieveCheckedOnlyOwnKey` | basic_hashtable/b_hashtables.c:143-149 | After `insert(k, v)`, `k` finds `v`, a colliding key finds nothing, and other keys are unchanged. |
| `BasicFixed.RemoveCheckedKeepsOthers` | basic_hashtable/b_hashtables.c:125-136 | Checked removal forgets `k` and nothing else. |
| `BasicFixed.CheckedScenario` | basic_hashtable/b_hashtables.c:176-184 | On `main`'s table, "enil" finds nothing, and removing "enil" keeps "line". |

## Left out

- Memory management is not modelled: `malloc`, `calloc`, `strdup`, `free`, `create_pair` and `destroy_pair`. So is the empty `destroy_hash_table` of the chained table (full_hashtable/hashtables.c:246-248), and the `free` calls at basic_hashtable/b_hashtables.c:165-168. Keys and values are immutable values, so ownership and leaks have no counterpart.
- Pointer aliasing is not modelled, because the model has no memory. The chained update path stores the caller's value pointer (full_hashtable/hashtables.c:135), where the table had held a `strdup` copy; a later remove frees that stored pointer through `destroy_pair` (lines 49-50, reached from 175), and the copy it replaced is never freed. The basic table stores the caller's key and value pointers only when it overwrites an occupied slot (basic_hashtable/b_hashtables.c:105-110); an empty slot gets `strdup` copies through `create_pair` (lines 115 and 29-30). Under value semantics none of this can be told apart from copying.
- The `printf` diagnostics are left out: they are output only.
- The tail search of the chained remove (full_hashtable/hashtables.c:180-201) is left out, including its possible NULL dereference at line 190. The always-true test at line 172 makes it unreachable.
- The width of `unsigned long` is fixed at 64 bits. Platforms with a 32-bit `unsigned long` would hash differently.
- Overflow of `capacity * 2` in a C `int` is a precondition of `Chained.Resize` and `ChainedFixed.ResizeMigrating`, not modelled behaviour.
- Overflow of the `int` `count` after 2^31 counted inserts is not modelled: `count` is an unbounded integer.
- Every operation requires a table of the shape `create_hash_table` builds: capacity at least 1 and one slot per unit of capacity. The C functions dereference `ht->storage` without checking, so a NULL table is outside their domain.
- The `main` functions themselves are not modelled. Their calls and printed results become the scenario lemmas.
- `Chained.Retrieve`: its own contract says only that the value comes from some pair for `k` in the key's bucket, not that it is the first such pair. The first-match walk is stated exactly by `Chained.ChainFind`, and under the invariant only one pair exists (`Chained.RetrieveIffStored`).

## Findings

| source | as written | input that shows it | evidently intended | confidence | as-written member | corrected member |
|---|---|---|---|---|---|---|
| full_hashtable/hashtables.c:138-143 | Appending to a non-empty chain never increments `count`. | `main`'s three inserts into capacity 2 leave `count == 2` with 3 pairs stored. | `count` equals the number of stored pairs. | high; not executed | `ChainedScenario.MainInserts` | `ChainedFixed.InsertCounted` |
| full_hashtable/hashtables.c:171-177 | The head's key is compared with itself, so remove always unlinks the head of the bucket. | On `main`'s table, `remove("line_3")` deletes "line_1". | Unlink the pair whose key equals the requested key. | high; not executed | `ChainedScenario.RemoveDropsWrongPair` | `ChainedFixed.RemoveMatchingForgetsKey` |
| full_hashtable/hashtables.c:171-176 | Remove unlinks and frees a pair but never decrements `count`. | Capacity 2: insert "line_1", then `remove("line_1")` leaves no pair stored and `count == 1`. | `count` drops by one when a pair is unlinked. | high; not executed | `ChainedScenario.RemoveKeepsCount` | `ChainedFixed.RemoveMatching` |
| full_hashtable/hashtables.c:258-263 | Resize returns an empty table and copies nothing. | Any table with a stored key: that key retrieves nothing after resize. | Every pair is reinserted into the doubled table. | high; not executed | `Chained.ResizeForgetsEverything` | `ChainedFixed.ResizeMigratingKeepsEntries` |
| basic_hashtable/b_hashtables.c:143-149 | Retrieve returns the slot's value without comparing keys. | Capacity 16: insert "line", then `retrieve("enil")` returns "Here today...\n". | Return none unless the slot holds the requested key. | high; not executed | `BasicScenario.RetrieveReturnsForeignValue` | `BasicFixed.RetrieveCheckedOnlyOwnKey` |
| basic_hashtable/b_hashtables.c:125-136 | Remove empties the slot without comparing keys. | Capacity 16: insert "line", then `remove("enil")` deletes "line". | Empty the slot only when it holds the requested key. | high; not executed | `BasicScenario.RemoveDropsForeignPair` | `BasicFixed.RemoveCheckedKeepsOthers` |
