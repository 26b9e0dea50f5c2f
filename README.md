# Separate-chaining hash table

A Dafny model of a small C phone book: a hash table that maps string keys to
string values. It keeps an array of bucket heads. Each head starts a
singly-linked chain of heap-allocated records. DJB2 picks the bucket of a key.

The model has five modules:

- `Djb2` models the C `hash` function. The loop is a method, `HashIndex`. It
  is proved equal to a pure left fold, `Djb2Value`, over the key's bytes. The fold
  uses 64-bit wrapping arithmetic, and each byte is read through a signed
  `char`.
- `Chain` models one bucket as a value: a sequence of (key, value) records,
  head first. It defines lookup (`Find`, `Lookup`), insert-or-update
  (`Upsert`) and removal of the first match (`RemoveFirst`).
- `Buckets` models the whole bucket array as a sequence of chains.
  - `Represents` says when such an array stands for a key -> value map:
    - every record sits in the bucket its key hashes to;
    - keys are unique within a chain;
    - every key of the map is found with its value;
    - there is one record per key.
  - Lemmas prove that the table-level insert, get and delete implement map
    update, map lookup and key removal, and that they keep these invariants.
- `HashTable` models the table in place: a `Node` class (the C
  `struct node`) and a `Table` class whose `buckets` array of head pointers
  is mutated in place.
  - Ghost fields give, per bucket, the nodes of the chain (`Spine`) and the
    records they hold (`Chains`). They also give the abstract map
    (`Contents`) and the footprint (`Repr`).
  - Each operation walks the chain with cursor pointers, as the C code does.
    It is proved against the functions of `Buckets`.
  - The node-level effect of each operation is stated exactly:
    - an update keeps every node where it was;
    - a new key adds a fresh node at the head;
    - a deletion removes exactly one node and keeps the order of the rest.
- `Demo` replays `main`: four insertions into a table of 101 buckets, two
  lookups, a listing, two deletions and a second listing. The results match
  the output transcript kept at the end of the source file.

Keys and values are C strings: sequences of bytes with no NUL byte.

Chains are most-recent-first: `insert` links a new record in as the head
of its chain (hash-table.c:111-112). `Demo.MostRecentFirst` proves that in a
table of 11 buckets, inserting "Dee" and then "Charlie" (both in bucket 2)
lists Charlie first. `Demo` replays `main` with its 101 buckets.

## Model

| member | source | states |
|---|---|---|
| `Djb2.CharValue` | c-learning/hash-table/hash-table.c:70-71 | a byte read through a signed `char` lies in [-128, 128) and is congruent to the byte modulo 256 |
| `Djb2.ToULong` | c-learning/hash-table/hash-table.c:72 | conversion to `unsigned long` gives a value below 2^64 that is congruent to its argument modulo 2^64 |
| `Djb2.Hash` | c-learning/hash-table/hash-table.c:73 | the bucket index is always in [0, n) for n > 0 |
| `Djb2.ShiftAddIsStep` | c-learning/hash-table/hash-table.c:72 | `(hash << 5) + hash + c`, with every operation wrapping modulo 2^64, equals acc * 33 + c modulo 2^64 |
| `Djb2.Djb2FromAppend` | c-learning/hash-table/hash-table.c:71-72 | the hash of a concatenation continues from the accumulator reached after the prefix |
| `Djb2.Djb2Snoc` | c-learning/hash-table/hash-table.c:71-72 | DJB2 is a left fold: one more byte applies one more step to the previous value |
| `Djb2.Djb2FromTrace` | c-learning/hash-table/hash-table.c:69-72 | a list of accumulators, each one step after the last, ends at the hash of the key |
| `Djb2.HashOfEmpty` | c-learning/hash-table/hash-table.c:69-73 | the empty key lands in bucket 5381 mod n |
| `Djb2.HashIndex` | c-learning/hash-table/hash-table.c:67-75 | the byte loop with the shift-and-add update returns exactly DJB2 of the key modulo the table size |
| `Chain.Find` | c-learning/hash-table/hash-table.c:127-133 | the reported position holds the key and no earlier record does; without one, no record holds the key |
| `Chain.FindIsFirst` | c-learning/hash-table/hash-table.c:127-133 | the first position holding the key is the one the scan reports |
| `Chain.Lookup` | c-learning/hash-table/hash-table.c:118-139 | the result is absent exactly when no record has the key; a found value is that of the first record with that key, in chain order |
| `Chain.LookupUnique` | c-learning/hash-table/hash-table.c:127-131 | with unique keys, any record holding the key gives the lookup's result |
| `Chain.UpsertLookupSame` | c-learning/hash-table/hash-table.c:84-114 | after inserting (k, v) into a chain, looking up k gives v |
| `Chain.UpsertLookupOther` | c-learning/hash-table/hash-table.c:84-114 | inserting k leaves the lookup of every other key unchanged |
| `Chain.UpsertShape` | c-learning/hash-table/hash-table.c:89-112 | a present key keeps the chain's length and key order; a new key adds exactly (k, v) at the head, before the old chain |
| `Chain.UpsertUnique` | c-learning/hash-table/hash-table.c:89-112 | insertion keeps the keys of a chain unique |
| `Chain.UpsertTwice` | c-learning/hash-table/hash-table.c:89-98 | last write wins: inserting the same key twice equals inserting the second value once |
| `Chain.RemoveFirstShape` | c-learning/hash-table/hash-table.c:157-173 | removal drops exactly the first matching record and keeps the rest in order; without a match the chain is unchanged |
| `Chain.RemoveFirstLookupSame` | c-learning/hash-table/hash-table.c:157-173 | with unique keys, the key is absent after its removal |
| `Chain.RemoveFirstLookupOther` | c-learning/hash-table/hash-table.c:157-173 | removing a key leaves the lookup of every other key unchanged |
| `Chain.RemoveFirstUnique` | c-learning/hash-table/hash-table.c:157-173 | removal keeps the keys of a chain unique |
| `Chain.UpsertThenRemove` | c-learning/hash-table/hash-table.c:108-112 | removing a key just prepended gives back the original chain |
| `Buckets.Empty` | c-learning/hash-table/hash-table.c:53 | a fresh table has n buckets, all empty |
| `Buckets.EmptyRepresents` | c-learning/hash-table/hash-table.c:53 | the table of empty buckets stands for the empty map |
| `Buckets.GetMatchesMap` | c-learning/hash-table/hash-table.c:118-139 | on a well-formed table, `get` returns the map's value for a present key and absent for any other key |
| `Buckets.InsertRefines` | c-learning/hash-table/hash-table.c:84-114 | `insert` implements map update, keeps hash placement and per-chain uniqueness, and adds a record exactly for a new key |
| `Buckets.DeleteWellFormed` | c-learning/hash-table/hash-table.c:142-184 | `delete` keeps hash placement and per-chain uniqueness, and leaves no record of the key in its bucket |
| `Buckets.DeleteAbsent` | c-learning/hash-table/hash-table.c:151-154 | when the key's bucket holds no record of it, the key is not in the map and deletion changes neither the buckets nor the map |
| `Buckets.DeleteKeysInMap` | c-learning/hash-table/hash-table.c:157-173 | after `delete`, every remaining record's key is a key of the map without the deleted key |
| `Buckets.DeleteLookups` | c-learning/hash-table/hash-table.c:157-173 | after `delete`, every other key is still found with its value |
| `Buckets.DeleteRefines` | c-learning/hash-table/hash-table.c:142-184 | `delete` implements key removal, keeps every invariant, and removes one record exactly when the key was present |
| `Buckets.GetAfterInsert` | c-learning/hash-table/hash-table.c:84-139 | after `insert(k, v)`, `get(k)` is v and `get` of any other key is as before |
| `Buckets.GetAfterDelete` | c-learning/hash-table/hash-table.c:118-184 | after `delete(k)`, `get(k)` is absent and `get` of any other key is as before |
| `Buckets.InsertTwice` | c-learning/hash-table/hash-table.c:89-98 | inserting a key twice equals inserting the second value once |
| `Buckets.InsertThenDelete` | c-learning/hash-table/hash-table.c:101-173 | deleting a key just inserted for the first time restores the table exactly |
| `HashTable.Node.constructor` | c-learning/hash-table/hash-table.c:41-47 | a new node holds the given key, value and successor |
| `HashTable.ConsHolds` | c-learning/hash-table/hash-table.c:111-112 | a node that points at a chain's head is, with that chain, a chain one record longer |
| `HashTable.TailHolds` | c-learning/hash-table/hash-table.c:163 | a chain's head's successor starts the rest of the chain |
| `HashTable.Table.NodeUnique` | c-learning/hash-table/hash-table.c:41-53 | in a linked table, each node sits at exactly one position of exactly one chain |
| `HashTable.Table.Neighbours` | c-learning/hash-table/hash-table.c:164-165 | the node to unlink and its predecessor belong to no other chain, the predecessor occurs once, and taking out the node's position removes it |
| `HashTable.Table.constructor` | c-learning/hash-table/hash-table.c:33-53 | a new table of n buckets has every head null and stands for the empty map |
| `HashTable.Table.Get` | c-learning/hash-table/hash-table.c:118-139 | the chain walk changes nothing and returns the first matching record's value; that is the map's value for a present key and absent otherwise |
| `HashTable.Table.Insert` | c-learning/hash-table/hash-table.c:84-114 | the map gains (key, value) and the invariants hold. A present key keeps every node in place. A new key makes one fresh node the head of its bucket, followed by the old chain, and no other bucket changes |
| `HashTable.Table.SetValue` | c-learning/hash-table/hash-table.c:89-98 | overwriting one node's value keeps every chain's nodes and links and changes only that record |
| `HashTable.Table.PushFront` | c-learning/hash-table/hash-table.c:108-112 | the new node becomes the head of its bucket in front of the old chain; other buckets are untouched |
| `HashTable.Table.Delete` | c-learning/hash-table/hash-table.c:142-184 | NoNodes exactly when the key's bucket is empty; Deleted exactly when the key was present; otherwise nothing changes. On Deleted, exactly the first matching node leaves its chain and the rest keep their order. The map loses the key, and the record count drops by one exactly on Deleted |
| `HashTable.Table.Locate` | c-learning/hash-table/hash-table.c:157-180 | the walk with a trailing pointer stops at the first node holding the key, with `prev` its predecessor, or runs out exactly when no record has the key |
| `HashTable.Table.Unlink` | c-learning/hash-table/hash-table.c:159-171 | unlinking the first match removes that node and that key, and the table keeps its invariants |
| `HashTable.Table.UnlinkHead` | c-learning/hash-table/hash-table.c:162-163 | the bucket head takes over the first node's successor; only that bucket's chain loses its head |
| `HashTable.Table.UnlinkAfter` | c-learning/hash-table/hash-table.c:164-165 | the predecessor's link skips the node; only that one position leaves that bucket's chain |
| `HashTable.Table.Enumerate` | c-learning/hash-table/hash-table.c:188-198 | the listing gives every bucket in index order, each as its records in chain order, and it stands for the table's map |
| `Demo.CharlieBucket` | c-learning/hash-table/hash-table.c:310 | "Charlie" hashes to bucket 68 of 101, and to bucket 2 of 11 |
| `Demo.MacBucket` | c-learning/hash-table/hash-table.c:306 | "Mac" hashes to bucket 64 of 101, and to bucket 0 of 11 |
| `Demo.DeeBucket` | c-learning/hash-table/hash-table.c:335 | "Dee" hashes to bucket 93 of 101, and to bucket 2 of 11 |
| `Demo.DennisBucket` | c-learning/hash-table/hash-table.c:272 | "Dennis" hashes to bucket 30 of 101, and to bucket 5 of 11 |
| `Demo.AgamemnonDjb2` | c-learning/hash-table/hash-table.c:67-75 | the 64-bit DJB2 value of "Agamemnon" is 249836133488690936 |
| `Demo.AgamemnonBucket` | c-learning/hash-table/hash-table.c:334 | "Agamemnon" hashes to bucket 92 of 101 (empty in the listing), and to bucket 0 of 11 |
| `Demo.MostRecentFirst` | c-learning/hash-table/hash-table.c:111-112 | in 11 buckets, inserting Dee and then Charlie lists Charlie before Dee in their shared bucket |
| `Demo.AgamemnonAbsent` | c-learning/hash-table/hash-table.c:208-226 | on the first listing, the lookup of "Agamemnon" finds nothing and deleting it changes nothing, because its bucket is empty |
| `Demo.DennisPresent` | c-learning/hash-table/hash-table.c:216-227 | on the first listing, "Dennis" is found with his number, and deleting him empties bucket 30 only |
| `Demo.InsertIntoEmpty` | c-learning/hash-table/hash-table.c:108-112 | inserting a key whose bucket is empty makes that record the bucket's only one and changes no other bucket |
| `Demo.InsertFirstTwo` | c-learning/hash-table/hash-table.c:203-204 | after the first two insertions, Charlie is in bucket 68 and Mac in bucket 64, and all else is empty |
| `Demo.InsertLastTwo` | c-learning/hash-table/hash-table.c:205-206 | after all four insertions, the table is the first listing of the output transcript |
| `Demo.Lookups` | c-learning/hash-table/hash-table.c:208-224 | Agamemnon is not found, Dennis is found with his number, and the listing is buckets 30, 64, 68 and 93 |
| `Demo.Deletions` | c-learning/hash-table/hash-table.c:226-229 | deleting Agamemnon reports "no nodes", deleting Dennis reports deleted, and the second listing is the first with bucket 30 empty |
| `Demo.Run` | c-learning/hash-table/hash-table.c:201-233 | the whole of `main` gives the two lookups, the two listings and the two delete reports of the output transcript |

## Left out

- Allocation failure in `insert` (lines 101-106) is not modelled: allocation always succeeds.
- `strdup` and `free` (lines 93-94, 109-110, 169-171) are not modelled. Keys and values are immutable sequences, so each node owns its own copy without copying. Freed nodes simply leave the table's footprint `Repr`.
- The `printf` diagnostics are not modelled as text. `delete`'s three messages become the `DeleteOutcome` values `NoNodes`, `KeyNotFound` and `Deleted`. The formatting of `print_table` is replaced by the returned listing (one sequence of records per bucket).
- `HashTable.Table.Get` returns the value itself, not a pointer into the node; the aliasing of the returned `char *` with the node's storage is not modelled.
- `Djb2.CharValue` fixes plain `char` as signed and `Djb2.ToULong` fixes `unsigned long` at 64 bits, as on x86-64 Linux. Where plain `char` is unsigned (e.g. AArch64 Linux), keys with bytes >= 128 hash differently; that is not modelled, and neither are other widths.
- `Djb2.HashIndex` requires a positive table size: the C code divides by `table_size` and would fault on zero.
- `HashTable.Table.constructor` takes the number of buckets as a parameter instead of the global `table_size` (line 33) and the separately written array length 101 (line 53). The model uses one size for both, so the two values cannot drift apart.
- The search loops of `insert` and `delete` return from inside the loop in C. In the model they leave the loop and then update or unlink (`HashTable.Table.Locate`, `HashTable.Table.Unlink`). The observable effect is the same.
- The source has no function that destroys a whole table, so the model has none either.
- The `main` transcript (lines 235-446) is covered only through the listings and the bucket of each key in `Demo`; the full text of the 202 output lines is not reproduced.
