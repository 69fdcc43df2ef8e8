# A chained hash table with growing and shrinking bucket arrays

This project models `hashtable.c`: a hash table that maps `int` keys to `int` data.
Collisions are resolved by separate chaining over doubly linked nodes (`key`, `data`,
`next`, `prev`). The header holds the bucket array, `capacity`, `size` and a float
`loadFactorThreshold`.

- `hash` scales the fractional part of `key * 0.61803398875` by the capacity and truncates
  it toward zero.
- `insert` pushes a new node at the head of the key's bucket and increments `size`. It then
  grows the table to `2 * capacity` when `size / capacity` exceeds the threshold.
- `removeKey` unlinks the first node with the key and frees it. It then halves the capacity
  when the load factor falls below a quarter of the threshold.
- `get` returns the data of the first node with the key, or -1.
- `resizeTable` walks the old buckets in index order and each chain head to tail. It pushes
  every node onto the head of its bucket in a fresh array.

The model has two layers.

- **The pure layer.**
  - The module `TableSpec` describes the table as a value `State` (`struct HashTable`,
    hashtable.c:13-18): the bucket array, the header fields, the node heap as a sequence
    addressed by index (`Nil` = -1 plays NULL) and the set of freed nodes.
  - `Chains.Node` is `struct Node` (hashtable.c:5-10): key, data, `next` and `prev`.
  - Each C function is a function from state to state.
  - `Chains` defines what a chain is: the sequence of nodes met by following `next` from a
    head until NULL.
  - `Visits`, `Resizes`, `Updates` and `Removes` prove what the operations do to the
    chains, the links and the multiset of stored pairs.
- **The imperative layer.**
  - The class `HashTables.HashTable` keeps the bucket array as an `array<int>` and the
    nodes as a field that its methods update one link at a time, as the C code does.
  - `Init`, `ResizeTable`, `Insert`, `RemoveKey`, `UnlinkNode` and `Get` are proved to
    compute exactly their `TableSpec` function of the old state. `CreateNode` is proved to
    append the new node and change nothing else. The resize loops `MoveNodes`, `MoveChain`
    and `MoveToHead` are proved against the stages of `TableSpec.Relink` and against
    `TableSpec.Place`.
  - The nested loops of `resizeTable` are split into `MoveNodes` (the loop over buckets),
    `MoveChain` (the walk of one chain) and `MoveToHead` (the splice at lines 58-65).

Both layers model the code **as written**. That includes four defects, each reproduced in
`Findings` on concrete tables:

- `resizeTable` hashes with the old capacity.
- It leaves moved heads with a stale `prev`.
- Shrinking has no floor.
- A negative key gets a negative bucket index.

The corrected behaviour is defined beside the as-written one and proved:

- `Hashing.HashIntended` is the hash with a non-negative index.
- `TableSpec.ResizeIntended` hashes with the new capacity and resets `prev`.
- `TableSpec.RemoveIntended` keeps a capacity of 1.

`main` is replayed in `Scenarios`. Its logical steps are in `MainScenario` and the same
calls on the class are in `Demo`. Following the code, growth happens on the third insert:
3/5 > 0.5. After it, `get(ht, 15)` is -1, because key 15 sits in bucket 1 while `get`
looks in bucket 2, and `removeKey(ht, 15)` changes nothing.

## Model

| member | source | states |
|---|---|---|
| CArith.Trunc | hashtable.c:23 | The C `(int)` cast of a real: rounds toward zero, within 1 of its argument on the argument's side of 0 |
| CArith.CMod | hashtable.c:56 | C `%` by a positive divisor: the result has the sign of the dividend and lies strictly within the divisor |
| CArith.CModSmall | hashtable.c:56 | A dividend already strictly within the divisor is its own remainder |
| Hashing.Frac | hashtable.c:23 | `key*A - (int)(key*A)` lies in [0, 1) for a non-negative product and in (-1, 0] for a negative one |
| Hashing.Hash | hashtable.c:21-24 | The hash lies in [0, capacity) for key >= 0 and in (-capacity, 0] for a negative key |
| Hashing.BucketOf | hashtable.c:56 | `hash % divisor` equals the hash when the divisor is at least the capacity; it lies in [0, divisor) for key >= 0 and in (-divisor, 0] for a negative key |
| Hashing.NegativeKeyIndex | hashtable.c:101 | Key -1 in a table of capacity 5 gets bucket -3, before the array |
| Hashing.HashIntended | hashtable.c:21-24 | The corrected hash, whose fractional part is taken with floor rather than truncation, lies in [0, capacity) for every key |
| Hashing.HashIntendedAgrees | hashtable.c:21-24 | For every key >= 0 the corrected hash equals the hash as written |
| TableSpec.Init | hashtable.c:76-97 | `initHashTable` gives a well-shaped table with the requested capacity, size 0 and the given threshold |
| TableSpec.Index | hashtable.c:101 | The bucket of insert, remove and get is the hash itself (the `%` by the same capacity changes nothing); it lies in [0, capacity) for key >= 0 and in (-capacity, 0] for a negative key |
| TableSpec.GrowsScaled | hashtable.c:114 | The growth test `(float)size / capacity > loadFactorThreshold` holds iff size exceeds threshold times capacity |
| TableSpec.ShrinksScaled | hashtable.c:141 | The shrink test `(float)size / capacity < loadFactorThreshold / 4` holds iff four times size is below threshold times capacity |
| TableSpec.Reindex | hashtable.c:56 | The resize's bucket choice is the hash under the capacity it is given whenever the new capacity is at least that, and lies in [0, newCap) for key >= 0 |
| TableSpec.Resize | hashtable.c:41-73 | The resize as written gives a well-shaped table with the new capacity and the same size, threshold, freed set and heap size |
| TableSpec.ResizeIntended | hashtable.c:41-73 | The corrected resize gives a well-shaped table with the new capacity and the same size, threshold, freed set and heap size |
| TableSpec.Insert | hashtable.c:100-117 | Insert gives a well-shaped table with one more node, size + 1, the same threshold and freed set, and the capacity kept or doubled |
| TableSpec.Lookup | hashtable.c:155-162 | The search of one bucket gives -1 when no pair has the key, and otherwise -1 or the data of a pair with the key |
| TableSpec.Get | hashtable.c:151-163 | `get` gives -1 or the data of a node in the key's bucket that has the key |
| TableSpec.Remove | hashtable.c:120-149 | Remove gives a well-shaped table with the same heap size and threshold, size kept or one less, capacity kept or halved |
| TableSpec.RemoveIntended | hashtable.c:120-149 | The remove with a floor gives the same, and a capacity of at least 1 |
| TableSpec.Place | hashtable.c:58-65 | One splice of the resize loop: the node becomes the head of its new bucket, and keys and data are untouched |
| TableSpec.Push | hashtable.c:102-112 | The insertion splice keeps the shape and capacity, adds one node and one to `size` |
| TableSpec.Relink | hashtable.c:52-68 | Moving a list of nodes gives a new array of `newCap` closed chains, with keys and data untouched |
| TableSpec.Unlink | hashtable.c:126-138 | The unlinking keeps the shape and capacity, frees exactly the node and subtracts one from `size` |
| Visits.BucketDistinct | hashtable.c:52-68 | In a walkable table no node appears twice in a bucket |
| Visits.BucketsDisjoint | hashtable.c:52-68 | In a walkable table no node lies in two buckets |
| Visits.BucketInVisit | hashtable.c:52-68 | Every node of a bucket is met by the walk over all buckets |
| Visits.VisitGainsHead | hashtable.c:104-110 | Adding a head to one bucket, others unchanged, adds exactly that node to the walk |
| Visits.VisitLosesOne | hashtable.c:126-136 | Dropping one node from one bucket, others unchanged, removes exactly that node from the walk |
| Visits.ContentsGain | hashtable.c:102-112 | When the walk gains node x and keys and data are kept, the stored pairs gain exactly x's pair |
| Resizes.StackedCount | hashtable.c:52-68 | The chain a bucket receives holds each moved node as often as the visit does when it targets that bucket, else never |
| Resizes.StackedDistinct | hashtable.c:52-68 | Moving distinct nodes builds chains without repeats |
| Resizes.PlaceEffect | hashtable.c:58-65 | After the splice the node's `next` is the old head, its `prev` is kept (as written) or NULL (corrected), the old head's `prev` points at it, and every other node is unchanged |
| Resizes.RelinkFrame | hashtable.c:52-68 | Nodes not moved are unchanged, and every new head is NULL or a moved node |
| Resizes.RelinkChains | hashtable.c:52-68 | Each new bucket's chain is exactly the nodes targeting it, in reverse visit order |
| Resizes.RelinkBackLinked | hashtable.c:52-68 | Inside every new chain each non-head `prev` names its predecessor |
| Resizes.RelinkHeadsCleared | hashtable.c:52-68 | With `prev` reset on placement, every new head has a NULL `prev` |
| Resizes.RebuiltVisit | hashtable.c:52-72 | The rebuilt table is walkable and holds the same multiset of nodes |
| Resizes.RebuiltContents | hashtable.c:52-72 | The rebuilt table stores the same multiset of (key, data) pairs |
| Resizes.ResizeEffect | hashtable.c:41-73 | Resize sets the capacity and keeps size, threshold, freed set, node multiset and pair multiset; every bucket is the reverse-visit stack of nodes hashed with the old capacity modulo the new one |
| Resizes.ResizeTargets | hashtable.c:56 | Every reachable node ends up in bucket `hash_oldCap(key) % newCap`, which lies in range |
| Resizes.ResizeConsistent | hashtable.c:41-73 | Resize as written keeps the consistency invariant: finite disjoint chains, size = reachable count, no freed node reachable, back links right |
| Resizes.ResizeIntendedLinked | hashtable.c:41-73 | The corrected resize also leaves every head with a NULL `prev` |
| Resizes.ResizeIntendedPlaces | hashtable.c:56 | After the corrected resize every node sits in the bucket that insert, get and remove compute for its key |
| Updates.InitEmpty | hashtable.c:76-97 | `initHashTable` gives the capacity, size 0, the threshold, all buckets empty, no pairs, and a doubly linked table |
| Updates.PushEffect | hashtable.c:104-110 | The new node heads the target bucket in front of the old chain, and every other bucket is unchanged |
| Updates.PushLinks | hashtable.c:104-110 | The insertion splice keeps the back links and the NULL `prev` of heads |
| Updates.PushConsistent | hashtable.c:102-112 | The splice keeps consistency and doubly linked tables, and adds exactly the pair (key, data) |
| Updates.InsertEffect | hashtable.c:100-117 | Insert keeps consistency, adds one to size and the pair to the contents, and doubles the capacity iff size+1 over capacity exceeds the threshold |
| Updates.InsertLinked | hashtable.c:100-117 | Insert without growth keeps the table doubly linked |
| Updates.InsertNoGrowth | hashtable.c:100-112 | Without growth, insert is exactly the splice into the key's bucket |
| Updates.LookupFirst | hashtable.c:155-162 | The search gives -1 when no pair has the key, otherwise the data of the first pair that has it |
| Updates.GetFirst | hashtable.c:151-163 | `get` gives -1 when no node of the key's bucket has the key, otherwise the data of the first that has it |
| Updates.GetAfterInsert | hashtable.c:100-163 | After an insert without growth, `get` of that key returns the new data |
| Updates.GetOtherAfterInsert | hashtable.c:100-163 | After an insert without growth, `get` of any other key is unchanged |
| Removes.UnlinkFrame | hashtable.c:126-136 | The head case moves the bucket to the successor and clears its `prev`; the inner case redirects the predecessor's `next` and the successor's `prev`; nothing else changes |
| Removes.UnlinkChains | hashtable.c:126-136 | In a doubly linked table the unlinking leaves the key's bucket without that node, order kept, and every other bucket unchanged |
| Removes.UnlinkLinked | hashtable.c:126-138 | Unlinking keeps the table doubly linked and removes exactly that node's pair |
| Removes.UnlinkEntries | hashtable.c:126-136 | The bucket's pairs lose exactly the pair at the position, order kept; other buckets' pairs are unchanged |
| Removes.RemoveAbsent | hashtable.c:124-149 | Removing a key the bucket does not hold leaves the table unchanged |
| Removes.RemoveCounts | hashtable.c:120-149 | On every table where remove is defined: an absent key is a no-op; otherwise the first node with the key is freed, size drops by one, and the capacity halves iff the load factor falls below a quarter of the threshold |
| Removes.RemoveEffect | hashtable.c:120-149 | On a doubly linked table, remove keeps consistency; an absent key is a no-op; a present one loses its first pair, size drops by one, and the capacity halves iff the load factor falls below a quarter of the threshold |
| Removes.RemoveLinked | hashtable.c:120-149 | Remove without shrinking keeps the table doubly linked |
| Removes.RemoveNoShrink | hashtable.c:120-149 | Without shrinking, remove is exactly the unlinking of the first match, or nothing |
| Removes.LookupOmit | hashtable.c:155-162 | Dropping a pair with another key does not change the search result |
| Removes.LookupSkip | hashtable.c:155-162 | Pairs in front without the key do not change the search result |
| Removes.GetAfterRemove | hashtable.c:120-163 | After a remove without shrinking, `get` of the key finds the next pair with that key, or -1 |
| Removes.GetAbsentAfterRemove | hashtable.c:120-163 | After removing an absent key, `get` of it is -1 |
| Removes.GetOtherAfterRemove | hashtable.c:120-163 | After a remove without shrinking, `get` of any other key is unchanged |
| Removes.RemoveIntendedFloor | hashtable.c:141-143 | The remove with a floor keeps consistency and a capacity of at least 1, and agrees with the code whenever the capacity exceeds 1 |
| HashTables.StageEnds | hashtable.c:48-68 | The staged walk starts from the heap and an all-NULL array and ends at the full relinking of the visit |
| HashTables.MoveStep | hashtable.c:54-66 | One step of the inner loop: the saved `next` is the chain successor, and placing the node extends the relinking by one |
| HashTables.SearchHit | hashtable.c:155-158 | Stopping at position k with the key, and none before, finds the match and `get`'s result |
| HashTables.SearchMiss | hashtable.c:155-162 | Walking the whole chain without the key gives no match and -1 |
| HashTables.RemoveHit | hashtable.c:137-145 | After unlinking the match, remove is the shrinking resize when the load factor falls below a quarter of the threshold, and the unlinking alone otherwise |
| HashTables.RemoveMiss | hashtable.c:124-149 | Without a match, remove leaves the table unchanged |
| HashTables.HashTable.Init | hashtable.c:76-97 | The new object's state is `initialCapacity` NULL buckets, size 0, the given threshold, over a fresh array |
| HashTables.HashTable.CreateNode | hashtable.c:27-38 | Appends a node with the key, the data and NULL links, returns its index, and changes nothing else |
| HashTables.HashTable.ResizeTable | hashtable.c:41-73 | The new state is `Resize` of the old one, over a fresh bucket array |
| HashTables.HashTable.MoveNodes | hashtable.c:52-68 | The loop over the old buckets takes the heap and new array from the first stage to the last |
| HashTables.HashTable.MoveChain | hashtable.c:53-67 | The walk of bucket i takes the heap and new array from stage i to stage i+1 |
| HashTables.HashTable.MoveToHead | hashtable.c:58-65 | The heap and array after the splice are `Place` of the old ones |
| HashTables.HashTable.Insert | hashtable.c:100-117 | The new state is `Insert` of the old one |
| HashTables.HashTable.RemoveKey | hashtable.c:120-149 | The new state is `Remove` of the old one |
| HashTables.HashTable.UnlinkNode | hashtable.c:126-138 | The new state is `Unlink` of the old one, on the same array |
| HashTables.HashTable.Get | hashtable.c:151-163 | Returns `Get` of the state |
| Scenarios.HashValues | hashtable.c:21-24 | The hash of keys 5, 10, 15, 20 at capacities 5 and 10 |
| Scenarios.MainScenario | hashtable.c:179-201 | `main`'s calls on values: the states after each insert, growth to 10 at the third insert, `get(5) == 50`, `get(15) == -1`, and `removeKey(15)` a no-op |
| Scenarios.Demo | hashtable.c:179-194 | The same calls on the class end in the same state with the same two `get` results |
| Findings.GrowthMisplacesKey | hashtable.c:56 | After `main`'s growth, key 15 sits in bucket 1 (old-capacity hash) while `get` looks in bucket 2 and returns -1 |
| Findings.IntendedGrowthFindsKey | hashtable.c:41-73 | The corrected resize of the same table puts 15 in bucket 2, and `get(15)` is 250 |
| Findings.NoSelfLink | hashtable.c:5-10 | No node of a chain has itself as `next` |
| Findings.StalePrevCorrupts | hashtable.c:126-136 | After `main`'s inserts, head 5 of bucket 0 keeps `prev` = node 10; removing 5 makes node 10 point at itself and leaves the freed node as the bucket head, so the chain no longer ends |
| Findings.ShrinkToZero | hashtable.c:141-143 | `init(1, 1.0)`, `insert(5,50)`, `removeKey(5)` leaves capacity 0, where no `get` or `insert` is defined |
| Findings.ShrinkFloorKeepsBucket | hashtable.c:141-143 | With the floor, the same removal keeps one empty bucket and `get(5)` is -1 |
| Findings.NegativeKeyOutside | hashtable.c:101 | Key -1 at capacity 5 gets index -3, so neither insert nor get is defined |
| Findings.NegativeKeyIntended | hashtable.c:21-24 | The corrected hash sends key -1 to bucket 1 of 5 |

## Left out

- `print` (lines 166-176) and the `printf` calls of `main`: output is not modelled.
  `TableSpec.Entries` gives the pairs that `print` would show for a bucket.
- Failing `malloc` and `exit` (lines 29-32, 43-46, 78-81, 87-90): allocation is taken to
  succeed.
- `free`:
  - A freed node stays in the heap sequence and its index joins `freed`. Use after free is
    visible only as membership of that set.
  - The old bucket array is simply dropped, as is the header freed at the end of `main`.
- Hashing.Hash: the multiplier is the exact decimal 0.61803398875 and the arithmetic is on
  exact reals. The single-precision rounding of `key * A` and of the load factor is not
  modelled, so for large keys the binary's bucket may differ.
- TableSpec.Grows: the load-factor comparison is made on exact reals rather than on
  `float`.
- Integer overflow: keys, `size` and `2 * capacity` are unbounded integers, and the
  undefined float-to-int cast of an out-of-range product is not modelled.
- HashTables.HashTable.Init: requires a non-negative `initialCapacity`. The C code would
  pass a negative size to `malloc`.
- HashTables.HashTable.Get: requires the whole chain of the key's bucket to end in NULL,
  while the C loop only needs to reach the first match.
- HashTables.HashTable.RemoveKey: requires, as `get` does, a chain that ends. When the
  removal triggers a shrink, it also requires that the resize walk ends and places every
  node inside the new array. On a corrupted table the C code would loop or write out of
  bounds instead.
- HashTables.HashTable.Insert: requires a bucket index inside the array. When growth
  follows, it also requires that the resize is defined. A negative key or a corrupted
  table is undefined behaviour in C.
- Updates.InsertLinked, Removes.RemoveLinked: stated only for calls without a resize. The
  resize as written does not keep heads' `prev` NULL, as the second finding shows.
- Updates.GetAfterInsert, Removes.GetAfterRemove: stated only for calls without a resize.
  After the resize as written, `get` can miss keys, as the first finding shows.
- The amortized cost of growing and shrinking is not modelled.
- The class models the operations as written. The corrected `ResizeIntended`,
  `RemoveIntended` and `HashIntended` are value-level definitions with their own proofs;
  no class method uses them.

## Findings

| source | as written | input that shows it | evidently intended | confidence | as-written member | corrected member |
|---|---|---|---|---|---|---|
| hashtable.c:56 | `resizeTable` computes each node's bucket with `hash(ht, …)` while `ht->capacity` still holds the old capacity; it is updated only at line 72 | `main`: after `insert(ht, 15, 250)` grows the table from 5 to 10, key 15 sits in bucket 1 and `get(ht, 15)` looks in bucket 2, returning -1 | hash with the new capacity, so every node sits where `get` looks | not executed | Findings.GrowthMisplacesKey | Resizes.ResizeIntendedPlaces |
| hashtable.c:58-65 | a node moved to the head of a new chain keeps its old `prev`; `removeKey` takes `prev == NULL` to mean "head" (line 126) | `main`'s four inserts, then `removeKey(ht, 5)`: node 5 heads bucket 0 with `prev` = node 10, so line 132 makes node 10 point at itself and bucket 0 keeps the freed node | set `prev` to NULL when a node becomes a head | not executed | Findings.StalePrevCorrupts | Resizes.ResizeIntendedLinked |
| hashtable.c:141-143 | the shrink halves any capacity, so a capacity of 1 becomes 0 and every later `% ht->capacity` divides by zero | `initHashTable(1, 1.0)`, `insert(ht, 5, 50)`, `removeKey(ht, 5)` | never shrink below a capacity of 1 | not executed | Findings.ShrinkToZero | Removes.RemoveIntendedFloor |
| hashtable.c:23 | truncation toward zero makes the hash of a negative key negative, and C `%` keeps the sign | `insert(ht, -1, 7)` at capacity 5 writes to `table[-3]` | a bucket index in [0, capacity) for every key | not executed | Findings.NegativeKeyOutside | Hashing.HashIntended |
