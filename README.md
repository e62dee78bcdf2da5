# Verified model of the aisdi-mapy containers

This project models the two associative containers of `aisdi-mapy`, a
course repository of C++ map templates. Both offer the same interface:
- `add` through `operator[]`;
- `valueOf`, `find`, `remove` by key and by iterator;
- `getSize`, `isEmpty`, `==`;
- construction from an initializer list, copying;
- bidirectional iterators that throw `std::out_of_range` at a boundary.

Keys and mapped values are `int`, and the default value `mapped_type{}` is
`0`. Every thrown `std::out_of_range` becomes an explicit error value: a
`Result` or an `Outcome` carrying a `MapError` (module `MapCommon`).

**`HashMap`** (module `HashMaps`, with the bucket invariant in
`HashChains`) is a separate-chaining table:
- `arr` is an array of `HASH_SIZE + 1` bucket heads. Each chain is the
  sequence of its entries, head first.
- New keys are pushed at the head of their chain.
- The table doubles before a NEW key is added while `size == HASH_SIZE - 1`;
  overwriting a present key never rehashes.
- `std::hash` is a hash function the map receives when it is created.
- An iterator is a `Cursor`: a bucket and an offset in its chain, or `End`.
  Its position in iteration order is `Position`, an index into the
  concatenation of the chains.

**`TreeMap`** (module `TreeMaps`) is an unbalanced binary search tree of
nodes with `parent`, `llink` and `rlink` pointers.
- The nodes live in an arena, `nodes: seq<NodeRec>`, with `-1` for a null
  pointer.
- The ghost `tree: Tree` is the search tree those pointers form (module
  `TreeShape`: `Linked` ties every record to the tree). The tree's keys are
  in search order, and it denotes a map and an in-order sequence of pairs
  (module `TreeOrder`).
- Descents keep a ghost zipper `Ctx`: the path from the root to the
  current subtree. The pointer writes of insertion and removal are proved
  as edits of the zipper (module `TreeEdit`).
- An iterator is a node number, with `-1` for `end()`. `Position` is the
  node's index in the in-order sequence, which is the iteration order.

Each state-changing method is proved against the map the container
represents (`contents` / `Contents()`). For the `TreeMap` this also fixes
the iteration sequence: `EntriesAscending` and `TreeOrder.SortedUnique`
show that `Entries()` is the one strictly ascending sequence of that map.
For the `HashMap` the iteration sequence depends on the bucket layout.
It is stated by the members that state their layout: `Add`, `Remove`,
`RemoveAt`, `Clear`, `Copy`, `CopyAsWritten`, and `Subscript` on a present
key. `Rehash`, `AddEntries`, `FromList` and `Assign` state only the map
(see Left out).

## Model

| member | source | states |
|---|---|---|
| MapCommon.EntriesMap | src/HashMap.h:130-135 | the map an initializer list denotes: every listed key is present, every present key is listed, and the last pair listed wins |
| HashChains.PrependValid | src/HashMap.h:66-74 | pushing a new key at the head of its bucket keeps the chain invariant and adds exactly that key |
| HashChains.OverwriteValid | src/HashMap.h:61-63 | overwriting the value of a stored node keeps the chain invariant and maps the key to the new value |
| HashChains.UnlinkValid | src/HashMap.h:208-217 | unlinking one node from its chain keeps the chain invariant and removes exactly its key |
| HashChains.ChainDenotes | src/HashMap.h:48-57 | bucket `i` holds exactly the stored keys that hash to `i`, with their values |
| HashChains.FlattenDenotes | src/HashMap.h:246-274 | the entries met in iteration order denote exactly the stored map |
| HashMaps.TwoKeysLayout | src/HashMap.h:59-77 | in a valid two-entry table whose hash sends every key to bucket 0, both entries sit in bucket 0 and every other bucket is empty |
| HashMaps.HashMap.PositionAt | src/HashMap.h:353-356 | an iterator at a node stands at an index below `size`, and the pair there is the node's pair |
| HashMaps.HashMap.EntriesDenote | src/HashMap.h:225-227 | the iteration sequence has `size` pairs and denotes the stored map |
| HashMaps.HashMap.HashFun | src/HashMap.h:39-42 | the bucket of a key is below `HASH_SIZE` |
| HashMaps.HashMap.FindNode | src/HashMap.h:48-57 | finds the key's node in its bucket exactly when the key is stored, holding its stored value |
| HashMaps.HashMap.Add | src/HashMap.h:59-77 | the map becomes `old[k := v]`; a present key is overwritten in place; a new key goes to the head of its bucket; doubles the table first when `size == HASH_SIZE - 1`; returns an iterator at the pair |
| HashMaps.HashMap.Rehash | src/HashMap.h:79-101 | a fresh array of twice the buckets holds the same map and size |
| HashMaps.MoveChain | src/HashMap.h:83-95 | moving a chain's entries into the new array keeps its invariant and adds exactly the chain's pairs |
| HashMaps.MoveEntry | src/HashMap.h:84-93 | pushing one entry into the new array keeps its invariant |
| HashMaps.HashMap.Clear | src/HashMap.h:103-119 | empties the map and resets `HASH_SIZE` to 2, keeping the array |
| HashMaps.HashMap.constructor | src/HashMap.h:121-123 | an empty map with `HASH_SIZE == 2` |
| HashMaps.HashMap.FromList | src/HashMap.h:130-135 | the map is `EntriesMap(list)` |
| HashMaps.HashMap.Copy | src/HashMap.h:137-144 | intended copy constructor: a fresh table of the same `HASH_SIZE` and hash, every bucket holding the same chain in the same order, so it iterates the same pairs as the other and compares equal to it |
| HashMaps.HashMap.CopyAsWritten | src/HashMap.h:137-144 | copy constructor as written: the same `HASH_SIZE`, hash and map, but every bucket holds the other's chain reversed |
| HashMaps.HashMap.CopyBuckets | src/HashMap.h:140-143 | adding the chains of a table bucket by bucket into an empty table of the same `HASH_SIZE` never rehashes, stores the same map, and leaves each bucket holding the chain reversed (iteration order) or in order (from the tail) |
| HashMaps.HashMap.CopyBucket | src/HashMap.h:142-143 | adding one bucket's chain changes only that bucket, to the chain reversed or kept, and counts its entries into `size` |
| HashMaps.HashMap.AddChain | src/HashMap.h:66-74 | `add` of a chain's keys head first into their empty bucket leaves the chain reversed there, other buckets unchanged |
| HashMaps.HashMap.AddChainBackwards | src/HashMap.h:66-74 | `add` of a chain's keys tail first into their empty bucket leaves the chain itself there, other buckets unchanged |
| HashMaps.CopyCounterexample | src/HashMap.h:137-144 | with two keys in bucket 0, the as-written copy compares unequal to the original and the intended copy compares equal |
| HashChains.Reverse | src/HashMap.h:66-74 | the chain that head pushes build: the same length, entry `i` taken from position `n - 1 - i` |
| HashChains.CopiedSameMap | src/HashMap.h:137-144 | a valid table whose buckets hold the same chains as another's, kept or reversed, stores the same map |
| HashChains.SameBucketsSameMap | src/HashMap.h:48-57 | two valid tables whose buckets hold the same entries store the same map |
| HashMaps.HashMap.Assign | src/HashMap.h:154-161 | afterwards the map equals the other's; self-assignment leaves the table untouched |
| HashMaps.HashMap.AddEntries | src/HashMap.h:157-159 | adding the pairs of a list from left to right yields `old + EntriesMap(list)` |
| HashMaps.HashMap.IsEmpty | src/HashMap.h:172-174 | true exactly when the map is empty |
| HashMaps.HashMap.GetSize | src/HashMap.h:225-227 | the number of keys, which is also the length of the iteration sequence |
| HashMaps.HashMap.Subscript | src/HashMap.h:176-179 | intended `operator[]`: a present key keeps its value and table; an absent key is inserted with 0; the result is the key's value |
| HashMaps.HashMap.SubscriptAsWritten | src/HashMap.h:176-179 | `operator[]` as written: the map becomes `old[k := 0]` and the result is always 0 |
| HashMaps.HashMap.ValueOf | src/HashMap.h:187-191 | the stored value, or `KeyNotFound` for an absent key |
| HashMaps.HashMap.Find | src/HashMap.h:198-201 | `end()` exactly when the key is absent, otherwise an iterator whose pair is the key and its value |
| HashMaps.HashMap.Remove | src/HashMap.h:203-218 | an absent key fails with `KeyNotFound` and changes nothing; a present key is removed, `size` drops by one, and its bucket becomes the old chain minus that one node, in the same order, with no other bucket changed |
| HashMaps.HashMap.RemoveAt | src/HashMap.h:220-223 | `end()` fails with `InvalidIterator` and changes nothing; otherwise the key under the iterator is removed: its bucket loses exactly the node at the iterator's offset, order kept, and no other bucket changes |
| HashMaps.HashMap.Equal | src/HashMap.h:229-240 | true exactly when both maps iterate the same pairs in the same order; then they store the same map |
| HashMaps.HashMap.SameFrom | src/HashMap.h:232-239 | the lock-step loop over two equally sized tables answers whether their iteration sequences are equal |
| HashMaps.HashMap.SameStep | src/HashMap.h:235-237 | one step of that loop compares the pairs at index `n` and advances both iterators to `n + 1` |
| HashMaps.HashMap.AgreeAtEnd | src/HashMap.h:234-239 | when either iterator reaches `end()` after `n` agreeing pairs of equally sized tables, the sequences are equal |
| HashMaps.HashMap.Begin | src/HashMap.h:246-251 | an iterator at position 0 (`end()` when empty) |
| HashMaps.HashMap.Next | src/HashMap.h:301-316 | `end()` throws; otherwise the iterator one position further |
| HashMaps.HashMap.Prev | src/HashMap.h:324-345 | intended `operator--`: position 0 throws; otherwise the iterator one position back |
| HashMaps.HashMap.PrevAsWritten | src/HashMap.h:324-345 | `operator--` as written: from `end()` it throws exactly when buckets `1 .. HASH_SIZE-1` are empty; at a node of bucket 0 it throws; at a chain head elsewhere it goes to the tail of the same bucket |
| HashMaps.PrevCounterexample | src/HashMap.h:333-336 | with two keys in bucket 0, the as-written `operator--` throws from `end()` and from the second entry, where `Prev` reaches positions 1 and 0 |
| HashMaps.SubscriptCounterexample | src/HashMap.h:176-179 | after storing 7 under a key, the as-written `operator[]` reads 0 and the intended one reads 7 |
| HashMaps.HashMap.Deref | src/HashMap.h:353-356 | `end()` is out of range; otherwise the pair at the iterator's position |
| TreeOrder.OrderedSorted | src/TreeMap.h:353-368 | the in-order sequence of a search tree is strictly ascending in its keys |
| TreeOrder.InOrderDenotes | src/TreeMap.h:309-331 | the in-order sequence of a search tree denotes the tree's map |
| TreeOrder.SortedUnique | src/TreeMap.h:288-301 | two strictly ascending pair sequences that denote the same map are equal |
| TreeOrder.LinkedKeyUnique | src/TreeMap.h:102-113 | two nodes of a search tree with the same key are the same node |
| TreeOrder.RemoveMinKeys | src/TreeMap.h:66-72 | removing the leftmost node keeps the order and drops exactly the least key with its value |
| TreeOrder.SameShapeDenotes | src/TreeMap.h:116-125 | a tree of the same shape, keys and values has the same keys, map and in-order sequence, and is ordered if the original is |
| TreeEdit.AttachLeaf | src/TreeMap.h:83-88 | hanging a new leaf on the parent's `llink` or `rlink` keeps the links and order and yields `old[k := v]` |
| TreeEdit.HangLeaf | src/TreeMap.h:83-88 | attaching the new leaf at the end of a descent sets exactly the parent's empty link on the side the key calls for, and the leaf's `parent` |
| TreeEdit.OverwriteValue | src/TreeMap.h:89 | overwriting a node's value keeps links and order and yields `old[key := v]` |
| TreeEdit.SpliceLinked | src/TreeMap.h:219-259 | splicing out a node with at most one child, by redirecting the parent link and the child's parent, keeps the arena linked and unlinks the node |
| TreeEdit.SpliceContents | src/TreeMap.h:219-259 | splicing out such a node keeps the order and removes exactly its key |
| TreeEdit.TransplantLinked | src/TreeMap.h:260-275 | putting another node in a node's place, with its children and parent, keeps the arena linked |
| TreeEdit.SuccessorContents | src/TreeMap.h:260-275 | replacing a node of two children by the least node of its right subtree removes exactly the node's key |
| TreeEdit.SuccessorOrdered | src/TreeMap.h:260-275 | that replacement keeps the search order |
| TreeMaps.TreeMap.PositionInjective | src/TreeMap.h:336-346 | two iterators at the same position are the same node |
| TreeMaps.TreeMap.LeastFirst | src/TreeMap.h:309-311 | the node of the least key stands at position 0 |
| TreeMaps.TreeMap.GreatestLast | src/TreeMap.h:403-408 | the node of the greatest key stands at the last position |
| TreeMaps.TreeMap.SuccessorBelow | src/TreeMap.h:355-358 | the least node of a node's right subtree is one position after it |
| TreeMaps.TreeMap.PredecessorBelow | src/TreeMap.h:382-385 | the greatest node of a node's left subtree is one position before it |
| TreeMaps.TreeMap.Leftmost | src/TreeMap.h:68-70 | following `llink` to the end reaches the subtree's first pair in order |
| TreeMaps.TreeMap.Rightmost | src/TreeMap.h:60-62 | following `rlink` to the end reaches the subtree's last pair in order |
| TreeMaps.TreeMap.MinNode | src/TreeMap.h:66-72 | null for an empty map; otherwise the node of the least key below the given node |
| TreeMaps.TreeMap.MaxNode | src/TreeMap.h:58-64 | null for an empty map; otherwise the node of the greatest key below the given node |
| TreeMaps.TreeMap.FindJustThePlace | src/TreeMap.h:102-113 | null exactly when the key is absent; otherwise the node of that key, holding its value |
| TreeMaps.TreeMap.FindPlace | src/TreeMap.h:82-99 | descending from a node whose interval admits `k`, the map becomes `old[k := v]` with the same root; a key of the subtree changes only its own node's value; otherwise a new leaf `(k, v)` is appended and hung from the last node visited, on the `llink` or `rlink` side its key calls for, with no other record changed, and it lies in the tree |
| TreeMaps.TreeMap.Add | src/TreeMap.h:74-80 | the map becomes `old[k := v]`; an existing key changes only its node's value; a new key in an empty map becomes the root, otherwise it is hung as a leaf `(k, v)` from its last visited node, with no other record changed |
| TreeMaps.TreeMap.Subscript | src/TreeMap.h:172-184 | intended `operator[]`: a present key keeps its value; an absent key is inserted with 0; the result is the key's value |
| TreeMaps.TreeMap.SubscriptAsWritten | src/TreeMap.h:172-184 | `operator[]` as written: the map becomes `old[k := 0]` and the result is always 0 |
| TreeMaps.SubscriptCounterexample | src/TreeMap.h:179-181 | after storing 7 under a key, the as-written `operator[]` reads 0 and the intended one reads 7 |
| TreeMaps.TreeMap.Find | src/TreeMap.h:203-207 | `end()` exactly when the key is absent, otherwise an iterator whose pair is the key and its value |
| TreeMaps.TreeMap.Deref | src/TreeMap.h:417-420 | `end()` is out of range; otherwise the pair at the iterator's position |
| TreeMaps.TreeMap.ValueOf | src/TreeMap.h:192-195 | the stored value; an absent key dereferences `end()` and is out of range |
| TreeMaps.TreeMap.IsEmpty | src/TreeMap.h:168-170 | true exactly when the map is empty |
| TreeMaps.TreeMap.Begin | src/TreeMap.h:309-311 | an iterator at position 0 (`end()` when empty) |
| TreeMaps.TreeMap.End | src/TreeMap.h:313-315 | the iterator past the last position |
| TreeMaps.TreeMap.GiveMin | src/TreeMap.h:410-415 | an empty map throws; otherwise the node at position 0 |
| TreeMaps.TreeMap.GiveMax | src/TreeMap.h:403-408 | an empty map throws; otherwise the node at the last position |
| TreeMaps.TreeMap.Next | src/TreeMap.h:353-368 | `end()` throws; otherwise the iterator one position further, `end()` after the last |
| TreeMaps.TreeMap.Prev | src/TreeMap.h:376-395 | position 0 throws, including `end()` of an empty map; otherwise the node one position back; from `end()` the last node |
| TreeMaps.TreeMap.EntriesCount | src/TreeMap.h:278-286 | the iteration sequence has one pair per stored key |
| TreeMaps.TreeMap.EntriesAscending | src/TreeMap.h:353-368 | iteration visits strictly ascending keys, and its pairs denote the stored map |
| TreeMaps.TreeMap.SameEntries | src/TreeMap.h:288-301 | two maps iterate the same pairs exactly when they store the same map |
| TreeMaps.TreeMap.CountSteps | src/TreeMap.h:283 | counting `++` steps from one node to another gives the difference of their positions |
| TreeMaps.TreeMap.GetSize | src/TreeMap.h:278-286 | the number of stored keys |
| TreeMaps.TreeMap.EqualStep | src/TreeMap.h:295-298 | compares the pairs at one shared position and advances both iterators by one |
| TreeMaps.TreeMap.EqualPairs | src/TreeMap.h:290-300 | for maps of equal size, the lock-step loop answers whether the iteration sequences are equal |
| TreeMaps.TreeMap.Equal | src/TreeMap.h:288-301 | true exactly when both maps iterate the same pairs, and exactly when they store the same map |
| TreeMaps.TreeMap.Unlink | src/TreeMap.h:219-259 | removing a node with at most one child puts that child in its place and removes exactly its key |
| TreeMaps.TreeMap.Transplant | src/TreeMap.h:264-273 | another node takes a node's place, children and parent, with its own key and value |
| TreeMaps.TreeMap.RemoveTwoChildren | src/TreeMap.h:260-275 | intended removal of a node with two children: the least node of its right subtree is unlinked and takes its place; exactly its key is removed |
| TreeMaps.TreeMap.RemoveTwoChildrenAsWritten | src/TreeMap.h:260-275 | as written: only the successor's `llink` and `parent` are rewritten (and `root` when the removed node is the root) |
| TreeMaps.RemoveCounterexample | src/TreeMap.h:263-268 | removing root key 2 from the tree `{1, 2, 3, 4}` as written leaves a root from which only keys 1 and 3 are reachable, so key 4 is lost |
| TreeMaps.RemoveExample | src/TreeMap.h:213-276 | the intended removal of key 2 from the same tree leaves exactly `{1, 3, 4}` with their values |
| TreeMaps.TreeMap.RemoveAt | src/TreeMap.h:213-276 | `end()` fails with `InvalidIterator` and changes nothing; otherwise the key under the iterator is removed |
| TreeMaps.TreeMap.Remove | src/TreeMap.h:209-211 | an absent key removes at `end()` and fails without change; a present key is removed |
| TreeMaps.TreeMap.CopyTree | src/TreeMap.h:116-125 | appends a copy of the other tree's nodes with the same shape, keys and values, linked under the given parent, leaving existing nodes alone |
| TreeMaps.TreeMap.constructor | src/TreeMap.h:127 | an empty map |
| TreeMaps.TreeMap.FromList | src/TreeMap.h:133-138 | the map is `EntriesMap(list)` |
| TreeMaps.TreeMap.Copy | src/TreeMap.h:140-144 | the same iteration sequence and map as the other, and a tree of the same shape |
| TreeMaps.TreeMap.Assign | src/TreeMap.h:152-158 | afterwards the same iteration sequence and map as the other, self-assignment included; a tree of the other's shape, or untouched on self-assignment |

## Left out

- Move constructors and move assignments of both maps (`src/HashMap.h:146-170`, `src/TreeMap.h:147-166`): they only swap ownership of storage.
- Destructors, `destroy` and `delete`: memory is not modelled. A removed tree node stays in the arena as an unreachable record.
- The const and non-const overloads are one member each. `cbegin`/`cend`, `operator!=`, `operator->`, the post-increment forms and the `Iterator` subclasses are not modelled separately.
- `operator[]` and `valueOf` return references, through which callers could write; the model returns the value.
- Templates: keys and values are `int`.
- `std::hash` is not modelled; the hash map is given an arbitrary function to the naturals.
- HashMaps.HashMap.Rehash: `src/HashMap.h:93` writes the new head into the old `arr` instead of `new_arr`; the model links it into the new array, as intended.
- HashMaps.HashMap.Remove: `src/HashMap.h:213-214`, removing a chain head that has successors, does not move the bucket head; the model unlinks the node, as intended. The scan at `src/HashMap.h:206-207` has no effect and is left out.
- HashMaps.HashMap.Next: `src/HashMap.h:305` also increments the cached bucket number of the node it leaves, which a later `remove` reads; the model keeps the bucket in a local variable.
- HashMaps.HashMap.Copy: the copy keeps each chain's order (see Findings); `CopyAsWritten` is the source's loop, which reverses every chain.
- HashMaps.HashMap.Assign: states only the resulting map. Copy assignment clears to `HASH_SIZE == 2` and re-adds the pairs with rehashes (`src/HashMap.h:154-161`), so the layout, and whether `a = b; a == b` holds, is not stated.
- HashMaps.HashMap.PrevAsWritten: does not model the lasting post-decrement `current->hash--` of the node's cached bucket number at `src/HashMap.h:336`, which a later `remove` (`src/HashMap.h:206`, `:215`) and `++`/`--` (`src/HashMap.h:305`, `:333`) read.
- TreeMaps.TreeMap.FindPlace: requires that the descent does not start at an empty tree with no parent (`x` and `parnt` both null). `add` never calls it that way; the source would create an unattached node there.
- TreeMaps.TreeMap.RemoveAt: intended for the two-children case (see Findings); the other cases follow the source.
- The `main.cpp` benchmarks and tests of the repository are not part of this model.

## Findings

| source | as written | input that shows it | evidently intended | confidence | as-written member | corrected member |
|---|---|---|---|---|---|---|
| src/HashMap.h:176-179 | `operator[]` calls `add(key, mapped_type{})`, which overwrites the value of a present key | store 7 under key 1, then read `m[1]`: it yields 0 | return the stored value and insert 0 only for an absent key | not executed | HashMaps.SubscriptCounterexample | HashMaps.HashMap.Subscript |
| src/HashMap.h:324-345 | `operator--` throws at any node of bucket 0, even one with a predecessor; from `end()` it never looks at bucket 0; at a chain head it takes the tail of its own bucket, because of the post-decrement at line 336 | hash every key to bucket 0 and add keys 1 and 2: `--end()` and `--` from the second entry both throw | step back one position in iteration order | not executed | HashMaps.PrevCounterexample | HashMaps.HashMap.Prev |
| src/TreeMap.h:172-184 | `operator[]` runs `find_place` with value `mapped_type{}`, which overwrites a present key's value | store 7 under key 1, then read `m[1]`: it yields 0 | return the stored value and insert 0 only for an absent key | not executed | TreeMaps.SubscriptCounterexample | TreeMaps.TreeMap.Subscript |
| src/HashMap.h:137-144 | the copy constructor re-adds the other's pairs in iteration order and `add` pushes each at the head of its bucket, so every chain comes out reversed and `==`, which compares iteration order, fails | hash every key to bucket 0 and add keys 1 and 2: the copy compares unequal to the original | every chain in the same order, so a copy equals its original | not executed | HashMaps.CopyCounterexample | HashMaps.HashMap.Copy |
| src/TreeMap.h:260-275 | removing a node with two children rewrites only the successor's `llink` and `parent`: the successor is not unlinked from its old parent, no parent link points to it, and its right subtree is dropped | the tree of keys 2 (root), 1, 4 and 3 (left child of 4); `remove(2)` makes node 3 the root with reachable keys 1 and 3 only | splice the successor out, then put it in the removed node's place with both children | not executed | TreeMaps.RemoveCounterexample | TreeMaps.TreeMap.RemoveTwoChildren |
