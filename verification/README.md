# SeedBase core in Dafny

A model of two components of SeedBase and proofs of their properties.

**The in-memory B+ tree.** It covers `Node`, `LeafNode`, `InternalNode` and `BPlusTreeMemory`.
- A node is the immutable datatype `Node = Leaf(keys, values) | Internal(keys, children)`.
- `insert` returns the node after the insertion together with the optional new right sibling (`Inserted(node, sibling)`). Java returns the sibling, or `null` when nothing split.
- The leaf inserts after every key at most the new key. It splits at `size / 2` when it holds more than `order` keys.
- The internal node routes with the upper-bound scan, so a key equal to a separator goes right. It takes in a split child's sibling and strips the promoted key only from an internal sibling. It splits at `keys.size / 2` when it holds more than `order - 1` keys.
- The tree rejects an order below 3. It grows a new root over a split root.

The proofs relate every operation to a flat reference: the tree's (key, value) pairs in leaf order.
- The corrected insertion (see the first finding below) is a stable sorted insertion into that sequence. The insertion as written builds the same tree whenever the stored keys are distinct.
- With distinct keys, `search` is a lookup in it.
- `update` overwrites exactly what `search` returns.
- The corrected insertion and update preserve the structural invariants: arity, sorted keys, separator bounds, anchored separators, capacity and equal leaf depth. The insertion as written keeps arity, capacity and equal leaf depth for any keys.

**The fixed-record store of `SimpleDataBase`.**
- The file is a byte sequence of 16-byte records: a big-endian 4-byte id, then the name cut or zero-padded to 12 bytes.
- Java `int` and `byte` are modelled as their bit patterns (`bv32`, `bv8`).
- `bytesToInt` is modelled with Java's sign extension of bytes.
- `select` is the first record whose id matches, or nothing.
- `selectBinarySearch` is a binary search that compares ids as signed 32-bit values.

Modules:
- `SortedSeq` and `Flat` hold generic sequence facts and the flat reference.
- `Nodes` holds the datatype and its invariants.
- `LeafNode`, `InternalNode` and `NodeOps` hold the node operations.
- `EntriesProofs`, `OrderProofs`, `AnchorProofs`, `ShapeProofs`, `SearchProofs` and `UpdateProofs` prove one property each.
- `BPlusTreeMemory` is the tree object.
- `AsWrittenProofs` shows that the code as written agrees with the corrected insertion on distinct keys.
- `RoutingFinding` is the run behind the first finding below.
- `SimpleDataBase` is the record store.

## Model

| member | source | states |
|---|---|---|
| `Nodes.Promote` | src/main/java/org/example/InternalNode.java:30-35 | The promoted key is the sibling's first key. It is removed from the sibling's keys only when the sibling is internal; a leaf sibling is returned unchanged and keeps it as data. No pair is lost. |
| `SortedSeq.UpperBoundCountsAtMost` | src/main/java/org/example/InternalNode.java:21-25 | On sorted separators, the routing index equals the number of separators at most the key, so a key equal to a separator is routed to its right. |
| `LeafNode.InsertIntoNode` | src/main/java/org/example/LeafNode.java:33-40 | Keys and values each grow by one and stay paired. The pairs become the stable sorted insertion of the new pair: after every pair whose key is at most the new key, so equal keys keep insertion order. Sorted keys stay sorted. |
| `LeafNode.SplitLeafNode` | src/main/java/org/example/LeafNode.java:50-64 | The receiver keeps the first `size / 2` keys and values and the sibling gets the rest. The halves concatenate to the input, and the sibling keeps its first key as data. |
| `LeafNode.Insert` | src/main/java/org/example/LeafNode.java:16-31 | There is no sibling exactly when the leaf holds at most `order` keys after the insertion. The receiver's pairs followed by the sibling's are the sorted insertion of the new pair. A sorted leaf gives two sorted halves, with every receiver key at most the sibling's first key. |
| `LeafNode.InsertCapacity` | src/main/java/org/example/LeafNode.java:24-30 | A leaf within capacity stays within it: after a split from `order + 1` keys both halves hold at most `order` keys, and the receiver is never empty. |
| `LeafNode.Search` | src/main/java/org/example/LeafNode.java:66-75 | Returns a value exactly when the key is in the leaf, and then the value paired with its first occurrence. This is the lookup in the leaf's pairs. |
| `LeafNode.Update` | src/main/java/org/example/LeafNode.java:77-86 | Reports success exactly when the key is present. It then overwrites only the value of the first matching key; on a miss every value is unchanged. Keys never change. |
| `LeafNode.DuplicateKeepsOldest` | src/main/java/org/example/LeafNode.java:33-40 | Inserting a key already in a sorted leaf leaves `search` in that leaf returning the oldest value. |
| `InternalNode.InsertIntoNode` | src/main/java/org/example/InternalNode.java:49-56 | The key goes in at the given position and the child right after it, so `children.size == keys.size + 1` is kept. The position is a parameter: `NodeOps.AbsorbAsWritten` passes the key's own upper-bound position, as the code computes it, and `NodeOps.Absorb` passes the split child's position. |
| `InternalNode.InsertIntoNodeEntries` | src/main/java/org/example/InternalNode.java:49-56 | The new child's pairs appear right after those of the child at the insertion position. |
| `InternalNode.SplitInternalNode` | src/main/java/org/example/InternalNode.java:64-85 | The receiver keeps `keys[..mid]` and `children[..mid + 1]`, and the sibling gets `keys[mid..]` and `children[mid + 1..]`. Key and child lists concatenate back to the input. The sibling has as many keys as children until its first key is promoted. |
| `InternalNode.SplitEntries` | src/main/java/org/example/InternalNode.java:64-85 | A split loses and reorders no pair: the receiver's pairs followed by the sibling's are the node's pairs. |
| `InternalNode.SplitIfFull` | src/main/java/org/example/InternalNode.java:37-44 | The node splits exactly when it holds more than `order - 1` keys, and is returned unchanged otherwise. After a split from `order` keys both halves fit the capacity once the sibling's first key is promoted. |
| `SortedSeq.UpperBound` | src/main/java/org/example/InternalNode.java:21-25 | The routing index is the first position whose separator is above the key: every separator before it is at most the key. |
| `NodeOps.Insert` | src/main/java/org/example/InternalNode.java:20-47 | `Node.insert`, corrected: the result is well formed and keeps the node's kind, and a split sibling has the shape needed for promotion. Its content is stated by `EntriesProofs.InsertEntries`, `OrderProofs.InsertOrdered`, `AnchorProofs.InsertAnchored`, `ShapeProofs.InsertCapacity` and `ShapeProofs.InsertBalanced`. |
| `NodeOps.Absorb` | src/main/java/org/example/InternalNode.java:29-46 | Taking in the routed child's result with the key filed at the split child's position gives a well-formed internal node and, on a split, an internal sibling ready for promotion. |
| `NodeOps.AbsorbChildren` | src/main/java/org/example/InternalNode.java:29-46 | Every child of the result and of the promoted sibling is an old child, the child's new receiver or its promoted sibling. |
| `NodeOps.InsertAsWritten` | src/main/java/org/example/InternalNode.java:20-56 | `Node.insert` as written: the result is well formed and keeps the node's kind. Its shape is stated by `ShapeProofs.InsertAsWrittenCapacity` and `ShapeProofs.InsertAsWrittenBalanced`, its agreement with the corrected form by `AsWrittenProofs.InsertAgrees`. |
| `NodeOps.AbsorbAsWritten` | src/main/java/org/example/InternalNode.java:29-56 | Taking in the child's result with the key filed at its own upper-bound position still gives a well-formed internal node and a well-formed sibling. |
| `NodeOps.AbsorbAsWrittenChildren` | src/main/java/org/example/InternalNode.java:49-56 | Wherever the key is filed, the children of the result are old children, the child's new receiver or its promoted sibling. |
| `NodeOps.AbsorbOutput` | src/main/java/org/example/InternalNode.java:29-46 | Taking in the routed child's result keeps every pair in place: the pairs of the children left of it, then the child's output, then the pairs of the children right of it. |
| `NodeOps.Search` | src/main/java/org/example/InternalNode.java:87-94 | Whatever `search` returns is a value stored under that key in the subtree it routes through. |
| `NodeOps.Update` | src/main/java/org/example/InternalNode.java:96-103 | Routes like `search` and reports success exactly when `search` finds the key. It changes no key, and leaves the node unchanged on a miss. A later `search` sees the new value for that key and the old result for every other key. |
| `EntriesProofs.InsertEntries` | src/main/java/org/example/InternalNode.java:20-47 | On an ordered node, the corrected insertion (split or not) is a stable sorted insertion of the pair into the node's pairs in leaf order. |
| `OrderProofs.InsertOrdered` | src/main/java/org/example/InternalNode.java:20-47 | The corrected insertion keeps keys sorted in every node and every separator between the keys of its two neighbouring subtrees. On a split the promoted key lies between the two halves. |
| `AnchorProofs.InsertAnchored` | src/main/java/org/example/InternalNode.java:20-47 | The corrected insertion keeps every separator equal to the first key stored in the subtree to its right and leaves no subtree empty. The promoted key is the promoted sibling's first stored key. |
| `ShapeProofs.InsertCapacity` | src/main/java/org/example/InternalNode.java:37-44 | The corrected insertion keeps every leaf at no more than `order` keys and every internal node at no more than `order - 1`, in the receiver and in the promoted sibling. |
| `ShapeProofs.InsertBalanced` | src/main/java/org/example/InternalNode.java:20-47 | The corrected insertion keeps every leaf at the same depth, in the receiver and in the promoted sibling. |
| `ShapeProofs.InsertAsWrittenCapacity` | src/main/java/org/example/InternalNode.java:20-56 | The insertion as written, for any keys, keeps every leaf at no more than `order` keys and every internal node at no more than `order - 1`, in the receiver and in the promoted sibling. |
| `ShapeProofs.InsertAsWrittenBalanced` | src/main/java/org/example/InternalNode.java:20-56 | The insertion as written, for any keys, keeps every leaf at the same depth, in the receiver and in the promoted sibling. |
| `SearchProofs.SearchComplete` | src/main/java/org/example/InternalNode.java:87-94 | In an ordered, anchored node, `search` finds every stored key, even one stored more than once. |
| `SearchProofs.SearchIsLookup` | src/main/java/org/example/LeafNode.java:66-75 | With distinct keys, `search` on an ordered, anchored node is the lookup of the key in the node's pairs. |
| `BPlusTreeMemory.New` | src/main/java/org/example/BPlusTreeMemory.java:28-34 | The constructor fails, with the source's message, exactly when the order is below 3. Otherwise the tree is valid, keeps the given order, and stores nothing. |
| `BPlusTreeMemory.Grow` | src/main/java/org/example/BPlusTreeMemory.java:50-63 | The new root holds one key over the two halves and stores exactly the pairs of the old root and the promoted sibling. |
| `BPlusTreeMemory.Insert` | src/main/java/org/example/BPlusTreeMemory.java:45-65 | The corrected tree insertion keeps the order and a well-formed root. Its content is stated by `BPlusTreeMemory.InsertEntries`, `BPlusTreeMemory.InsertValid` and `BPlusTreeMemory.InsertHeight`. |
| `BPlusTreeMemory.InsertAsWritten` | src/main/java/org/example/BPlusTreeMemory.java:45-65 | The tree insertion as written keeps the order and a well-formed root. Its shape is stated by `BPlusTreeMemory.InsertAsWrittenShape`. |
| `BPlusTreeMemory.Search` | src/main/java/org/example/BPlusTreeMemory.java:73-75 | Whatever `search` returns is stored in the tree under that key. |
| `BPlusTreeMemory.InsertEntries` | src/main/java/org/example/BPlusTreeMemory.java:45-65 | The corrected insertion into a valid tree is the stable sorted insertion of the pair into its pairs in leaf order. |
| `BPlusTreeMemory.InsertValid` | src/main/java/org/example/BPlusTreeMemory.java:6-12 | The corrected insertion keeps every tree invariant: arity, ordering, anchoring, capacity and equal leaf depth. |
| `BPlusTreeMemory.InsertHeight` | src/main/java/org/example/BPlusTreeMemory.java:45-65 | The height grows by one exactly when the old root splits and is unchanged otherwise. The new root then holds a single key. |
| `BPlusTreeMemory.GrowShape` | src/main/java/org/example/BPlusTreeMemory.java:50-63 | A new root over a split root within capacity and balanced at height `h` is within capacity and balanced at height `h + 1`. |
| `BPlusTreeMemory.InsertAsWrittenShape` | src/main/java/org/example/BPlusTreeMemory.java:45-65 | The insertion as written, for any keys, keeps the order, a well-formed root, capacity and equal leaf depth. The height grows by one exactly when the old root splits. |
| `BPlusTreeMemory.InsertAllAsWrittenShape` | src/main/java/org/example/BPlusTreeMemory.java:45-65 | Any run of insertions as written, duplicates included, keeps that shape. |
| `BPlusTreeMemory.SearchFindsStored` | src/main/java/org/example/BPlusTreeMemory.java:73-75 | In a valid tree `search` returns a value exactly when the key is stored. |
| `BPlusTreeMemory.SearchConsistent` | src/test/java/org/example/BPlusTreeMemoryTest.java:60-68 | A key stored only with one value is found with that value, duplicates included. |
| `BPlusTreeMemory.InsertThenSearch` | src/test/java/org/example/BPlusTreeMemoryTest.java:47-57 | Inserting a new key into a tree of distinct keys makes `search` return its value and changes no other search. |
| `BPlusTreeMemory.InsertThenFound` | src/main/java/org/example/BPlusTreeMemory.java:45-75 | After any corrected insertion, duplicates included, the inserted key and every previously stored key are found. |
| `BPlusTreeMemory.Update` | src/test/java/org/example/BPlusTreeMemoryTest.java:119-131 | `update` succeeds exactly when `search` finds the key. On a miss the tree is unchanged. A later `search` then sees the new value, and every other search is unchanged. |
| `BPlusTreeMemory.UpdateValid` | src/main/java/org/example/BPlusTreeMemory.java:76-78 | `update` keeps every tree invariant and the stored keys. |
| `BPlusTreeMemory.UpdateFindsStored` | src/main/java/org/example/BPlusTreeMemory.java:76-78 | `update` on a valid tree reports success exactly for stored keys. |
| `BPlusTreeMemory.InsertAllLookup` | src/main/java/org/example/BPlusTreeMemory.java:45-65 | Inserting pairs with new distinct keys one by one keeps the tree valid. A lookup in its pairs then finds each inserted pair's value and every old value. |
| `BPlusTreeMemory.BuildThenSearch` | src/test/java/org/example/BPlusTreeMemoryTest.java:100-109 | For any order of at least 3 and distinct keys, the tree built by insertion is valid. `search` returns exactly the inserted value of each key and nothing for any other key. |
| `AsWrittenProofs.PromotedKeyRoutesBack` | src/main/java/org/example/InternalNode.java:49-56 | In an ordered, anchored node with distinct stored keys, the key a split child hands up is routed by the upper-bound scan back to that child's position: `insertIntoNode`'s position is the split child's. |
| `AsWrittenProofs.InsertAgrees` | src/main/java/org/example/InternalNode.java:20-56 | On such a node the insertion as written and the corrected one return the same result, for any new key, a repeated one included. |
| `BPlusTreeMemory.InsertAsWrittenAgrees` | src/main/java/org/example/BPlusTreeMemory.java:45-65 | On a valid tree with distinct keys, the code as written builds the same tree as the corrected insertion. |
| `BPlusTreeMemory.InsertAllAsWrittenAgrees` | src/main/java/org/example/BPlusTreeMemory.java:45-65 | Inserting pairs with new distinct keys one by one, the code as written and the corrected insertion build the same tree. |
| `BPlusTreeMemory.BuildAsWrittenThenSearch` | src/test/java/org/example/BPlusTreeMemoryTest.java:47-57 | With the code as written, for any order of at least 3 and distinct keys, the built tree is valid. `search` returns exactly the inserted value of each key and nothing for any other key. |
| `RoutingFinding.AsWrittenLosesKey` | src/main/java/org/example/InternalNode.java:49-56 | With the promoted key placed as the code places it, inserting k5, k5, k5, k5, k7, k1, k2 at order 3 (any k1 < k2 < k5 < k7) stores (k7, "e"). `search(k7)` nevertheless returns nothing, and the tree is no longer ordered. |
| `RoutingFinding.AsWrittenLosesSeven` | src/main/java/org/example/InternalNode.java:49-56 | The same run with keys 5, 5, 5, 5, 7, 1, 2. |
| `RoutingFinding.CorrectedFindsKey` | src/main/java/org/example/InternalNode.java:30-44 | With the promoted key placed at the split child's position, the same run finds k7. |
| `SimpleDataBase.IntToBytes` | src/main/java/org/example/SimpleDataBase.java:134-141 | Four bytes from which the masked decoding gets the value back. |
| `SimpleDataBase.BytesToInt` | src/main/java/org/example/SimpleDataBase.java:143-148 | `bytesToInt` as written: the low byte is read as it is, a low byte of 0x80 or more sets all 24 upper bits, and when bytes 1 to 3 are below 0x80 the result is the masked decoding. |
| `SimpleDataBase.BytesToIntMasked` | src/main/java/org/example/SimpleDataBase.java:143-148 | The corrected decoding: each of the four bytes is found again in its own eight bits of the result. |
| `SimpleDataBase.CodecExamples` | src/test/java/org/example/SimpleSimpleDataBaseTest.java:24-46 | 0x12345678, 127 and 256 encode to the bytes shown and decode back. |
| `SimpleDataBase.MaskedRoundTrip` | src/main/java/org/example/SimpleDataBase.java:134-141 | Decoding with each byte masked to 0..255 inverts `intToBytes` on every 32-bit value. |
| `SimpleDataBase.MaskedInverse` | src/main/java/org/example/SimpleDataBase.java:134-141 | `intToBytes` inverts the masked decoding on every 4-byte sequence. |
| `SimpleDataBase.AsWrittenRoundTrip` | src/main/java/org/example/SimpleDataBase.java:143-148 | `bytesToInt` as written gives back the encoded value exactly when every byte of 0x80 or more in positions 1 to 3 is preceded only by 0xFF bytes. For non-negative values this means bytes 1 to 3 are below 0x80. |
| `SimpleDataBase.Pad` | src/main/java/org/example/SimpleDataBase.java:43 | The name is cut or zero-padded to exactly 12 bytes, keeping each of its first 12 bytes in place. |
| `SimpleDataBase.Record` | src/main/java/org/example/SimpleDataBase.java:35-48 | A record is 16 bytes. Its first 4 bytes are `intToBytes(id)` and the masked decoding reads them back as `id`. Byte `4 + i` is the name's byte `i` for `i` below the name's length and 12, and zero after a shorter name. |
| `SimpleDataBase.Insert` | src/main/java/org/example/SimpleDataBase.java:27-52 | `insert` leaves the bytes already in the file untouched and appends exactly the 16-byte record of the id and the name. |
| `SimpleDataBase.StripTrailingZeros` | src/main/java/org/example/SimpleDataBase.java:150-156 | The result is a prefix of the input that is empty or ends in a nonzero byte, followed in the input only by zeros. |
| `SimpleDataBase.StripUnique` | src/main/java/org/example/SimpleDataBase.java:150-156 | Those three facts determine the result. |
| `SimpleDataBase.StripIdempotent` | src/main/java/org/example/SimpleDataBase.java:150-156 | Stripping twice is stripping once. |
| `SimpleDataBase.NameRoundTrip` | src/test/java/org/example/SimpleSimpleDataBaseTest.java:96-105 | A name with no zero byte among its first 12 reads back as itself when it fits, and as its first 12 bytes otherwise. |
| `SimpleDataBase.LookupFirstMatch` | src/main/java/org/example/SimpleDataBase.java:67-80 | `select` finds nothing exactly when no record's id reads as the query. Otherwise it returns the user of the first record whose id does. |
| `SimpleDataBase.Select` | src/main/java/org/example/SimpleDataBase.java:54-81 | The record-by-record loop returns the first-match lookup. |
| `SimpleDataBase.LookupAfterInsert` | src/main/java/org/example/SimpleDataBase.java:27-81 | After `insert`, `select` still returns an earlier record with the same id. Otherwise it returns the new record exactly when its id field reads as the query. |
| `SimpleDataBase.InsertThenSelect` | src/test/java/org/example/SimpleSimpleDataBaseTest.java:48-63 | With the corrected decoding, a user just inserted is found with its id. When no earlier record has that id, it is found with its stored name. |
| `SimpleDataBase.AsWrittenMisses200` | src/main/java/org/example/SimpleDataBase.java:143-148 | With `bytesToInt` as written, `select(200)` right after `insert(200, name)` on an empty file finds nothing. |
| `SimpleDataBase.SelectBinarySearch` | src/main/java/org/example/SimpleDataBase.java:83-117 | A returned user is a record whose id equals the query as a Java `int`. On a file sorted by id, nothing is returned only when no record has that id. The search window shrinks each round. |

## Left out

- File I/O is not modelled: the streams and `RandomAccessFile`, `clear`, `testDb`, `main`, the static `filename`, and `IOException`. The file is a byte sequence passed in and returned.
- UTF-8 encoding and decoding of names is a library call. Names are byte sequences.
- Console output (`System.out.println`), `printTree`/`printNode` and every `toString` have no effect on state and are left out.
- The scan before the insertion in `LeafNode.insert` only feeds a debug print, and is left out.
- Leaf-to-leaf links and "at least half full" occupancy are claimed in comments, but no code builds or checks them, so they are not invariants here.
- The per-node `order` field is passed to the operations as a parameter. Every node of a tree gets the tree's order.
- An internal node's inherited `values` list is never written, so the `Internal` variant has no values at all.
- Object identity is not modelled: "`insert` returns a new sibling and never the receiver" becomes the separate `node` and `sibling` fields of `Inserted`.
- Tree keys are mathematical integers; Java `int` overflow plays no part in the tree's logic.
- "The oldest duplicate wins" is proved within one leaf only (`LeafNode.DuplicateKeepsOldest`). Equal keys that straddle a separator are routed right, so it does not hold tree-wide.
- EntriesProofs.InsertEntries: proved for the corrected insertion only. For the code as written it follows when the stored keys are distinct (through `AsWrittenProofs.InsertAgrees`); with duplicates the run in `RoutingFinding` breaks it.
- OrderProofs.InsertOrdered: proved for the corrected insertion only. For the code as written it follows on distinct stored keys, and `RoutingFinding.AsWrittenUnordered` shows it fails with duplicates.
- AnchorProofs.InsertAnchored: proved for the corrected insertion only. For the code as written it follows on distinct stored keys.
- BPlusTreeMemory.InsertEntries: proved for the corrected insertion only, with the same restriction for the code as written.
- BPlusTreeMemory.InsertValid: proved for the corrected insertion only. For the code as written, `BPlusTreeMemory.InsertAsWrittenShape` keeps the shape for any keys, and order and anchoring follow on distinct stored keys.
- BPlusTreeMemory.InsertThenFound: proved for the corrected insertion only. With the code as written and duplicate keys, `RoutingFinding.AsWrittenLosesKey` shows a stored key that is not found.
- The search and lookup lemmas on the whole tree assume distinct keys, except `BPlusTreeMemory.SearchFindsStored`, `BPlusTreeMemory.SearchConsistent` and `BPlusTreeMemory.InsertThenFound`.
- A partial trailing record (a file length not a multiple of 16) is not modelled. Only whole records are read, whereas the Java scan would decode it from stale buffer bytes.
- SimpleDataBase.SelectBinarySearch: matches ids by their value as Java `int`s (the code's `<` and `>`) rather than by bit pattern, and promises to find a record only on a file sorted by id, which the code assumes but never checks.
- SimpleDataBase.Select: on the `SignExtended` decoder it is the code as written, so it inherits the finding below; the corrected `Masked` decoder is the one the round-trip lemmas use.

## Findings

| source | as written | input that shows it | evidently intended | confidence | as-written member | corrected member |
|---|---|---|---|---|---|---|
| src/main/java/org/example/InternalNode.java:49-56 | `insertIntoNode` files the promoted key at its own upper-bound position among the separators, not at the index of the child that split. With a separator equal to the promoted key, the new sibling lands after a subtree holding larger keys. | Order 3, insert 5, 5, 5, 5, 7, 1, 2 (values a to g). The root becomes keys [5, 5] over leaves [1, 2], [5, 5, 7], [5, 5], and `search(7)` returns null although (7, "e") is stored. | The promoted key goes right after the separator left of the split child, and the sibling right after that child. Both placements agree whenever the stored keys are distinct. | high (not executed) | `RoutingFinding.AsWrittenLosesKey` (on `NodeOps.InsertAsWritten`, `BPlusTreeMemory.InsertAllAsWritten`) | `RoutingFinding.CorrectedFindsKey`, `BPlusTreeMemory.InsertThenFound` (on `NodeOps.Insert`) |
| src/main/java/org/example/SimpleDataBase.java:143-148 | `bytesToInt` ORs the bytes after Java widens them with their sign, so a byte of 0x80 or more sets every higher bit. | `insert(200, "x")` writes 00 00 00 C8, which reads back as -56, so `select(200)` returns null. | Each byte is masked to 0..255 before it is shifted. | high (not executed) | `SimpleDataBase.AsWrittenMisses200`, `SimpleDataBase.AsWrittenRoundTrip` | `SimpleDataBase.MaskedRoundTrip`, `SimpleDataBase.InsertThenSelect` |
