# Verified model of the search engine's data structures

This project is a Dafny model of the hand-written collections at the heart of a
small Java search engine, together with the step that turns crawled pages into
the link graph the page ranker works on:

- **`ArrayDictionary`** (module `ArrayDictionaries`): an unsorted array of
  key/value pairs that doubles when full. The live pairs are a ghost sequence
  `Contents`; the bindings they stand for are `AsMap(Contents)`. Every method is
  proved against the sequence functions `FindKey`, `Lookup`, `PutPair` and
  `RemovePair`, and those functions are proved to implement a map.
- **`ChainedHashDictionary`** (module `ChainedHashDictionaries`): a separate-chaining
  hash table. Its buckets hold what an `ArrayDictionary` holds, and it grows
  through a fixed list of primes once the entry count reaches three quarters of
  the table. The invariant `Hashed` ties the bucket array to a ghost map
  `Contents`: each binding lives in exactly the bucket its key hashes to. The
  iterator yields `Flatten` of the buckets, which is proved to hold exactly the
  bindings of `Contents`, each once.
- **`ChainedHashSet`** (module `ChainedHashSets`): a set kept as the keys of a
  chained dictionary whose values are all `true`.
- **`ArrayHeap`** (module `ArrayHeaps`): a 4-ary min-heap in an array whose slot 0
  is unused. The parent of slot `i` is `(i + 2) / 4` and its children are
  `4i - 2 .. 4i + 1`. The array grows by `4^height` slots. Its methods are proved
  equal to the sequence functions `SiftUp`, `SiftDown`, `InsertF` and
  `RemoveMinF`. Those functions are proved to keep heap order and to add or
  remove exactly one element. They also reproduce the layouts the heap's tests
  expect.
- **`DoubleLinkedList`** (module `DoubleLinkedLists`): nodes with a final datum
  and `prev`/`next` links. A ghost sequence `Nodes` lists the live nodes, and each
  operation is stated on the sequence of their data.
- **`makeGraph`** (module `PageRank`): the vertices are the URIs of the pages,
  and each page's edges go to the distinct pages it links to. Self-links and
  links leaving the page set are dropped.

Java `null` is `None` of `Option`, both for keys or elements and for empty array
slots. A thrown exception is the `Failure`/`Fail` alternative of a `Result` or
`Outcome`: `NoSuchKey`, `NoSuchElement`, `EmptyContainer`, `IllegalArgument`,
`IndexOutOfBounds` and `NullPointer`.

Some behaviours of the code are kept exactly as written, and the contracts
state them:

- `DoubleLinkedList.remove` reads `back.data` before checking for emptiness.
  On a list that was never filled it therefore throws NullPointer. On a list
  that was emptied it throws EmptyContainer.
- Emptying the list with `remove` leaves a node holding null as `front` and
  `back`, so an iterator over the emptied list yields one null (`Yields`).
- `delete(size - 1)` is routed through `remove`, so `delete(-1)` on an empty list
  answers as `remove` does rather than with IndexOutOfBounds.
- `indexOf` calls `equals` on the list's element. A null element met before a
  match therefore throws NullPointer, unless the element searched for is null.
- `makeGraph` puts one entry per page. When two pages share a URI, the later
  page's out-set wins (`LastIndex`).

## Model

| member | source | states |
|---|---|---|
| ArrayDictionaries.FindKey | src/main/java/datastructures/concrete/dictionaries/ArrayDictionary.java:120-133 | the result is the first index holding the key, or -1 exactly when no pair has that key |
| ArrayDictionaries.AsMapLookup | src/main/java/datastructures/concrete/dictionaries/ArrayDictionary.java:52-65 | a key is bound exactly when the scan finds it, and it is bound to the value of the first pair holding it |
| ArrayDictionaries.AsMapSize | src/main/java/datastructures/concrete/dictionaries/ArrayDictionary.java:100-102 | with distinct keys the number of pairs is the number of bindings |
| ArrayDictionaries.LookupIsMap | src/main/java/datastructures/concrete/dictionaries/ArrayDictionary.java:52-65 | `get` answers the bound value, or NoSuchKey exactly when the key is unbound |
| ArrayDictionaries.PutPairIsMap | src/main/java/datastructures/concrete/dictionaries/ArrayDictionary.java:68-77 | overwriting the first pair of the key or appending a new one keeps keys distinct, binds the key to the value, leaves other bindings alone, and grows the count only for a new key |
| ArrayDictionaries.RemovePairIsMap | src/main/java/datastructures/concrete/dictionaries/ArrayDictionary.java:80-92 | dropping the key's pair keeps keys distinct, unbinds exactly that key, and shrinks the count only when the key was bound |
| ArrayDictionaries.AsMapRemove | src/main/java/datastructures/concrete/dictionaries/ArrayDictionary.java:84-91 | closing the gap left by pair `i` unbinds exactly its key |
| ArrayDictionaries.ShiftLeft | src/main/java/datastructures/concrete/dictionaries/ArrayDictionary.java:86-88 | the corrected shift: slots before the index are kept, the later live pairs move one slot left, the freed last slot is cleared and the slots beyond are untouched |
| ArrayDictionaries.ShiftLeftAsWritten | src/main/java/datastructures/concrete/dictionaries/ArrayDictionary.java:86-88 | the loop as written, over a sequence standing for the array, copying `pairs[index + 1]` for every index up to `size - 1` |
| ArrayDictionaries.RemoveOnFullArrayOverruns | src/main/java/datastructures/concrete/dictionaries/ArrayDictionary.java:86-88 | on a full array the loop as written reads one slot past the end |
| ArrayDictionaries.ShiftLeftAsWrittenBelowCapacity | src/main/java/datastructures/concrete/dictionaries/ArrayDictionary.java:86-88 | below capacity the loop as written closes the gap and copies the null beyond the last live pair into its slot |
| ArrayDictionaries.ArrayDictionary.constructor | src/main/java/datastructures/concrete/dictionaries/ArrayDictionary.java:25-28 | a fresh dictionary holds no pairs in an array of 10 slots |
| ArrayDictionaries.ArrayDictionary.Get | src/main/java/datastructures/concrete/dictionaries/ArrayDictionary.java:52-65 | the scan returns the bound value, or NoSuchKey exactly when the key is unbound |
| ArrayDictionaries.ArrayDictionary.Put | src/main/java/datastructures/concrete/dictionaries/ArrayDictionary.java:68-77 | the pairs become `PutPair` of the old pairs, so the bindings become the old ones with the key bound to the value |
| ArrayDictionaries.ArrayDictionary.Remove | src/main/java/datastructures/concrete/dictionaries/ArrayDictionary.java:80-92 | returns the bound value and unbinds the key through the corrected shift, or throws NoSuchKey when the key is unbound, leaving the bindings as they were |
| ArrayDictionaries.ArrayDictionary.ContainsKey | src/main/java/datastructures/concrete/dictionaries/ArrayDictionary.java:95-97 | true exactly when the key is bound, that is when `indexOf` is not -1 |
| ArrayDictionaries.ArrayDictionary.Size | src/main/java/datastructures/concrete/dictionaries/ArrayDictionary.java:100-102 | the number of pairs, which is the number of bindings |
| ArrayDictionaries.ArrayDictionary.CheckResize | src/main/java/datastructures/concrete/dictionaries/ArrayDictionary.java:107-115 | a full array is replaced by one twice as long holding the same pairs; otherwise nothing changes; afterwards there is a free slot |
| ArrayDictionaries.ArrayDictionary.IndexOf | src/main/java/datastructures/concrete/dictionaries/ArrayDictionary.java:120-133 | the scan answers `FindKey` of the pairs: the first index of the key, or -1 |
| ArrayDictionaries.ArrayDictionary.Iterator | src/main/java/datastructures/concrete/dictionaries/ArrayDictionary.java:150-153 | the iterator starts at index 0 over the live pairs |
| ArrayDictionaries.ArrayDictionaryIterator.HasNext | src/main/java/datastructures/concrete/dictionaries/ArrayDictionary.java:166-169 | true exactly when pairs remain |
| ArrayDictionaries.ArrayDictionaryIterator.Next | src/main/java/datastructures/concrete/dictionaries/ArrayDictionary.java:171-179 | yields the next live pair and advances, or throws NoSuchElement at the end |
| ChainedHashDictionaries.ThresholdsIncrease | src/main/java/datastructures/concrete/dictionaries/ChainedHashDictionary.java:22-27 | each table size of the prime list allows more entries than the one before it |
| ChainedHashDictionaries.Bucket | src/main/java/datastructures/concrete/dictionaries/ChainedHashDictionary.java:109-117 | the bucket index is below the table size, and the null key goes to bucket 0 |
| ChainedHashDictionaries.BucketClearsSignBit | src/main/java/datastructures/concrete/dictionaries/ChainedHashDictionary.java:114 | masking the 32-bit hash with `0x7fffffff` and then reducing it modulo the table size gives the bucket index |
| ChainedHashDictionaries.HashedLookup | src/main/java/datastructures/concrete/dictionaries/ChainedHashDictionary.java:56-63 | a key is bound exactly when the bucket it hashes to binds it, and to the same value |
| ChainedHashDictionaries.HashedPut | src/main/java/datastructures/concrete/dictionaries/ChainedHashDictionary.java:65-76 | putting into the key's bucket keeps the table invariant for the map with the key rebound |
| ChainedHashDictionaries.HashedRemove | src/main/java/datastructures/concrete/dictionaries/ChainedHashDictionary.java:78-89 | removing from the key's bucket keeps the table invariant for the map without the key |
| ChainedHashDictionaries.FlattenIsContents | src/main/java/datastructures/concrete/dictionaries/ChainedHashDictionary.java:154-194 | the pairs of all buckets, bucket by bucket, have distinct keys and are exactly the bindings of the table, each once |
| ChainedHashDictionaries.PutInto | src/main/java/datastructures/concrete/dictionaries/ChainedHashDictionary.java:68-75 | creates the bucket if null, counts a new key, and binds the key in its bucket |
| ChainedHashDictionaries.RehashBucket | src/main/java/datastructures/concrete/dictionaries/ChainedHashDictionary.java:132-141 | re-putting one old bucket's pairs into the new table keeps it hashed, with the count equal to the bindings placed so far |
| ChainedHashDictionaries.Rehash | src/main/java/datastructures/concrete/dictionaries/ChainedHashDictionary.java:128-143 | copying every old bucket into an empty new table yields the same bindings, correctly hashed, and counts them |
| ChainedHashDictionaries.RemoveFrom | src/main/java/datastructures/concrete/dictionaries/ChainedHashDictionary.java:81-85 | the corrected removal of the Findings row for lines 80-85: removing from a non-null bucket returns the bound value and uncounts the key, or throws NoSuchKey and leaves the bindings alone |
| ChainedHashDictionaries.ChainedRemoveOnFullBucketOverruns | src/main/java/datastructures/concrete/dictionaries/ChainedHashDictionary.java:80-85 | removing a bound key from a bucket whose array dictionary is full, as written, throws ArrayIndexOutOfBounds after the count has already dropped by one |
| ChainedHashDictionaries.ChainedRemoveBelowCapacity | src/main/java/datastructures/concrete/dictionaries/ChainedHashDictionary.java:80-85 | below the bucket's capacity, `remove` as written answers as the corrected removal: the key's value or NoSuchKey, the count dropping only for a bound key |
| ChainedHashDictionaries.ChainedHashDictionary.constructor | src/main/java/datastructures/concrete/dictionaries/ChainedHashDictionary.java:34-40 | an empty table of 7 null buckets, threshold 5 |
| ChainedHashDictionaries.ChainedHashDictionary.Get | src/main/java/datastructures/concrete/dictionaries/ChainedHashDictionary.java:56-63 | the bound value, or NoSuchKey exactly when the key is unbound |
| ChainedHashDictionaries.ChainedHashDictionary.Put | src/main/java/datastructures/concrete/dictionaries/ChainedHashDictionary.java:65-76 | after a possible resize the key is bound to the value and every other binding is kept |
| ChainedHashDictionaries.ChainedHashDictionary.Remove | src/main/java/datastructures/concrete/dictionaries/ChainedHashDictionary.java:78-89 | the corrected removal of the Findings row for lines 80-85: returns the bound value and unbinds exactly that key, or throws NoSuchKey and changes nothing |
| ChainedHashDictionaries.ChainedHashDictionary.ContainsKey | src/main/java/datastructures/concrete/dictionaries/ChainedHashDictionary.java:91-99 | true exactly when the key is bound |
| ChainedHashDictionaries.ChainedHashDictionary.Size | src/main/java/datastructures/concrete/dictionaries/ChainedHashDictionary.java:101-104 | the entry counter equals the number of bindings |
| ChainedHashDictionaries.ChainedHashDictionary.CheckResize | src/main/java/datastructures/concrete/dictionaries/ChainedHashDictionary.java:122-146 | at the threshold the table moves to the next prime size with the same bindings; below it nothing changes; afterwards the count is below the threshold |
| ChainedHashDictionaries.ChainedHashDictionary.Iterator | src/main/java/datastructures/concrete/dictionaries/ChainedHashDictionary.java:148-152 | the iterator will yield every binding of the table exactly once |
| ChainedHashDictionaries.ChainedIterator.constructor | src/main/java/datastructures/concrete/dictionaries/ChainedHashDictionary.java:159-165 | a fresh iterator has all pairs of all buckets still to yield |
| ChainedHashDictionaries.ChainedIterator.HasNext | src/main/java/datastructures/concrete/dictionaries/ChainedHashDictionary.java:167-170 | the corrected test: true exactly when pairs remain |
| ChainedHashDictionaries.ChainedIterator.Next | src/main/java/datastructures/concrete/dictionaries/ChainedHashDictionary.java:172-186 | the corrected step: yields the next pair and moves past empty buckets, or throws NoSuchElement when nothing is left |
| ChainedHashDictionaries.ChainedIterator.FindNonEmptyIndex | src/main/java/datastructures/concrete/dictionaries/ChainedHashDictionary.java:188-193 | advances the index to the next bucket with pairs, skipping nothing that would be yielded |
| ChainedHashDictionaries.SkipNullFlatten | src/main/java/datastructures/concrete/dictionaries/ChainedHashDictionary.java:188-193 | `findNonNullIndex` as written skips only null buckets, which hold nothing to yield |
| ChainedHashDictionaries.NextAsWrittenStep | src/main/java/datastructures/concrete/dictionaries/ChainedHashDictionary.java:172-186 | `next` as written yields the next pair and keeps the cursor ready when no bucket has been emptied |
| ChainedHashDictionaries.IterationAsWritten | src/main/java/datastructures/concrete/dictionaries/ChainedHashDictionary.java:154-194 | with no emptied bucket, the iterator as written yields every pair in bucket order, and the call after the last pair throws NoSuchElement |
| ChainedHashDictionaries.EmptiedBucketStopsIteration | src/main/java/datastructures/concrete/dictionaries/ChainedHashDictionary.java:167-186 | a bucket emptied by removes makes the iterator as written throw NoSuchElement although a later bucket still holds a pair |
| ChainedHashSets.KeysOfBindings | src/main/java/datastructures/concrete/ChainedHashSet.java:66-68 | the keys of pairs with distinct keys are distinct and are exactly the keys they bind |
| ChainedHashSets.ChainedHashSet.constructor | src/main/java/datastructures/concrete/ChainedHashSet.java:19-21 | a fresh set is empty |
| ChainedHashSets.ChainedHashSet.Add | src/main/java/datastructures/concrete/ChainedHashSet.java:23-26 | the elements become the old ones plus the item |
| ChainedHashSets.ChainedHashSet.Remove | src/main/java/datastructures/concrete/ChainedHashSet.java:28-35 | removes a present item through the corrected dictionary removal, or throws NoSuchElement and changes nothing |
| ChainedHashSets.ChainedHashSet.Contains | src/main/java/datastructures/concrete/ChainedHashSet.java:37-40 | true exactly when the item is an element |
| ChainedHashSets.ChainedHashSet.Size | src/main/java/datastructures/concrete/ChainedHashSet.java:42-45 | the number of elements |
| ChainedHashSets.ChainedHashSet.Iterator | src/main/java/datastructures/concrete/ChainedHashSet.java:47-50 | the iterator will yield exactly the elements, each once |
| ChainedHashSets.SetIterator.HasNext | src/main/java/datastructures/concrete/ChainedHashSet.java:60-63 | true exactly when elements remain |
| ChainedHashSets.SetIterator.Next | src/main/java/datastructures/concrete/ChainedHashSet.java:65-68 | yields the key of the next pair, or throws NoSuchElement at the end |
| ArrayHeaps.Parent | src/main/java/datastructures/concrete/ArrayHeap.java:192-198 | every slot from 2 on has a parent strictly before it and at least 1 |
| ArrayHeaps.ChildrenOfParent | src/main/java/datastructures/concrete/ArrayHeap.java:196-206 | the children `4i - 2 .. 4i + 1` of a slot are exactly the slots whose parent it is |
| ArrayHeaps.SwapElements | src/main/java/datastructures/concrete/ArrayHeap.java:186-190 | swapping two live slots keeps the elements |
| ArrayHeaps.SmallestChild | src/main/java/datastructures/concrete/ArrayHeap.java:160-174 | the chosen child is a live child of the slot and no larger than any of its live children |
| ArrayHeaps.SiftUpOrders | src/main/java/datastructures/concrete/ArrayHeap.java:147-155 | percolating up from a hole restores heap order and keeps the elements |
| ArrayHeaps.SiftDownOrders | src/main/java/datastructures/concrete/ArrayHeap.java:157-184 | percolating down from a hole restores heap order and keeps the elements |
| ArrayHeaps.InsertKeepsHeap | src/main/java/datastructures/concrete/ArrayHeap.java:100-113 | inserting keeps heap order and adds exactly the item |
| ArrayHeaps.RootIsMinimum | src/main/java/datastructures/concrete/ArrayHeap.java:86-93 | in a non-empty heap, slot 1 holds an element no larger than any element |
| ArrayHeaps.RemoveMinKeepsHeap | src/main/java/datastructures/concrete/ArrayHeap.java:61-76 | moving the last slot to the root and percolating down keeps heap order and removes exactly one copy of the minimum |
| ArrayHeaps.AscendingInsertLayout | src/test/java/datastructures/sorting/TestArrayHeapFunctionality.java:66-75 | inserting 1 to 5 lays them out as 1, 2, 3, 4, 5 |
| ArrayHeaps.DescendingInsertLayout | src/test/java/datastructures/sorting/TestArrayHeapFunctionality.java:77-85 | inserting 9 down to 1 lays them out as 1, 2, 8, 7, 6, 9, 5, 4, 3 |
| ArrayHeaps.RepeatedInsertLayout | src/test/java/datastructures/sorting/TestArrayHeapFunctionality.java:98-108 | inserting five 1s then four 0s lays them out as 0, 0, 1, 1, 1, 1, 1, 0, 0 |
| ArrayHeaps.ArrayHeap.constructor | src/main/java/datastructures/concrete/ArrayHeap.java:30-34 | an empty heap of height 1 in 6 slots |
| ArrayHeaps.ArrayHeap.RemoveMin | src/main/java/datastructures/concrete/ArrayHeap.java:61-76 | throws EmptyContainer on an empty heap; otherwise returns an element no larger than any other, removes one copy of it and keeps heap order |
| ArrayHeaps.ArrayHeap.TakeRoot | src/main/java/datastructures/concrete/ArrayHeap.java:69-73 | moves the last slot to the root, clears it and percolates down: the slots become `RemoveMinF` of the old ones |
| ArrayHeaps.ArrayHeap.PeekMin | src/main/java/datastructures/concrete/ArrayHeap.java:86-93 | throws EmptyContainer on an empty heap; otherwise returns slot 1, an element no larger than any element |
| ArrayHeaps.ArrayHeap.Insert | src/main/java/datastructures/concrete/ArrayHeap.java:100-113 | throws IllegalArgument for null and changes nothing; otherwise the slots become `InsertF` of the old ones, which adds exactly the item and keeps heap order |
| ArrayHeaps.ArrayHeap.Place | src/main/java/datastructures/concrete/ArrayHeap.java:108-112 | stores the item in the next slot and percolates up: the slots become `InsertF` of the old ones |
| ArrayHeaps.ArrayHeap.Size | src/main/java/datastructures/concrete/ArrayHeap.java:118-121 | the number of elements |
| ArrayHeaps.ArrayHeap.CheckResize | src/main/java/datastructures/concrete/ArrayHeap.java:136-145 | when the last slot is in use the array grows by `4^height` after the height increases, keeping every slot; afterwards there is a free slot |
| ArrayHeaps.ArrayHeap.PercolateUp | src/main/java/datastructures/concrete/ArrayHeap.java:147-155 | the swap loop leaves the slots equal to `SiftUp` from the last slot |
| ArrayHeaps.ArrayHeap.PercolateDown | src/main/java/datastructures/concrete/ArrayHeap.java:157-184 | the swap loop leaves the slots equal to `SiftDown` from the root |
| ArrayHeaps.ArrayHeap.FindSmallestChild | src/main/java/datastructures/concrete/ArrayHeap.java:160-174 | the inner loop picks `SmallestChild`: the first of the smallest live children |
| ArrayHeaps.ArrayHeap.Swap | src/main/java/datastructures/concrete/ArrayHeap.java:186-190 | exchanges two slots and changes nothing else |
| DoubleLinkedLists.IndexOfF | src/main/java/datastructures/concrete/DoubleLinkedList.java:147-156 | a found index holds the item and is preceded by neither the item nor null; -1 exactly when neither the item nor null occurs; NullPointer only for a non-null item after a null element |
| DoubleLinkedLists.IndexOfWithoutNulls | src/main/java/datastructures/concrete/DoubleLinkedList.java:147-156 | without null elements the search succeeds, and finds an index exactly when the item is an element |
| DoubleLinkedLists.DoubleLinkedList.constructor | src/main/java/datastructures/concrete/DoubleLinkedList.java:24-28 | an empty list with null `front` and `back` |
| DoubleLinkedLists.DoubleLinkedList.Add | src/main/java/datastructures/concrete/DoubleLinkedList.java:31-40 | appends the item as a new back node |
| DoubleLinkedLists.DoubleLinkedList.Remove | src/main/java/datastructures/concrete/DoubleLinkedList.java:43-56 | returns and drops the last element; on an empty list throws NullPointer if it was never filled and EmptyContainer if it was emptied; emptying it leaves a list that iterates as one null |
| DoubleLinkedLists.DoubleLinkedList.Get | src/main/java/datastructures/concrete/DoubleLinkedList.java:59-62 | element `index`, or IndexOutOfBounds outside `[0, size)` |
| DoubleLinkedLists.DoubleLinkedList.Set | src/main/java/datastructures/concrete/DoubleLinkedList.java:65-84 | replaces only element `index`, or throws IndexOutOfBounds and keeps the nodes, `front` and `back` |
| DoubleLinkedLists.DoubleLinkedList.Replace | src/main/java/datastructures/concrete/DoubleLinkedList.java:68-83 | a fresh node holding the item takes the place of node `index` in the chain |
| DoubleLinkedLists.DoubleLinkedList.Insert | src/main/java/datastructures/concrete/DoubleLinkedList.java:87-124 | for `0 <= index <= size` the elements become `s[..index] + [item] + s[index..]`; otherwise IndexOutOfBounds, keeping the nodes, `front` and `back` |
| DoubleLinkedLists.DoubleLinkedList.WalkFromBack | src/main/java/datastructures/concrete/DoubleLinkedList.java:102-110 | the walk from the back stops at nodes `index - 1` and `index` |
| DoubleLinkedLists.DoubleLinkedList.Splice | src/main/java/datastructures/concrete/DoubleLinkedList.java:112-123 | a fresh node holding the item is linked in at position `index` |
| DoubleLinkedLists.DoubleLinkedList.Delete | src/main/java/datastructures/concrete/DoubleLinkedList.java:127-144 | returns element `index` and leaves `s[..index] + s[index + 1..]`; deleting the only element leaves one null to iterate, as `remove` does; `delete(-1)` on an empty list answers as `remove` and keeps the nodes, `front` and `back`; any other index outside the list gives IndexOutOfBounds and keeps them too |
| DoubleLinkedLists.DoubleLinkedList.Unlink | src/main/java/datastructures/concrete/DoubleLinkedList.java:132-143 | node `index` leaves the chain and the others stay linked in order |
| DoubleLinkedLists.DoubleLinkedList.IndexOf | src/main/java/datastructures/concrete/DoubleLinkedList.java:147-156 | the walk answers `IndexOfF` of the elements |
| DoubleLinkedLists.DoubleLinkedList.Size | src/main/java/datastructures/concrete/DoubleLinkedList.java:159-161 | the number of elements |
| DoubleLinkedLists.DoubleLinkedList.Contains | src/main/java/datastructures/concrete/DoubleLinkedList.java:164-166 | true exactly when the item is an element, with `indexOf`'s NullPointer passed on |
| DoubleLinkedLists.DoubleLinkedList.Iterator | src/main/java/datastructures/concrete/DoubleLinkedList.java:169-171 | the iterator yields the elements front to back, or one null for an emptied list |
| DoubleLinkedLists.DoubleLinkedList.GetNode | src/main/java/datastructures/concrete/DoubleLinkedList.java:229-245 | node `index`, found from the nearer end, or IndexOutOfBounds outside `[0, max)` |
| DoubleLinkedLists.DoubleLinkedListIterator.HasNext | src/main/java/datastructures/concrete/DoubleLinkedList.java:207-209 | true exactly when something remains to be yielded |
| DoubleLinkedLists.DoubleLinkedListIterator.Next | src/main/java/datastructures/concrete/DoubleLinkedList.java:218-225 | yields the current datum and moves on, or throws NoSuchElement at the end |
| PageRank.Uris | src/main/java/search/analyzers/PageRankAnalyzer.java:59-62 | the collected URIs are exactly those of the pages |
| PageRank.LastIndex | src/main/java/search/analyzers/PageRankAnalyzer.java:64-76 | the last page with a given URI, whose `put` no later page overwrites |
| PageRank.GraphOverShape | src/main/java/search/analyzers/PageRankAnalyzer.java:64-76 | the vertices are the URIs of the pages, each holding the out-set of the last page with that URI |
| PageRank.GraphOverEntries | src/main/java/search/analyzers/PageRankAnalyzer.java:64-76 | with unique URIs, each page's vertex holds that page's out-set |
| PageRank.GraphVertices | src/main/java/search/analyzers/PageRankAnalyzer.java:59-75 | the graph's vertices are exactly the URIs of the pages |
| PageRank.GraphSelfContained | src/main/java/search/analyzers/PageRankAnalyzer.java:50-53 | every edge ends at a vertex of the graph |
| PageRank.GraphNoSelfLoops | src/main/java/search/analyzers/PageRankAnalyzer.java:70 | no vertex has an edge to itself |
| PageRank.GraphEdges | src/main/java/search/analyzers/PageRankAnalyzer.java:66-74 | a page's edges go to exactly its links that are URIs of pages other than itself; links leaving the page set are dropped |
| PageRank.GraphSize | src/main/java/search/analyzers/PageRankAnalyzer.java:75 | with unique URIs the graph has one vertex per page |
| PageRank.MakeGraph | src/main/java/search/analyzers/PageRankAnalyzer.java:55-78 | the two loops build exactly `Graph` of the pages |
| PageRank.AllowedLinks | src/main/java/search/analyzers/PageRankAnalyzer.java:66-74 | the inner loop collects exactly the page's links into the allowed set other than its own URI |

## Left out

- Integer widths: sizes, counters and heap slots are unbounded integers, so a Java `int` overflowing after more than 2^31 insertions is not modelled.
- Hashing and equality: `hashCode` is a function from keys to 32-bit signed values, supplied when a dictionary is created. `equals` is Dafny equality on keys and elements.
- Generic-array helpers: `makeArrayOfPairs`, `makeArrayOfChains` and `makeArrayOfT` are not modelled; arrays are Dafny arrays of `Option`.
- ChainedHashDictionaries: a bucket is a value, the optional sequence of its pairs, not an `ArrayDictionary` object; each update of a bucket dictionary is modelled by storing the updated pairs in the array cell.
- ChainedHashDictionaries.ChainedHashDictionary.CheckResize: the load limit is `tableSize * 3 / 4` in integers rather than the source's `(int) (tableSize * 0.75f)`. The two agree for the table sizes up to 4194301. From 8388593 on, float rounding moves the source's limit by a few entries: 6291445 instead of 6291444 for 8388593, and 1610612736 instead of 1610612735 for 2147483647.
- ChainedHashDictionaries.ChainedHashDictionary.Put: requires fewer bindings than the last prime's threshold; past it, `checkResize` would index beyond the end of the prime list, which is not modelled.
- ChainedHashSets.ChainedHashSet.Add: inherits the same bound from the dictionary's `Put`.
- ChainedHashDictionaries.ChainedIterator.Next: the iterator class is the corrected one (see Findings); the iterator as written is modelled by the functions `StartAsWritten`, `NextAsWritten` and `RunAsWritten`.
- ChainedHashDictionaries.RemoveFrom: removes with the corrected `ArrayDictionary` shift (see Findings), so it never throws ArrayIndexOutOfBounds; the source does on a bucket whose array dictionary is full, after `pairsSize--`. That path is modelled only by `RemoveAsWritten`.
- ChainedHashDictionaries.ChainedHashDictionary.Remove: delegates to `RemoveFrom`, so it inherits the corrected removal and does not promise the source's ArrayIndexOutOfBounds on a full bucket.
- ChainedHashDictionaries.RemoveAsWritten: gives only the answer and the count of `remove` as written; what the aborted shift leaves in the bucket's array is not tracked, because a bucket is modelled as its sequence of pairs without its spare slots.
- ChainedHashSets.ChainedHashSet.Remove: delegates to the dictionary's `Remove`, so it inherits the corrected removal too.
- ChainedHashSets.ChainedHashSet.Iterator: wraps the corrected `ChainedIterator`, so it promises every element even after removes have emptied a bucket, which the source's iterator does not deliver.
- ChainedHashSets.SetIterator.Next: steps the corrected `ChainedIterator`, with the same consequence.
- Iterators over a collection changed during the iteration are not modelled: each iterator's invariant covers the collection as it stood when the iterator was made.
- ArrayHeaps: elements are `int`. The `Comparable` order of the source is integer order, and null is `None`.
- ArrayHeaps: `toString` is modelled only as the sequence of live slots (`Values`), which it prints.
- ArrayHeaps.ArrayHeap.CheckResize: `(int) Math.pow(4, height)` is the exact power `Pow4(height)`; the floating-point power is not modelled.
- DoubleLinkedLists.DoubleLinkedList.GetNode: requires `index != size` when `max == size + 1`. There `getNode` would return `back`, but `insert`, the only caller passing `size + 1`, never asks for it.
- PageRank: the set of pages is given as the sequence its iterator visits, and a page is its URI with its list of links. The `Webpage` class is not part of this model.
- PageRank: `ChainedHashSet` and `ChainedHashDictionary` instances inside `makeGraph` are Dafny sets and maps. Both classes are modelled on their own in their modules.
- PageRank: `makePageRanks` and `computePageRank` are left out, because they are floating-point power iteration.
- `TfIdfAnalyzer` is not part of this model.

## Findings

| source | as written | input that shows it | evidently intended | confidence | as-written member | corrected member |
|---|---|---|---|---|---|---|
| src/main/java/datastructures/concrete/dictionaries/ArrayDictionary.java:86-88 | the shift loop runs `index` up to `size() - 1` and reads `pairs[index + 1]` | put 10 distinct keys into a fresh `ArrayDictionary`, which fills its 10 slots without resizing, then remove any of them: the loop reads `pairs[10]` and throws ArrayIndexOutOfBounds | shift the pairs after the removed one left, up to slot `size - 2`, and clear slot `size - 1` | not executed | ArrayDictionaries.RemoveOnFullArrayOverruns | ArrayDictionaries.ArrayDictionary.Remove |
| src/main/java/datastructures/concrete/dictionaries/ChainedHashDictionary.java:80-85 | `remove` decrements `pairsSize` when the bucket holds the key, then calls the bucket's `remove`, which carries the shift loop of the first row | give ten keys the same `hashCode` and put them into a fresh dictionary: the table grows to 13 and then to 31 buckets, the rehash refills the shared bucket's fresh `ArrayDictionary`, and the tenth put fills its 10 slots; removing any of the ten then drops `pairsSize` and throws ArrayIndexOutOfBounds | remove the pair without overrunning the bucket's array, so that the count and the bindings stay in step | not executed | ChainedHashDictionaries.ChainedRemoveOnFullBucketOverruns | ChainedHashDictionaries.RemoveFrom |
| src/main/java/datastructures/concrete/dictionaries/ChainedHashDictionary.java:167-186 | `hasNext` is `index < chains.length`, and `next` moves to the next bucket that is not null, even one emptied by removes | put a key hashing to bucket 0 and one hashing to bucket 1, remove the first, then iterate: `hasNext` is true, and `next` throws NoSuchElement although a binding remains | skip every bucket without pairs, and answer `hasNext` by whether pairs remain | not executed | ChainedHashDictionaries.EmptiedBucketStopsIteration | ChainedHashDictionaries.ChainedIterator.Next |
