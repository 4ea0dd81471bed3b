# Skip list

A model of the Redis-style skip list in `skiplist/skiplist.go`. This is an ordered
set of elements kept in one linked list per level. Every node takes part in level
0. A node drawn at height `h` also takes part in levels 1 to `h - 1`. The header
sentinel owns all 32 levels (SKIPLIST_MAXLEVEL). Every forward link also records
its span: how many level-0 steps it jumps over. Level 0 has backward links, and
the list keeps a tail pointer, its length and its active level.

The model is imperative, as the source is:

- `Skiplist.Skiplist` is a class with the source's fields:
  - `nodes`, a store of nodes indexed by id, where id 0 is the header and -1 is nil;
  - `tail`, `length` and `level`.
- Its methods update those fields in place.
- Each step of insertion and deletion is a method with loops over the store:
  - the level walk and the descent that records `update` and `rank`;
  - raising the active level, linking, and incrementing the spans;
  - unlinking, fixing the backward links, and trimming the level.
- The ghost fields `keys`, `ids` and `heights` give the list's abstract
  contents: the elements in order, the nodes holding them, and the nodes'
  heights.
- The invariant `SkiplistState.ValidState` says:
  - the keys ascend strictly, and node `ids[k]` holds `keys[k]`;
  - every node's link on every level goes to the next node tall enough for
    that level, and its span is the number of level-0 steps to that node;
  - nodes above their own height, and the header above the active level, hold
    nil links;
  - the backward links and the tail are right;
  - the active level is the tallest node's height (and at least 1).

The specification functions `SortedKeys.InsertKey` and `SortedKeys.RemoveKey`
state what insertion and deletion do to the contents. The lemmas in
`SortedKeys` relate them to each other.

Files:

| file | contents |
|---|---|
| `sorted_keys.dfy` | sorted sequences: lower bound, insertion, removal, and the folds over several of them |
| `levels.dfy` | the drawn level, the next node tall enough for a level, and the active level |
| `skiplist_state.dfy` | the node store, the invariant, and the facts a single-level search reads |
| `skiplist_insert.dfy` | proof that linking a node in keeps the invariant |
| `skiplist_delete.dfy` | proof that unlinking a node keeps the invariant |
| `skiplist.dfy` | the operations and the `Skiplist` class |

## Model

| member | source | states |
|---|---|---|
| Levels.LowRun | skiplist/skiplist.go:60 | counts the leading draws that fall below int(0.25*0xFFFF) once masked with &0xFFFF, and shows the next draw (if any) is not below it |
| Levels.DrawnLevel | skiplist/skiplist.go:58-69 | the drawn level is always between 1 and SKIPLIST_MAXLEVEL; below the cap it is one more than the run of low draws |
| Levels.RandomLevel | skiplist/skiplist.go:58-69 | the loop that adds a level per low draw and then caps at 32 returns exactly DrawnLevel(draws) |
| Levels.Next | skiplist/skiplist.go:89-92 | where a level-i forward link lands: the first later node taller than i, none in between reaching that level |
| Levels.NextIs | skiplist/skiplist.go:89-92 | those three properties determine the landing position uniquely |
| Levels.NextAtLevel0 | skiplist/skiplist.go:97 | on level 0 every link goes to the very next node, because every node has height at least 1 |
| Levels.TopLevel | skiplist/skiplist.go:105-111 | the active level is at least 1, no node is taller, and above 1 some node reaches it |
| Levels.TopLevelIns | skiplist/skiplist.go:105-111 | inserting a node of height h makes the needed level max(old level, h) |
| Levels.TopLevelDel | skiplist/skiplist.go:163-165 | removing a node never raises the needed level |
| SortedKeys.LowerBound | skiplist/skiplist.go:89 | the position of obj among the keys: every key before it is smaller and every key from it on is at least obj |
| SortedKeys.LowerBoundFinds | skiplist/skiplist.go:97 | obj is present exactly when the key at its lower bound equals it |
| SortedKeys.LowerBoundAt | skiplist/skiplist.go:183 | the lower bound of a present key is its own position |
| SortedKeys.InsertKey | skiplist/skiplist.go:71-144 | insertion keeps the keys strictly ascending, adds exactly obj, and grows the length by one only when obj is new |
| SortedKeys.RemoveKey | skiplist/skiplist.go:170-189 | deletion keeps the keys strictly ascending, removes exactly obj, and shrinks the length by one only when obj was present |
| SortedKeys.RemoveFirst | skiplist/skiplist.go:214-220 | deleting the first node's element drops the head of the list |
| SortedKeys.RemoveLast | skiplist/skiplist.go:226-233 | deleting the tail's element drops the last element of the list |
| SortedKeys.InsertThenRemove | skiplist/skiplist.go:71-189 | inserting a new element and then deleting it restores the contents |
| SortedKeys.RemoveThenInsert | skiplist/skiplist.go:71-189 | deleting a present element and then inserting it again restores the contents |
| SortedKeys.InsertAll | skiplist/skiplist_test.go:16-25 | after a sequence of insertions the contents are sorted and are the old elements plus the inserted ones |
| SortedKeys.RemoveAll | skiplist/skiplist_test.go:40-48 | after a sequence of deletions the contents are sorted and are the old elements minus the deleted ones |
| SortedKeys.Reverse | skiplist/skiplist_test.go:107-115 | the descending order the pop-tail check expects: element k of the result is element n-1-k of the input |
| SkiplistState.EmptyValid | skiplist/skiplist.go:37-53 | the created header with nil links and span 0 on all levels is a valid empty list on level 1 |
| SkiplistState.ForwardAt | skiplist/skiplist.go:89-92 | a node's link on a level it takes part in is nil exactly when no later node reaches that level; otherwise it leads to that node, which holds the right key, and its span is the rank distance |
| SkiplistState.BackwardAt | skiplist/skiplist.go:129-133 | the backward link of the first node is nil and that of any other node is its level-0 predecessor |
| SkiplistState.ValidInjective | skiplist/skiplist.go:14-18 | distinct positions hold distinct nodes, because their keys differ |
| SkiplistState.RaiseKeepsValid | skiplist/skiplist.go:105-111 | giving the header a nil link of span Length on each new level keeps the list valid on the raised level |
| SkiplistState.TrimKeepsValid | skiplist/skiplist.go:163-165 | dropping an empty top level keeps the list valid |
| SkiplistState.TrimmedAtTop | skiplist/skiplist.go:163 | once the loop stops (level 1, or the top level is in use) the active level is the tallest node's height |
| SkiplistState.SearchableAt | skiplist/skiplist.go:89-92 | a valid list supplies on each active level every link fact a level walk reads |
| Skiplist.Compare | skiplist/skiplist_test.go:7-14 | the comparator is negative, zero or positive exactly when a is below, equal to or above b |
| Skiplist.WalkLevel | skiplist/skiplist.go:89-92 | the walk along one level stops at the last node on that level before obj's position, and the rank it adds up from the spans is that node's rank |
| Skiplist.Predecessors | skiplist/skiplist.go:79-94 | the descent records on every active level the last node before obj's position in update[i] and its rank in rank[i] |
| Skiplist.Successor | skiplist/skiplist.go:97-100 | the level-0 successor of the last predecessor is obj's node when obj is present, and nil when it is absent |
| SkiplistInsertProof.SpanCoversRankGap | skiplist/skiplist.go:120 | the subtraction at line 120 never goes below zero: update[i]'s span covers rank[0] - rank[i] |
| Skiplist.RaiseLevel | skiplist/skiplist.go:105-110 | exactly the levels from the old level up to the drawn level get rank 0, the header as predecessor, and header span Length; nothing else changes |
| Skiplist.RaiseTo | skiplist/skiplist.go:105-112 | the active level becomes max(old level, drawn level), with the list still valid and the descent complete on it |
| Skiplist.LinkLevels | skiplist/skiplist.go:115-122 | on each level below the new node's height, the new node takes over update[i]'s link less the rank gap, and update[i] points at it across the gap plus one |
| Skiplist.IncrementSpans | skiplist/skiplist.go:125-127 | the links of update[i] on the active levels above the new node's height each span one more node |
| Skiplist.LinkNode | skiplist/skiplist.go:113-127 | a fresh node holding obj is appended to the store and spliced in after the predecessors on every active level; payloads and backward links of the other nodes are untouched |
| Skiplist.LinkBackward | skiplist/skiplist.go:129-139 | the new node's backward link is its predecessor (nil for the header); its successor points back at it, or it becomes the tail |
| SkiplistInsertProof.InsertKeepsValid | skiplist/skiplist.go:113-141 | after linking, the store is a valid list holding obj at its lower bound, with the node at that position and the drawn height |
| Skiplist.Splice | skiplist/skiplist.go:104-139 | after raising the level and linking, the store is a valid list holding InsertKey(keys, obj) on level max(old level, drawn level); the fresh node holding obj sits at obj's lower bound with the drawn height, and every other element keeps its node and height |
| Skiplist.Skiplist.InsertNode | skiplist/skiplist.go:104-141 | the list after a fresh insertion is valid, holds InsertKey(keys, obj), Length grows by one and its level is max(old level, drawn level); the new node holds obj and sits at obj's lower bound with the drawn height, and every other element keeps its node and height |
| Skiplist.Skiplist.constructor | skiplist/skiplist.go:37-53 | a valid empty list on level 1 with a nil tail and nil, span-0 header links on all 32 levels |
| Skiplist.Skiplist.Length | skiplist/skiplist.go:237-239 | the length is the number of elements |
| Skiplist.Skiplist.Insert | skiplist/skiplist.go:71-144 | a duplicate returns nil and changes nothing; otherwise the call returns a fresh node holding obj, Length grows by one, and the level becomes max(old, drawn); the contents become InsertKey(old, obj) and the list stays valid; the new node sits at obj's lower bound with the drawn height, and every other element keeps its node and height |
| SkiplistDeleteProof.PredecessorLink | skiplist/skiplist.go:149-153 | a predecessor's link points at the removed node exactly when no node between them reaches that level, and its span is at least 1, so line 153 never goes below zero |
| SkiplistDeleteProof.PredecessorsAvoid | skiplist/skiplist.go:148-155 | no recorded predecessor is the node being removed, and each has span at least 1 |
| Skiplist.UnlinkNode | skiplist/skiplist.go:148-155 | a predecessor pointing at the node takes over its link with both spans added less one; any other predecessor's span drops by one |
| Skiplist.UnlinkBackward | skiplist/skiplist.go:157-161 | the node's successor points back at the node's predecessor, or that predecessor becomes the tail |
| SkiplistDeleteProof.DeleteKeepsValid | skiplist/skiplist.go:148-161 | after unlinking, the store is a valid list without the element at the removed position |
| Skiplist.Unlink | skiplist/skiplist.go:148-161 | unlinking the node at position L leaves a valid list of the remaining elements on the same level |
| Skiplist.TrimLevel | skiplist/skiplist.go:163-165 | the level is lowered, never below 1, to exactly the tallest remaining node's height |
| Skiplist.Skiplist.DeleteNode | skiplist/skiplist.go:147-168 | the list after removing the node at position L is valid, holds RemoveKey(keys, keys[L]), Length drops by one, and its level is between 1 and the old level; the node ids and heights lose exactly position L |
| Skiplist.Skiplist.Delete | skiplist/skiplist.go:170-189 | an absent element returns 0 and changes nothing; a present one returns 1 and Length drops by one; the contents become RemoveKey(old, obj) and the level stays in 1..old; the node ids and heights lose exactly obj's position, so every other element keeps its node and height |
| Skiplist.Skiplist.Find | skiplist/skiplist.go:191-207 | the list is not changed; the result is the node holding obj when obj is present, and nil otherwise |
| Skiplist.Skiplist.PopHead | skiplist/skiplist.go:210-222 | corrected guard: an empty list returns nothing and is unchanged; otherwise the smallest element is returned and removed, and every other element keeps its node and height |
| Skiplist.Skiplist.PopTail | skiplist/skiplist.go:224-235 | corrected guard: an empty list returns nothing and is unchanged; otherwise the largest element is returned and removed, and every other element keeps its node and height |
| Skiplist.Skiplist.PopHeadAsWritten | skiplist/skiplist.go:210-222 | as written: a non-empty list returns nil without popping, and an empty list dereferences nil |
| Skiplist.Skiplist.PopTailAsWritten | skiplist/skiplist.go:224-235 | as written: a non-empty list returns nil without popping, and an empty list dereferences nil |
| Skiplist.Skiplist.DrainHead | skiplist/skiplist_test.go:55-85 | popping the head until the list is empty yields the elements in ascending order and leaves Length 0 |
| Skiplist.Skiplist.DrainTail | skiplist/skiplist_test.go:87-120 | popping the tail until the list is empty yields the elements in descending order and leaves Length 0 |
| Skiplist.Skiplist.InsertEach | skiplist/skiplist_test.go:122-138 | insertion k returns nil exactly when its element was already present; afterwards the list holds the old elements and the inserted ones |
| Skiplist.Skiplist.DeleteEach | skiplist/skiplist_test.go:28-53 | deletion k returns 1 exactly when its element was still present; afterwards the list holds the old elements not deleted, and deleting every element leaves it empty with Length 0 |
| Skiplist.InsertResultsStep | skiplist/skiplist_test.go:132-137 | one more insertion result is nil exactly when its element was among the earlier contents or the earlier insertions |
| Skiplist.DeleteResultsStep | skiplist/skiplist_test.go:42-45 | one more deletion result is 1 exactly when its element was among the earlier contents and not deleted before |

## Left out

- `Print` (skiplist/skiplist.go:241-252) writes to standard output. It is I/O and is not modelled.
- `math/rand` is not modelled.
  - `Levels.RandomLevel` takes the successive values of `rand.Int()` as a parameter `draws`.
  - Running out of draws ends the loop the way a high draw would.
  - `Skiplist.Skiplist.Insert` takes those draws and uses them only after the element is known to be new, as the source calls `skiplistRandomLevel` only then.
- The generic `interface{}` elements and the user-supplied comparator are not modelled.
  - Elements are integers.
  - `Skiplist.Compare` is the test file's three-way comparison, which is a total order.
- Pointers are ids into a store of nodes.
  - A deleted node stays in the store but is unreachable; there is no garbage collection.
  - Only the store's length says how much has been allocated.
  - Sharing of one node between two lists is not modelled.
- `Length` and `Span` are `uint64` in the source; here they are unbounded naturals. Skiplist.Skiplist.Insert does not model wrap-around at 2^64 elements, because the store cannot grow that large. In skiplist/skiplist.go:150 the uint64 intermediate `x.Level[i].Span - 1` wraps when the removed node's span is 0, and the `+=` wraps back, so the stored span equals the model's `span(update[i]) + span(x) - 1`.
- `Skiplist.Skiplist.Delete` uses the same descent as insertion, which also records the ranks. The source's delete loop (skiplist/skiplist.go:175-181) does not keep ranks. Its links and results are the same.
- `Skiplist.Skiplist.Find` walks each level with the same level walk, which also adds up, in a variable `r`, the rank of the node it stops at. The source's find loop (skiplist/skiplist.go:194-198) keeps no ranks. The nodes it visits and its result are the same.
- Lookups return node ids; Skiplist.Skiplist.Find gives nil as -1.
- `skiplistCreateNode` ignores its level argument, and so does `SkiplistState.CreateNode`. Every node has all 32 slots, with nil links above its height.
- The repository's other packages are not part of this model: the root `skiplist.go`, `btree` and `binary_tree`.

## Findings

| source | as written | input that shows it | evidently intended | confidence | as-written member | corrected member |
|---|---|---|---|---|---|---|
| skiplist/skiplist.go:215 | `if x != nil { return nil }` before `res = x.Obj` | any non-empty list: it returns nil and pops nothing; the empty list: `x.Obj` with `x` nil | `if x == nil { return nil }` | high, not executed | Skiplist.Skiplist.PopHeadAsWritten | Skiplist.Skiplist.PopHead |
| skiplist/skiplist.go:227 | `if x != nil { return nil }` before `res = x.Obj` | any non-empty list: it returns nil and pops nothing; the empty list: `x.Obj` with `x` nil | `if x == nil { return nil }` | high, not executed | Skiplist.Skiplist.PopTailAsWritten | Skiplist.Skiplist.PopTail |
