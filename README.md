# Disaster relief allocation engine — a verified Dafny model

This project models the request-prioritisation and allocation engine of a disaster
relief system (the Java file `Main.java`). Relief requests compete for three scarce
resource types ("Food", "Water", "Medical"). The engine owns four structures:

- **Pending queue** (`PriorityQ`). An array-backed binary min-heap. A lower priority
  number is more urgent, and an earlier timestamp breaks ties. An aging pass promotes
  requests that have waited at least 60 seconds.
- **Undo history** (`Stack`). An array-backed stack that never holds more than three
  dispatched requests.
- **Location index** (`MyHashMap`). A separately chained hash table from location
  identifier to request.
- **Allocator** (`DisasterReliefAllocator`). Owns the three structures above and a
  resource ledger, and runs the cycles: add, allocate (age, extract, dispatch or
  requeue), undo, refill, and the lookup and report queries.

Module layout, one file per structure:

| file | module | models |
|---|---|---|
| `requests.dfy` | `Requests` | the request record, the urgency order, the aging rule, ASCII case folding |
| `sequences.dfy` | `Sequences` | sequences without repetitions (which records a structure holds) |
| `priority_queue.dfy` | `PriorityQueue` | `PriorityQ` as a class over an array, with sift-up and sift-down loops |
| `undo_stack.dfy` | `UndoHistory` | `Stack` as a class over an array, with the bounded push |
| `hash_index.dfy` | `HashIndex` | `MyHashMap` as a class over an array of chains, with a ghost map of its contents |
| `allocator.dfy` | `Allocation` | `DisasterReliefAllocator`, the ledger and the report tallies |

## How the model is built

**Requests are shared objects.** `ReliefRequest` is a class: `priority` is its only
mutable field, and the other fields are constants. The queue, the index and the undo
history hold the same objects, as the Java code does. So a promotion made through the
heap is seen through the index.

**Every structure is a class.** Each is a Dafny class over the same kind of storage as
the Java class (`heap`, `stack` and `buckets` are arrays). Its methods have loops with
invariants, and each structure has a ghost view that the contracts speak about:

- `PriorityQ.Elements()` and `PriorityQ.Items()`;
- `Stack.History`, bottom to top;
- `MyHashMap.Contents`, a map from key to request.

**Chains become sequences.** A hash chain of `Node`s becomes a sequence of entries,
head first. Relinking `next` pointers becomes sequence surgery.

**Heap order is not part of `Valid()`.** The aging pass changes priorities in place and
does not restore heap order. This is proved possible by `PromotionCanInvertOrder`. So:

- `PriorityQ.IsHeap()` is a separate predicate.
- `Insert` and `ExtractMin` preserve it.
- The allocator states heap facts only for a cycle in which the queue was in heap
  order and nothing was due for promotion.

**The clock is a parameter.** `System.currentTimeMillis()` becomes a parameter
(`now`), and a request's creation time becomes a constructor argument.

**Two behaviours of the code that the model keeps as written:**

- **Undo history eviction.** A bounded undo window would be expected to drop its
  oldest entry when full. This one pops first (`Main.java:221`), so it drops its
  *newest* entry. After dispatching D, E, F and G, the history is [D, E, G], and undo
  returns G, E and D (`FourPushesEvictThird`).
- **Aging.** The aging pass changes keys in place without restoring heap order
  (`Main.java:153-167`). The model proves that the order can break
  (`PromotionCanInvertOrder`).

## Model

| member | source | states |
|---|---|---|
| Requests.ReliefRequest.constructor | Main.java:17-31 | every field holds the given value (the timestamp is passed in) |
| Requests.KeyOutranksIrreflexive | Main.java:69-73 | no request outranks itself |
| Requests.KeyOutranksTransitive | Main.java:69-73 | the urgency order is transitive |
| Requests.KeyOutranksTotal | Main.java:69-73 | of two different (priority, timestamp) keys exactly one outranks the other |
| Requests.NotOutrankedTransitive | Main.java:69-73 | "not more urgent than" is transitive, which makes the heap root minimal |
| Requests.PromotedBounds | Main.java:153-167 | aging lowers a priority by exactly one when the wait reaches the threshold and the priority is above 1, otherwise leaves it; it never goes below 1 |
| Requests.PromotionCanInvertOrder | Main.java:153-167 | aging can make a child outrank its parent, so heap order is not preserved |
| Requests.EqualsIgnoreCaseIsEquivalence | Main.java:421 | case-insensitive type equality is reflexive, symmetric and transitive |
| Requests.EqualsIgnoreCaseExample | Main.java:421 | "food" matches "Food", "WATER" matches "Water", "Food" does not match "Water" |
| PriorityQueue.RootMinimal | Main.java:95-125 | in heap order no held record outranks the root |
| PriorityQueue.AppendKeepsOrder | Main.java:77-81 | placing a record in the first free slot breaks heap order only at that slot |
| PriorityQueue.ReplaceRootKeepsOrder | Main.java:99-103 | replacing the root of a heap breaks heap order only below the root |
| PriorityQueue.RootReplacedByLastCount | Main.java:99-101 | moving the last record to the root drops exactly the old root from the multiset |
| PriorityQueue.RootReplacedByLastOrder | Main.java:99-101 | on a heap, moving the last record to the root breaks order only below the root |
| PriorityQueue.HeapOrderedPrefix | Main.java:101 | shrinking a heap by its last slot keeps heap order |
| PriorityQueue.ExtractedFacts | Main.java:95-125 | after extraction the remaining records are the old ones less the root, without repetitions, and none outranks the root |
| PriorityQueue.InsertedFacts | Main.java:77-91 | after insertion the held set gains exactly the new record and stays without repetitions |
| PriorityQueue.SiftUpStep | Main.java:83-87 | swapping a record that outranks its parent moves the break in heap order one level up |
| PriorityQueue.SiftUpDone | Main.java:83 | when the loop test fails, the heap is ordered |
| PriorityQueue.SiftDownStep | Main.java:107-117 | swapping with the most urgent child that outranks the record moves the break one level down |
| PriorityQueue.ChildOf | Main.java:107 | the children of slot c are exactly 2c+1 and 2c+2 |
| PriorityQueue.SiftDownDone | Main.java:113-119 | when no child outranks the record, the heap is ordered |
| PriorityQueue.PriorityQ.constructor | Main.java:47-53 | an empty heap over a fresh array of the given capacity |
| PriorityQueue.PriorityQ.Swap | Main.java:57-65 | the held slots after the swap are the old ones with slots i and j exchanged |
| PriorityQueue.PriorityQ.SiftUp | Main.java:81-89 | keeps the multiset of held records, and restores heap order when it was broken only at the start slot |
| PriorityQueue.PriorityQ.SwapUp | Main.java:85-87 | one sift-up swap keeps the multiset and moves the order break to the parent |
| PriorityQueue.PriorityQ.SmallestOf | Main.java:107-111 | returns the slot or one of its children, and no child outranks the returned slot |
| PriorityQueue.PriorityQ.SwapDown | Main.java:113-117 | one sift-down swap keeps the multiset and moves the order break to the child |
| PriorityQueue.PriorityQ.SiftDown | Main.java:103-121 | keeps the multiset of held records, and restores heap order when it was broken only below the root |
| PriorityQueue.PriorityQ.Insert | Main.java:77-91 | size grows by one, the multiset gains exactly the record, heap order is kept |
| PriorityQueue.PriorityQ.AddLeaf | Main.java:79-89 | the record goes into the first free slot and sifts up; multiset gains it, heap order is kept |
| PriorityQueue.PriorityQ.ExtractMin | Main.java:95-125 | null and no change on an empty queue; otherwise returns the old root, size drops by one, the multiset loses exactly it, heap order is kept and no remaining record outranks it |
| PriorityQueue.PriorityQ.ExtractRoot | Main.java:99-123 | the non-empty case of extraction, with the same promises |
| PriorityQueue.PriorityQ.RemoveRoot | Main.java:99-121 | size drops by one, the multiset loses exactly the old root, heap order is kept |
| PriorityQueue.PriorityQ.MoveLastToRoot | Main.java:99-101 | the held slots become the old ones with the last record moved into the root |
| PriorityQueue.PriorityQ.GetOldestPending | Main.java:129-149 | null exactly when empty; otherwise a held record with the smallest timestamp, the first such by array position |
| PriorityQueue.PriorityQ.PromoteOldRequests | Main.java:153-167 | every held record's new priority is the aging rule applied to its old one; membership is unchanged; heap order is kept when nothing was due |
| PriorityQueue.PriorityQ.IsEmpty | Main.java:171-175 | true exactly when nothing is held |
| PriorityQueue.PriorityQ.GetTopK | Main.java:179-191 | returns min(k, size) held records (none when k is not positive), most urgent first, none outranked by a record left out; the queue is unchanged |
| PriorityQueue.PriorityQ.Copy | Main.java:183-185 | a fresh queue of capacity size, in heap order, holding the same records |
| PriorityQueue.PriorityQ.Drain | Main.java:187 | extracts min(k, size) records in urgency order, none outranked by what remains |
| PriorityQueue.PriorityQ.DrainOne | Main.java:187 | one extraction appended to the list keeps it in urgency order ahead of what remains |
| UndoHistory.PushBoundedShape | Main.java:219-225 | a push never takes the history past three, puts the record on top, and keeps the entries below (all but the old top when full) |
| UndoHistory.PushBoundedMembers | Main.java:219-225 | every entry after a push is the new record or an old entry; no repetition is introduced |
| UndoHistory.Stack.PushThenPop | Main.java:219-233 | a pop right after a push returns the pushed record and leaves the entries below it (all but the old top when the push evicted it) |
| UndoHistory.FourPushesEvictThird | Main.java:219-225 | four pushes D, E, F, G leave [D, E, G]: the newest entry, not the oldest, is evicted |
| UndoHistory.Stack.constructor | Main.java:209-215 | an empty history over a fresh array of the given capacity |
| UndoHistory.Stack.Push | Main.java:219-225 | the history becomes the bounded push of the record |
| UndoHistory.Stack.Pop | Main.java:229-233 | null and no change when empty; otherwise returns the top entry and removes it |
| UndoHistory.Stack.IsEmpty | Main.java:237-241 | true exactly when the history is empty |
| UndoHistory.Stack.GetHistory | Main.java:245-253 | the entries bottom to top |
| HashIndex.HashOf | Main.java:301-309 | the bucket of a key is in [0, size) |
| HashIndex.Find | Main.java:349-357 | a chain walk finds a value exactly when some node has the key |
| HashIndex.FindFirst | Main.java:349-353 | the walk stops at the first node with the key |
| HashIndex.FindUpdate | Main.java:319-325 | overwriting the first node for a key changes the lookup of that key alone |
| HashIndex.FindUnlink | Main.java:369-377 | unlinking the node for a key in a chain without repeated keys makes the key absent and changes nothing else |
| HashIndex.TableReplaceChain | Main.java:313-387 | replacing one chain by one that differs only on the key gives a table for the updated map |
| HashIndex.UnlinkKeepsTable | Main.java:363-387 | unlinking the node for the key gives a table for the map without the key |
| HashIndex.OverwriteKeepsTable | Main.java:319-327 | overwriting the node for the key gives a table for the map with the key updated |
| HashIndex.PrependKeepsTable | Main.java:333-337 | linking a new node at the head of the chain, when the key is absent, gives a table for the map with the key added |
| HashIndex.FlattenPrefix | Main.java:395-405 | the nodes of the first n buckets are each correct, with no key twice, and list every key that hashes below n |
| HashIndex.FlattenListsContents | Main.java:391-409 | the full walk lists every stored key exactly once, with its value |
| HashIndex.CountTypeIgnoresCase | Main.java:421 | counting by type gives the same count for types equal ignoring case |
| HashIndex.CountTypeBounds | Main.java:413-431 | the count is at most the number of requests, all of them when every type matches, none when none does |
| HashIndex.CountTypeMatchingKeys | Main.java:413-431 | over nodes with distinct keys, the count is the number of keys whose type matches |
| HashIndex.CountTypeOfTable | Main.java:413-431 | counting over a table gives the number of stored keys whose type matches |
| HashIndex.MyHashMap.constructor | Main.java:291-297 | an empty map over a fresh array of the given size |
| HashIndex.MyHashMap.GetIndex | Main.java:301-309 | the loop computes the hash fold, in [0, size) |
| HashIndex.MyHashMap.Put | Main.java:313-339 | the map becomes the old one with the key bound to the value; no key repeats |
| HashIndex.MyHashMap.Get | Main.java:343-359 | the value stored under the key, or null when absent |
| HashIndex.MyHashMap.Remove | Main.java:363-387 | the map becomes the old one without the key |
| HashIndex.MyHashMap.GetAll | Main.java:391-409 | one value per stored key: the listed keys are distinct, exactly the stored ones, each paired with its value |
| HashIndex.MyHashMap.CountRequestsByType | Main.java:413-431 | the number of stored keys whose request type equals the argument ignoring case |
| Allocation.Debit | Main.java:489 | the stock of the type drops by the quantity, all other types unchanged |
| Allocation.Credit | Main.java:523 | the stock of the type (0 if unlisted) rises by the quantity, all other types unchanged |
| Allocation.CreditUndoesDebit | Main.java:489-523 | crediting back what was debited restores the ledger exactly |
| Allocation.OccurrencesBounds | Main.java:575-579 | a type's tally is at most the number of requests, and positive exactly when the type occurs |
| Allocation.OccurrencesAtMostCountType | Main.java:575-609 | the exact-match tally never exceeds the case-insensitive count |
| Allocation.TallyTypes | Main.java:573-579 | the tally lists exactly the types that occur, each with how often it occurs |
| Allocation.MostRequested | Main.java:591-593 | none exactly when nothing is pending; otherwise a type that occurs and whose tally is maximal |
| Allocation.MatchesAdd | Main.java:465-473 | queuing and indexing a request whose identifier is unused keeps the index in step with the queue |
| Allocation.DisasterReliefAllocator.constructor | Main.java:441-461 | empty queue, history and index; ledger of 50 Food, 50 Water, 50 Medical; no dispatches |
| Allocation.DisasterReliefAllocator.AddRequest | Main.java:465-473 | the request joins the queue and is indexed under its identifier; heap order and the index/queue match are kept |
| Allocation.DisasterReliefAllocator.Promote | Main.java:479 | the aging rule with the 60-second threshold is applied to every pending request |
| Allocation.DisasterReliefAllocator.Allocate | Main.java:477-507 | three outcomes: no pending requests (only aging happened); dispatched (ledger debited, count up, request leaves queue and index, becomes the history top); insufficient stock (nothing but aging changes). The index chains are untouched unless a request is dispatched. The ledger stays non-negative |
| Allocation.DisasterReliefAllocator.DispatchNext | Main.java:481-505 | the three outcomes of a cycle after aging |
| Allocation.DisasterReliefAllocator.TakeNext | Main.java:481 | the queue root leaves the queue; null when empty |
| Allocation.DisasterReliefAllocator.Dispatch | Main.java:483-494 | the ledger is debited, the count rises, the identifier leaves the index, the history gets the bounded push |
| Allocation.DisasterReliefAllocator.Requeue | Main.java:495-499 | the request goes back into the queue; the index still holds it |
| Allocation.DisasterReliefAllocator.Undo | Main.java:511-531 | nothing changes when the history is empty (queue array, size, index chains, history, ledger); otherwise the top entry is popped, queued and indexed again, and its quantity credited; the dispatch count is unchanged |
| Allocation.DisasterReliefAllocator.PopHistory | Main.java:513 | the top entry leaves the history; null when empty |
| Allocation.DisasterReliefAllocator.AllocateThenUndo | Main.java:477-531 | undo right after a successful allocation returns the dispatched request and restores the ledger and the pending set exactly, and the index when it was in step; the history loses its old top only if the push evicted it |
| Allocation.DisasterReliefAllocator.UndoDispatch | Main.java:511-531 | undo right after dispatching a request returns that request and restores the ledger and pending set |
| Allocation.DisasterReliefAllocator.RefillResource | Main.java:623-631 | the stock of the type becomes its old value (0 if unlisted) plus the quantity; nothing else changes |
| Allocation.DisasterReliefAllocator.Statistics | Main.java:569-597 | pending = number of indexed requests, total = pending + dispatched, the ledger, and a most requested type with maximal tally (none when nothing is pending) |
| Allocation.DisasterReliefAllocator.PendingSize | Main.java:571-587 | the pending list has one entry per indexed identifier |
| Allocation.DisasterReliefAllocator.Analytics | Main.java:601-619 | per-type counts for Medical, Food and Water (case-insensitive), and the oldest pending request |
| Allocation.DisasterReliefAllocator.TopUrgent | Main.java:553-565 | min(k, pending) pending requests, each held once (a sub-multiset of the queue, no repetitions), most urgent first, and no request left out outranks one listed |
| Allocation.DisasterReliefAllocator.Lookup | Main.java:535-549 | the request indexed under the identifier, or null; with the index in step, exactly the pending request with that identifier |

## Left out

- The interactive menu (`Main.main`) and every console message, including the ANSI
  colour codes. The report methods return the values they would print.
- The wall clock. Timestamps and `now` are parameters, and timestamps are below
  Long.MAX_VALUE.
- Java `int` overflow of the ledger, the dispatch counter and priorities. Integers are
  unbounded. The hash fold does not overflow because table sizes are bounded by `MaxTableSize`.
- Full Unicode `equalsIgnoreCase`. Case folding covers ASCII letters only.
- HashIndex.HashOf: keys are hashed per Unicode code point, while Java's
  `toCharArray()` yields UTF-16 code units. For a key with a character outside the
  Basic Multilingual Plane the model may choose a different bucket. This changes only
  the order in which `getAll` and `countRequestsByType` walk the nodes, not what is
  stored or found.
- Runtime failures of the Java code become preconditions:
  - inserting into a full queue array;
  - pushing past the stack array (it never happens, because the history stays at three or fewer);
  - reading an unlisted ledger entry with `get` when the quantity is not positive.
    The allocator keeps the invariant `DispatchDefined`: a held request has a positive
    quantity or a listed type.
- PriorityQueue.PriorityQ.Insert: requires that the record is not already held. The
  Java code would accept the same object twice. Without this requirement, membership
  could not be stated as a set.
- Allocation.DisasterReliefAllocator.AddRequest: requires that the request is neither
  queued nor in the history. It keeps the index in step with the queue only when the
  identifier is unused, because `put` overwrites an identifier while `insert` adds a
  second entry.
- Allocation.DisasterReliefAllocator.Allocate: the heap order of the queue, and "no
  pending request outranks the one taken", are stated only for a cycle that starts in
  heap order with nothing due for promotion. The Java aging pass can break heap order.
- Allocation.DisasterReliefAllocator.Undo: requires room in the queue array when the
  history is not empty.
- Allocation.DisasterReliefAllocator.Lookup: ties the result to the pending queue only
  when the index is in step with it.
- Allocation.MostRequested: ties go to the type met first in bucket order. Java's
  `stream().max` over a `HashMap` picks by the map's unspecified iteration order, so
  only maximality is promised. When nothing is pending the result is `None`, not the
  string "None".
- Allocation.DisasterReliefAllocator.TopUrgent: the values of the urgent-requests
  report; the printing is left out.
