# Bounded k-nearest-neighbour priority queues

The system answers k-nearest-neighbour queries over a set of labelled
points. For each query it builds a priority queue of capacity `k`, offers
it every point with the point's key set to its distance from the query,
and reads back the `k` closest points, closest first. Three queues do the
same job in different ways:

- `PriorityQueue1` keeps an `ArrayList` sorted by key, closest first. A
  point goes in front of the first strictly further point. A full queue
  drops its last, furthest point to make room, or refuses the offer.
- `PriorityQueue2` keeps an `ArrayList` laid out as a binary max-heap on the
  key. Offer appends and sifts up, then polls the root when the queue holds
  `k + 1` points. Poll moves the last point to the root and sifts down.
  findKNN sorts the list with the `ComparingPoints` comparator (furthest
  first) and copies it out back to front.
- `PriorityQueue3` hands the points to a `java.util.PriorityQueue` ordered
  by `ComparingPoints`, and keeps its own size counter beside it. Offer
  polls once when the counter exceeds `k`. findKNN copies the library queue
  into a list, sorts it and copies it out back to front.

The model gives points as a value `Point(id, key)`, with the key already
holding the distance to the query. Each queue is a class whose fields are
the source's: `k`, `size`, `pointsS` and `distLabel`. Its methods update
those fields as the Java does: the scans, upheap and downheap are loops.
All three share one specification, `Selection.IsKSmallest(r, offered, k)`:

- `r` is drawn from `offered`;
- `|r| == min(k, |offered|)`;
- no retained point is further from the query than a point that was dropped.

Every offer keeps this. `Selection.KSmallestStep` composes single offers, so
each `FindKNN` returns the `min(k, n)` closest points of everything the queue
held or was offered, closest first.

Files:

- `points.dfy`: `Point`, `Option` (for Java's `null`), the `ComparingPoints`
  comparator and the order predicates.
- `selection.dfy`: the shared k-closest specification and the lemmas that
  compose it.
- `sorting.dfy`: the `ArrayList.sort(new ComparingPoints())` outcome and the
  back-to-front copy of findKNN.
- `priority_queue1.dfy`, `priority_queue2.dfy`, `priority_queue3.dfy`: the
  three queues.
- `agreement.dfy`: the three queues give the same answer to one query, up
  to ties.

## Model

| member | source | states |
|---|---|---|
| Points.Compare | PriorityQueue2.java:50-57 | `ComparingPoints.compare`, the same code as PriorityQueue3.java:57-64. It always answers 1 or -1. |
| Points.CompareIsTwoValued | PriorityQueue2.java:50-57 | compare answers 1 exactly when the first point is strictly closer and -1 otherwise. It never answers 0. Two points at the same distance each compare as less than the other. |
| Points.ComparatorOrderIsDescending | PriorityQueue2.java:247 | a list that no ComparingPoints comparison puts out of order is exactly a list ordered furthest first, in both directions. |
| Points.MaxKeyExists | PriorityQueue3.java:117 | every non-empty collection of points has a furthest point, so the library queue always has a head to give. |
| Selection.KSmallestOfAll | PriorityQueue3.java:90-100 | a queue that has not overflowed its capacity holds the k closest of what it was offered, namely all of it. |
| Selection.EvictMaxIsKSmallest | PriorityQueue3.java:95-97 | a full queue that takes one more point and drops a furthest one holds the k closest of the old contents plus the new point. |
| Selection.KSmallestStep | PriorityQueue3.java:169-171 | successive offers compose: the k closest of the queue plus a new point are the k closest of everything offered so far. |
| Sorting.SortByComparingPoints | PriorityQueue3.java:175 | sorting a list with ComparingPoints gives a permutation of it of the same length in which no point compares greater than a later one. |
| Sorting.CopyReversed | PriorityQueue3.java:180-182 | the back-to-front copy has the same length and points, its j-th entry is the list's entry n-1-j, and a comparator-sorted list comes out closest first. |
| SortedListQueue.FirstGreater | PriorityQueue1.java:69-76 | the offer scan stops at the first index whose key is strictly greater than the new key. Every key before it is no greater. |
| SortedListQueue.InsertAtLayout | PriorityQueue1.java:86 | `add(i, e)` keeps the entries before i, puts e at i and shifts the rest one place right. The contents gain exactly e. |
| SortedListQueue.InsertAtKeepsSorted | PriorityQueue1.java:83-89 | inserting before the first strictly further point keeps the list sorted by key. |
| SortedListQueue.InsertedIsSortedAndStable | PriorityQueue1.java:83-96 | `Inserted` is the scan plus `add(i, e)`, or the append when the scan runs off the end. The insertion keeps the list sorted and contains one more point. Earlier entries with equal keys stay in front of the new point, so insertion is stable. |
| SortedListQueue.FirstGreaterInRange | PriorityQueue1.java:68-77 | on a sorted full list the scan finds a place exactly when the new key is below the last key. Otherwise it runs off the end. |
| SortedListQueue.DropLastThenInsertAt | PriorityQueue1.java:72-73 | `remove(size-1)` then `add(i, e)` keeps the length and trades the last point for e. |
| SortedListQueue.DropLastThenInsertAtSorted | PriorityQueue1.java:69-75 | that trade at the scan's index keeps the list sorted and does not increase the last key. |
| SortedListQueue.EvictLastIsKSmallest | PriorityQueue1.java:69-75 | dropping the last point of a sorted full list for a closer point keeps the k closest. |
| SortedListQueue.RejectWhenFull | PriorityQueue1.java:77 | refusing a point no closer than every retained one keeps the k closest. |
| SortedListQueue.LastIsMaxKey | PriorityQueue1.java:111 | the last point of a sorted list is a furthest point, the one poll returns. |
| SortedListQueue.Accepts | PriorityQueue1.java:55-98 | the boolean offer returns. Below capacity it is always true. On a full list `AfterOfferSorted` gives the rest: true exactly when the new key is below the last key. |
| SortedListQueue.AfterOffer | PriorityQueue1.java:55-98 | the list offer leaves behind. A list within capacity stays within capacity. Its order, acceptance and contents are stated by `AfterOfferSorted`, `AcceptWhenFull` and `AfterOfferIsKSmallest`. |
| SortedListQueue.AfterOfferSorted | PriorityQueue1.java:55-98 | an offer keeps the list sorted with length min(size+1, k). A full list accepts iff the new key is below its last key. A refused offer changes nothing, and on a full list the last key never increases. |
| SortedListQueue.AcceptWhenFull | PriorityQueue1.java:68-78 | an accepted offer on a full list keeps k points and trades exactly the old last point for the new one. |
| SortedListQueue.AfterOfferIsKSmallest | PriorityQueue1.java:55-98 | one offer leaves the k closest of the old contents plus the new point. |
| SortedListQueue.OfferKeepsKSmallest | PriorityQueue1.java:165-168 | if the list held the k closest of everything offered, it still does after one more offer. |
| SortedListQueue.OfferFullAt | PriorityQueue1.java:69-75 | when the scan of a full list stops at i, the offer is accepted and its result is the list without its last point, with e inserted at i. |
| SortedListQueue.OfferBelowAt | PriorityQueue1.java:82-97 | when there is room and the scan stops at i, the offer is accepted and inserts e at i. A scan that runs off the end appends e. |
| SortedListQueue.OfferAll | PriorityQueue1.java:165-168 | the list findKNN's loop leaves after offering each point in order. It stays within capacity. Its order and contents are stated by `OfferAllSorted` and `OfferAllIsKSmallest`. |
| SortedListQueue.OfferAllSorted | PriorityQueue1.java:165-168 | offering a sequence of points leaves a sorted list of at most k points. |
| SortedListQueue.OfferAllIsKSmallest | PriorityQueue1.java:160-171 | offering a sequence of points leaves the k closest of the initial contents plus the sequence. |
| SortedListQueue.PriorityQueue1.constructor | PriorityQueue1.java:39-46 | a new queue is empty and records k and the point set. |
| SortedListQueue.PriorityQueue1.Offer | PriorityQueue1.java:55-98 | the list becomes the result of the offer and the answer says whether e was accepted. The list stays sorted, with size equal to its length and at most k. |
| SortedListQueue.PriorityQueue1.Poll | PriorityQueue1.java:106-116 | an empty queue gives `None` and is unchanged. Otherwise poll removes and returns the last point, a furthest one. |
| SortedListQueue.PriorityQueue1.Peek | PriorityQueue1.java:124-132 | `None` exactly when the queue is empty, else the last point, a furthest one. |
| SortedListQueue.PriorityQueue1.Size | PriorityQueue1.java:140-142 | the number of retained points, between 0 and k. |
| SortedListQueue.PriorityQueue1.IsEmpty | PriorityQueue1.java:150-152 | true exactly when no point is retained. |
| SortedListQueue.PriorityQueue1.FindKNN | PriorityQueue1.java:160-171 | returns the list itself, sorted closest first, holding the k closest of the old contents plus every point of the set. |
| SortedListQueue.NearestNeighbours | KNN.java:69-72 | a fresh queue answers with the min(k, n) closest points, closest first. |
| ArrayHeapQueue.Parent | PriorityQueue2.java:179 | `(i-1)/2` of a positive index is a smaller index that is not negative. |
| ArrayHeapQueue.Children | PriorityQueue2.java:204-208 | i is the parent of exactly `2i+1` and `2i+2`, the indices downheap inspects. |
| ArrayHeapQueue.Swapped | PriorityQueue2.java:184-187 | the two `set` calls exchange two entries and leave the rest unchanged, so the contents are unchanged. |
| ArrayHeapQueue.SiftUpStep | PriorityQueue2.java:181-188 | swapping a point with a parent that is no further keeps the heap property everywhere except at the parent's index. |
| ArrayHeapQueue.SiftDownStep | PriorityQueue2.java:204-222 | swapping a point with its bigger child when that child is no closer moves the one violation down to the child. |
| ArrayHeapQueue.DownSettled | PriorityQueue2.java:203-216 | when no child is further than the current point, or there is no child, the list is a max-heap. |
| ArrayHeapQueue.LastToRoot | PriorityQueue2.java:119-124 | moving the last point to the root and removing the old root leaves the contents minus the root, a heap except at index 0. |
| ArrayHeapQueue.BelowRoot | PriorityQueue2.java:119 | every key in a max-heap is at most the root's key. |
| ArrayHeapQueue.HeapRootIsMax | PriorityQueue2.java:119 | the root of a non-empty max-heap is a furthest point, the one poll returns. |
| ArrayHeapQueue.DescendingIsHeap | PriorityQueue2.java:247 | a list sorted furthest first is still a max-heap, so the queue stays usable after findKNN sorts it. |
| ArrayHeapQueue.OverflowOutcome | PriorityQueue2.java:92-97 | on a full heap, a new key at or above the root's leaves the contents unchanged. A smaller key evicts the old root. Either way the k closest remain. |
| ArrayHeapQueue.PriorityQueue2.constructor | PriorityQueue2.java:61-68 | a new queue is empty and records k and the point set. |
| ArrayHeapQueue.PriorityQueue2.Offer | PriorityQueue2.java:77-101 | always true. Below capacity e is added. When full, a key at or above the root changes nothing and a smaller key evicts the old root. The heap stays valid and holds the k closest. |
| ArrayHeapQueue.PriorityQueue2.Poll | PriorityQueue2.java:109-130 | an empty queue gives `None` and is unchanged. Otherwise poll removes and returns the root, a furthest point, and the rest is a max-heap again. |
| ArrayHeapQueue.PriorityQueue2.Peek | PriorityQueue2.java:138-146 | `None` exactly when empty, else the root, a furthest point. |
| ArrayHeapQueue.PriorityQueue2.Size | PriorityQueue2.java:154-156 | the number of retained points, between 0 and k. |
| ArrayHeapQueue.PriorityQueue2.IsEmpty | PriorityQueue2.java:164-166 | true exactly when no point is retained. |
| ArrayHeapQueue.PriorityQueue2.Upheap | PriorityQueue2.java:175-192 | restores the max-heap from a single violation at the start index and keeps the contents. A point no closer than all others ends at the root. A point closer than the root leaves the root in place. |
| ArrayHeapQueue.PriorityQueue2.Downheap | PriorityQueue2.java:201-225 | restores the max-heap from a single violation at the start index, keeping the size and contents. |
| ArrayHeapQueue.PriorityQueue2.FindKNN | PriorityQueue2.java:235-256 | the list ends sorted by the comparator and is still a heap. The result has the same points in closest-first order: the k closest of the old contents plus the point set. |
| ArrayHeapQueue.NearestNeighbours | KNN.java:105-108 | a fresh queue answers with the min(k, n) closest points, closest first. |
| LibraryHeapQueue.LeastByComparatorIsMaxKey | PriorityQueue3.java:57-64 | under ComparingPoints, the least element in the library's sense is exactly a furthest point. |
| LibraryHeapQueue.JavaPriorityQueue.constructor | PriorityQueue3.java:71 | the library queue starts empty. |
| LibraryHeapQueue.JavaPriorityQueue.Offer | PriorityQueue3.java:90 | the library offer adds the point. The point becomes the head exactly when it is at least as far as the old head, or the queue was empty. Otherwise the head stays. |
| LibraryHeapQueue.JavaPriorityQueue.Poll | PriorityQueue3.java:117 | returns the head, `None` on an empty queue, and removes it. A least element of the rest by the comparator becomes the new head. |
| LibraryHeapQueue.JavaPriorityQueue.Peek | PriorityQueue3.java:132 | returns the head, the same point the next poll removes. It is `None` exactly when the queue is empty, and otherwise a least element by the comparator. |
| LibraryHeapQueue.JavaPriorityQueue.ToList | PriorityQueue3.java:174 | the copied list holds exactly the queue's points and starts with the head. |
| LibraryHeapQueue.PriorityQueue3.constructor | PriorityQueue3.java:68-77 | a fresh, empty library queue, a zero counter, and k and the point set recorded. |
| LibraryHeapQueue.PriorityQueue3.Offer | PriorityQueue3.java:87-103 | always true, with the counter equal to the library size and at most k. Below capacity e is added, and it becomes the head exactly when it is at least as far as the old head or the queue was empty. When full and no retained point is further than e, the contents are unchanged, because e is polled back out. When e is closer than the old head, that head is evicted. The k closest remain. |
| LibraryHeapQueue.PriorityQueue3.Poll | PriorityQueue3.java:111-119 | returns the library head. A zero counter gives `None` and changes nothing. Otherwise poll decrements the counter and removes the head, a furthest point. |
| LibraryHeapQueue.PriorityQueue3.Peek | PriorityQueue3.java:127-134 | returns the library head, so repeated peeks and the next poll give the same point. It is `None` exactly when empty, and otherwise a furthest point. |
| LibraryHeapQueue.PriorityQueue3.Size | PriorityQueue3.java:142-144 | the counter, which equals the number of retained points and is at most k. |
| LibraryHeapQueue.PriorityQueue3.IsEmpty | PriorityQueue3.java:152-154 | true exactly when no point is retained. |
| LibraryHeapQueue.PriorityQueue3.FindKNN | PriorityQueue3.java:163-185 | returns the retained points closest first: the k closest of the old contents plus the point set. |
| LibraryHeapQueue.NearestNeighbours | KNN.java:137-140 | a fresh queue answers with the min(k, n) closest points, closest first. |
| Selection.KSmallestUpToTies | KNN.java:64-140 | any two choices of the k closest points of the same offers are equally large. Whatever one keeps beyond the other is exactly as far away as what the other keeps instead. |
| Agreement.AllVersions | KNN.java:64-140 | the three versions answer one query with equally many points, each closest first, and any two answers agree up to ties. |

## Left out

- The driver in KNN.java is not modelled beyond one query per queue (the `NearestNeighbours` methods). Reading the point files, timing, the 100-query loop and writing the results are I/O.
- `LabelledPoint.distanceTo`, `setKey` and the `queryV` field are not modelled. Every point arrives with its key already holding its distance to the query: `PriorityQueue1.findKNN` and `PriorityQueue2.findKNN` set it before offering, `PriorityQueue2.offer` sets it again, and `PriorityQueue3.offer` is the only place `PriorityQueue3` sets it. Distances are integers here, not doubles.
- The `PointSet` class is not modelled. `pointsS` is the sequence of points that `getPointsList` returns.
- A capacity `k <= 0` is not modelled: the constructors require `k >= 1`. A negative `k` makes every constructor throw, because the initial capacity handed to `ArrayList` or `java.util.PriorityQueue` is negative. With `k = 0`, the `java.util.PriorityQueue` constructor of `PriorityQueue3` throws. `PriorityQueue1` then keeps every point offered, because its full-queue branch is never taken again after the first point. `PriorityQueue2` keeps one point.
- Key aliasing is not modelled. In the Java, two queries share the same `LabelledPoint` objects and each overwrites their keys. In the model a `Point` is a value.
- `java.util.PriorityQueue` is modelled by its contents, a multiset, and its head: `LibraryHeapQueue.JavaPriorityQueue`. A new point becomes the head exactly when it is at least as far as the old head, which is what the library's sift-up does with this comparator. The rest of the array layout and its growth are not modelled. Neither is which of several equally far points becomes the head after a poll; the model only says it is one of them. The order in which a copy lists the points after the head is also not modelled.
- `ArrayList.sort` is modelled by its outcome, `Sorting.SortByComparingPoints`: a permutation that no comparison puts out of order. Among points at the same distance the model fixes one order, where TimSort may choose another. The exception TimSort may raise because `ComparingPoints` breaks the Comparator contract on ties is not modelled.
- `ArrayHeapQueue.PriorityQueue2.Upheap` and `ArrayHeapQueue.PriorityQueue2.Downheap` do not swap in the field step by step as the Java's `set` calls do. Each loop swaps entries of a local copy of the list and stores the copy in the field when the loop ends. The list is a value in the model, so only the intermediate states of the field differ, and no other code can observe them.
- The `ComparingPoints` classes nested in `PriorityQueue2` and `PriorityQueue3` are the same code and are modelled once, as `Points.Compare`.
