/** PriorityQueue2: the retained points live in an ArrayList laid out as a
    binary max-heap on key, so the furthest point sits at index 0. Offer
    appends and sifts up, then polls the root when the heap holds one point
    more than the capacity. */
module ArrayHeapQueue {
  import opened Points
  import opened Selection
  import opened Sorting

  /** The slot above heap slot `c`. */
  function Parent(c: int): (p: int)
    requires c > 0
    ensures 0 <= p < c
  {
    (c - 1) / 2
  }

  /** Slot `i` sits above exactly slots `2 * i + 1` and `2 * i + 2`. */
  lemma Children(i: int, c: int)
    requires 0 <= i && 0 < c
    ensures Parent(c) == i <==> c == 2 * i + 1 || c == 2 * i + 2
  {
  }

  /** No point is further away than the point above it. */
  ghost predicate IsMaxHeap(a: seq<Point>)
  {
    forall c :: 0 < c < |a| ==> a[c].key <= a[Parent(c)].key
  }

  /** Upheap's loop invariant while the moving point sits at slot `i`:
      every link holds except the one from `i` up to its parent, and the
      points below `i` are no further away than the parent of `i`. */
  ghost predicate HeapExceptUp(a: seq<Point>, i: int)
  {
    && (forall c :: 0 < c < |a| && c != i ==> a[c].key <= a[Parent(c)].key)
    && (0 < i < |a| ==> forall c :: 0 < c < |a| && Parent(c) == i ==> a[c].key <= a[Parent(i)].key)
  }

  /** Downheap's loop invariant while the moving point sits at slot `i`:
      every link holds except those from the children of `i` up to `i`, and
      those children are no further away than the parent of `i`. */
  ghost predicate HeapExceptDown(a: seq<Point>, i: int)
  {
    && (forall c :: 0 < c < |a| && Parent(c) != i ==> a[c].key <= a[Parent(c)].key)
    && (0 < i < |a| ==> forall c :: 0 < c < |a| && Parent(c) == i ==> a[c].key <= a[Parent(i)].key)
  }

  /** The two `set` calls that exchange slots `i` and `j`. */
  function Swapped(a: seq<Point>, i: int, j: int): (r: seq<Point>)
    requires 0 <= i < |a| && 0 <= j < |a|
    ensures |r| == |a| && r[i] == a[j] && r[j] == a[i]
    ensures forall x :: 0 <= x < |a| && x != i && x != j ==> r[x] == a[x]
    ensures multiset(r) == multiset(a)
  {
    a[i := a[j]][j := a[i]]
  }

  /** A point no closer than its parent may change places with it; the
      broken link then sits one level higher. */
  lemma SiftUpStep(a: seq<Point>, i: int)
    requires 0 < i < |a| && HeapExceptUp(a, i)
    requires a[Parent(i)].key <= a[i].key
    ensures HeapExceptUp(Swapped(a, i, Parent(i)), Parent(i))
  {
    var p := Parent(i);
    var b := Swapped(a, i, p);
    forall c | 0 < c < |b| && c != p
      ensures b[c].key <= b[Parent(c)].key
    {
      if c == i {
      } else if Parent(c) == i {
      } else if Parent(c) == p {
      }
    }
    if 0 < p {
      forall c | 0 < c < |b| && Parent(c) == p
        ensures b[c].key <= b[Parent(p)].key
      {
        if c != i {
          assert a[c].key <= a[p].key;
        }
      }
    }
  }

  /** A point no further away than the larger of its children changes
      places with that child; the broken links then sit one level lower. */
  lemma SiftDownStep(a: seq<Point>, i: int, big: int)
    requires 0 <= i && (big == 2 * i + 1 || big == 2 * i + 2) && big < |a|
    requires HeapExceptDown(a, i)
    requires a[2 * i + 1].key <= a[big].key
    requires 2 * i + 2 < |a| ==> a[2 * i + 2].key <= a[big].key
    requires a[i].key <= a[big].key
    ensures HeapExceptDown(Swapped(a, i, big), big)
  {
    Children(i, big);
    var b := Swapped(a, i, big);
    forall c | 0 < c < |b| && Parent(c) != big
      ensures b[c].key <= b[Parent(c)].key
    {
      Children(i, c);
      if c == big {
      } else if c == i {
      } else if Parent(c) == i {
      }
    }
  }

  /** Once the moving point is strictly further away than its children,
      or has none, the whole list is a heap again. */
  lemma DownSettled(a: seq<Point>, i: int)
    requires 0 <= i && HeapExceptDown(a, i)
    requires 2 * i + 1 < |a| ==> a[2 * i + 1].key <= a[i].key
    requires 2 * i + 2 < |a| ==> a[2 * i + 2].key <= a[i].key
    ensures IsMaxHeap(a)
  {
    forall c | 0 < c < |a|
      ensures a[c].key <= a[Parent(c)].key
    {
      Children(i, c);
    }
  }

  /** Poll's first step: the last point moves to the root and the old root,
      now last, is cut off. What is left lacks only the old root, and only
      the links below the root may be broken. */
  lemma LastToRoot(a: seq<Point>, last: int)
    requires IsMaxHeap(a) && last == |a| - 1 >= 0
    ensures multiset(Swapped(a, 0, last)[..last]) == multiset(a) - multiset{a[0]}
    ensures HeapExceptDown(Swapped(a, 0, last)[..last], 0)
  {
    var b := Swapped(a, 0, last);
    assert b == b[..last] + [a[0]];
    forall c | 0 < c < last && Parent(c) != 0
      ensures b[..last][c].key <= b[..last][Parent(c)].key
    {
    }
  }

  /** Every point in the heap is no further away than the root. */
  lemma {:induction false} BelowRoot(a: seq<Point>, j: int)
    requires IsMaxHeap(a) && 0 <= j < |a|
    ensures a[j].key <= a[0].key
    decreases j
  {
    if j > 0 {
      BelowRoot(a, Parent(j));
    }
  }

  /** The root of a non-empty heap is a furthest point. */
  lemma HeapRootIsMax(a: seq<Point>)
    requires IsMaxHeap(a) && |a| > 0
    ensures IsMaxKey(a[0], multiset(a))
  {
    forall y | y in multiset(a)
      ensures y.key <= a[0].key
    {
      var j :| 0 <= j < |a| && a[j] == y;
      BelowRoot(a, j);
    }
  }

  /** A list ordered furthest first is already a heap, which is why sorting
      at the end of findKNN leaves the queue usable. */
  lemma DescendingIsHeap(a: seq<Point>)
    requires SortedDescending(a)
    ensures IsMaxHeap(a)
  {
    forall c | 0 < c < |a|
      ensures a[c].key <= a[Parent(c)].key
    {
      var p := Parent(c);
      assert p < c;
    }
  }

  /** What an offer to a full heap `before` keeps once the root `head` of
      the heap with `e` added is polled: `e` itself goes back out when it is
      no closer than the old root, otherwise the old root goes. Either way
      the furthest of the `k + 1` points is the one dropped. */
  lemma OverflowOutcome(before: seq<Point>, e: Point, head: Point, k: nat)
    requires |before| == k >= 1 && IsMaxHeap(before)
    requires IsMaxKey(head, multiset(before + [e]))
    requires IsMaxKey(e, multiset(before + [e])) ==> head == e
    requires e.key < before[0].key ==> head == before[0]
    ensures before[0].key <= e.key ==> multiset(before) + multiset{e} - multiset{head} == multiset(before)
    ensures e.key < before[0].key ==>
              multiset(before) + multiset{e} - multiset{head} == multiset(before) + multiset{e} - multiset{before[0]}
    ensures IsKSmallest(multiset(before) + multiset{e} - multiset{head}, multiset(before) + multiset{e}, k)
  {
    assert multiset(before + [e]) == multiset(before) + multiset{e};
    HeapRootIsMax(before);
    EvictMaxIsKSmallest(multiset(before), e, head, k);
  }

  class PriorityQueue2 {
    /** Capacity: the number of neighbours wanted. */
    const k: int
    /** The candidate points findKNN offers, keys already set to their
        distance to the query. */
    const pointsS: seq<Point>
    var size: int
    /** The retained points as a max-heap on key. */
    var distLabel: seq<Point>

    /** The size counter matches the list and the list is a heap. Offer
        polls while the heap holds `k + 1` points, so poll asks only this. */
    ghost predicate HeapShaped()
      reads this
    {
      size == |distLabel| && IsMaxHeap(distLabel)
    }

    ghost predicate Valid()
      reads this
    {
      1 <= k && HeapShaped() && size <= k
    }

    constructor (kInput: int, ps: seq<Point>)
      requires kInput >= 1
      ensures Valid()
      ensures k == kInput && pointsS == ps && distLabel == []
    {
      distLabel := [];
      k := kInput;
      size := 0;
      pointsS := ps;
    }

    /** Offers `e`, always answering true: the point goes in, sifts up, and
        when that overflows the capacity the root is polled. A full queue
        thus drops `e` itself when `e` is no closer than the root (the root
        compare lets `e` climb past equal keys), and otherwise drops the old
        root. */
    method Offer(e: Point) returns (accepted: bool)
      requires Valid()
      modifies this
      ensures Valid()
      ensures accepted
      ensures old(size) < k ==> multiset(distLabel) == old(multiset(distLabel)) + multiset{e}
      ensures old(size) == k && old(distLabel[0].key) <= e.key ==>
                multiset(distLabel) == old(multiset(distLabel))
      ensures old(size) == k && e.key < old(distLabel[0].key) ==>
                multiset(distLabel) == old(multiset(distLabel)) + multiset{e} - multiset{old(distLabel[0])}
      ensures IsKSmallest(multiset(distLabel), old(multiset(distLabel)) + multiset{e}, k)
    {
      ghost var before := distLabel;
      var empty := IsEmpty();
      if empty {
        distLabel := [e] + distLabel;
        size := size + 1;
        KSmallestOfAll(multiset(distLabel), k);
        return true;
      }
      distLabel := distLabel + [e];
      assert multiset(distLabel) == multiset(before) + multiset{e};
      assert HeapExceptUp(distLabel, size);
      Upheap(size);
      size := size + 1;
      if size > k {
        var head := Poll();
        OverflowOutcome(before, e, head.value, k);
      } else {
        KSmallestOfAll(multiset(distLabel), k);
      }
      return true;
    }

    /** Removes and returns the root, a furthest point, or `None` when the
        queue is empty: the last point moves to the root and sifts down. */
    method Poll() returns (head: Option<Point>)
      requires HeapShaped()
      modifies this
      ensures HeapShaped()
      ensures old(size) == 0 ==> head == None && distLabel == old(distLabel) && size == 0
      ensures old(size) > 0 ==> && head == Some(old(distLabel[0]))
                                && size == old(size) - 1
                                && multiset(distLabel) == old(multiset(distLabel)) - multiset{old(distLabel[0])}
      ensures head.Some? ==> IsMaxKey(head.value, old(multiset(distLabel)))
    {
      var empty := IsEmpty();
      if empty {
        return None;
      }
      HeapRootIsMax(distLabel);
      var top := distLabel[0];
      var last := size - 1;
      LastToRoot(distLabel, last);
      distLabel := Swapped(distLabel, 0, last);
      distLabel := distLabel[..last];
      size := size - 1;
      Downheap(0);
      return Some(top);
    }

    /** The root, a furthest point, without removing it; `None` on an empty
        queue. */
    method Peek() returns (head: Option<Point>)
      requires HeapShaped()
      ensures head == None <==> distLabel == []
      ensures head.Some? ==> head.value == distLabel[0]
      ensures head.Some? ==> IsMaxKey(head.value, multiset(distLabel))
    {
      var empty := IsEmpty();
      if empty {
        return None;
      }
      HeapRootIsMax(distLabel);
      return Some(distLabel[0]);
    }

    method Size() returns (n: int)
      requires Valid()
      ensures n == |distLabel| && 0 <= n <= k
    {
      return size;
    }

    method IsEmpty() returns (empty: bool)
      requires HeapShaped()
      ensures empty <==> distLabel == []
    {
      return size == 0;
    }

    /** Moves the point at `start` up while it is no closer than its parent.
        The result is a heap holding the same points; a point that is a
        furthest one ends at the root, and a point strictly closer than the
        root leaves the root in place. */
    method Upheap(start: int)
      requires 0 <= start < |distLabel| && HeapExceptUp(distLabel, start)
      modifies this
      ensures size == old(size) && |distLabel| == old(|distLabel|)
      ensures multiset(distLabel) == old(multiset(distLabel))
      ensures IsMaxHeap(distLabel)
      ensures IsMaxKey(old(distLabel[start]), old(multiset(distLabel))) ==> distLabel[0] == old(distLabel[start])
      ensures old(distLabel[start].key) < old(distLabel[0].key) ==> distLabel[0] == old(distLabel[0])
    {
      var a, i := distLabel, start;
      while i > 0
        invariant 0 <= i < |a| == |distLabel|
        invariant unchanged(this) && multiset(a) == multiset(distLabel)
        invariant HeapExceptUp(a, i)
        invariant a[i] == distLabel[start]
        invariant i > 0 ==> a[0] == distLabel[0]
        invariant i == 0 ==> start == 0 || distLabel[0].key <= distLabel[start].key
      {
        var parent := (i - 1) / 2;
        if a[i].key < a[parent].key {
          assert a[parent] in multiset(a);
          break;
        }
        SiftUpStep(a, i);
        a := Swapped(a, i, parent);
        i := parent;
      }
      distLabel := a;
    }

    /** Moves the point at `start` down, each time changing places with its
        larger child (the left one on a tie), until both children are
        strictly closer. The result is a heap holding the same points. */
    method Downheap(start: int)
      requires 0 <= start && size == |distLabel| && HeapExceptDown(distLabel, start)
      modifies this
      ensures size == old(size) && |distLabel| == size
      ensures multiset(distLabel) == old(multiset(distLabel))
      ensures IsMaxHeap(distLabel)
    {
      var a, n, i := distLabel, size, start;
      while 2 * i + 1 < n
        invariant 0 <= i && n == |a|
        invariant unchanged(this) && multiset(a) == multiset(distLabel)
        invariant HeapExceptDown(a, i)
        decreases n - i
      {
        var leftIndex := 2 * i + 1;
        var bigChildIndex := leftIndex;
        if 2 * i + 2 < n {
          var rightIndex := 2 * i + 2;
          if a[leftIndex].key < a[rightIndex].key {
            bigChildIndex := rightIndex;
          }
        }
        if a[bigChildIndex].key < a[i].key {
          DownSettled(a, i);
          break;
        }
        SiftDownStep(a, i, bigChildIndex);
        a := Swapped(a, i, bigChildIndex);
        i := bigChildIndex;
      }
      if 2 * i + 1 >= n {
        DownSettled(a, i);
      }
      distLabel := a;
    }

    /** Offers every point of `pointsS` in order, sorts the heap with
        ComparingPoints (furthest first, still a heap) and returns it copied
        back to front: the k closest of everything the queue held or was
        offered, closest first. */
    method FindKNN() returns (result: seq<Point>)
      requires Valid()
      modifies this
      ensures Valid()
      ensures SortedByComparator(distLabel)
      ensures |result| == size && multiset(result) == multiset(distLabel)
      ensures SortedAscending(result)
      ensures IsKSmallest(multiset(result), old(multiset(distLabel)) + multiset(pointsS), k)
    {
      ghost var start := multiset(distLabel);
      ghost var offered := start;
      KSmallestOfAll(start, k);
      for i := 0 to |pointsS|
        invariant Valid()
        invariant offered == start + multiset(pointsS[..i])
        invariant IsKSmallest(multiset(distLabel), offered, k)
      {
        ghost var held := multiset(distLabel);
        var _ := Offer(pointsS[i]);
        KSmallestStep(held, offered, pointsS[i], multiset(distLabel), k);
        offered := offered + multiset{pointsS[i]};
        assert pointsS[..i + 1] == pointsS[..i] + [pointsS[i]];
      }
      assert pointsS[..|pointsS|] == pointsS;
      ghost var heap := distLabel;
      distLabel := SortByComparingPoints(distLabel);
      ComparatorOrderIsDescending(distLabel);
      DescendingIsHeap(distLabel);
      result := CopyReversed(distLabel);
    }
  }

  /** One query as the driver runs it: a fresh queue of capacity `k` over
      `points`, then findKNN. The answer is the `Min(k, |points|)` closest
      points, closest first. */
  method NearestNeighbours(k: int, points: seq<Point>) returns (result: seq<Point>)
    requires k >= 1
    ensures |result| == Min(k, |points|)
    ensures SortedAscending(result)
    ensures IsKSmallest(multiset(result), multiset(points), k)
  {
    var queue := new PriorityQueue2(k, points);
    result := queue.FindKNN();
  }
}
