/** PriorityQueue3: the retained points live in a java.util.PriorityQueue
    ordered by ComparingPoints, next to a size counter that offer and poll
    keep in step with it. Offer hands the point to the library queue and
    polls once when that leaves one point more than the capacity. */
module LibraryHeapQueue {
  import opened Points
  import opened Selection
  import opened Sorting

  /** The head java.util.PriorityQueue promises: a least element under the
      comparator, that is, one that compares no greater than any element. */
  predicate IsLeastByComparator(x: Point, m: multiset<Point>)
  {
    x in m && forall y {:trigger Compare(x, y)} :: y in m ==> Compare(x, y) <= 0
  }

  /** Under ComparingPoints the least element is a furthest point. */
  lemma LeastByComparatorIsMaxKey(x: Point, m: multiset<Point>)
    ensures IsLeastByComparator(x, m) <==> IsMaxKey(x, m)
  {
    if IsLeastByComparator(x, m) {
      forall y | y in m
        ensures y.key <= x.key
      {
        assert Compare(x, y) <= 0;
      }
    }
    if IsMaxKey(x, m) {
      forall y | y in m
        ensures Compare(x, y) <= 0
      {
        assert y.key <= x.key;
      }
    }
  }

  /** java.util.PriorityQueue<LabelledPoint> built with ComparingPoints, seen
      through the calls PriorityQueue3 makes on it: its contents, and its
      head, the element at index 0 of its backing array, which peek and poll
      both return. The rest of the array layout is left to the library, so
      when poll removes the head, the model only says that the next head is
      again a least element. */
  class JavaPriorityQueue {
    var elems: multiset<Point>
    var head: Option<Point>

    /** There is a head exactly when the queue is not empty, and it is a
        least element under the comparator. */
    ghost predicate Valid()
      reads this
    {
      && (head == None <==> elems == multiset{})
      && (head.Some? ==> IsLeastByComparator(head.value, elems))
    }

    constructor ()
      ensures Valid() && elems == multiset{} && head == None
    {
      elems := multiset{};
      head := None;
    }

    /** `offer(e)`: the point is added. Sifting up with the comparator moves
        it past every ancestor it does not compare greater than, so it
        becomes the head exactly when it is at least as far as the old head. */
    method Offer(e: Point)
      requires Valid()
      modifies this
      ensures Valid()
      ensures elems == old(elems) + multiset{e}
      ensures old(head) == None || old(head).value.key <= e.key ==> head == Some(e)
      ensures old(head).Some? && e.key < old(head).value.key ==> head == old(head)
    {
      if head.Some? {
        LeastByComparatorIsMaxKey(head.value, elems);
      }
      if head == None || Compare(e, head.value) < 0 {
        assert IsMaxKey(e, elems + multiset{e});
        LeastByComparatorIsMaxKey(e, elems + multiset{e});
        head := Some(e);
      } else {
        assert IsMaxKey(head.value, elems + multiset{e});
        LeastByComparatorIsMaxKey(head.value, elems + multiset{e});
      }
      elems := elems + multiset{e};
    }

    /** `poll()`: removes and returns the head, or `None` on an empty queue.
        A least element of what remains becomes the new head. */
    method Poll() returns (polled: Option<Point>)
      requires Valid()
      modifies this
      ensures Valid()
      ensures polled == old(head)
      ensures old(head) == None ==> elems == old(elems)
      ensures old(head).Some? ==> elems == old(elems) - multiset{old(head).value}
    {
      polled := head;
      if head == None {
        return;
      }
      elems := elems - multiset{head.value};
      if elems == multiset{} {
        head := None;
      } else {
        MaxKeyExists(elems);
        var x :| x in elems && IsMaxKey(x, elems);
        LeastByComparatorIsMaxKey(x, elems);
        head := Some(x);
      }
    }

    /** `peek()`: the head without removing it, `None` on an empty queue. */
    method Peek() returns (peeked: Option<Point>)
      requires Valid()
      ensures peeked == head
      ensures peeked == None <==> elems == multiset{}
      ensures peeked.Some? ==> IsLeastByComparator(peeked.value, elems)
    {
      return head;
    }

    /** `new ArrayList<>(queue)`: the points in the order of the library's
        backing array, which starts with the head. */
    method ToList() returns (list: seq<Point>)
      requires Valid()
      ensures multiset(list) == elems
      ensures head.Some? ==> |list| > 0 && list[0] == head.value
    {
      if head == None {
        return [];
      }
      list := [head.value];
      var rest := elems - multiset{head.value};
      while rest != multiset{}
        invariant |list| > 0 && list[0] == head.value
        invariant multiset(list) + rest == elems
        decreases |rest|
      {
        var x :| x in rest;
        list := list + [x];
        rest := rest - multiset{x};
      }
    }
  }

  class PriorityQueue3 {
    /** Capacity: the number of neighbours wanted. */
    const k: int
    /** The candidate points findKNN offers, keys already set to their
        distance to the query. */
    const pointsS: seq<Point>
    var size: int
    /** The retained points. */
    const distLabel: JavaPriorityQueue

    /** The size counter matches the library queue, which is well formed.
        Offer polls while the queue holds `k + 1` points, so poll asks only
        this. */
    ghost predicate Counted()
      reads this, distLabel
    {
      size == |distLabel.elems| && distLabel.Valid()
    }

    ghost predicate Valid()
      reads this, distLabel
    {
      1 <= k && Counted() && size <= k
    }

    constructor (kInput: int, ps: seq<Point>)
      requires kInput >= 1
      ensures Valid() && fresh(distLabel)
      ensures k == kInput && pointsS == ps && distLabel.elems == multiset{}
    {
      distLabel := new JavaPriorityQueue();
      k := kInput;
      size := 0;
      pointsS := ps;
    }

    /** Offers `e`, always answering true: the library queue takes it, and
        when that overflows the capacity its head is polled. A full queue
        thus drops `e` itself when no retained point is further than `e`,
        and otherwise drops its old head, a furthest point. */
    method Offer(e: Point) returns (accepted: bool)
      requires Valid()
      modifies this, distLabel
      ensures Valid() && accepted
      ensures old(size) < k ==> distLabel.elems == old(distLabel.elems) + multiset{e}
      ensures old(size) < k && (old(distLabel.head) == None || old(distLabel.head).value.key <= e.key) ==>
                distLabel.head == Some(e)
      ensures old(size) < k && old(distLabel.head).Some? && e.key < old(distLabel.head).value.key ==>
                distLabel.head == old(distLabel.head)
      ensures old(size) == k && (forall y :: y in old(distLabel.elems) ==> y.key <= e.key) ==>
                distLabel.elems == old(distLabel.elems)
      ensures old(size) == k && e.key < old(distLabel.head).value.key ==>
                distLabel.elems == old(distLabel.elems) + multiset{e} - multiset{old(distLabel.head).value}
      ensures IsKSmallest(distLabel.elems, old(distLabel.elems) + multiset{e}, k)
    {
      ghost var before := distLabel.elems;
      ghost var oldHead := distLabel.head;
      distLabel.Offer(e);
      size := size + 1;
      if size > k {
        var polled := Poll();
        EvictMaxIsKSmallest(before, e, polled.value, k);
        assert oldHead.value in before;
      } else {
        KSmallestOfAll(distLabel.elems, k);
      }
      return true;
    }

    /** Removes and returns the head of the library queue, a furthest point,
        or `None` when the size counter says the queue is empty. */
    method Poll() returns (polled: Option<Point>)
      requires Counted()
      modifies this, distLabel
      ensures Counted()
      ensures polled == old(distLabel.head)
      ensures old(size) == 0 ==> polled == None && distLabel.elems == old(distLabel.elems) && size == 0
      ensures old(size) > 0 ==> && polled.Some?
                                && IsMaxKey(polled.value, old(distLabel.elems))
                                && distLabel.elems == old(distLabel.elems) - multiset{polled.value}
                                && size == old(size) - 1
    {
      var empty := IsEmpty();
      if empty {
        return None;
      }
      size := size - 1;
      polled := distLabel.Poll();
      LeastByComparatorIsMaxKey(polled.value, old(distLabel.elems));
    }

    /** The head of the library queue, a furthest point, without removing
        it; `None` on an empty queue. */
    method Peek() returns (peeked: Option<Point>)
      requires Counted()
      ensures peeked == distLabel.head
      ensures peeked == None <==> distLabel.elems == multiset{}
      ensures peeked.Some? ==> IsMaxKey(peeked.value, distLabel.elems)
    {
      var empty := IsEmpty();
      if empty {
        return None;
      }
      peeked := distLabel.Peek();
      LeastByComparatorIsMaxKey(peeked.value, distLabel.elems);
    }

    method Size() returns (n: int)
      requires Valid()
      ensures n == |distLabel.elems| && 0 <= n <= k
    {
      return size;
    }

    method IsEmpty() returns (empty: bool)
      requires Counted()
      ensures empty <==> distLabel.elems == multiset{}
    {
      return size == 0;
    }

    /** Offers every point of `pointsS` in order, copies the library queue
        into a list, sorts it with ComparingPoints (furthest first) and
        returns it back to front: the k closest of everything the queue
        held or was offered, closest first. */
    method FindKNN() returns (result: seq<Point>)
      requires Valid()
      modifies this, distLabel
      ensures Valid()
      ensures |result| == size && multiset(result) == distLabel.elems
      ensures SortedAscending(result)
      ensures IsKSmallest(multiset(result), old(distLabel.elems) + multiset(pointsS), k)
    {
      ghost var start := distLabel.elems;
      ghost var offered := start;
      KSmallestOfAll(start, k);
      for i := 0 to |pointsS|
        invariant Valid()
        invariant offered == start + multiset(pointsS[..i])
        invariant IsKSmallest(distLabel.elems, offered, k)
      {
        ghost var held := distLabel.elems;
        var _ := Offer(pointsS[i]);
        KSmallestStep(held, offered, pointsS[i], distLabel.elems, k);
        offered := offered + multiset{pointsS[i]};
        assert pointsS[..i + 1] == pointsS[..i] + [pointsS[i]];
      }
      assert pointsS[..|pointsS|] == pointsS;
      var finalKNN := distLabel.ToList();
      finalKNN := SortByComparingPoints(finalKNN);
      result := CopyReversed(finalKNN);
    }
  }

  /** One query as the driver runs it: a fresh queue of capacity `k` over
      `points`, then findKNN. The answer is the `Min(k, |points|)` closest
      points, closest first. */
  method NearestNeighbours(k: int, points: seq<Point>) returns (result: seq<Point>)
    requires k >= 1
    ensures |result| == Min(k, |points|)
    ensures SortedAscending(result)
    ensures IsKSmallest(multiset(result), multiset(points), k)
  {
    var queue := new PriorityQueue3(k, points);
    result := queue.FindKNN();
  }
}
