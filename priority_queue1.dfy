/** PriorityQueue1: the k closest points kept in a list sorted closest first,
    at most k long. */
module SortedListQueue {
  import opened Points
  import opened Selection

  /** The index of the first point at or after `from` strictly further than
      `key`, or `|s|` when there is none: offer's scan for where a point at
      distance `key` goes. */
  function FirstGreater(s: seq<Point>, key: int, from: nat := 0): (i: nat)
    requires from <= |s|
    ensures from <= i <= |s|
    ensures forall j :: from <= j < i ==> s[j].key <= key
    ensures i < |s| ==> key < s[i].key
    decreases |s| - from
  {
    if from == |s| then from
    else if key < s[from].key then from
    else FirstGreater(s, key, from + 1)
  }

  /** `s` with `e` inserted before the first strictly further point. */
  function Inserted(s: seq<Point>, e: Point): seq<Point>
  {
    var i := FirstGreater(s, e.key);
    s[..i] + [e] + s[i..]
  }

  /** Where each point of `s` ends up when `e` is added at index `i`, as
      ArrayList.add(i, e) does. */
  lemma InsertAtLayout(s: seq<Point>, i: int, e: Point)
    requires 0 <= i <= |s|
    ensures |s[..i] + [e] + s[i..]| == |s| + 1
    ensures forall j :: 0 <= j < i ==> (s[..i] + [e] + s[i..])[j] == s[j]
    ensures (s[..i] + [e] + s[i..])[i] == e
    ensures forall j :: i < j <= |s| ==> (s[..i] + [e] + s[i..])[j] == s[j - 1]
    ensures multiset(s[..i] + [e] + s[i..]) == multiset(s) + multiset{e}
  {
    assert s == s[..i] + s[i..];
  }

  /** Adding `e` at an index `i` that has only points no further than `e`
      before it and only strictly further points from it on keeps a sorted
      list sorted. */
  lemma InsertAtKeepsSorted(s: seq<Point>, i: int, e: Point)
    requires SortedAscending(s) && 0 <= i <= |s|
    requires forall j :: 0 <= j < i ==> s[j].key <= e.key
    requires i < |s| ==> e.key < s[i].key
    ensures SortedAscending(s[..i] + [e] + s[i..])
    ensures forall j :: i <= j < |s| ==> e.key < s[j].key
  {
    var t := s[..i] + [e] + s[i..];
    InsertAtLayout(s, i, e);
    forall a, b | 0 <= a < b < |t|
      ensures t[a].key <= t[b].key
    {
      if b < i {
      } else if b == i {
      } else if a < i {
        assert t[a].key <= e.key < s[i].key <= t[b].key;
      } else if a == i {
        assert s[i].key <= t[b].key;
      } else {
      }
    }
  }

  /** Inserting keeps the list sorted and stable: the new point lands after
      every point at the same distance and before every strictly further
      one, and nothing else moves or is lost. */
  lemma InsertedIsSortedAndStable(s: seq<Point>, e: Point)
    requires SortedAscending(s)
    ensures |Inserted(s, e)| == |s| + 1
    ensures SortedAscending(Inserted(s, e))
    ensures multiset(Inserted(s, e)) == multiset(s) + multiset{e}
    ensures forall j :: 0 <= j < FirstGreater(s, e.key) ==> Inserted(s, e)[j] == s[j] && s[j].key <= e.key
    ensures Inserted(s, e)[FirstGreater(s, e.key)] == e
    ensures forall j :: FirstGreater(s, e.key) < j <= |s| ==> Inserted(s, e)[j] == s[j - 1] && e.key < s[j - 1].key
  {
    var i := FirstGreater(s, e.key);
    InsertAtLayout(s, i, e);
    InsertAtKeepsSorted(s, i, e);
  }

  /** In a sorted list, some point is strictly further than `key` exactly when
      the last point is. */
  lemma FirstGreaterInRange(s: seq<Point>, key: int)
    requires SortedAscending(s) && |s| > 0
    ensures FirstGreater(s, key) < |s| <==> key < s[|s| - 1].key
  {
  }

  /** ArrayList.remove(size - 1) followed by add(i, e): the first k points of
      the insertion, with the old last point traded for `e`. */
  lemma DropLastThenInsertAt(s: seq<Point>, i: int, e: Point)
    requires 0 <= i < |s|
    ensures var t := s[..|s| - 1][..i] + [e] + s[..|s| - 1][i..];
            && t == (s[..i] + [e] + s[i..])[..|s|]
            && multiset(t) == multiset(s) + multiset{e} - multiset{s[|s| - 1]}
  {
    var front := s[..|s| - 1];
    InsertAtLayout(s, i, e);
    InsertAtLayout(front, i, e);
    assert s == front + [s[|s| - 1]];
  }

  /** The same list is still sorted, and its last point is no further out
      than the old last point. */
  lemma DropLastThenInsertAtSorted(s: seq<Point>, i: int, e: Point)
    requires SortedAscending(s) && 0 <= i < |s|
    requires forall j :: 0 <= j < i ==> s[j].key <= e.key
    requires e.key < s[i].key
    ensures var t := s[..|s| - 1][..i] + [e] + s[..|s| - 1][i..];
            && SortedAscending(t)
            && t[|s| - 1].key <= s[|s| - 1].key
  {
    var front := s[..|s| - 1];
    var t := front[..i] + [e] + front[i..];
    InsertAtLayout(front, i, e);
    InsertAtKeepsSorted(front, i, e);
    assert t[|s| - 1].key <= s[|s| - 1].key by {
      if i < |s| - 1 {
        assert t[|s| - 1] == s[|s| - 2];
      }
    }
  }

  /** Trading the last point of a full sorted queue for a strictly closer
      `e` retains the k closest of the old contents plus `e`. */
  lemma EvictLastIsKSmallest(s: seq<Point>, e: Point, k: nat)
    requires SortedAscending(s) && |s| == k >= 1
    requires e.key < s[k - 1].key
    ensures IsKSmallest(multiset(s) + multiset{e} - multiset{s[k - 1]}, multiset(s) + multiset{e}, k)
  {
    LastIsMaxKey(s);
    EvictMaxIsKSmallest(multiset(s), e, s[k - 1], k);
  }

  /** A full queue refusing `e`: `e` is at least as far as every retained
      point, so the old contents are still the k closest. */
  lemma RejectWhenFull(s: seq<Point>, e: Point, k: nat)
    requires SortedAscending(s) && |s| == k >= 1
    requires FirstGreater(s, e.key) == k
    ensures IsKSmallest(multiset(s), multiset(s) + multiset{e}, k)
  {
    forall y | y in multiset(s) + multiset{e}
      ensures y.key <= e.key
    {
      if y != e {
        assert y in s;
      }
    }
    assert multiset(s) + multiset{e} - multiset{e} == multiset(s);
    EvictMaxIsKSmallest(multiset(s), e, e, k);
  }

  /** The last point of a sorted list is a furthest one. */
  lemma LastIsMaxKey(s: seq<Point>)
    requires SortedAscending(s) && |s| > 0
    ensures IsMaxKey(s[|s| - 1], multiset(s))
  {
    forall y | y in multiset(s)
      ensures y.key <= s[|s| - 1].key
    {
      assert y in s;
    }
  }

  /** Whether offer takes `e` into a queue holding `s` with capacity `k`:
      always below capacity, and at capacity only when some retained point
      is strictly further than `e`. */
  function Accepts(s: seq<Point>, e: Point, k: int): (r: bool)
    ensures |s| < k ==> r
  {
    |s| < k || FirstGreater(s, e.key) < |s|
  }

  /** The list offer leaves behind: the stable insertion of `e`, cut back
      to `k` points when the queue was full, or the old list when `e` is
      refused. */
  function AfterOffer(s: seq<Point>, e: Point, k: int): (r: seq<Point>)
    ensures |s| <= k ==> |r| <= k
  {
    if |s| < k then Inserted(s, e)
    else if FirstGreater(s, e.key) < |s| then Inserted(s, e)[..|s|]
    else s
  }

  /** One offer on a valid queue: the list stays sorted and within capacity;
      a full queue accepts exactly the points strictly closer than its last
      point, and then its furthest distance does not grow; a refused point
      leaves the list as it was. */
  lemma AfterOfferSorted(s: seq<Point>, e: Point, k: int)
    requires 1 <= k && |s| <= k && SortedAscending(s)
    ensures SortedAscending(AfterOffer(s, e, k))
    ensures |AfterOffer(s, e, k)| == Min(|s| + 1, k)
    ensures |s| == k ==> (Accepts(s, e, k) <==> e.key < s[k - 1].key)
    ensures !Accepts(s, e, k) ==> AfterOffer(s, e, k) == s
    ensures |s| == k ==> AfterOffer(s, e, k)[k - 1].key <= s[k - 1].key
  {
    var i := FirstGreater(s, e.key);
    InsertedIsSortedAndStable(s, e);
    if |s| < k {
    } else if i < |s| {
      DropLastThenInsertAt(s, i, e);
      DropLastThenInsertAtSorted(s, i, e);
    } else {
    }
  }

  /** A full queue that accepts `e` still holds k points: exactly its old
      last point was traded for `e`. */
  lemma AcceptWhenFull(s: seq<Point>, e: Point, k: int)
    requires SortedAscending(s) && |s| == k >= 1 && e.key < s[k - 1].key
    ensures Accepts(s, e, k)
    ensures |AfterOffer(s, e, k)| == k
    ensures multiset(AfterOffer(s, e, k)) == multiset(s) + multiset{e} - multiset{s[k - 1]}
  {
    FirstGreaterInRange(s, e.key);
    DropLastThenInsertAt(s, FirstGreater(s, e.key), e);
  }

  /** After one offer the list holds the k closest of its old contents plus
      the offered point. */
  lemma AfterOfferIsKSmallest(s: seq<Point>, e: Point, k: int)
    requires 1 <= k && |s| <= k && SortedAscending(s)
    ensures IsKSmallest(multiset(AfterOffer(s, e, k)), multiset(s) + multiset{e}, k)
  {
    var i := FirstGreater(s, e.key);
    InsertedIsSortedAndStable(s, e);
    if |s| < k {
      KSmallestOfAll(multiset(s) + multiset{e}, k);
    } else if i < |s| {
      DropLastThenInsertAt(s, i, e);
      EvictLastIsKSmallest(s, e, k);
    } else {
      RejectWhenFull(s, e, k);
    }
  }

  /** A queue holding the k closest of the points offered so far still does
      after one more offer. */
  lemma OfferKeepsKSmallest(s: seq<Point>, offered: multiset<Point>, e: Point, k: int)
    requires 1 <= k && |s| <= k && SortedAscending(s)
    requires IsKSmallest(multiset(s), offered, k)
    ensures IsKSmallest(multiset(AfterOffer(s, e, k)), offered + multiset{e}, k)
  {
    AfterOfferIsKSmallest(s, e, k);
    KSmallestStep(multiset(s), offered, e, multiset(AfterOffer(s, e, k)), k);
  }

  /** A full queue whose scan stops at `i`: offer trades the last point for
      `e` at index `i`. */
  lemma OfferFullAt(s: seq<Point>, e: Point, k: int, i: int)
    requires 1 <= k && |s| == k && SortedAscending(s)
    requires 0 <= i < |s| && FirstGreater(s, e.key) == i
    ensures Accepts(s, e, k) && SortedAscending(AfterOffer(s, e, k))
    ensures AfterOffer(s, e, k) == s[..k - 1][..i] + [e] + s[..k - 1][i..]
  {
    DropLastThenInsertAt(s, i, e);
    AfterOfferSorted(s, e, k);
  }

  /** A queue below capacity whose scan stops at `i`: offer adds `e` at
      index `i`. */
  lemma OfferBelowAt(s: seq<Point>, e: Point, k: int, i: int)
    requires |s| < k && SortedAscending(s)
    requires 0 <= i <= |s| && FirstGreater(s, e.key) == i
    ensures Accepts(s, e, k) && SortedAscending(AfterOffer(s, e, k))
    ensures AfterOffer(s, e, k) == s[..i] + [e] + s[i..]
    ensures i == |s| ==> AfterOffer(s, e, k) == s + [e]
  {
    InsertedIsSortedAndStable(s, e);
    assert s[..|s|] == s;
  }

  /** The list after offering every point of `ps`, in order, to a queue
      holding `s`: what findKNN's loop computes. */
  function OfferAll(s: seq<Point>, ps: seq<Point>, k: int): (r: seq<Point>)
    ensures |s| <= k ==> |r| <= k
    decreases |ps|
  {
    if ps == [] then s
    else AfterOffer(OfferAll(s, ps[..|ps| - 1], k), ps[|ps| - 1], k)
  }

  /** Offering a whole stream keeps the list sorted and within capacity. */
  lemma {:induction false} OfferAllSorted(s: seq<Point>, ps: seq<Point>, k: int)
    requires 1 <= k && |s| <= k && SortedAscending(s)
    ensures |OfferAll(s, ps, k)| <= k && SortedAscending(OfferAll(s, ps, k))
    decreases |ps|
  {
    if ps != [] {
      var init := ps[..|ps| - 1];
      OfferAllSorted(s, init, k);
      AfterOfferSorted(OfferAll(s, init, k), ps[|ps| - 1], k);
    }
  }

  /** Offering a whole stream to a valid queue leaves it holding the k
      closest of its old contents and the stream. */
  lemma {:induction false} OfferAllIsKSmallest(s: seq<Point>, ps: seq<Point>, k: int)
    requires 1 <= k && |s| <= k && SortedAscending(s)
    ensures IsKSmallest(multiset(OfferAll(s, ps, k)), multiset(s) + multiset(ps), k)
    decreases |ps|
  {
    if ps == [] {
      KSmallestOfAll(multiset(s), k);
    } else {
      var init, e := ps[..|ps| - 1], ps[|ps| - 1];
      var mid := OfferAll(s, init, k);
      assert multiset(s) + multiset(ps) == multiset(s) + multiset(init) + multiset{e} by {
        assert ps == init + [e];
      }
      assert OfferAll(s, ps, k) == AfterOffer(mid, e, k);
      OfferAllIsKSmallest(s, init, k);
      OfferAllSorted(s, init, k);
      OfferKeepsKSmallest(mid, multiset(s) + multiset(init), e, k);
    }
  }

  class PriorityQueue1 {
    /** Capacity: the number of neighbours wanted. */
    const k: int
    /** The candidate points findKNN offers, keys already set to their
        distance to the query. */
    const pointsS: seq<Point>
    var size: int
    /** The retained points, closest first. */
    var distLabel: seq<Point>

    ghost predicate Valid()
      reads this
    {
      && 1 <= k
      && size == |distLabel| <= k
      && SortedAscending(distLabel)
    }

    constructor (kInput: int, ps: seq<Point>)
      requires kInput >= 1
      ensures Valid()
      ensures k == kInput && pointsS == ps && distLabel == []
    {
      distLabel := [];
      k := kInput;
      size := 0;
      pointsS := ps;
    }

    /** Offers `e`: below capacity it is always inserted in order; at
        capacity it replaces the furthest point exactly when it is strictly
        closer than that point, and otherwise nothing changes. */
    method Offer(e: Point) returns (accepted: bool)
      requires Valid()
      modifies this
      ensures Valid()
      ensures distLabel == AfterOffer(old(distLabel), e, k)
      ensures accepted == Accepts(old(distLabel), e, k)
    {
      ghost var before := distLabel;
      if size == 0 {
        OfferBelowAt(before, e, k, 0);
        distLabel := distLabel + [e];
        size := size + 1;
        return true;
      } else if size == k {
        for i := 0 to size
          invariant distLabel == before && size == k
          invariant i <= FirstGreater(before, e.key)
        {
          if e.key < distLabel[i].key {
            assert FirstGreater(before, e.key) == i;
            OfferFullAt(before, e, k, i);
            distLabel := distLabel[..size - 1];
            distLabel := distLabel[..i] + [e] + distLabel[i..];
            return true;
          }
        }
        assert FirstGreater(before, e.key) == k;
        return false;
      } else {
        for i := 0 to size
          invariant distLabel == before && size == |before|
          invariant i <= FirstGreater(before, e.key)
        {
          if e.key < distLabel[i].key {
            assert FirstGreater(before, e.key) == i;
            OfferBelowAt(before, e, k, i);
            distLabel := distLabel[..i] + [e] + distLabel[i..];
            size := size + 1;
            return true;
          }
        }
        assert FirstGreater(before, e.key) == |before|;
        OfferBelowAt(before, e, k, |before|);
        distLabel := distLabel + [e];
        size := size + 1;
        return true;
      }
    }

    /** Removes and returns the furthest retained point, the last one; `None`
        on an empty queue. */
    method Poll() returns (head: Option<Point>)
      requires Valid()
      modifies this
      ensures Valid()
      ensures old(size) == 0 ==> head == None && distLabel == old(distLabel) && size == 0
      ensures old(size) > 0 ==> && head == Some(old(distLabel)[old(size) - 1])
                                && distLabel == old(distLabel)[..old(size) - 1]
                                && size == old(size) - 1
      ensures head.Some? ==> IsMaxKey(head.value, old(multiset(distLabel)))
    {
      var empty := IsEmpty();
      if empty {
        return None;
      }
      LastIsMaxKey(distLabel);
      var last := distLabel[size - 1];
      distLabel := distLabel[..size - 1];
      size := size - 1;
      return Some(last);
    }

    /** The furthest retained point, the last one, without removing it;
        `None` on an empty queue. */
    method Peek() returns (head: Option<Point>)
      requires Valid()
      ensures head == None <==> distLabel == []
      ensures head.Some? ==> head.value == distLabel[|distLabel| - 1]
      ensures head.Some? ==> IsMaxKey(head.value, multiset(distLabel))
    {
      var empty := IsEmpty();
      if empty {
        return None;
      }
      LastIsMaxKey(distLabel);
      return Some(distLabel[size - 1]);
    }

    method Size() returns (n: int)
      requires Valid()
      ensures n == |distLabel| && 0 <= n <= k
    {
      return size;
    }

    method IsEmpty() returns (empty: bool)
      requires Valid()
      ensures empty <==> distLabel == []
    {
      return size == 0;
    }

    /** Offers every point of `pointsS` in order and returns the retained
        list itself: closest first, and the k closest of everything the
        queue held or was offered. */
    method FindKNN() returns (result: seq<Point>)
      requires Valid()
      modifies this
      ensures Valid() && result == distLabel
      ensures result == OfferAll(old(distLabel), pointsS, k)
      ensures SortedAscending(result)
      ensures IsKSmallest(multiset(result), old(multiset(distLabel)) + multiset(pointsS), k)
    {
      for i := 0 to |pointsS|
        invariant Valid()
        invariant distLabel == OfferAll(old(distLabel), pointsS[..i], k)
      {
        var _ := Offer(pointsS[i]);
        assert pointsS[..i + 1][..i] == pointsS[..i];
      }
      assert pointsS[..|pointsS|] == pointsS;
      OfferAllIsKSmallest(old(distLabel), pointsS, k);
      result := distLabel;
    }
  }

  /** One query as the driver runs it: a fresh queue of capacity `k` over
      `points`, then findKNN. The answer is the `Min(k, |points|)` closest
      points, closest first. */
  method NearestNeighbours(k: int, points: seq<Point>) returns (result: seq<Point>)
    requires k >= 1
    ensures |result| == Min(k, |points|)
    ensures SortedAscending(result)
    ensures IsKSmallest(multiset(result), multiset(points), k)
  {
    var queue := new PriorityQueue1(k, points);
    result := queue.FindKNN();
  }
}
