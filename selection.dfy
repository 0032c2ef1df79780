/** The contract the three queues share: after a stream of offers, the queue
    retains the k closest points offered. */
module Selection {
  import opened Points

  /** `r` is a choice of the `Min(k, |offered|)` closest points of `offered`:
      it is drawn from `offered`, has that size, and no retained point is
      further away than a dropped one. Ties at the boundary may be broken
      either way. */
  ghost predicate IsKSmallest(r: multiset<Point>, offered: multiset<Point>, k: nat)
  {
    && r <= offered
    && |r| == Min(k, |offered|)
    && forall a, b {:trigger NoFurther(a, b)} :: a in r && b in offered - r ==> NoFurther(a, b)
  }

  /** `a` is no further from the query than `b`. The boundary clause of
      IsKSmallest is stated through it so that the clause is only used
      where a proof names a pair of points. */
  ghost predicate NoFurther(a: Point, b: Point)
  {
    a.key <= b.key
  }

  /** A queue that never overflowed retains everything it was offered. */
  lemma KSmallestOfAll(r: multiset<Point>, k: nat)
    requires |r| <= k
    ensures IsKSmallest(r, r, k)
  {
    assert r - r == multiset{};
  }

  /** A full queue that takes one more point and then drops a furthest point
      retains the k closest of what it held plus the new point. */
  lemma EvictMaxIsKSmallest(r: multiset<Point>, e: Point, x: Point, k: nat)
    requires |r| == k
    requires IsMaxKey(x, r + multiset{e})
    ensures IsKSmallest(r + multiset{e} - multiset{x}, r + multiset{e}, k)
  {
    var m := r + multiset{e};
    var kept := m - multiset{x};
    assert m - kept == multiset{x};
  }

  /** Offers compose: if `r` is the k closest of `offered`, and offering `e`
      turns `r` into the k closest of `r + {e}`, then the result is the k
      closest of everything offered, `e` included. */
  lemma KSmallestStep(r: multiset<Point>, offered: multiset<Point>, e: Point, r': multiset<Point>, k: nat)
    requires IsKSmallest(r, offered, k)
    requires IsKSmallest(r', r + multiset{e}, k)
    ensures IsKSmallest(r', offered + multiset{e}, k)
  {
    var m := r + multiset{e};
    var o := offered + multiset{e};
    if |offered| < k {
      assert offered - r == multiset{} by {
        assert offered == r + (offered - r);
      }
      assert r == offered by {
        assert offered == r + (offered - r);
      }
    } else {
      assert |r| == k;
      assert m == r' + (m - r');
      assert |m - r'| == 1;
      var x :| x in m - r';
      forall a, b | a in r' && b in o - r'
        ensures NoFurther(a, b)
      {
        if b in m - r' {
          assert NoFurther(a, b);
        } else {
          assert b in offered - r;
          if a in r {
            assert NoFurther(a, b);
          } else {
            assert a == e;
            assert NoFurther(a, x);
            assert x in r;
            assert NoFurther(x, b);
          }
        }
      }
    }
  }

  /** Two collections of points are the same up to ties: equally many, and
      whatever one holds beyond the other is exactly as far away as
      whatever the other holds beyond the first. */
  ghost predicate AgreeUpToTies(r1: multiset<Point>, r2: multiset<Point>)
  {
    && |r1| == |r2|
    && forall a, b :: a in r1 - r2 && b in r2 - r1 ==> a.key == b.key
  }

  /** Any two choices of the k closest points of the same offers agree up
      to ties: they can differ only in which of several equally far points
      at the boundary they keep. */
  lemma KSmallestUpToTies(r1: multiset<Point>, r2: multiset<Point>, offered: multiset<Point>, k: nat)
    requires IsKSmallest(r1, offered, k) && IsKSmallest(r2, offered, k)
    ensures AgreeUpToTies(r1, r2)
  {
    forall a, b | a in r1 - r2 && b in r2 - r1
      ensures a.key == b.key
    {
      assert a in offered - r2;
      assert b in offered - r1;
      assert NoFurther(a, b);
      assert NoFurther(b, a);
    }
  }
}
