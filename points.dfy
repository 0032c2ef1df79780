/** Points as the bounded priority queues see them, and the comparator the
    heap-based queues hand to the Java library. */
module Points {

  /** A labelled point whose scratch key already holds its distance to the
      query point. `id` is the point's label, its stable identity. */
  datatype Point = Point(id: int, key: int)

  /** The result of poll and peek: Java's `null` is `None`. */
  datatype Option<T> = None | Some(value: T)

  function Min(a: int, b: int): int
  {
    if a <= b then a else b
  }

  /** ComparingPoints.compare: 1 when `p1` is strictly closer to the query
      than `p2`, -1 otherwise (ties included). */
  function Compare(p1: Point, p2: Point): (r: int)
    ensures r == 1 || r == -1
  {
    if p1.key < p2.key then 1 else -1
  }

  /** Closest first. */
  predicate SortedAscending(s: seq<Point>)
  {
    forall i, j {:trigger s[i].key, s[j].key} :: 0 <= i < j < |s| ==> s[i].key <= s[j].key
  }

  /** Furthest first. */
  predicate SortedDescending(s: seq<Point>)
  {
    forall i, j {:trigger s[i].key, s[j].key} :: 0 <= i < j < |s| ==> s[i].key >= s[j].key
  }

  /** Ordered as a Java sort with ComparingPoints leaves a list: no element
      compares greater than an element after it. */
  predicate SortedByComparator(s: seq<Point>)
  {
    forall i, j {:trigger Compare(s[i], s[j])} :: 0 <= i < j < |s| ==> Compare(s[i], s[j]) <= 0
  }

  /** `x` is retained in `m` and no retained point is further away. */
  predicate IsMaxKey(x: Point, m: multiset<Point>)
  {
    x in m && forall y :: y in m ==> y.key <= x.key
  }

  /** The comparator never answers 0, orders strictly closer points first
      in its "greater" sense, and breaks the Comparator contract on ties:
      two points at the same distance each compare less than the other. */
  lemma CompareIsTwoValued(p1: Point, p2: Point)
    ensures Compare(p1, p2) != 0
    ensures Compare(p1, p2) == 1 <==> p1.key < p2.key
    ensures Compare(p1, p2) == -1 <==> p2.key <= p1.key
    ensures p1.key == p2.key ==> Compare(p1, p2) == Compare(p2, p1) == -1
  {
  }

  /** Sorting with ComparingPoints puts the furthest points first. */
  lemma ComparatorOrderIsDescending(s: seq<Point>)
    ensures SortedByComparator(s) <==> SortedDescending(s)
  {
    if SortedByComparator(s) {
      forall i, j | 0 <= i < j < |s|
        ensures s[i].key >= s[j].key
      {
        assert Compare(s[i], s[j]) <= 0;
      }
    }
    if SortedDescending(s) {
      forall i, j | 0 <= i < j < |s|
        ensures Compare(s[i], s[j]) <= 0
      {
        assert s[i].key >= s[j].key;
      }
    }
  }

  /** Every non-empty collection of points has a furthest one. */
  lemma {:induction false} MaxKeyExists(m: multiset<Point>)
    requires m != multiset{}
    ensures exists x :: IsMaxKey(x, m)
    decreases |m|
  {
    var y :| y in m;
    var rest := m - multiset{y};
    assert m == rest + multiset{y};
    if rest == multiset{} {
      assert IsMaxKey(y, m);
    } else {
      MaxKeyExists(rest);
      var z :| IsMaxKey(z, rest);
      if z.key <= y.key {
        assert IsMaxKey(y, m);
      } else {
        assert IsMaxKey(z, m);
      }
    }
  }
}
