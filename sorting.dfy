/** What the heap-based queues do with the retained points before handing
    them back: sort them with ComparingPoints (furthest first), then copy
    them out back to front (closest first). */
module Sorting {
  import opened Points

  /** Places `x` into a list already ordered furthest first. */
  function InsertByComparator(x: Point, s: seq<Point>): (r: seq<Point>)
    requires SortedDescending(s)
    ensures |r| == |s| + 1 && multiset(r) == multiset(s) + multiset{x}
    ensures SortedDescending(r)
  {
    if s == [] || Compare(x, s[0]) <= 0 then
      [x] + s
    else
      var t := InsertByComparator(x, s[1..]);
      assert s == [s[0]] + s[1..];
      HeadStaysFirst(s, x, t);
      [s[0]] + t
  }

  /** When `x` is strictly closer than the head of `s`, the head may stay in
      front of any descending arrangement of the rest of `s` plus `x`. */
  lemma HeadStaysFirst(s: seq<Point>, x: Point, t: seq<Point>)
    requires SortedDescending(s) && s != [] && x.key < s[0].key
    requires SortedDescending(t) && multiset(t) == multiset(s[1..]) + multiset{x}
    ensures SortedDescending([s[0]] + t)
  {
    forall j | 0 <= j < |t|
      ensures t[j].key <= s[0].key
    {
      assert t[j] in multiset(t);
      if t[j] != x {
        assert t[j] in multiset(s[1..]);
      }
    }
  }

  /** `list.sort(new ComparingPoints())` on an ArrayList: a permutation of
      the list in which no point compares greater than a later one, so the
      furthest point comes first. Only this outcome is modelled; the relative
      order of equal keys is whatever this insertion sort gives. */
  function SortByComparingPoints(s: seq<Point>): (r: seq<Point>)
    ensures |r| == |s| && multiset(r) == multiset(s)
    ensures SortedByComparator(r)
  {
    if s == [] then
      []
    else
      assert s == [s[0]] + s[1..];
      var t := SortByComparingPoints(s[1..]);
      ComparatorOrderIsDescending(t);
      var r := InsertByComparator(s[0], t);
      ComparatorOrderIsDescending(r);
      r
  }

  /** The closing loop of findKNN: walk the sorted list from its last index
      down to 0, appending each point, so the closest point comes first. */
  method CopyReversed(sorted: seq<Point>) returns (result: seq<Point>)
    ensures |result| == |sorted|
    ensures forall j :: 0 <= j < |sorted| ==> result[j] == sorted[|sorted| - 1 - j]
    ensures multiset(result) == multiset(sorted)
    ensures SortedByComparator(sorted) ==> SortedAscending(result)
  {
    result := [];
    var i := |sorted| - 1;
    while i >= 0
      invariant -1 <= i < |sorted|
      invariant |result| == |sorted| - 1 - i
      invariant forall j :: 0 <= j < |result| ==> result[j] == sorted[|sorted| - 1 - j]
      invariant multiset(result) == multiset(sorted[i + 1..])
    {
      assert sorted[i..] == [sorted[i]] + sorted[i + 1..];
      result := result + [sorted[i]];
      i := i - 1;
    }
    assert sorted[0..] == sorted;
    ComparatorOrderIsDescending(sorted);
  }
}
