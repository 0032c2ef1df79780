/** The three queues answer the same query with the same neighbours, up to
    which of several equally far points they keep at the boundary. */
module Agreement {
  import opened Points
  import opened Selection
  import SortedListQueue
  import ArrayHeapQueue
  import LibraryHeapQueue

  /** One query answered by each of the driver's three versions: the answers
      are equally long, each is closest first, and any two agree up to ties. */
  method AllVersions(k: int, points: seq<Point>) returns (r1: seq<Point>, r2: seq<Point>, r3: seq<Point>)
    requires k >= 1
    ensures |r1| == |r2| == |r3| == Min(k, |points|)
    ensures SortedAscending(r1) && SortedAscending(r2) && SortedAscending(r3)
    ensures AgreeUpToTies(multiset(r1), multiset(r2))
    ensures AgreeUpToTies(multiset(r2), multiset(r3))
    ensures AgreeUpToTies(multiset(r1), multiset(r3))
  {
    r1 := SortedListQueue.NearestNeighbours(k, points);
    r2 := ArrayHeapQueue.NearestNeighbours(k, points);
    r3 := LibraryHeapQueue.NearestNeighbours(k, points);
    KSmallestUpToTies(multiset(r1), multiset(r2), multiset(points), k);
    KSmallestUpToTies(multiset(r2), multiset(r3), multiset(points), k);
    KSmallestUpToTies(multiset(r1), multiset(r3), multiset(points), k);
  }
}
