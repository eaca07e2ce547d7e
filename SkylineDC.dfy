/**
 * findSkyline as the program runs it: the ArrayLists are sequences that the
 * loops grow or shrink one element at a time, and each loop is proved to
 * compute the corresponding function of SkylineSpec.
 */
module SkylineDC {
  import opened Points
  import opened SkylineSpec

  /** The two copying loops: the first n/2 points go left, the rest go right. */
  method SplitHalves(points: seq<Point>) returns (left: seq<Point>, right: seq<Point>)
    ensures left + right == points
    ensures |left| == |points| / 2
    ensures |points| >= 2 ==> 0 < |left| < |points| && 0 < |right| < |points|
  {
    left, right := [], [];
    var half := |points| / 2;
    for i := 0 to half
      invariant left == points[..i]
    {
      left := left + [points[i]];
    }
    for i := half to |points|
      invariant right == points[half..i]
    {
      right := right + [points[i]];
    }
    assert points == points[..half] + points[half..];
  }

  /** The scan for the least y of the left result, starting from Sentinel. */
  method ComputeMinY(left: seq<Point>) returns (minY: int)
    ensures minY == MinY(left, Sentinel)
  {
    minY := Sentinel;
    for i := 0 to |left|
      invariant minY == MinY(left[..i], Sentinel)
    {
      assert left[..i + 1][..i] == left[..i];
      if left[i].y < minY {
        minY := left[i].y;
      }
    }
    assert left[..|left|] == left;
  }

  /**
   * The filter loop: a point with y >= minY is removed in place and the index
   * stays; otherwise the index advances. Removing such a point never changes
   * what the filter keeps, and once every remaining point lies below minY the
   * list is its own filter.
   */
  method RemoveDominated(right: seq<Point>, minY: int) returns (list: seq<Point>)
    ensures list == Kept(right, minY)
  {
    list := right;
    var index := 0;
    while index < |list|
      invariant 0 <= index <= |list|
      invariant Kept(list, minY) == Kept(right, minY)
      invariant forall i :: 0 <= i < index ==> list[i].y < minY
      decreases |list| - index
    {
      if list[index].y >= minY {
        KeptRemove(list, index, minY);
        list := list[..index] + list[index + 1..];
      } else {
        index := index + 1;
      }
    }
    KeptAllBelow(list, minY);
  }

  /**
   * The collapse loop over adjacent pairs: on equal x the point with larger y is
   * removed (on equal y the later one) and the index stays; otherwise it advances.
   */
  method CollapseEqualX(merged: seq<Point>) returns (list: seq<Point>)
    ensures list == Collapse(merged)
  {
    list := merged;
    var index := 0;
    while index < |list| - 1
      invariant |list| == 0 <==> |merged| == 0
      invariant |list| > 0 ==>
        (0 <= index < |list| && list[..index] + CollapseFrom(list[index], list[index + 1..]) == Collapse(merged))
      decreases |list| - index
    {
      var cur, next := list[index], list[index + 1];
      assert list[index + 1..] == [next] + list[index + 2..];
      if cur.x == next.x {
        if cur.y > next.y {
          list := list[..index] + list[index + 1..];
        } else {
          list := list[..index + 1] + list[index + 2..];
        }
      } else {
        assert list[..index + 1] == list[..index] + [cur];
        index := index + 1;
      }
    }
    if |list| > 0 {
      assert list[index + 1..] == [];
      assert list == list[..index] + [list[index]];
    }
  }

  /**
   * findSkyline: split by position, solve both halves, filter the right result
   * by the least y of the left one, append, and collapse equal x. On x-sorted
   * input with every y at most 1001 the result is the skyline of the input.
   */
  method FindSkyline(points: seq<Point>) returns (skyline: seq<Point>)
    ensures skyline == Skyline(points, Sentinel)
    ensures |points| <= 1 ==> skyline == points
    ensures SortedByX(points) ==> Staircase(skyline)
    ensures SortedByX(points) && AllBelow(points, Sentinel + 1) ==> IsSkylineOf(skyline, points)
    decreases |points|
  {
    if |points| <= 1 {
      return points;
    }
    var left, right := SplitHalves(points);
    assert left == points[..|points| / 2] && right == points[|points| / 2..];
    left := FindSkyline(left);
    right := FindSkyline(right);
    var minY := ComputeMinY(left);
    right := RemoveDominated(right, minY);
    left := left + right;
    skyline := CollapseEqualX(left);
    if SortedByX(points) {
      SkylineStaircase(points, Sentinel);
      if AllBelow(points, Sentinel + 1) {
        SkylineCorrectUpTo(points, Sentinel);
      }
    }
  }
}
