/**
 * The divide-and-conquer skyline as pure functions, one per step of findSkyline,
 * and the lemmas that state what each step and the whole recursion achieve.
 * Every function takes minY's initial value as a parameter `init`; the program
 * starts minY at Sentinel (1001). The theorems' condition "every y < init"
 * reads "every y <= 1000" for it; SkylineShift extends the skyline theorem to
 * "every y <= 1001", the exact bound up to which the start value is harmless.
 */
module SkylineSpec {
  import opened Points

  /** The initial value findSkyline gives minY. */
  const Sentinel := 1001

  /** The initial value of minY that makes every short-coordinate input safe (Integer.MAX_VALUE). */
  const IntMax := 0x7fff_ffff

  /** y-coordinates the program can read: nextShort yields values of Java's short type. */
  predicate ShortYs(s: seq<Point>) {
    forall p :: p in s ==> -0x8000 <= p.y <= 0x7fff
  }

  /** x-coordinate of the points of one half lie at or left of those of the other half. */
  predicate LeftOf(l: seq<Point>, r: seq<Point>) {
    forall a, b :: a in l && b in r ==> a.x <= b.x
  }

  /** No two neighbours share an x-coordinate. */
  predicate NoAdjacentEqualX(s: seq<Point>) {
    forall i :: 0 <= i < |s| - 1 ==> s[i].x != s[i + 1].x
  }

  /** Every point after the first has y strictly below bound; the first may lie anywhere. */
  predicate TailBelow(s: seq<Point>, bound: int) {
    forall i :: 1 <= i < |s| ==> s[i].y < bound
  }

  // ---------------------------------------------------------------------------
  // Step 4: minY

  /**
   * minY after scanning `left` from `init` with "if (y < minY) minY = y":
   * the smaller of init and the least y of left.
   */
  function MinY(left: seq<Point>, init: int): (m: int)
    ensures m <= init
    ensures forall i :: 0 <= i < |left| ==> m <= left[i].y
    ensures m == init || exists i :: 0 <= i < |left| && left[i].y == m
  {
    if |left| == 0 then init
    else
      var m := MinY(left[..|left| - 1], init);
      assert forall i :: 0 <= i < |left| - 1 ==> left[..|left| - 1][i] == left[i];
      if left[|left| - 1].y < m then left[|left| - 1].y else m
  }

  /** When every y of a non-empty left lies below init, minY is the least y of left, attained by one of its points. */
  lemma MinYIsLeastY(left: seq<Point>, init: int)
    requires |left| > 0 && AllBelow(left, init)
    ensures exists t :: t in left && t.y == MinY(left, init)
    ensures forall t :: t in left ==> MinY(left, init) <= t.y
  {
    assert left[0] in left;
  }

  // ---------------------------------------------------------------------------
  // Step 5: the dominance filter

  /** The right points that survive "remove every point with y >= minY", in their order. */
  function Kept(right: seq<Point>, minY: int): (k: seq<Point>)
    ensures |k| <= |right|
  {
    if |right| == 0 then []
    else
      var k := Kept(right[..|right| - 1], minY);
      if right[|right| - 1].y >= minY then k else k + [right[|right| - 1]]
  }

  /** The filter keeps exactly the points with y below minY: a point with y equal to minY goes too. */
  lemma {:induction false} KeptMembers(right: seq<Point>, minY: int)
    ensures forall p :: p in Kept(right, minY) <==> p in right && p.y < minY
  {
    if |right| > 0 {
      var init, last := right[..|right| - 1], right[|right| - 1];
      KeptMembers(init, minY);
      assert right == init + [last];
    }
  }

  /** The filter decides each point on its own: appending a point appends it to the result exactly when its y is below minY. */
  lemma KeptAppend(s: seq<Point>, p: Point, minY: int)
    ensures Kept(s + [p], minY) == if p.y >= minY then Kept(s, minY) else Kept(s, minY) + [p]
  {
    assert (s + [p])[..|s|] == s;
  }

  /** Filtering a concatenation filters each part: the filter decides point by point. */
  lemma {:induction false} KeptConcat(a: seq<Point>, b: seq<Point>, minY: int)
    ensures Kept(a + b, minY) == Kept(a, minY) + Kept(b, minY)
    decreases |b|
  {
    if |b| == 0 {
      assert a + b == a;
    } else {
      var init, last := b[..|b| - 1], b[|b| - 1];
      assert b == init + [last];
      assert a + b == (a + init) + [last];
      KeptConcat(a, init, minY);
      KeptAppend(a + init, last, minY);
      KeptAppend(init, last, minY);
    }
  }

  /** Removing a point with y at or above minY does not change what the filter keeps. */
  lemma KeptRemove(s: seq<Point>, i: int, minY: int)
    requires 0 <= i < |s| && s[i].y >= minY
    ensures Kept(s[..i] + s[i + 1..], minY) == Kept(s, minY)
  {
    assert s == s[..i] + [s[i]] + s[i + 1..];
    KeptConcat(s[..i] + [s[i]], s[i + 1..], minY);
    KeptAppend(s[..i], s[i], minY);
    KeptConcat(s[..i], s[i + 1..], minY);
  }

  /** The filter keeps the order of what it keeps: it maps a staircase to a staircase. */
  lemma {:induction false} KeptStaircase(right: seq<Point>, minY: int)
    requires Staircase(right)
    ensures Staircase(Kept(right, minY))
  {
    if |right| > 0 {
      var init, last := right[..|right| - 1], right[|right| - 1];
      KeptStaircase(init, minY);
      var k := Kept(init, minY);
      KeptMembers(init, minY);
      if last.y < minY {
        forall i | 0 <= i < |k|
          ensures k[i].x < last.x && k[i].y > last.y
        {
          assert k[i] in init;
          var a :| 0 <= a < |init| && init[a] == k[i];
          assert right[a] == k[i];
        }
        assert Kept(right, minY) == k + [last];
      }
    }
  }

  /** When every y lies below minY the filter removes nothing. */
  lemma {:induction false} KeptAllBelow(right: seq<Point>, minY: int)
    requires AllBelow(right, minY)
    ensures Kept(right, minY) == right
  {
    if |right| > 0 {
      var init := right[..|right| - 1];
      assert right[|right| - 1] in right;
      assert forall p :: p in init ==> p in right;
      KeptAllBelow(init, minY);
      assert right == init + [right[|right| - 1]];
    }
  }

  // ---------------------------------------------------------------------------
  // Step 7: the equal-x collapse

  /**
   * The collapse pass seen from a current point c followed by rest: c meets its
   * successor; on equal x the one with larger y (on a tie, the successor) is dropped
   * and the survivor becomes the current point; otherwise c is final.
   */
  function CollapseFrom(c: Point, rest: seq<Point>): (r: seq<Point>)
    decreases |rest|
    ensures 1 <= |r| <= |rest| + 1 && r[0].x == c.x
  {
    if |rest| == 0 then [c]
    else if c.x == rest[0].x then
      CollapseFrom(if c.y > rest[0].y then rest[0] else c, rest[1..])
    else
      [c] + CollapseFrom(rest[0], rest[1..])
  }

  /** The collapse only drops points: what it keeps is the current point or a later one. */
  lemma {:induction false} CollapseFromWithin(c: Point, rest: seq<Point>)
    ensures forall q :: q in CollapseFrom(c, rest) ==> q == c || q in rest
    decreases |rest|
  {
    if |rest| > 0 {
      var next, tail := rest[0], rest[1..];
      assert rest == [next] + tail;
      if c.x == next.x {
        CollapseFromWithin(if c.y > next.y then next else c, tail);
      } else {
        CollapseFromWithin(next, tail);
      }
    }
  }

  /** Whatever the input order, the collapse pass leaves no two neighbours with equal x. */
  lemma {:induction false} CollapseFromNoAdjacentEqualX(c: Point, rest: seq<Point>)
    ensures NoAdjacentEqualX(CollapseFrom(c, rest))
    decreases |rest|
  {
    if |rest| > 0 {
      var next, tail := rest[0], rest[1..];
      if c.x == next.x {
        CollapseFromNoAdjacentEqualX(if c.y > next.y then next else c, tail);
      } else {
        var t := CollapseFrom(next, tail);
        CollapseFromNoAdjacentEqualX(next, tail);
        var r := [c] + t;
        assert CollapseFrom(c, rest) == r;
        forall i | 0 <= i < |r| - 1
          ensures r[i].x != r[i + 1].x
        {
          if i == 0 {
            assert r[1] == t[0];
          } else {
            assert r[i] == t[i - 1] && r[i + 1] == t[i];
          }
        }
      }
    }
  }

  /** The collapse pass keeps only its current point in front: every later point it keeps comes from rest. */
  lemma {:induction false} CollapseFromTailWithin(c: Point, rest: seq<Point>)
    ensures forall i :: 1 <= i < |CollapseFrom(c, rest)| ==> CollapseFrom(c, rest)[i] in rest
    decreases |rest|
  {
    if |rest| > 0 {
      var next, tail := rest[0], rest[1..];
      assert rest == [next] + tail;
      if c.x == next.x {
        CollapseFromTailWithin(if c.y > next.y then next else c, tail);
      } else {
        var t := CollapseFrom(next, tail);
        CollapseFromWithin(next, tail);
        var r := [c] + t;
        assert CollapseFrom(c, rest) == r;
        forall i | 1 <= i < |r|
          ensures r[i] in rest
        {
          assert r[i] == t[i - 1];
          assert t[i - 1] in t;
        }
      }
    }
  }

  /** The merged list after the collapse loop. */
  function Collapse(merged: seq<Point>): (r: seq<Point>)
    ensures |r| <= |merged| && (|r| == 0 <==> |merged| == 0)
  {
    if |merged| == 0 then [] else CollapseFrom(merged[0], merged[1..])
  }

  /** Every point the collapse keeps comes from its input. */
  lemma CollapseWithin(merged: seq<Point>)
    ensures Within(Collapse(merged), merged)
  {
    if |merged| > 0 {
      CollapseFromWithin(merged[0], merged[1..]);
      assert merged == [merged[0]] + merged[1..];
    }
  }

  /** c lies at or left of every point of the x-sorted list rest. */
  predicate SortedFrom(c: Point, rest: seq<Point>) {
    SortedByX(rest) && forall i :: 0 <= i < |rest| ==> c.x <= rest[i].x
  }

  /** Every point of s has a point of out with the same x and no larger y. */
  predicate CoveredSameX(out: seq<Point>, s: seq<Point>) {
    forall p :: p in s ==> exists j :: 0 <= j < |out| && out[j].x == p.x && out[j].y <= p.y
  }

  /** Each point of out has the least y among the points of s with its x. */
  predicate LowestOfItsX(out: seq<Point>, s: seq<Point>) {
    forall q, p :: q in out && p in s && p.x == q.x ==> q.y <= p.y
  }

  /** Dropping the head of an x-sorted list leaves the head's successor in front of an x-sorted list. */
  lemma SortedFromTail(c: Point, rest: seq<Point>)
    requires SortedFrom(c, rest) && |rest| > 0
    ensures SortedFrom(rest[0], rest[1..]) && rest == [rest[0]] + rest[1..]
    ensures forall p :: p in rest ==> c.x <= rest[0].x <= p.x
  {
    assert forall i :: 0 <= i < |rest| - 1 ==> rest[1..][i] == rest[i + 1];
  }

  /** On x-sorted input no two points the collapse keeps share an x-coordinate, and x ascends. */
  lemma {:induction false} CollapseFromIncreasing(c: Point, rest: seq<Point>)
    requires SortedFrom(c, rest)
    ensures StrictlyIncreasingX(CollapseFrom(c, rest))
    decreases |rest|
  {
    if |rest| > 0 {
      var next, tail := rest[0], rest[1..];
      SortedFromTail(c, rest);
      if c.x == next.x {
        var survivor := if c.y > next.y then next else c;
        CollapseFromIncreasing(survivor, tail);
      } else {
        CollapseFromIncreasing(next, tail);
        var t := CollapseFrom(next, tail);
        var r := [c] + t;
        assert r == CollapseFrom(c, rest);
        forall i, j | 0 <= i < j < |r| ensures r[i].x < r[j].x {
          assert r[j] == t[j - 1];
          if i == 0 {
            assert t[0].x == next.x > c.x;
            assert j - 1 == 0 || t[0].x < t[j - 1].x;
          } else {
            assert r[i] == t[i - 1];
          }
        }
      }
    }
  }

  /**
   * Whatever the input order, each point meets a kept point with its x and no
   * larger y; for the current point c that is the first kept point.
   */
  lemma {:induction false} CollapseFromCovers(c: Point, rest: seq<Point>)
    ensures CollapseFrom(c, rest)[0].y <= c.y
    ensures forall i :: 0 <= i < |rest| ==>
      exists j :: 0 <= j < |CollapseFrom(c, rest)| &&
        CollapseFrom(c, rest)[j].x == rest[i].x && CollapseFrom(c, rest)[j].y <= rest[i].y
    decreases |rest|
  {
    var r := CollapseFrom(c, rest);
    if |rest| > 0 {
      var next, tail := rest[0], rest[1..];
      assert forall i :: 1 <= i < |rest| ==> rest[i] == tail[i - 1];
      if c.x == next.x {
        var survivor := if c.y > next.y then next else c;
        CollapseFromCovers(survivor, tail);
        assert r == CollapseFrom(survivor, tail);
        assert r[0].x == next.x && r[0].y <= next.y;
      } else {
        CollapseFromCovers(next, tail);
        var t := CollapseFrom(next, tail);
        assert r == [c] + t;
        forall i | 0 <= i < |rest|
          ensures exists j :: 0 <= j < |r| && r[j].x == rest[i].x && r[j].y <= rest[i].y
        {
          if i == 0 {
            assert r[1] == t[0];
          } else {
            var j :| 0 <= j < |t| && t[j].x == tail[i - 1].x && t[j].y <= tail[i - 1].y;
            assert r[j + 1] == t[j];
          }
        }
      }
    }
  }

  /** On x-sorted input each kept point has the least y of all points with its x. */
  lemma {:induction false} CollapseFromLowest(c: Point, rest: seq<Point>)
    requires SortedFrom(c, rest)
    ensures forall q, p :: q in CollapseFrom(c, rest) && (p == c || p in rest) && p.x == q.x ==> q.y <= p.y
    decreases |rest|
  {
    var r := CollapseFrom(c, rest);
    if |rest| > 0 {
      var next, tail := rest[0], rest[1..];
      SortedFromTail(c, rest);
      if c.x == next.x {
        var survivor := if c.y > next.y then next else c;
        CollapseFromLowest(survivor, tail);
        assert r == CollapseFrom(survivor, tail);
      } else {
        CollapseFromLowest(next, tail);
        CollapseFromWithin(next, tail);
        var t := CollapseFrom(next, tail);
        assert r == [c] + t;
      }
    }
  }

  /** An x-sorted list is its head in front of an x-sorted list. */
  lemma SortedFromHead(merged: seq<Point>)
    requires SortedByX(merged) && |merged| > 0
    ensures SortedFrom(merged[0], merged[1..]) && merged == [merged[0]] + merged[1..]
  {
    assert forall i :: 0 <= i < |merged| - 1 ==> merged[1..][i] == merged[i + 1];
  }

  /** On x-sorted input the collapse keeps at most one point per x-coordinate: x strictly ascends. */
  lemma CollapseIncreasing(merged: seq<Point>)
    requires SortedByX(merged)
    ensures StrictlyIncreasingX(Collapse(merged))
  {
    if |merged| > 0 {
      SortedFromHead(merged);
      CollapseFromIncreasing(merged[0], merged[1..]);
    }
  }

  /** On x-sorted input the point kept for an x-coordinate has the least y among the points with that x. */
  lemma CollapseKeepsLowest(merged: seq<Point>)
    requires SortedByX(merged)
    ensures LowestOfItsX(Collapse(merged), merged)
  {
    if |merged| > 0 {
      SortedFromHead(merged);
      CollapseFromLowest(merged[0], merged[1..]);
    }
  }

  /** On any input the collapse leaves no two neighbours with equal x, so equal adjacent points are gone as well. */
  lemma CollapseNoAdjacentEqualX(merged: seq<Point>)
    ensures NoAdjacentEqualX(Collapse(merged))
  {
    if |merged| > 0 {
      CollapseFromNoAdjacentEqualX(merged[0], merged[1..]);
    }
  }

  /** A collapse over points whose x-coordinates are all distinct removes nothing. */
  lemma {:induction false} CollapseDistinctX(c: Point, rest: seq<Point>)
    requires StrictlyIncreasingX([c] + rest)
    ensures CollapseFrom(c, rest) == [c] + rest
    decreases |rest|
  {
    var s := [c] + rest;
    if |rest| > 0 {
      assert s[0] == c && s[1] == rest[0];
      assert StrictlyIncreasingX([rest[0]] + rest[1..]) by {
        assert [rest[0]] + rest[1..] == rest;
        assert forall i :: 0 <= i < |rest| ==> s[i + 1] == rest[i];
      }
      CollapseDistinctX(rest[0], rest[1..]);
      assert [rest[0]] + rest[1..] == rest;
    }
  }

  /**
   * Collapsing an x-sorted list whose y strictly descends yields a staircase:
   * the survivors keep the relative order, hence the y-order, they had.
   */
  lemma CollapseStaircase(merged: seq<Point>)
    requires SortedByX(merged) && StrictlyDecreasingY(merged)
    ensures Staircase(Collapse(merged))
  {
    var out := Collapse(merged);
    CollapseIncreasing(merged);
    CollapseWithin(merged);
    forall i, j | 0 <= i < j < |out|
      ensures out[i].y > out[j].y
    {
      assert out[i] in merged && out[j] in merged;
      var a :| 0 <= a < |merged| && merged[a] == out[i];
      var b :| 0 <= b < |merged| && merged[b] == out[j];
      assert out[i].x < out[j].x;
      assert a < b;
    }
  }

  // ---------------------------------------------------------------------------
  // The recursion

  /** The two halves of a positional split hold only points of the list. */
  lemma HalvesWithin(s: seq<Point>, h: int)
    requires 0 <= h <= |s|
    ensures Within(s[..h], s) && Within(s[h..], s)
  {
    forall q | q in s[h..] ensures q in s {
      var j :| 0 <= j < |s| - h && s[h..][j] == q;
      assert s[h + j] == q;
    }
  }

  /**
   * Steps 4 to 7 of findSkyline: minY of the left result, the filter of the right
   * result, the concatenation and the equal-x collapse.
   */
  function Merge(left: seq<Point>, right: seq<Point>, init: int): (r: seq<Point>)
    ensures |r| <= |left| + |right| && (|left| > 0 ==> |r| > 0)
  {
    var k := Kept(right, MinY(left, init));
    Collapse(left + k)
  }

  /** The merge step keeps only points of the two results it merges. */
  lemma MergeWithin(left: seq<Point>, right: seq<Point>, init: int)
    ensures forall q :: q in Merge(left, right, init) ==> q in left || q in right
  {
    var k := Kept(right, MinY(left, init));
    KeptMembers(right, MinY(left, init));
    CollapseWithin(left + k);
  }

  /** findSkyline as a function, with minY starting from init. */
  function Skyline(s: seq<Point>, init: int): (r: seq<Point>)
    decreases |s|
    ensures |r| <= |s| && (|r| == 0 <==> |s| == 0)
  {
    if |s| <= 1 then s
    else
      var h := |s| / 2;
      Merge(Skyline(s[..h], init), Skyline(s[h..], init), init)
  }

  /** findSkyline returns only points of its input, whatever the input. */
  lemma {:induction false} SkylineWithin(s: seq<Point>, init: int)
    ensures Within(Skyline(s, init), s)
    decreases |s|
  {
    if |s| > 1 {
      var h := |s| / 2;
      SkylineWithin(s[..h], init);
      SkylineWithin(s[h..], init);
      HalvesWithin(s, h);
      MergeWithin(Skyline(s[..h], init), Skyline(s[h..], init), init);
    }
  }

  /** Both halves of the positional split of an x-sorted list are x-sorted. */
  lemma SplitSorted(s: seq<Point>, h: int)
    requires SortedByX(s) && 0 <= h <= |s|
    ensures SortedByX(s[..h]) && SortedByX(s[h..])
    ensures s[..h] + s[h..] == s
  {
    assert forall i :: 0 <= i < |s| - h ==> s[h..][i] == s[h + i];
  }

  /** In the positional split of an x-sorted list no left point lies right of a right point. */
  lemma SplitLeftOf(s: seq<Point>, h: int)
    requires SortedByX(s) && 0 <= h <= |s|
    ensures LeftOf(s[..h], s[h..])
  {
    forall a, b | a in s[..h] && b in s[h..]
      ensures a.x <= b.x
    {
      var i :| 0 <= i < h && s[..h][i] == a;
      var j :| 0 <= j < |s| - h && s[h..][j] == b;
      assert s[i] == a && s[h + j] == b;
    }
  }

  /**
   * The merge: the left skyline followed by the right points below every left y
   * is x-sorted with y strictly descending, so one collapse makes it a staircase.
   */
  lemma MergedOrdered(l: seq<Point>, k: seq<Point>, minY: int)
    requires Staircase(l) && Staircase(k) && LeftOf(l, k)
    requires forall a :: a in l ==> minY <= a.y
    requires forall b :: b in k ==> b.y < minY
    ensures SortedByX(l + k) && StrictlyDecreasingY(l + k)
  {
    var m := l + k;
    forall i, j | 0 <= i < j < |m|
      ensures m[i].x <= m[j].x && m[i].y > m[j].y
    {
      if j < |l| {
        assert m[i] == l[i] && m[j] == l[j];
      } else if i >= |l| {
        assert m[i] == k[i - |l|] && m[j] == k[j - |l|];
      } else {
        assert m[i] == l[i] && m[j] == k[j - |l|];
        assert m[i] in l && m[j] in k;
      }
    }
  }

  /** The merge step keeps the shape of a skyline. */
  lemma MergeStaircase(l: seq<Point>, r: seq<Point>, L: seq<Point>, R: seq<Point>, init: int)
    requires Staircase(l) && Staircase(r) && Within(l, L) && Within(r, R) && LeftOf(L, R)
    ensures Staircase(Merge(l, r, init))
  {
    var m := MinY(l, init);
    var k := Kept(r, m);
    assert forall a :: a in l ==> m <= a.y;
    KeptStaircase(r, m);
    KeptMembers(r, m);
    assert LeftOf(l, k);
    MergedOrdered(l, k, m);
    CollapseStaircase(l + k);
  }

  /** Covering is transitive. */
  lemma CoveredTransitive(out: seq<Point>, mid: seq<Point>, s: seq<Point>)
    requires Covered(out, mid) && Covered(mid, s)
    ensures Covered(out, s)
  {
    forall p | p in s ensures exists j :: 0 <= j < |out| && Covers(out[j], p) {
      var i :| 0 <= i < |mid| && Covers(mid[i], p);
      assert mid[i] in mid;
      var j :| 0 <= j < |out| && Covers(out[j], mid[i]);
    }
  }

  /** Whatever their order, each point given to the collapse meets a kept point with its x and no larger y. */
  lemma CollapseCovers(merged: seq<Point>)
    ensures CoveredSameX(Collapse(merged), merged)
  {
    var out := Collapse(merged);
    if |merged| > 0 {
      var c, rest := merged[0], merged[1..];
      CollapseFromCovers(c, rest);
      forall p | p in merged ensures exists j :: 0 <= j < |out| && out[j].x == p.x && out[j].y <= p.y {
        var i :| 0 <= i < |merged| && merged[i] == p;
        if i > 0 {
          assert rest[i - 1] == p;
        }
      }
    }
  }

  /** A point with the same x and no larger y covers. */
  lemma SameXCovers(out: seq<Point>, s: seq<Point>)
    requires CoveredSameX(out, s)
    ensures Covered(out, s)
  {
    forall p | p in s ensures exists j :: 0 <= j < |out| && Covers(out[j], p) {
      var j :| 0 <= j < |out| && out[j].x == p.x && out[j].y <= p.y;
    }
  }

  /**
   * Before the collapse: the left skyline followed by the filtered right skyline
   * covers both halves; a right point the filter drops is covered by the left
   * point t of least y, which lies left of it.
   */
  lemma ConcatCovers(l: seq<Point>, k: seq<Point>, r: seq<Point>, L: seq<Point>, R: seq<Point>, t: Point)
    requires Covered(l, L) && Covered(r, R)
    requires t in l && forall c :: c in r ==> t.x <= c.x
    requires forall c :: c in r && c.y < t.y ==> c in k
    ensures Covered(l + k, L + R)
  {
    var m := l + k;
    forall p | p in L + R
      ensures exists j :: 0 <= j < |m| && Covers(m[j], p)
    {
      if p in L {
        var i :| 0 <= i < |l| && Covers(l[i], p);
        assert m[i] == l[i];
      } else {
        var i :| 0 <= i < |r| && Covers(r[i], p);
        var c := r[i];
        assert c in r;
        if c.y < t.y {
          var j :| 0 <= j < |k| && k[j] == c;
          assert m[|l| + j] == c;
        } else {
          var j :| 0 <= j < |l| && l[j] == t;
          assert m[j] == t && Covers(t, p);
        }
      }
    }
  }

  /** Every point the two halves' skylines cover is covered by the merge step's result. */
  lemma MergeCovers(l: seq<Point>, r: seq<Point>, L: seq<Point>, R: seq<Point>, init: int)
    requires Covered(l, L) && Covered(r, R) && Within(l, L) && Within(r, R) && LeftOf(L, R)
    requires |l| > 0 && AllBelow(l, init)
    ensures Covered(Merge(l, r, init), L + R)
  {
    var m := MinY(l, init);
    var k := Kept(r, m);
    var merged := l + k;
    MinYIsLeastY(l, init);
    var t :| t in l && t.y == m;
    KeptMembers(r, m);
    ConcatCovers(l, k, r, L, R, t);
    CollapseCovers(merged);
    SameXCovers(Collapse(merged), merged);
    CoveredTransitive(Merge(l, r, init), merged, L + R);
  }

  /** Base case and recursion together: under x-sorted input with every y below init the result is the skyline. */
  lemma {:induction false} SkylineCorrect(s: seq<Point>, init: int)
    requires SortedByX(s) && AllBelow(s, init)
    ensures IsSkylineOf(Skyline(s, init), s)
    decreases |s|
  {
    var out := Skyline(s, init);
    if |s| <= 1 {
      forall p | p in s ensures exists j :: 0 <= j < |s| && Covers(s[j], p) {
        var j :| 0 <= j < |s| && s[j] == p;
      }
    } else {
      var h := |s| / 2;
      var L, R := s[..h], s[h..];
      SplitSorted(s, h);
      SplitLeftOf(s, h);
      HalvesWithin(s, h);
      SkylineCorrect(L, init);
      SkylineCorrect(R, init);
      var l, r := Skyline(L, init), Skyline(R, init);
      assert AllBelow(l, init);
      assert out == Merge(l, r, init);
      MergeWithin(l, r, init);
      MergeStaircase(l, r, L, R, init);
      MergeCovers(l, r, L, R, init);
    }
    StaircaseUndominated(out, s);
  }

  /** When every y of a non-empty left result is at most init, starting the scan at init or at init + 1 gives the same minY. */
  lemma MinYShift(left: seq<Point>, init: int)
    requires |left| > 0 && AllBelow(left, init + 1)
    ensures MinY(left, init) == MinY(left, init + 1)
  {
    var m1, m2 := MinY(left, init), MinY(left, init + 1);
    assert left[0] in left;
    assert m2 <= left[0].y <= init;
    var i :| 0 <= i < |left| && left[i].y == m2;
    if m1 != init {
      var j :| 0 <= j < |left| && left[j].y == m1;
      assert m2 <= left[j].y && m1 <= left[i].y;
    }
  }

  /** When every y is at most init, starting minY at init or at init + 1 makes no difference to the result. */
  lemma {:induction false} SkylineShift(s: seq<Point>, init: int)
    requires AllBelow(s, init + 1)
    ensures Skyline(s, init) == Skyline(s, init + 1)
    decreases |s|
  {
    if |s| > 1 {
      var h := |s| / 2;
      var L, R := s[..h], s[h..];
      HalvesWithin(s, h);
      SkylineShift(L, init);
      SkylineShift(R, init);
      var l := Skyline(L, init);
      SkylineWithin(L, init);
      MinYShift(l, init);
    }
  }

  /**
   * The skyline theorem up to the exact bound: on x-sorted input with every y
   * at most init, minY is still the true least y of each left result.
   */
  lemma SkylineCorrectUpTo(s: seq<Point>, init: int)
    requires SortedByX(s) && AllBelow(s, init + 1)
    ensures IsSkylineOf(Skyline(s, init), s)
  {
    SkylineShift(s, init);
    SkylineCorrect(s, init + 1);
  }

  /**
   * On any x-sorted input, whatever its y-coordinates, every result of the
   * recursion is a staircase: the merge never needs to re-sort.
   */
  lemma {:induction false} SkylineStaircase(s: seq<Point>, init: int)
    requires SortedByX(s)
    ensures Staircase(Skyline(s, init))
    decreases |s|
  {
    if |s| > 1 {
      var h := |s| / 2;
      var L, R := s[..h], s[h..];
      SplitSorted(s, h);
      SplitLeftOf(s, h);
      SkylineStaircase(L, init);
      SkylineStaircase(R, init);
      SkylineWithin(L, init);
      SkylineWithin(R, init);
      MergeStaircase(Skyline(L, init), Skyline(R, init), L, R, init);
    }
  }

  /** A list whose points after the first lie below init, followed by points below minY <= init: only its head may lie at or above init. */
  lemma ConcatTailBelow(l: seq<Point>, k: seq<Point>, minY: int, init: int)
    requires |l| > 0 && TailBelow(l, init) && minY <= init
    requires forall q :: q in k ==> q.y < minY
    ensures AllBelow((l + k)[1..], init)
  {
    var rest := (l + k)[1..];
    forall q | q in rest
      ensures q.y < init
    {
      var j :| 0 <= j < |rest| && rest[j] == q;
      if j + 1 < |l| {
        assert q == l[j + 1];
      } else {
        assert q == k[j + 1 - |l|];
        assert q in k;
      }
    }
  }

  /**
   * On any input, only the first point of the result can have y at or above
   * init: every later point survived a filter against a minY of at most init.
   */
  lemma {:induction false} SkylineTailBelow(s: seq<Point>, init: int)
    ensures TailBelow(Skyline(s, init), init)
    decreases |s|
  {
    if |s| > 1 {
      var h := |s| / 2;
      var L, R := s[..h], s[h..];
      SkylineTailBelow(L, init);
      var l, r := Skyline(L, init), Skyline(R, init);
      var m := MinY(l, init);
      var k := Kept(r, m);
      KeptMembers(r, m);
      var merged := l + k;
      var rest := merged[1..];
      ConcatTailBelow(l, k, m, init);
      assert Skyline(s, init) == CollapseFrom(merged[0], rest);
      CollapseFromTailWithin(merged[0], rest);
    }
  }

  /** Both halves of a positional split of a staircase are staircases. */
  lemma StaircaseHalves(s: seq<Point>, h: int)
    requires Staircase(s) && 0 <= h <= |s|
    ensures Staircase(s[..h]) && Staircase(s[h..]) && s[..h] + s[h..] == s
  {
    assert forall i :: 0 <= i < |s| - h ==> s[h..][i] == s[h + i];
  }

  /** Merging the two halves of a staircase gives the staircase back: the filter and the collapse remove nothing. */
  lemma MergeStaircaseHalves(L: seq<Point>, R: seq<Point>, init: int)
    requires Staircase(L + R) && |L| > 0 && AllBelow(R, init)
    ensures Merge(L, R, init) == L + R
  {
    var s := L + R;
    var m := MinY(L, init);
    forall b | b in R ensures b.y < m {
      if m != init {
        var a :| 0 <= a < |L| && L[a].y == m;
        var j :| 0 <= j < |R| && R[j] == b;
        assert s[a] == L[a] && s[|L| + j] == b;
      }
    }
    KeptAllBelow(R, m);
    assert s == [s[0]] + s[1..];
    CollapseDistinctX(s[0], s[1..]);
  }

  /**
   * On a staircase whose points after the first lie below init every step
   * removes nothing: findSkyline returns it as it is.
   */
  lemma {:induction false} StaircaseFixpoint(s: seq<Point>, init: int)
    requires Staircase(s) && TailBelow(s, init)
    ensures Skyline(s, init) == s
    decreases |s|
  {
    if |s| > 1 {
      var h := |s| / 2;
      var L, R := s[..h], s[h..];
      StaircaseHalves(s, h);
      assert forall j :: 0 <= j < |R| ==> R[j] == s[h + j];
      assert AllBelow(R, init);
      StaircaseFixpoint(L, init);
      StaircaseFixpoint(R, init);
      MergeStaircaseHalves(L, R, init);
    }
  }

  /** On any x-sorted input, applying findSkyline to its own result changes nothing, whatever the y-coordinates. */
  lemma SkylineIdempotent(s: seq<Point>, init: int)
    requires SortedByX(s)
    ensures Skyline(Skyline(s, init), init) == Skyline(s, init)
  {
    SkylineStaircase(s, init);
    SkylineTailBelow(s, init);
    StaircaseFixpoint(Skyline(s, init), init);
  }

  /**
   * The result does not depend on how the x-only sort orders points with equal x:
   * any two x-sorted arrangements of the same points give the same skyline.
   */
  lemma SkylineIndependentOfTieOrder(s1: seq<Point>, s2: seq<Point>, init: int)
    requires SortedByX(s1) && SortedByX(s2) && multiset(s1) == multiset(s2)
    requires AllBelow(s1, init)
    ensures Skyline(s1, init) == Skyline(s2, init)
  {
    assert forall p :: p in s1 <==> p in s2 by {
      forall p ensures p in s1 <==> p in s2 {
        assert p in s1 <==> p in multiset(s1);
        assert p in s2 <==> p in multiset(s2);
      }
    }
    SkylineCorrect(s1, init);
    SkylineCorrect(s2, init);
    var o1, o2 := Skyline(s1, init), Skyline(s2, init);
    forall p ensures p in o1 <==> p in o2 {
      SkylineMembership(o1, s1, p);
      SkylineMembership(o2, s2, p);
    }
    StaircaseDeterminedBySet(o1, o2);
  }

  // ---------------------------------------------------------------------------
  // The sentinel

  /**
   * With minY starting at Sentinel, a point with y at or above 1001 can be lost
   * once every y of the left result exceeds 1001:
   * (2,1500) is dominated by no input point, yet the result drops it.
   */
  lemma SentinelDropsUndominatedPoint()
    ensures var s := [Point(1, 2000), Point(2, 1500)];
      Skyline(s, Sentinel) == [Point(1, 2000)] &&
      Point(2, 1500) in s && forall p :: p in s ==> !Dominates(p, Point(2, 1500))
  {
    var s := [Point(1, 2000), Point(2, 1500)];
    assert s[..1] == [Point(1, 2000)] && s[1..] == [Point(2, 1500)];
    assert MinY([Point(1, 2000)], Sentinel) == Sentinel;
    assert Kept([Point(2, 1500)], Sentinel) == [];
  }

  /**
   * With minY starting at Sentinel, the result for y above 1001 can depend on how
   * the sort left points with equal x: the two orders of (1,2000) and (1,1500)
   * give different results, and the first keeps (1,2000), which (1,1500) dominates.
   */
  lemma SentinelTieOrderMatters()
    ensures Skyline([Point(1, 2000), Point(1, 1500)], Sentinel) == [Point(1, 2000)]
    ensures Skyline([Point(1, 1500), Point(1, 2000)], Sentinel) == [Point(1, 1500)]
    ensures Dominates(Point(1, 1500), Point(1, 2000))
  {
    var s1 := [Point(1, 2000), Point(1, 1500)];
    var s2 := [Point(1, 1500), Point(1, 2000)];
    assert s1[..1] == [Point(1, 2000)] && s1[1..] == [Point(1, 1500)];
    assert s2[..1] == [Point(1, 1500)] && s2[1..] == [Point(1, 2000)];
    assert MinY([Point(1, 2000)], Sentinel) == Sentinel;
    assert MinY([Point(1, 1500)], Sentinel) == Sentinel;
    assert Kept([Point(1, 1500)], Sentinel) == [];
    assert Kept([Point(1, 2000)], Sentinel) == [];
  }

  /**
   * minY started at Integer.MAX_VALUE: every input the program can read
   * (short coordinates), once x-sorted, yields its exact skyline.
   */
  lemma CorrectedSkylineIsSkyline(s: seq<Point>)
    requires SortedByX(s) && ShortYs(s)
    ensures IsSkylineOf(Skyline(s, IntMax), s)
    ensures Skyline(Skyline(s, IntMax), IntMax) == Skyline(s, IntMax)
  {
    SkylineCorrect(s, IntMax);
    SkylineIdempotent(s, IntMax);
  }

  /** minY started at Integer.MAX_VALUE: the order of equal-x points left by the sort no longer matters. */
  lemma CorrectedIndependentOfTieOrder(s1: seq<Point>, s2: seq<Point>)
    requires SortedByX(s1) && SortedByX(s2) && multiset(s1) == multiset(s2) && ShortYs(s1)
    ensures Skyline(s1, IntMax) == Skyline(s2, IntMax)
  {
    SkylineIndependentOfTieOrder(s1, s2, IntMax);
  }
}
