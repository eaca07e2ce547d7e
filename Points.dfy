/** Points of the plane and the dominance vocabulary the skyline is defined by. */
module Points {

  /** A point with integer coordinates; java.awt.Point reduced to its value. */
  datatype Point = Point(x: int, y: int)

  /** a dominates b: a is another point that lies no further right and no higher than b. */
  predicate Dominates(a: Point, b: Point) {
    a != b && a.x <= b.x && a.y <= b.y
  }

  /** q covers p: q is p itself or a point that dominates p. */
  predicate Covers(q: Point, p: Point) {
    q.x <= p.x && q.y <= p.y
  }

  /** The order the caller establishes with its x-only sort: ascending x, ties in any order. */
  predicate SortedByX(s: seq<Point>) {
    forall i, j :: 0 <= i < j < |s| ==> s[i].x <= s[j].x
  }

  /** No two points share an x-coordinate and x ascends. */
  predicate StrictlyIncreasingX(s: seq<Point>) {
    forall i, j :: 0 <= i < j < |s| ==> s[i].x < s[j].x
  }

  /** y descends strictly along the sequence. */
  predicate StrictlyDecreasingY(s: seq<Point>) {
    forall i, j :: 0 <= i < j < |s| ==> s[i].y > s[j].y
  }

  /** The shape of a skyline: x strictly ascending and y strictly descending. */
  predicate Staircase(s: seq<Point>) {
    forall i, j :: 0 <= i < j < |s| ==> s[i].x < s[j].x && s[i].y > s[j].y
  }

  /** Every y-coordinate lies strictly below bound. */
  predicate AllBelow(s: seq<Point>, bound: int) {
    forall p :: p in s ==> p.y < bound
  }

  /** Every point of out occurs in s. */
  predicate Within(out: seq<Point>, s: seq<Point>) {
    forall q :: q in out ==> q in s
  }

  /** No point of s dominates a point of out. */
  predicate Undominated(out: seq<Point>, s: seq<Point>) {
    forall p, q :: p in s && q in out ==> !Dominates(p, q)
  }

  /** Every point of s is covered (equalled or dominated) by a point of out. */
  predicate Covered(out: seq<Point>, s: seq<Point>) {
    forall p :: p in s ==> exists j :: 0 <= j < |out| && Covers(out[j], p)
  }

  /** out is the skyline of s, listed in ascending x. */
  predicate IsSkylineOf(out: seq<Point>, s: seq<Point>) {
    Within(out, s) && Staircase(out) && Undominated(out, s) && Covered(out, s)
  }

  /** Inside a staircase no point covers another one. */
  lemma StaircaseNoCover(s: seq<Point>, i: int, j: int)
    requires Staircase(s) && 0 <= i < |s| && 0 <= j < |s| && Covers(s[i], s[j])
    ensures i == j
  {
  }

  /** A staircase that covers s cannot be dominated by a point of s. */
  lemma {:induction false} StaircaseUndominated(out: seq<Point>, s: seq<Point>)
    requires Staircase(out) && Covered(out, s)
    ensures Undominated(out, s)
  {
    forall p, q | p in s && q in out
      ensures !Dominates(p, q)
    {
      var i :| 0 <= i < |out| && Covers(out[i], p);
      var j :| 0 <= j < |out| && out[j] == q;
      if Dominates(p, q) {
        StaircaseNoCover(out, i, j);
      }
    }
  }

  /**
   * A skyline holds exactly the points of s that no point of s dominates:
   * both directions of the definition of the skyline.
   */
  lemma {:induction false} SkylineMembership(out: seq<Point>, s: seq<Point>, p: Point)
    requires IsSkylineOf(out, s)
    ensures p in out <==> p in s && forall o :: o in s ==> !Dominates(o, p)
  {
    if p in s && forall o :: o in s ==> !Dominates(o, p) {
      var j :| 0 <= j < |out| && Covers(out[j], p);
      var q := out[j];
      assert q in out;
      assert q in s;
      assert !Dominates(q, p);
    }
  }

  /** Two staircases with the same points start with the same point. */
  lemma SameHead(a: seq<Point>, b: seq<Point>)
    requires Staircase(a) && Staircase(b) && |a| > 0 && |b| > 0
    requires forall p :: p in a <==> p in b
    ensures a[0] == b[0]
  {
    assert a[0] in b && b[0] in a;
    var j :| 0 <= j < |a| && a[j] == b[0];
    var k :| 0 <= k < |b| && b[k] == a[0];
    assert a[0].x <= a[j].x;
    assert b[0].x <= b[k].x;
    assert j == 0;
  }

  /** Dropping the common head of two staircases with the same points leaves the same points. */
  lemma SameTail(a: seq<Point>, b: seq<Point>)
    requires Staircase(a) && Staircase(b) && |a| > 0 && |b| > 0 && a[0] == b[0]
    requires forall p :: p in a <==> p in b
    ensures forall p :: p in a[1..] <==> p in b[1..]
  {
    forall p | p in a[1..]
      ensures p in b[1..]
    {
      var i :| 1 <= i < |a| && a[i] == p;
      assert a[0].x < a[i].x;
      assert p in b;
      var i' :| 0 <= i' < |b| && b[i'] == p;
      assert b[1..][i' - 1] == p;
    }
    forall p | p in b[1..]
      ensures p in a[1..]
    {
      var i :| 1 <= i < |b| && b[i] == p;
      assert b[0].x < b[i].x;
      assert p in a;
      var i' :| 0 <= i' < |a| && a[i'] == p;
      assert a[1..][i' - 1] == p;
    }
  }

  /** Two staircases with the same points are the same sequence. */
  lemma {:induction false} StaircaseDeterminedBySet(a: seq<Point>, b: seq<Point>)
    requires Staircase(a) && Staircase(b)
    requires forall p :: p in a <==> p in b
    ensures a == b
    decreases |a|
  {
    if |a| > 0 {
      assert a[0] in b;
    }
    if |b| > 0 {
      assert b[0] in a;
    }
    if |a| > 0 && |b| > 0 {
      SameHead(a, b);
      SameTail(a, b);
      StaircaseDeterminedBySet(a[1..], b[1..]);
      assert a == [a[0]] + a[1..];
      assert b == [b[0]] + b[1..];
    }
  }
}
