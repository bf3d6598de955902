/** Integer grid geometry: cells, the four unit steps, and arrow polylines. */
module Geometry {

  /** A grid cell or a unit step (a Vector2 with integral coordinates). */
  datatype Point = Point(x: int, y: int)

  function Add(p: Point, q: Point): Point { Point(p.x + q.x, p.y + q.y) }

  function Sub(p: Point, q: Point): Point { Point(p.x - q.x, p.y - q.y) }

  /** The cell `k` unit steps `d` away from `p`. */
  function Along(p: Point, d: Point, k: int): Point { Point(p.x + k * d.x, p.y + k * d.y) }

  function Max(a: int, b: int): int { if a >= b then a else b }

  function Min(a: int, b: int): int { if a <= b then a else b }

  /** Up, right, down, left, in this order. */
  const CardinalDirs: seq<Point> := [Point(0, 1), Point(1, 0), Point(0, -1), Point(-1, 0)]

  predicate IsCardinal(d: Point) { d in CardinalDirs }

  predicate InBounds(p: Point, w: int, h: int) { 0 <= p.x < w && 0 <= p.y < h }

  predicate Distinct<T(==)>(s: seq<T>) { forall i, j :: 0 <= i < j < |s| ==> s[i] != s[j] }

  /** Each point is the previous one plus a unit cardinal step. */
  predicate Connected(s: seq<Point>) {
    forall i :: 0 <= i < |s| - 1 ==> IsCardinal(Sub(s[i + 1], s[i]))
  }

  function Last<T>(s: seq<T>): T requires |s| > 0 { s[|s| - 1] }

  /** What the puzzle keeps of an arrow: its cells in drawing order and its final direction. */
  datatype ArrowData = ArrowData(points: seq<Point>, dir: Point)

  /** A grown arrow: a non-empty, self-avoiding, connected path inside the grid whose
      direction is cardinal and, once it has a segment, that of its last segment. */
  predicate WellFormed(a: ArrowData, w: int, h: int) {
    && |a.points| >= 1
    && IsCardinal(a.dir)
    && Connected(a.points)
    && Distinct(a.points)
    && (forall i :: 0 <= i < |a.points| ==> InBounds(a.points[i], w, h))
    && (|a.points| >= 2 ==> a.dir == Sub(a.points[|a.points| - 1], a.points[|a.points| - 2]))
  }

  lemma {:induction false} CardAtMost<T>(s: seq<T>)
    ensures |set x | x in s| <= |s|
  {
    if s != [] {
      var t := s[..|s| - 1];
      CardAtMost(t);
      assert (set x | x in s) == (set x | x in t) + {s[|s| - 1]} by {
        assert s == t + [s[|s| - 1]];
      }
    }
  }

  lemma {:induction false} DistinctCard<T>(s: seq<T>)
    requires Distinct(s)
    ensures |set x | x in s| == |s|
  {
    if s != [] {
      var t := s[..|s| - 1];
      DistinctCard(t);
      assert s == t + [s[|s| - 1]];
      assert s[|s| - 1] !in t;
      assert (set x | x in s) == (set x | x in t) + {s[|s| - 1]};
    }
  }

  lemma SubsetCard<T>(a: set<T>, b: set<T>)
    requires a <= b
    ensures |a| <= |b|
  {
    assert b == a + (b - a);
  }
}
