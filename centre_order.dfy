/** Ordering free cells by their distance from the centre of the grid. Distances are compared
    by their squares, which orders cells exactly as the Euclidean distance does. */
module CentreOrder {
  import opened Geometry

  /** The centre cell of a `w` by `h` grid (integer halves, as the source computes it). */
  function Centre(w: int, h: int): Point
    requires w >= 0 && h >= 0
  {
    Point(w / 2, h / 2)
  }

  function DistSq(p: Point, c: Point): int {
    (p.x - c.x) * (p.x - c.x) + (p.y - c.y) * (p.y - c.y)
  }

  predicate SortedBy(s: seq<Point>, c: Point) {
    forall i, j :: 0 <= i < j < |s| ==> DistSq(s[i], c) <= DistSq(s[j], c)
  }

  /** `p` placed in the sorted `s` after every cell not farther than it. */
  function Insert(p: Point, s: seq<Point>, c: Point): seq<Point> {
    if s == [] || DistSq(p, c) < DistSq(s[0], c) then [p] + s
    else [s[0]] + Insert(p, s[1..], c)
  }

  /** The cells of `s` nearest to `c` first; cells at equal distance keep their order. */
  function SortByCentre(s: seq<Point>, c: Point): seq<Point> {
    if s == [] then [] else Insert(s[0], SortByCentre(s[1..], c), c)
  }

  lemma {:induction false} InsertPerm(p: Point, s: seq<Point>, c: Point)
    ensures multiset(Insert(p, s, c)) == multiset(s) + multiset{p}
  {
    if s != [] && DistSq(p, c) >= DistSq(s[0], c) {
      InsertPerm(p, s[1..], c);
      assert s == [s[0]] + s[1..];
    }
  }

  lemma {:induction false} InsertSorted(p: Point, s: seq<Point>, c: Point)
    requires SortedBy(s, c)
    ensures SortedBy(Insert(p, s, c), c)
  {
    if s != [] && DistSq(p, c) >= DistSq(s[0], c) {
      var rest := s[1..];
      assert SortedBy(rest, c);
      InsertSorted(p, rest, c);
      InsertPerm(p, rest, c);
      var r := Insert(p, rest, c);
      forall k | 0 <= k < |r| ensures DistSq(s[0], c) <= DistSq(r[k], c) {
        assert r[k] in multiset(r);
        if r[k] != p {
          assert r[k] in multiset(rest);
          var m :| 0 <= m < |rest| && rest[m] == r[k];
          assert rest[m] == s[m + 1];
        }
      }
      ConsSorted(s[0], r, c);
    }
  }

  /** A cell no farther than any of a sorted list, put in front of it, keeps it sorted. */
  lemma ConsSorted(p: Point, r: seq<Point>, c: Point)
    requires SortedBy(r, c) && forall k :: 0 <= k < |r| ==> DistSq(p, c) <= DistSq(r[k], c)
    ensures SortedBy([p] + r, c)
  {
    var t := [p] + r;
    forall i, j | 0 <= i < j < |t| ensures DistSq(t[i], c) <= DistSq(t[j], c) {
      assert t[j] == r[j - 1];
      if i > 0 { assert t[i] == r[i - 1]; }
    }
  }

  /** The centre order is a reordering of its input, nearest cells first. */
  lemma {:induction false} SortByCentreCorrect(s: seq<Point>, c: Point)
    ensures SortedBy(SortByCentre(s, c), c)
    ensures multiset(SortByCentre(s, c)) == multiset(s)
  {
    if s != [] {
      SortByCentreCorrect(s[1..], c);
      InsertSorted(s[0], SortByCentre(s[1..], c), c);
      InsertPerm(s[0], SortByCentre(s[1..], c), c);
      assert s == [s[0]] + s[1..];
    }
  }

  /** The cells of `cells` strictly nearer to `c` than `p`. */
  function Nearer(cells: set<Point>, p: Point, c: Point): set<Point> {
    set q | q in cells && DistSq(q, c) < DistSq(p, c)
  }

  /** In a sorted list, fewer than `j + 1` of its cells are strictly nearer than its `j`-th:
      picking among the first `m` entries picks one of rank below `m`, however ties are
      broken. */
  lemma RankBound(s: seq<Point>, c: Point, j: int)
    requires SortedBy(s, c) && 0 <= j < |s|
    ensures |Nearer((set q | q in s), s[j], c)| <= j
  {
    var near := Nearer((set q | q in s), s[j], c);
    var prefix := set q | q in s[..j];
    forall q | q in near ensures q in prefix {
      var m :| 0 <= m < |s| && s[m] == q;
      assert m < j;
      assert q == s[..j][m];
    }
    CardAtMost(s[..j]);
    SubsetCard(near, prefix);
  }
}
