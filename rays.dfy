/** The blocking query of one arrow: the arrows lying on the ray that leaves its last cell
    in its direction. The physics ray cast against the arrows' line colliders is modelled
    as a walk over the grid: one hit per occupied cell at distance 1 .. max(width, height)
    from the last cell, in order of distance. */
module Rays {
  import opened Geometry
  import opened Grids

  /** An occupied cell met by the ray: its distance from the arrow's last cell and its owner. */
  datatype Hit = Hit(dist: int, owner: int)

  /** The hits at distances k .. n from `origin` along `d`; cells outside the grid hold nothing. */
  function ScanFrom(b: Board, w: int, h: int, origin: Point, d: Point, k: int, n: int): seq<Hit>
    requires Shaped(b, w, h)
    decreases n - k
  {
    if k > n then []
    else
      var c := Along(origin, d, k);
      (if InBounds(c, w, h) && b[c.x][c.y] != Free then [Hit(k, b[c.x][c.y])] else [])
        + ScanFrom(b, w, h, origin, d, k + 1, n)
  }

  /** The ray of arrow `a`, cast from just past its last cell to the extent of the grid. */
  function Scan(b: Board, w: int, h: int, a: ArrowData): seq<Hit>
    requires Shaped(b, w, h) && |a.points| >= 1
  {
    ScanFrom(b, w, h, Last(a.points), a.dir, 1, Max(w, h))
  }

  function Owners(hs: seq<Hit>): seq<int> {
    if hs == [] then [] else [hs[0].owner] + Owners(hs[1..])
  }

  /** One step of the scan: the owner at distance `k`, if any, then the rest. */
  lemma OwnersStep(b: Board, w: int, h: int, origin: Point, d: Point, k: int, n: int)
    requires Shaped(b, w, h) && k <= n
    ensures var c := Along(origin, d, k);
      Owners(ScanFrom(b, w, h, origin, d, k, n)) ==
        (if InBounds(c, w, h) && b[c.x][c.y] != Free then [b[c.x][c.y]] else [])
        + Owners(ScanFrom(b, w, h, origin, d, k + 1, n))
  {
    var c := Along(origin, d, k);
    var rest := ScanFrom(b, w, h, origin, d, k + 1, n);
    var hs := ScanFrom(b, w, h, origin, d, k, n);
    if InBounds(c, w, h) && b[c.x][c.y] != Free {
      var v := b[c.x][c.y];
      assert hs == [Hit(k, v)] + rest;
      assert hs[0].owner == v && hs[1..] == rest;
      assert Owners(hs) == [v] + Owners(rest);
    } else {
      assert hs == rest;
    }
  }

  /** The block list of arrow `a`: the owners of the cells its ray meets, nearest first.
      An arrow met in several cells is listed once per cell, itself included. */
  function Blockers(b: Board, w: int, h: int, a: ArrowData): seq<int>
    requires Shaped(b, w, h) && |a.points| >= 1
  {
    Owners(Scan(b, w, h, a))
  }

  function RemoveAll(s: seq<int>, v: int): seq<int> {
    if s == [] then [] else (if s[0] == v then [] else [s[0]]) + RemoveAll(s[1..], v)
  }

  lemma {:induction false} RemoveAllIff(s: seq<int>, v: int, x: int)
    ensures x in RemoveAll(s, v) <==> x in s && x != v
  {
    if s != [] {
      RemoveAllIff(s[1..], v, x);
      assert s == [s[0]] + s[1..];
    }
  }

  lemma {:induction false} OwnersAt(hs: seq<Hit>)
    ensures |Owners(hs)| == |hs|
    ensures forall i :: 0 <= i < |hs| ==> Owners(hs)[i] == hs[i].owner
  {
    if hs != [] {
      OwnersAt(hs[1..]);
    }
  }

  /** Hits in strictly increasing distance, all within lo .. hi. */
  ghost predicate SortedWithin(hs: seq<Hit>, lo: int, hi: int) {
    (forall i :: 0 <= i < |hs| ==> lo <= hs[i].dist <= hi) &&
    (forall i, j :: 0 <= i < j < |hs| ==> hs[i].dist < hs[j].dist)
  }

  lemma {:induction false} ScanFromSorted(b: Board, w: int, h: int, origin: Point, d: Point, k: int, n: int)
    requires Shaped(b, w, h)
    ensures SortedWithin(ScanFrom(b, w, h, origin, d, k, n), k, n)
    decreases n - k
  {
    if k <= n {
      ScanFromSorted(b, w, h, origin, d, k + 1, n);
      var c := Along(origin, d, k);
      var rest := ScanFrom(b, w, h, origin, d, k + 1, n);
      if InBounds(c, w, h) && b[c.x][c.y] != Free {
        assert ScanFrom(b, w, h, origin, d, k, n) == [Hit(k, b[c.x][c.y])] + rest;
        ConsSortedWithin(Hit(k, b[c.x][c.y]), rest, n);
      }
    }
  }

  /** A hit nearer than every later one, in front of them, keeps the hits sorted. */
  lemma ConsSortedWithin(first: Hit, rest: seq<Hit>, hi: int)
    requires first.dist <= hi && SortedWithin(rest, first.dist + 1, hi)
    ensures SortedWithin([first] + rest, first.dist, hi)
  {
    var hs := [first] + rest;
    forall i, j | 0 <= i < j < |hs| ensures hs[i].dist < hs[j].dist {
      assert hs[j] == rest[j - 1];
      if i > 0 { assert hs[i] == rest[i - 1]; }
    }
    forall i | 0 <= i < |hs| ensures first.dist <= hs[i].dist <= hi {
      if i > 0 { assert hs[i] == rest[i - 1]; }
    }
  }

  /** A hit is reported exactly for each occupied in-grid cell at a distance in k .. n. */
  lemma {:induction false} ScanFromIff(b: Board, w: int, h: int, origin: Point, d: Point, k: int, n: int, t: int, x: int)
    requires Shaped(b, w, h)
    ensures Hit(t, x) in ScanFrom(b, w, h, origin, d, k, n) <==>
      var c := Along(origin, d, t);
      k <= t <= n && InBounds(c, w, h) && b[c.x][c.y] == x && x != Free
    decreases n - k
  {
    if k <= n {
      ScanFromIff(b, w, h, origin, d, k + 1, n, t, x);
    }
  }

  /** The ray of `a` meets exactly the occupied cells straight ahead of its last cell, nearest
      first, each at a distance of at most max(width, height). */
  lemma ScanMeaning(b: Board, w: int, h: int, a: ArrowData, t: int, x: int)
    requires Shaped(b, w, h) && |a.points| >= 1
    ensures SortedWithin(Scan(b, w, h, a), 1, Max(w, h))
    ensures Hit(t, x) in Scan(b, w, h, a) <==>
      var c := Along(Last(a.points), a.dir, t);
      1 <= t <= Max(w, h) && InBounds(c, w, h) && b[c.x][c.y] == x && x != Free
  {
    ScanFromSorted(b, w, h, Last(a.points), a.dir, 1, Max(w, h));
    ScanFromIff(b, w, h, Last(a.points), a.dir, 1, Max(w, h), t, x);
  }

  /** Freeing the cells of arrow `id` removes exactly the entries `id` from every ray's
      owner list and leaves the rest, in order, as it was. */
  lemma {:induction false} ScanFromErase(b: Board, w: int, h: int, origin: Point, d: Point, k: int, n: int, id: int)
    requires Shaped(b, w, h) && id != Free
    ensures Shaped(Erase(b, id), w, h)
    ensures Owners(ScanFrom(Erase(b, id), w, h, origin, d, k, n)) == RemoveAll(Owners(ScanFrom(b, w, h, origin, d, k, n)), id)
    decreases n - k
  {
    var e := Erase(b, id);
    assert Shaped(e, w, h);
    if k <= n {
      ScanFromErase(b, w, h, origin, d, k + 1, n, id);
      var c := Along(origin, d, k);
      var restB, restE := ScanFrom(b, w, h, origin, d, k + 1, n), ScanFrom(e, w, h, origin, d, k + 1, n);
      if InBounds(c, w, h) && b[c.x][c.y] != Free {
        var v := b[c.x][c.y];
        assert ScanFrom(b, w, h, origin, d, k, n) == [Hit(k, v)] + restB;
        assert Owners([Hit(k, v)] + restB) == [v] + Owners(restB);
        assert RemoveAll([v] + Owners(restB), id) == (if v == id then [] else [v]) + RemoveAll(Owners(restB), id);
        if v == id {
          assert ScanFrom(e, w, h, origin, d, k, n) == restE;
        } else {
          assert ScanFrom(e, w, h, origin, d, k, n) == [Hit(k, v)] + restE;
          assert Owners([Hit(k, v)] + restE) == [v] + Owners(restE);
        }
      } else {
        assert ScanFrom(b, w, h, origin, d, k, n) == restB;
        assert ScanFrom(e, w, h, origin, d, k, n) == restE;
      }
    }
  }

  lemma BlockersErase(b: Board, w: int, h: int, a: ArrowData, id: int)
    requires Shaped(b, w, h) && |a.points| >= 1 && id != Free
    ensures Shaped(Erase(b, id), w, h)
    ensures Blockers(Erase(b, id), w, h, a) == RemoveAll(Blockers(b, w, h, a), id)
  {
    ScanFromErase(b, w, h, Last(a.points), a.dir, 1, Max(w, h), id);
  }

  /** On a consistent grid, every arrow in a block list is a live arrow. */
  lemma BlockersLive(b: Board, w: int, h: int, arrows: map<int, ArrowData>, a: ArrowData, x: int)
    requires Consistent(b, w, h, arrows) && |a.points| >= 1
    requires x in Blockers(b, w, h, a)
    ensures x in arrows
  {
    var hs := Scan(b, w, h, a);
    OwnersAt(hs);
    var i :| 0 <= i < |hs| && Owners(hs)[i] == x;
    ScanMeaning(b, w, h, a, hs[i].dist, x);
  }

  lemma {:induction false} RemoveAllAbsent(s: seq<int>, v: int)
    requires v !in s
    ensures RemoveAll(s, v) == s
  {
    if s != [] {
      assert s == [s[0]] + s[1..];
      RemoveAllAbsent(s[1..], v);
    }
  }

  /** Every cell straight ahead of `a`, within max(width, height), is free or off the grid. */
  ghost predicate ClearAhead(b: Board, w: int, h: int, a: ArrowData)
    requires Shaped(b, w, h) && |a.points| >= 1
  {
    forall k :: 1 <= k <= Max(w, h) ==>
      var c := Along(Last(a.points), a.dir, k);
      InBounds(c, w, h) ==> b[c.x][c.y] == Free
  }

  /** An arrow's block list is empty exactly when nothing lies ahead of it. */
  lemma BlockedIffNotClear(b: Board, w: int, h: int, a: ArrowData)
    requires Shaped(b, w, h) && |a.points| >= 1
    ensures |Blockers(b, w, h, a)| > 0 <==> !ClearAhead(b, w, h, a)
  {
    var hs := Scan(b, w, h, a);
    OwnersAt(hs);
    if |hs| > 0 {
      ScanMeaning(b, w, h, a, hs[0].dist, hs[0].owner);
    }
    if !ClearAhead(b, w, h, a) {
      var k :| 1 <= k <= Max(w, h) &&
        var c := Along(Last(a.points), a.dir, k); InBounds(c, w, h) && b[c.x][c.y] != Free;
      var c := Along(Last(a.points), a.dir, k);
      ScanMeaning(b, w, h, a, k, b[c.x][c.y]);
    }
  }
}
