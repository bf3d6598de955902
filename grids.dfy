/** The occupancy grid as a value: `b[x][y]` is the id of the arrow owning cell (x, y), or
    Free. The puzzle keeps one of these in step with its `int[,]` array. */
module Grids {
  import opened Geometry

  type Board = seq<seq<int>>

  /** The mark of an unoccupied cell. */
  const Free: int := -1

  ghost predicate Shaped(b: Board, w: int, h: int) {
    |b| == w && forall i :: 0 <= i < w ==> |b[i]| == h
  }

  /** The board with cell `p` set to `v`. */
  function Set(b: Board, p: Point, v: int): Board
    requires 0 <= p.x < |b| && 0 <= p.y < |b[p.x]|
  {
    b[p.x := b[p.x][p.y := v]]
  }

  /** The board with every cell of arrow `id` made free again. */
  function Erase(b: Board, id: int): Board {
    seq(|b|, i requires 0 <= i < |b| =>
      seq(|b[i]|, j requires 0 <= j < |b[i]| => if b[i][j] == id then Free else b[i][j]))
  }

  /** The board of width `w` and height `h` with every cell free. */
  function Blank(w: nat, h: nat): Board {
    seq(w, _ => seq(h, _ => Free))
  }

  function Occupied(b: Board, w: int, h: int): set<Point>
    requires Shaped(b, w, h)
  {
    set x, y | 0 <= x < w && 0 <= y < h && b[x][y] != Free :: Point(x, y)
  }

  function FreeCells(b: Board, w: int, h: int): set<Point>
    requires Shaped(b, w, h)
  {
    set x, y | 0 <= x < w && 0 <= y < h && b[x][y] == Free :: Point(x, y)
  }

  /** `b1` is `b0` with exactly the cells of `path` set to `id`. */
  ghost predicate Painted(b0: Board, b1: Board, w: int, h: int, path: seq<Point>, id: int) {
    Shaped(b0, w, h) && Shaped(b1, w, h) &&
    forall x, y :: 0 <= x < w && 0 <= y < h ==>
      b1[x][y] == if Point(x, y) in path then id else b0[x][y]
  }

  /** Grid and arrow table agree: every arrow is well formed and owns exactly the cells marked
      with its id, and every marked cell belongs to the arrow whose id it holds. */
  ghost predicate Consistent(b: Board, w: int, h: int, arrows: map<int, ArrowData>) {
    && Shaped(b, w, h)
    && (forall id :: id in arrows ==> id != Free && WellFormed(arrows[id], w, h))
    && (forall id, i :: id in arrows && 0 <= i < |arrows[id].points| ==>
          var p := arrows[id].points[i]; InBounds(p, w, h) && b[p.x][p.y] == id)
    && (forall x, y :: 0 <= x < w && 0 <= y < h && b[x][y] != Free ==>
          b[x][y] in arrows && Point(x, y) in arrows[b[x][y]].points)
  }

  lemma OccupiedIff(b: Board, w: int, h: int, p: Point)
    requires Shaped(b, w, h)
    ensures p in Occupied(b, w, h) <==> InBounds(p, w, h) && b[p.x][p.y] != Free
  {
    if InBounds(p, w, h) && b[p.x][p.y] != Free {
      assert p == Point(p.x, p.y);
    }
  }

  lemma FreeCellsIff(b: Board, w: int, h: int, p: Point)
    requires Shaped(b, w, h)
    ensures p in FreeCells(b, w, h) <==> InBounds(p, w, h) && b[p.x][p.y] == Free
  {
    if InBounds(p, w, h) && b[p.x][p.y] == Free {
      assert p == Point(p.x, p.y);
    }
  }

  /** A blank board is consistent with an empty arrow table and has no occupied cell. */
  lemma BlankConsistent(w: nat, h: nat)
    ensures Shaped(Blank(w, h), w, h)
    ensures Consistent(Blank(w, h), w, h, map[])
    ensures Occupied(Blank(w, h), w, h) == {}
  {
    var b := Blank(w, h);
    assert Shaped(b, w, h);
    forall p | p in Occupied(b, w, h) ensures false {
      OccupiedIff(b, w, h, p);
    }
  }

  /** Committing a new arrow on free cells keeps the grid consistent, adds its cells to the
      occupied set (so the count grows by its length), and erasing it gives back the grid. */
  lemma PaintConsistent(b0: Board, b1: Board, w: int, h: int,
                        arrows: map<int, ArrowData>, id: int, a: ArrowData)
    requires Consistent(b0, w, h, arrows)
    requires id !in arrows && id != Free
    requires WellFormed(a, w, h)
    requires forall i :: 0 <= i < |a.points| ==> b0[a.points[i].x][a.points[i].y] == Free
    requires Painted(b0, b1, w, h, a.points, id)
    ensures Consistent(b1, w, h, arrows[id := a])
    ensures Occupied(b1, w, h) == Occupied(b0, w, h) + (set p | p in a.points)
    ensures |Occupied(b1, w, h)| == |Occupied(b0, w, h)| + |a.points|
    ensures Erase(b1, id) == b0
  {
    PaintKeepsConsistent(b0, b1, w, h, arrows, id, a);
    PaintOccupied(b0, b1, w, h, a.points, id);
    PaintErase(b0, b1, w, h, arrows, id, a.points);
  }

  lemma PaintKeepsConsistent(b0: Board, b1: Board, w: int, h: int,
                             arrows: map<int, ArrowData>, id: int, a: ArrowData)
    requires Consistent(b0, w, h, arrows)
    requires id !in arrows && id != Free
    requires WellFormed(a, w, h)
    requires forall i :: 0 <= i < |a.points| ==> b0[a.points[i].x][a.points[i].y] == Free
    requires Painted(b0, b1, w, h, a.points, id)
    ensures Consistent(b1, w, h, arrows[id := a])
  {
    var na := arrows[id := a];
    forall k, i | k in na && 0 <= i < |na[k].points|
      ensures var p := na[k].points[i]; InBounds(p, w, h) && b1[p.x][p.y] == k
    {
      var p := na[k].points[i];
      if k != id {
        assert b0[p.x][p.y] == k;
        forall j | 0 <= j < |a.points| ensures a.points[j] != p {}
      }
    }
    forall x, y | 0 <= x < w && 0 <= y < h && b1[x][y] != Free
      ensures b1[x][y] in na && Point(x, y) in na[b1[x][y]].points
    {
      if Point(x, y) !in a.points {
        assert b1[x][y] == b0[x][y];
      }
    }
  }

  /** Painting free cells adds exactly those cells to the occupied set. */
  lemma PaintOccupied(b0: Board, b1: Board, w: int, h: int, path: seq<Point>, id: int)
    requires Painted(b0, b1, w, h, path, id) && id != Free
    requires Distinct(path)
    requires forall i :: 0 <= i < |path| ==> InBounds(path[i], w, h) && b0[path[i].x][path[i].y] == Free
    ensures Occupied(b1, w, h) == Occupied(b0, w, h) + (set p | p in path)
    ensures |Occupied(b1, w, h)| == |Occupied(b0, w, h)| + |path|
  {
    var occ0, occ1, cells := Occupied(b0, w, h), Occupied(b1, w, h), set p | p in path;
    forall p ensures p in occ1 <==> p in occ0 || p in cells {
      OccupiedIff(b0, w, h, p);
      OccupiedIff(b1, w, h, p);
      if p in cells {
        var j :| 0 <= j < |path| && path[j] == p;
      }
    }
    forall j | 0 <= j < |path| ensures path[j] !in occ0 {
      OccupiedIff(b0, w, h, path[j]);
    }
    assert occ0 * cells == {};
    DistinctCard(path);
  }

  lemma PaintErase(b0: Board, b1: Board, w: int, h: int, arrows: map<int, ArrowData>, id: int, path: seq<Point>)
    requires Consistent(b0, w, h, arrows) && id !in arrows && id != Free
    requires forall i :: 0 <= i < |path| ==> InBounds(path[i], w, h) && b0[path[i].x][path[i].y] == Free
    requires Painted(b0, b1, w, h, path, id)
    ensures Erase(b1, id) == b0
  {
    var e := Erase(b1, id);
    forall x | 0 <= x < w ensures e[x] == b0[x] {
      forall y | 0 <= y < h ensures e[x][y] == b0[x][y] {
        if Point(x, y) in path {
          var j :| 0 <= j < |path| && path[j] == Point(x, y);
        } else if b0[x][y] != Free {
          assert b0[x][y] in arrows;
        }
      }
    }
  }

  /** Freeing one arrow's cells keeps the grid consistent with the rest of the table and
      removes exactly its cells from the occupied set. */
  lemma EraseConsistent(b: Board, w: int, h: int, arrows: map<int, ArrowData>, id: int)
    requires Consistent(b, w, h, arrows)
    requires id in arrows
    ensures Painted(b, Erase(b, id), w, h, arrows[id].points, Free)
    ensures Consistent(Erase(b, id), w, h, arrows - {id})
    ensures Occupied(Erase(b, id), w, h) == Occupied(b, w, h) - (set p | p in arrows[id].points)
    ensures |Occupied(Erase(b, id), w, h)| == |Occupied(b, w, h)| - |arrows[id].points|
  {
    ErasePainted(b, w, h, arrows, id);
    EraseKeepsConsistent(b, w, h, arrows, id);
    var e := Erase(b, id);
    PaintOccupied(e, b, w, h, arrows[id].points, id);
  }

  lemma ErasePainted(b: Board, w: int, h: int, arrows: map<int, ArrowData>, id: int)
    requires Consistent(b, w, h, arrows)
    requires id in arrows
    ensures Painted(b, Erase(b, id), w, h, arrows[id].points, Free)
    ensures Painted(Erase(b, id), b, w, h, arrows[id].points, id)
  {
    var e, path := Erase(b, id), arrows[id].points;
    assert Shaped(e, w, h);
    forall x, y | 0 <= x < w && 0 <= y < h
      ensures e[x][y] == if Point(x, y) in path then Free else b[x][y]
      ensures b[x][y] == if Point(x, y) in path then id else e[x][y]
    {
      if Point(x, y) in path {
        var j :| 0 <= j < |path| && path[j] == Point(x, y);
      }
    }
  }

  lemma EraseKeepsConsistent(b: Board, w: int, h: int, arrows: map<int, ArrowData>, id: int)
    requires Consistent(b, w, h, arrows)
    requires id in arrows
    ensures Consistent(Erase(b, id), w, h, arrows - {id})
  {
    var e, rest := Erase(b, id), arrows - {id};
    assert Shaped(e, w, h);
    forall k, i | k in rest && 0 <= i < |rest[k].points|
      ensures var p := rest[k].points[i]; InBounds(p, w, h) && e[p.x][p.y] == k
    {
    }
  }

  /** Cell `p` is inside the grid and free. */
  ghost predicate Open(b: Board, w: int, h: int, p: Point)
    requires Shaped(b, w, h)
  {
    InBounds(p, w, h) && b[p.x][p.y] == Free
  }

  /** No neighbour of `p` is inside the grid and free: a growing arrow ending at `p` stops. */
  ghost predicate Stuck(b: Board, w: int, h: int, p: Point)
    requires Shaped(b, w, h)
  {
    forall i :: 0 <= i < |CardinalDirs| ==> !Open(b, w, h, Add(p, CardinalDirs[i]))
  }

  /** The directions of `ds`, in order, other than `dir` that lead from `p` to a free cell
      inside the grid: the turns a growing arrow ending at `p` may take. */
  ghost function FreeTurns(b: Board, w: int, h: int, p: Point, dir: Point, ds: seq<Point>): seq<Point>
    requires Shaped(b, w, h)
    decreases |ds|
  {
    if ds == [] then []
    else
      var d := ds[|ds| - 1];
      FreeTurns(b, w, h, p, dir, ds[..|ds| - 1]) + (if d != dir && Open(b, w, h, Add(p, d)) then [d] else [])
  }

  /** One more direction: the turns so far, then that direction if it is a turn. */
  lemma FreeTurnsSnoc(b: Board, w: int, h: int, p: Point, dir: Point, ds: seq<Point>, d: Point)
    requires Shaped(b, w, h)
    ensures FreeTurns(b, w, h, p, dir, ds + [d]) ==
      FreeTurns(b, w, h, p, dir, ds) + (if d != dir && Open(b, w, h, Add(p, d)) then [d] else [])
  {
    assert (ds + [d])[..|ds|] == ds;
  }

  /** A direction is among the turns exactly when it is listed, is not `dir` and leads to a
      free in-grid cell. */
  lemma {:induction false} FreeTurnsIff(b: Board, w: int, h: int, p: Point, dir: Point, ds: seq<Point>, d: Point)
    requires Shaped(b, w, h)
    ensures d in FreeTurns(b, w, h, p, dir, ds) <==> d in ds && d != dir && Open(b, w, h, Add(p, d))
    decreases |ds|
  {
    if ds != [] {
      var init := ds[..|ds| - 1];
      FreeTurnsIff(b, w, h, p, dir, init, d);
      assert ds == init + [ds[|ds| - 1]];
    }
  }

  /** Each turn is listed once when the directions are. */
  lemma {:induction false} FreeTurnsDistinct(b: Board, w: int, h: int, p: Point, dir: Point, ds: seq<Point>)
    requires Shaped(b, w, h) && Distinct(ds)
    ensures Distinct(FreeTurns(b, w, h, p, dir, ds))
    decreases |ds|
  {
    if ds != [] {
      var init, d := ds[..|ds| - 1], ds[|ds| - 1];
      assert Distinct(init);
      FreeTurnsDistinct(b, w, h, p, dir, init);
      FreeTurnsIff(b, w, h, p, dir, init, d);
      assert d !in init;
    }
  }

  /** Painting with an arrow id frees no cell. */
  lemma PaintKeepsOccupied(b0: Board, b1: Board, w: int, h: int, path: seq<Point>, v: int)
    requires Painted(b0, b1, w, h, path, v) && v != Free
    ensures Occupied(b0, w, h) <= Occupied(b1, w, h)
  {
    forall p | p in Occupied(b0, w, h) ensures p in Occupied(b1, w, h) {
      assert b1[p.x][p.y] == if p in path then v else b0[p.x][p.y];
    }
  }

  /** Painting one more in-grid cell extends a painted path by that cell. */
  lemma PaintMore(b0: Board, b1: Board, w: int, h: int, path: seq<Point>, p: Point, v: int)
    requires Painted(b0, b1, w, h, path, v) && InBounds(p, w, h)
    ensures Painted(b0, Set(b1, p, v), w, h, path + [p], v)
  {
    var b2 := Set(b1, p, v);
    forall x, y | 0 <= x < w && 0 <= y < h
      ensures b2[x][y] == if Point(x, y) in path + [p] then v else b0[x][y]
    {
      assert Point(x, y) in path + [p] <==> Point(x, y) in path || Point(x, y) == p;
    }
  }

  /** Painting a path onto a board has one outcome. */
  lemma PaintedUnique(b0: Board, b1: Board, b2: Board, w: int, h: int, path: seq<Point>, v: int)
    requires Painted(b0, b1, w, h, path, v) && Painted(b0, b2, w, h, path, v)
    ensures b1 == b2
  {
    forall x | 0 <= x < w ensures b1[x] == b2[x] {
      forall y | 0 <= y < h ensures b1[x][y] == b2[x][y] {
      }
    }
  }

  /** Marking a cell does not change whether its own neighbours are open. */
  lemma StuckAfterMark(b0: Board, b1: Board, w: int, h: int, p: Point, v: int)
    requires Painted(b0, b1, w, h, [p], v)
    ensures Stuck(b1, w, h, p) <==> Stuck(b0, w, h, p)
  {
    forall i | 0 <= i < |CardinalDirs|
      ensures Open(b1, w, h, Add(p, CardinalDirs[i])) <==> Open(b0, w, h, Add(p, CardinalDirs[i]))
    {
      var q := Add(p, CardinalDirs[i]);
      if InBounds(q, w, h) {
        assert q != p;
        assert Point(q.x, q.y) !in [p];
      }
    }
  }

  /** An arrow end is stuck exactly when straight on is closed and there is no turn. */
  lemma StuckIffNoMoves(b: Board, w: int, h: int, p: Point, dir: Point)
    requires Shaped(b, w, h)
    ensures Stuck(b, w, h, p) <==>
      FreeTurns(b, w, h, p, dir, CardinalDirs) == [] && !(IsCardinal(dir) && Open(b, w, h, Add(p, dir)))
  {
    var turns := FreeTurns(b, w, h, p, dir, CardinalDirs);
    if turns == [] && !(IsCardinal(dir) && Open(b, w, h, Add(p, dir))) {
      forall i | 0 <= i < |CardinalDirs| ensures !Open(b, w, h, Add(p, CardinalDirs[i])) {
        if CardinalDirs[i] != dir {
          FreeTurnsIff(b, w, h, p, dir, CardinalDirs, CardinalDirs[i]);
        }
      }
    } else if turns != [] {
      FreeTurnsIff(b, w, h, p, dir, CardinalDirs, turns[0]);
      NotStuckIfGrown(b, w, h, p, Add(p, turns[0]));
    } else {
      NotStuckIfGrown(b, w, h, p, Add(p, dir));
    }
  }

  /** The outcome of scanning the four directions from `p`: the turns are exactly the
      other free in-grid neighbours, each once, and with straight on closed there are none
      exactly when `p` is stuck. */
  lemma NeighbourScan(b: Board, w: int, h: int, p: Point, dir: Point, turns: seq<Point>, straight: bool)
    requires Shaped(b, w, h)
    requires straight <==> IsCardinal(dir) && Open(b, w, h, Add(p, dir))
    requires turns == FreeTurns(b, w, h, p, dir, CardinalDirs)
    ensures forall d :: d in turns <==> d in CardinalDirs && d != dir && Open(b, w, h, Add(p, d))
    ensures Distinct(turns)
    ensures |turns| == 0 && !straight <==> Stuck(b, w, h, p)
  {
    forall d ensures d in turns <==> d in CardinalDirs && d != dir && Open(b, w, h, Add(p, d)) {
      FreeTurnsIff(b, w, h, p, dir, CardinalDirs, d);
    }
    FreeTurnsDistinct(b, w, h, p, dir, CardinalDirs);
    StuckIffNoMoves(b, w, h, p, dir);
  }

  /** A cell with an open cardinal neighbour is not stuck. */
  lemma NotStuckIfGrown(b: Board, w: int, h: int, p: Point, q: Point)
    requires Shaped(b, w, h) && IsCardinal(Sub(q, p)) && Open(b, w, h, q)
    ensures !Stuck(b, w, h, p)
  {
    var i :| 0 <= i < |CardinalDirs| && CardinalDirs[i] == Sub(q, p);
    assert Add(p, CardinalDirs[i]) == q;
  }

  /** On a consistent grid a cell is marked exactly when some live arrow passes through it. */
  lemma OwnedIffOccupied(b: Board, w: int, h: int, arrows: map<int, ArrowData>, p: Point)
    requires Shaped(b, w, h) && InBounds(p, w, h)
    ensures Consistent(b, w, h, arrows) ==>
      (b[p.x][p.y] != Free <==> exists id :: id in arrows && p in arrows[id].points)
  {
    if Consistent(b, w, h, arrows) {
      if b[p.x][p.y] != Free {
        assert p == Point(p.x, p.y);
        assert b[p.x][p.y] in arrows && p in arrows[b[p.x][p.y]].points;
      } else {
        forall id | id in arrows ensures p !in arrows[id].points {
          forall i | 0 <= i < |arrows[id].points| ensures arrows[id].points[i] != p {
          }
        }
      }
    }
  }

  /** The cells of `path` were all free on `b0`. */
  ghost predicate FreeOn(b0: Board, path: seq<Point>) {
    forall j :: 0 <= j < |path| ==>
      0 <= path[j].x < |b0| && 0 <= path[j].y < |b0[path[j].x]| && b0[path[j].x][path[j].y] == Free
  }

  /** Stepping from the end of a painted arrow onto an open neighbour keeps the arrow well
      formed (now pointing along that step) and its cells free on the original board. */
  lemma GrowStep(b0: Board, b1: Board, w: int, h: int, path: seq<Point>, d0: Point, d: Point, id: int)
    requires WellFormed(ArrowData(path, d0), w, h) && FreeOn(b0, path)
    requires Painted(b0, b1, w, h, path, id) && id != Free
    requires IsCardinal(d) && Open(b1, w, h, Add(path[|path| - 1], d))
    ensures Add(path[|path| - 1], d) !in path
    ensures WellFormed(ArrowData(path + [Add(path[|path| - 1], d)], d), w, h)
    ensures FreeOn(b0, path + [Add(path[|path| - 1], d)])
  {
    var last := path[|path| - 1];
    var next := Add(last, d);
    assert b1[next.x][next.y] == if next in path then id else b0[next.x][next.y];
    var p := path + [next];
    assert Sub(next, last) == d;
    forall j | 0 <= j < |p| - 1 ensures IsCardinal(Sub(p[j + 1], p[j])) {
      if j < |path| - 1 {
        assert p[j + 1] == path[j + 1] && p[j] == path[j];
      }
    }
    forall i, j | 0 <= i < j < |p| ensures p[i] != p[j] {
      if j < |path| {
        assert p[i] == path[i] && p[j] == path[j];
      } else {
        assert p[i] == path[i];
      }
    }
  }

  /** The start cell of a grown arrow was stuck on the original board exactly when the
      arrow never left it: a second cell is a free neighbour of the start, and marking the
      start alone leaves its neighbours as they were. */
  lemma StartStuck(b0: Board, b1: Board, w: int, h: int, path: seq<Point>, d: Point, id: int)
    requires WellFormed(ArrowData(path, d), w, h) && |path| >= 1
    requires Shaped(b0, w, h) && FreeOn(b0, path) && Painted(b0, b1, w, h, path, id)
    ensures |path| >= 2 ==> !Stuck(b0, w, h, path[0])
    ensures |path| == 1 ==> (Stuck(b1, w, h, path[0]) <==> Stuck(b0, w, h, path[0]))
  {
    if |path| >= 2 {
      NotStuckIfGrown(b0, w, h, path[0], path[1]);
    } else {
      assert path == [path[0]];
      StuckAfterMark(b0, b1, w, h, path[0], id);
    }
  }

  /** The two facts about erasing an arrow that the deletion needs, without the rest. */
  lemma EraseCounted(b: Board, w: int, h: int, arrows: map<int, ArrowData>, id: int)
    requires Consistent(b, w, h, arrows) && id in arrows
    ensures Consistent(Erase(b, id), w, h, arrows - {id})
    ensures |Occupied(Erase(b, id), w, h)| == |Occupied(b, w, h)| - |arrows[id].points|
  {
    EraseConsistent(b, w, h, arrows, id);
  }

  /** The facts about painting a new arrow that registering it needs, without the rest. */
  lemma PaintCounted(b0: Board, b1: Board, w: int, h: int,
                        arrows: map<int, ArrowData>, id: int, a: ArrowData)
    requires Consistent(b0, w, h, arrows)
    requires id !in arrows && id != Free
    requires WellFormed(a, w, h)
    requires FreeOn(b0, a.points)
    requires Painted(b0, b1, w, h, a.points, id)
    ensures Consistent(b1, w, h, arrows[id := a])
    ensures |Occupied(b1, w, h)| == |Occupied(b0, w, h)| + |a.points|
    ensures Erase(b1, id) == b0
  {
    PaintConsistent(b0, b1, w, h, arrows, id, a);
  }
}
