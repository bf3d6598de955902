/** The puzzle engine: the occupancy grid with its arrow table, block graph and occupied
    counter (PuzzleGraph), and the arrows it grows (Arrow). */
module Puzzle {
  import opened Geometry
  import opened GenParams
  import opened Rng
  import opened Grids
  import opened Rays
  import opened BlockGraphs
  import opened CentreOrder
  import opened LiveGraph
  import opened Solvability

  datatype Option<T> = None | Some(value: T)

  lemma SomeMember(s: set<int>)
    requires s != {}
    ensures exists k :: k in s
  {
    assert (forall k :: k !in s) ==> s == {};
  }

  /** Adding a fresh key and removing it again gives the map back. */
  lemma UpdateThenRemove<V>(m: map<int, V>, k: int, v: V)
    requires k !in m
    ensures m[k := v] - {k} == m
  {
    assert (m[k := v] - {k}).Keys == m.Keys;
  }

  ghost predicate AllDrawn(arrows: map<int, ArrowData>) {
    forall k :: k in arrows ==> |arrows[k].points| >= 2
  }

  lemma AllDrawnAdd(arrows: map<int, ArrowData>, id: int, a: ArrowData)
    requires AllDrawn(arrows) && |a.points| >= 2
    ensures AllDrawn(arrows[id := a])
  {
  }

  /** The heading of one growth step from the end `p` of an arrow heading `dir` on board
      `b`: a picked free turn when the roll says turn or straight on is closed and a turn
      exists, otherwise straight on. */
  ghost function StepDir(b: Board, w: int, h: int, p: Point, dir: Point, doTurn: bool, pick: nat): Point
    requires Shaped(b, w, h)
  {
    var turns := FreeTurns(b, w, h, p, dir, CardinalDirs);
    var straight := IsCardinal(dir) && Open(b, w, h, Add(p, dir));
    if (doTurn || !straight) && |turns| > 0 then turns[RangeInt(pick, 0, |turns|)] else dir
  }

  /** From an end that is not stuck the step leads to a free in-grid cell. */
  lemma StepOpen(b: Board, w: int, h: int, p: Point, dir: Point, doTurn: bool, pick: nat)
    requires Shaped(b, w, h) && !Stuck(b, w, h, p)
    ensures IsCardinal(StepDir(b, w, h, p, dir, doTurn, pick))
    ensures Open(b, w, h, Add(p, StepDir(b, w, h, p, dir, doTurn, pick)))
  {
    var turns := FreeTurns(b, w, h, p, dir, CardinalDirs);
    NeighbourScan(b, w, h, p, dir, turns, IsCardinal(dir) && Open(b, w, h, Add(p, dir)));
    var d := StepDir(b, w, h, p, dir, doTurn, pick);
    if |turns| > 0 && d != dir {
      assert d in turns;
    }
  }

  /** The arrow the growth loop builds from step `i` on, when `path` (heading `dir`) is
      marked on `b`: after step `len`, or at an end with no free neighbour, it is `path`;
      otherwise step `i` moves one cell along StepDir with the draws `turn(i)` and
      `turnPick(i)`, marks it with `id`, and the loop goes on. */
  ghost function GrowPath(b: Board, w: int, h: int, id: int, path: seq<Point>, dir: Point, i: int, len: int,
                          turn: int -> bool, turnPick: int -> nat): ArrowData
    requires Shaped(b, w, h) && |path| >= 1
    decreases len - i + 1
  {
    if i > len || Stuck(b, w, h, Last(path)) then ArrowData(path, dir)
    else
      var d := StepDir(b, w, h, Last(path), dir, turn(i), turnPick(i));
      StepOpen(b, w, h, Last(path), dir, turn(i), turnPick(i));
      var next := Add(Last(path), d);
      GrowPath(Set(b, next, id), w, h, id, path + [next], d, i + 1, len, turn, turnPick)
  }

  /** GrowPath returns the path as it is after the last step or at a stuck end. */
  lemma GrowPathStops(b: Board, w: int, h: int, id: int, path: seq<Point>, dir: Point, i: int, len: int,
                      turn: int -> bool, turnPick: int -> nat)
    requires Shaped(b, w, h) && |path| >= 1
    requires i > len || Stuck(b, w, h, Last(path))
    ensures GrowPath(b, w, h, id, path, dir, i, len, turn, turnPick) == ArrowData(path, dir)
  {
  }

  /** Otherwise GrowPath takes step `i` and goes on from the marked next cell. */
  lemma GrowPathStep(b: Board, w: int, h: int, id: int, path: seq<Point>, dir: Point, i: int, len: int,
                     turn: int -> bool, turnPick: int -> nat)
    requires Shaped(b, w, h) && |path| >= 1
    requires i <= len && !Stuck(b, w, h, Last(path))
    ensures var d := StepDir(b, w, h, Last(path), dir, turn(i), turnPick(i));
      var next := Add(Last(path), d);
      && Open(b, w, h, next)
      && GrowPath(b, w, h, id, path, dir, i, len, turn, turnPick) ==
         GrowPath(Set(b, next, id), w, h, id, path + [next], d, i + 1, len, turn, turnPick)
  {
    StepOpen(b, w, h, Last(path), dir, turn(i), turnPick(i));
  }

  /** GrowPath keeps the path it starts from and adds at most one cell per remaining step. */
  lemma {:induction false} GrowPathExtends(b: Board, w: int, h: int, id: int, path: seq<Point>, dir: Point, i: int,
                                           len: int, turn: int -> bool, turnPick: int -> nat)
    requires Shaped(b, w, h) && |path| >= 1
    ensures var r := GrowPath(b, w, h, id, path, dir, i, len, turn, turnPick);
      && |path| <= |r.points| <= |path| + Max(len - i + 1, 0)
      && r.points[..|path|] == path
    decreases len - i + 1
  {
    if i <= len && !Stuck(b, w, h, Last(path)) {
      var d := StepDir(b, w, h, Last(path), dir, turn(i), turnPick(i));
      var next := Add(Last(path), d);
      GrowPathStep(b, w, h, id, path, dir, i, len, turn, turnPick);
      GrowPathExtends(Set(b, next, id), w, h, id, path + [next], d, i + 1, len, turn, turnPick);
      var r := GrowPath(b, w, h, id, path, dir, i, len, turn, turnPick);
      assert r.points[..|path|] == (r.points[..|path| + 1])[..|path|];
    }
  }

  /** The arrow `id` grown from the free cell `start` with initial heading `dir` and `len`
      growth steps: the start is marked, then steps 1 .. len follow GrowPath. */
  ghost function GrownFrom(b: Board, w: int, h: int, id: int, start: Point, dir: Point, len: int,
                           turn: int -> bool, turnPick: int -> nat): ArrowData
    requires Shaped(b, w, h) && InBounds(start, w, h)
  {
    GrowPath(Set(b, start, id), w, h, id, [start], dir, 1, len, turn, turnPick)
  }

  /** The arrow attempt `i` grows from `start` on grid `b`: id `i`, with the length, initial
      heading and turn draws of that attempt. */
  ghost function ArrowOf(gen: GenData, rolls: Rolls, b: Board, i: int, start: Point): ArrowData
    requires Shaped(b, gen.width, gen.height) && InBounds(start, gen.width, gen.height)
  {
    GrownFrom(b, gen.width, gen.height, i, start, SampleDir(rolls.dirPick(i)), SampleLength(gen, rolls.lengthPick(i)),
              TurnsOf(rolls, i), PicksOf(rolls, i))
  }

  /** What attempt `i` from `start` on grid `b` grows, when it grows a segment: the arrow
      ArrowOf gives, a path of 2 .. len+1 cells from `start` that were free on `b`, shorter
      than len+1 only when its end is stuck on `marked`, which is `b` with that path marked. */
  ghost predicate GrownBy(gen: GenData, rolls: Rolls, b: Board, i: int, start: Point, grown: ArrowData, marked: Board) {
    var w, h, len := gen.width, gen.height, SampleLength(gen, rolls.lengthPick(i));
    && Shaped(b, w, h) && InBounds(start, w, h)
    && grown == ArrowOf(gen, rolls, b, i, start)
    && 2 <= |grown.points| <= len + 1
    && grown.points[0] == start && FreeOn(b, grown.points)
    && Painted(b, marked, w, h, grown.points, i)
    && (|grown.points| < len + 1 ==> Stuck(marked, w, h, Last(grown.points)))
  }

  /** An attempt from `start` with `len` growth steps grows an arrow with a segment: the start
      is free, at least one step is tried and some neighbour of the start is free. */
  ghost predicate Grows(b: Board, w: int, h: int, start: Point, len: int) {
    Shaped(b, w, h) && Open(b, w, h, start) && len >= 1 && !Stuck(b, w, h, start)
  }

  /** Arrow `id`, entered on grid `b` with table `arrows`, passes validation: once every
      block list is recomputed, no cycle is reachable from it. */
  ghost predicate Accepted(b: Board, w: int, h: int, arrows: map<int, ArrowData>, id: int) {
    Consistent(b, w, h, arrows) && !CycleReachable(ListsOf(b, w, h, arrows), id)
  }

  /** What the generation loop carries from one attempt to the next: the grid and the arrow
      table (the block lists and the counter follow from them). */
  datatype Snapshot = Snapshot(cells: Board, arrows: map<int, ArrowData>)

  /** The choices of one attempt: its start cell, the arrow grown there, and the grid with
      that arrow marked. */
  datatype Trial = Trial(start: Point, grown: ArrowData, marked: Board)

  /** In inside mode the start `p` must be among the free cells nearest the centre: at most
      min(20, n/2) − 1 of the n free cells lie strictly nearer to it. */
  ghost predicate CentreRanked(b: Board, w: int, h: int, p: Point)
    requires Shaped(b, w, h) && h >= 0
  {
    var free := FreeCells(b, w, h);
    |Nearer(free, p, Centre(w, h))| <= Max(0, Min(20, |free| / 2) - 1)
  }

  /** The loop's two reasons to stop before an attempt: the density is reached, or no cell
      is free. */
  ghost predicate Halts(gen: GenData, s: Snapshot) {
    && Usable(gen) && Shaped(s.cells, gen.width, gen.height)
    && (DensityReached(|Occupied(s.cells, gen.width, gen.height)|, gen) || FreeCells(s.cells, gen.width, gen.height) == {})
  }

  /** Attempt `i` of the loop goes from `s` to `s1` by the choices `t`: it does not stop; it
      starts from a free cell (in inside mode one of small centre rank); the arrow grows a
      segment exactly as Grows says; and it is kept, giving the grid `t.marked` and the
      table with `t.grown` added, exactly when it grows and passes validation. Otherwise the
      state is unchanged. */
  ghost predicate Advances(gen: GenData, rolls: Rolls, i: int, s: Snapshot, t: Trial, s1: Snapshot) {
    var w, h, len := gen.width, gen.height, SampleLength(gen, rolls.lengthPick(i));
    && Usable(gen) && Shaped(s.cells, w, h) && !Halts(gen, s)
    && t.start in FreeCells(s.cells, w, h)
    && (rolls.fromInside(i) ==> CentreRanked(s.cells, w, h, t.start))
    && (Grows(s.cells, w, h, t.start, len) ==> GrownBy(gen, rolls, s.cells, i, t.start, t.grown, t.marked))
    && s1 == if Grows(s.cells, w, h, t.start, len) && Accepted(t.marked, w, h, s.arrows[i := t.grown], i)
             then Snapshot(t.marked, s.arrows[i := t.grown]) else s
  }

  /** `trials` are attempts 0, 1, ... in turn, each taking the snapshot before it in `trace`
      to the one after it. */
  ghost predicate Run(gen: GenData, rolls: Rolls, trace: seq<Snapshot>, trials: seq<Trial>)
    decreases |trials|
  {
    && |trace| == |trials| + 1
    && (|trials| > 0 ==>
          var n := |trials| - 1;
          && Run(gen, rolls, trace[..n + 1], trials[..n])
          && Advances(gen, rolls, n, trace[n], trials[n], trace[n + 1]))
  }

  /** One more attempt from the last snapshot extends a run. */
  lemma RunSnoc(gen: GenData, rolls: Rolls, trace: seq<Snapshot>, trials: seq<Trial>, t: Trial, s1: Snapshot)
    requires Run(gen, rolls, trace, trials)
    requires Advances(gen, rolls, |trials|, trace[|trials|], t, s1)
    ensures Run(gen, rolls, trace + [s1], trials + [t])
  {
    assert (trace + [s1])[..|trials| + 1] == trace;
    assert (trials + [t])[..|trials|] == trials;
  }

  /** In a run, attempt k takes `trace[k]` to `trace[k + 1]`. */
  lemma {:induction false} RunSteps(gen: GenData, rolls: Rolls, trace: seq<Snapshot>, trials: seq<Trial>, k: int)
    requires Run(gen, rolls, trace, trials) && 0 <= k < |trials|
    ensures Advances(gen, rolls, k, trace[k], trials[k], trace[k + 1])
    decreases |trials|
  {
    var n := |trials| - 1;
    if k < n {
      RunSteps(gen, rolls, trace[..n + 1], trials[..n], k);
    }
  }

  /** Assembles `Advances` from the facts an attempt that did not stop establishes. */
  lemma StepAdvances(gen: GenData, rolls: Rolls, i: int, s: Snapshot, t: Trial, s1: Snapshot)
    requires Usable(gen) && Shaped(s.cells, gen.width, gen.height)
    requires !DensityReached(|Occupied(s.cells, gen.width, gen.height)|, gen)
    requires t.start in FreeCells(s.cells, gen.width, gen.height)
    requires rolls.fromInside(i) ==> CentreRanked(s.cells, gen.width, gen.height, t.start)
    requires Grows(s.cells, gen.width, gen.height, t.start, SampleLength(gen, rolls.lengthPick(i))) ==>
      GrownBy(gen, rolls, s.cells, i, t.start, t.grown, t.marked)
    requires s1 == if Grows(s.cells, gen.width, gen.height, t.start, SampleLength(gen, rolls.lengthPick(i)))
                      && Accepted(t.marked, gen.width, gen.height, s.arrows[i := t.grown], i)
                   then Snapshot(t.marked, s.arrows[i := t.grown]) else s
    ensures Advances(gen, rolls, i, s, t, s1)
  {
  }

  /** An attempt never frees a cell: the occupied cells after it include those before it,
      so the density the loop tests never falls from one attempt to the next. */
  lemma AdvancesOccupies(gen: GenData, rolls: Rolls, i: int, s: Snapshot, t: Trial, s1: Snapshot)
    requires i >= 0 && Advances(gen, rolls, i, s, t, s1)
    ensures Shaped(s1.cells, gen.width, gen.height)
    ensures Occupied(s.cells, gen.width, gen.height) <= Occupied(s1.cells, gen.width, gen.height)
  {
    if s1 != s {
      PaintKeepsOccupied(s.cells, t.marked, gen.width, gen.height, t.grown.points, i);
    }
  }

  /** Along a run the occupied cells only grow: every cell occupied at the start is still
      occupied after attempt k. */
  lemma {:induction false} RunOccupies(gen: GenData, rolls: Rolls, trace: seq<Snapshot>, trials: seq<Trial>, k: int)
    requires Run(gen, rolls, trace, trials) && 0 <= k <= |trials|
    requires Shaped(trace[0].cells, gen.width, gen.height)
    ensures Shaped(trace[k].cells, gen.width, gen.height)
    ensures Occupied(trace[0].cells, gen.width, gen.height) <= Occupied(trace[k].cells, gen.width, gen.height)
    decreases k
  {
    if k > 0 {
      RunOccupies(gen, rolls, trace, trials, k - 1);
      RunSteps(gen, rolls, trace, trials, k - 1);
      AdvancesOccupies(gen, rolls, k - 1, trace[k - 1], trials[k - 1], trace[k]);
    }
  }

  /** What GenerateArrow reports when an attempt placed no arrow. */
  const NoArrow: int := -1

  /** The length InitializeArrow draws: MinArrowLength .. MaxArrowLength inclusive. */
  function SampleLength(gen: GenData, roll: nat): (n: int)
    ensures gen.minArrowLength <= gen.maxArrowLength ==> gen.minArrowLength <= n <= gen.maxArrowLength
    ensures gen.maxArrowLength < gen.minArrowLength ==> n == gen.minArrowLength
  {
    RangeInt(roll, gen.minArrowLength, gen.maxArrowLength + 1)
  }

  /** The values of a C# `int`. */
  predicate Int32(v: int) { -0x8000_0000 <= v < 0x8000_0000 }

  /** The result of C#'s unchecked 32-bit `int` arithmetic: `v` reduced into the `int`
      range, equal to `v` modulo 2^32. */
  function WrapInt32(v: int): (r: int)
    ensures Int32(r)
    ensures Int32(v) ==> r == v
    ensures (r - v) % 0x1_0000_0000 == 0
  {
    (v + 0x8000_0000) % 0x1_0000_0000 - 0x8000_0000
  }

  /** The length draw exactly as Arrow.cs writes it: the exclusive bound `MaxArrowLength + 1`
      is an `int` sum and wraps. It agrees with SampleLength except at MaxArrowLength = int.MaxValue. */
  function SampleLengthAsWritten(gen: GenData, roll: nat): (n: int)
    requires Int32(gen.minArrowLength) && Int32(gen.maxArrowLength)
    ensures gen.maxArrowLength < 0x7fff_ffff ==> n == SampleLength(gen, roll)
  {
    RangeInt(roll, gen.minArrowLength, WrapInt32(gen.maxArrowLength + 1))
  }

  /** With MaxArrowLength = int.MaxValue, which the settings screen accepts, the bound wraps
      to int.MinValue and the range handed to Random.Range is reversed: the draw no longer
      covers [MinArrowLength, MaxArrowLength]. */
  lemma LengthBoundWraps()
    ensures var gen := GenData(1, Ratio(1, 2), 5, 5, 1, 0x7fff_ffff, Ratio(0, 1), Ratio(0, 1), Ratio(1, 2));
      && WrapInt32(gen.maxArrowLength + 1) == -0x8000_0000 < gen.minArrowLength
      && SampleLength(gen, 4) == 5
      && SampleLengthAsWritten(gen, 4) != 5
  {}

  /** The initial direction InitializeArrow draws: one of the four unit steps. */
  function SampleDir(roll: nat): (d: Point)
    ensures IsCardinal(d)
  {
    CardinalDirs[RangeInt(roll, 0, |CardinalDirs|)]
  }

  /** Every length of the configured range, and every direction, is drawn by some roll. */
  lemma SamplesOnto(gen: GenData, n: int, i: int)
    requires gen.minArrowLength <= n <= gen.maxArrowLength && 0 <= i < |CardinalDirs|
    ensures SampleLength(gen, n - gen.minArrowLength) == n
    ensures SampleDir(i) == CardinalDirs[i]
  {
    RangeIntOnto(gen.minArrowLength, gen.maxArrowLength + 1, n);
    RangeIntOnto(0, |CardinalDirs|, i);
  }

  /** The ray query of a grown arrow against the current grid (one hit per occupied cell
      straight ahead, nearest first). */
  method CheckBlock(a: ArrowData, g: PuzzleGraph) returns (blockArrows: seq<int>)
    requires g.Synced() && |a.points| >= 1
    ensures blockArrows == Blockers(g.cells, g.genData.width, g.genData.height, a)
  {
    var w, h := g.graph.Length0, g.graph.Length1;
    var origin := a.points[|a.points| - 1];
    var n := Max(h, w);
    blockArrows := [];
    var k := 1;
    while k <= n
      invariant 1 <= k <= Max(n, 0) + 1
      invariant blockArrows + Owners(ScanFrom(g.cells, w, h, origin, a.dir, k, n)) == Blockers(g.cells, w, h, a)
      decreases n - k
    {
      var c := Along(origin, a.dir, k);
      OwnersStep(g.cells, w, h, origin, a.dir, k, n);
      ghost var rest := Owners(ScanFrom(g.cells, w, h, origin, a.dir, k + 1, n));
      if 0 <= c.x < w && 0 <= c.y < h && g.graph[c.x, c.y] != Free {
        assert blockArrows + ([g.graph[c.x, c.y]] + rest) == (blockArrows + [g.graph[c.x, c.y]]) + rest;
        blockArrows := blockArrows + [g.graph[c.x, c.y]];
      } else {
        assert [] + rest == rest;
      }
      k := k + 1;
    }
  }

  class PuzzleGraph {
    var genData: GenData
    /** `graph[x, y]` is the id of the arrow owning cell (x, y), or Free. */
    var graph: array2<int>
    /** The value of `graph`, for stating what the methods do to it. */
    ghost var cells: Board
    /** Every live arrow, by id: its cells and final direction. */
    var arrows: map<int, ArrowData>
    /** For every live arrow, the arrows its ray meets. */
    var blockGraph: map<int, seq<int>>
    var occupiedPoints: int

    ghost predicate Synced()
      reads this`genData, this`graph, this`cells, graph
    {
      && graph.Length0 == genData.width && graph.Length1 == genData.height
      && Shaped(cells, genData.width, genData.height)
      && forall x, y :: 0 <= x < genData.width && 0 <= y < genData.height ==> graph[x, y] == cells[x][y]
    }

    /** Grid, arrow table and counter agree. */
    ghost predicate Stored()
      reads this`genData, this`graph, this`cells, this`arrows, this`occupiedPoints, graph
    {
      && Synced()
      && Consistent(cells, genData.width, genData.height, arrows)
      && occupiedPoints == |Occupied(cells, genData.width, genData.height)|
    }

    /** Besides, every live arrow has a block list. */
    ghost predicate Core()
      reads this, graph
    {
      Stored() && blockGraph.Keys == arrows.Keys
    }

    /** Besides, every block list is the ray scan of its arrow on the present grid. */
    ghost predicate Current()
      reads this, graph
    {
      Core() && ListsCurrent(cells, genData.width, genData.height, arrows, blockGraph)
    }

    /** Every live arrow has at least one segment. */
    ghost predicate Drawn()
      reads this`arrows
    {
      AllDrawn(arrows)
    }

    constructor (gen: GenData)
      ensures genData == gen && arrows == map[] && blockGraph == map[] && occupiedPoints == 0
    {
      genData := gen;
      graph := new int[0, 0];
      cells := [];
      arrows := map[];
      blockGraph := map[];
      occupiedPoints := 0;
    }

    /** Marks cell `point` as owned by `arrowID` and counts it; no other cell changes. */
    method SetGraphPoint(point: Point, arrowID: int)
      requires Synced() && InBounds(point, genData.width, genData.height)
      modifies this`cells, this`occupiedPoints, graph
      ensures Synced()
      ensures cells == Set(old(cells), point, arrowID)
      ensures forall x, y :: 0 <= x < genData.width && 0 <= y < genData.height ==>
        graph[x, y] == if Point(x, y) == point then arrowID else old(graph[x, y])
      ensures occupiedPoints == old(occupiedPoints) + 1
    {
      graph[point.x, point.y] := arrowID;
      cells := Set(cells, point, arrowID);
      occupiedPoints := occupiedPoints + 1;
    }

    function IsPointOccupied(point: Point): (occupied: bool)
      reads this, graph
      requires Synced() && InBounds(point, genData.width, genData.height)
      ensures occupied <==> point in Occupied(cells, genData.width, genData.height)
      ensures Core() ==> (occupied <==> exists id :: id in arrows && point in arrows[id].points)
    {
      OccupiedIff(cells, genData.width, genData.height, point);
      OwnedIffOccupied(cells, genData.width, genData.height, arrows, point);
      graph[point.x, point.y] != Free
    }

    function IsArrowBlock(arrowID: int): (blocked: bool)
      reads this, graph
      requires arrowID in blockGraph
      ensures Current() ==>
        (blocked <==> !ClearAhead(cells, genData.width, genData.height, arrows[arrowID]))
    {
      BlockedMeaning(cells, genData.width, genData.height, arrows, blockGraph, arrowID);
      |blockGraph[arrowID]| > 0
    }

    /** The arrows other than `id` whose block list mentions `id`. */
    method FindAffected(id: int) returns (affectedArrows: set<int>)
      requires blockGraph.Keys == arrows.Keys
      ensures forall k :: k in affectedArrows <==> k in arrows && k != id && id in blockGraph[k]
    {
      affectedArrows := {};
      var rest := arrows.Keys;
      while rest != {}
        invariant rest <= arrows.Keys
        invariant forall k :: k in affectedArrows <==>
          k in arrows && k !in rest && k != id && id in blockGraph[k]
        decreases |rest|
      {
        SomeMember(rest);
        var k :| k in rest;
        if k != id && id in blockGraph[k] {
          affectedArrows := affectedArrows + {k};
        }
        rest := rest - {k};
      }
    }

    /** Recomputes, from the present grid, the block list of every arrow in `ks`; the other
        lists are kept. */
    method RecomputeLists(ks: set<int>)
      requires Core() && ks <= arrows.Keys
      modifies this`blockGraph
      ensures Core() && blockGraph.Keys == old(blockGraph.Keys)
      ensures forall k :: k in blockGraph ==>
        blockGraph[k] == if k in ks then Blockers(cells, genData.width, genData.height, arrows[k]) else old(blockGraph[k])
    {
      var rest := ks;
      while rest != {}
        invariant rest <= ks && blockGraph.Keys == old(blockGraph.Keys)
        invariant forall k :: k in blockGraph ==>
          blockGraph[k] == if k in ks && k !in rest then Blockers(cells, genData.width, genData.height, arrows[k]) else old(blockGraph[k])
        decreases |rest|
      {
        SomeMember(rest);
        var k :| k in rest;
        var list := CheckBlock(arrows[k], this);
        blockGraph := blockGraph[k := list];
        rest := rest - {k};
      }
    }

    /** Frees cell `point` and uncounts it; no other cell changes. */
    method ClearPoint(point: Point)
      requires Synced() && InBounds(point, genData.width, genData.height)
      modifies this`cells, this`occupiedPoints, graph
      ensures Synced() && cells == Set(old(cells), point, Free)
      ensures occupiedPoints == old(occupiedPoints) - 1
    {
      graph[point.x, point.y] := Free;
      cells := Set(cells, point, Free);
      occupiedPoints := occupiedPoints - 1;
    }

    /** Frees every cell of `points` and uncounts it: the grid becomes `target`, the grid
        with exactly those cells freed. */
    method ErasePoints(points: seq<Point>, ghost target: Board)
      requires Synced() && forall i :: 0 <= i < |points| ==> InBounds(points[i], genData.width, genData.height)
      requires Painted(cells, target, genData.width, genData.height, points, Free)
      modifies this`cells, this`occupiedPoints, graph
      ensures Synced() && cells == target
      ensures occupiedPoints == old(occupiedPoints) - |points|
    {
      ghost var b0 := cells;
      var j := 0;
      while j < |points|
        invariant 0 <= j <= |points|
        invariant Synced() && Painted(b0, cells, genData.width, genData.height, points[..j], Free)
        invariant occupiedPoints == old(occupiedPoints) - j
      {
        var p := points[j];
        ghost var before := cells;
        ClearPoint(p);
        PaintMore(b0, before, genData.width, genData.height, points[..j], p, Free);
        assert points[..j + 1] == points[..j] + [p];
        j := j + 1;
      }
      assert points[..j] == points;
      PaintedUnique(b0, cells, target, genData.width, genData.height, points, Free);
    }

    /** Frees the cells of arrow `id` and drops it from both tables. */
    method RemoveArrow(id: int)
      requires Core() && id in arrows
      modifies this`cells, this`occupiedPoints, this`arrows, this`blockGraph, graph
      ensures Core()
      ensures cells == Erase(old(cells), id) && arrows == old(arrows) - {id}
      ensures blockGraph == old(blockGraph) - {id}
      ensures occupiedPoints == old(occupiedPoints) - |old(arrows)[id].points|
    {
      ghost var b0, arrows0 := cells, arrows;
      ErasePainted(b0, genData.width, genData.height, arrows0, id);
      ErasePoints(arrows[id].points, Erase(b0, id));
      EraseCounted(b0, genData.width, genData.height, arrows0, id);
      arrows := arrows - {id};
      blockGraph := blockGraph - {id};
    }

    /** Removes arrow `id`: frees its cells, drops it from both tables and recomputes the
        block lists that mentioned it. */
    method DeleteArrow(id: int)
      requires Core() && id in arrows
      modifies this`cells, this`occupiedPoints, this`arrows, this`blockGraph, graph
      ensures Core()
      ensures cells == Erase(old(cells), id) && arrows == old(arrows) - {id}
      ensures occupiedPoints == old(occupiedPoints) - |old(arrows)[id].points|
      ensures blockGraph.Keys == old(blockGraph).Keys - {id}
      ensures forall k :: k in blockGraph ==>
        blockGraph[k] == if id in old(blockGraph)[k] then Blockers(cells, genData.width, genData.height, arrows[k]) else old(blockGraph)[k]
      ensures old(Current()) ==> ListsCurrent(cells, genData.width, genData.height, arrows, blockGraph)
      ensures old(Current()) && Acyclic(old(blockGraph)) ==> Acyclic(blockGraph)
    {
      ghost var b0, arrows0, g0 := cells, arrows, blockGraph;
      var affectedArrows := FindAffected(id);
      assert forall k :: k in affectedArrows ==> k in arrows0 && k != id;
      RemoveArrow(id);
      RefreshAffected(id, affectedArrows, b0, arrows0, g0);
    }

    /** The second half of a deletion: the cells and tables no longer hold arrow `id`, and
        the lists of `affected`, the arrows whose list mentioned it, are recomputed. */
    method RefreshAffected(id: int, affected: set<int>, ghost b0: Board,
                           ghost arrows0: map<int, ArrowData>, ghost g0: Graph)
      requires Core() && id in arrows0 && Consistent(b0, genData.width, genData.height, arrows0)
      requires g0.Keys == arrows0.Keys
      requires cells == Erase(b0, id) && arrows == arrows0 - {id} && blockGraph == g0 - {id}
      requires forall k :: k in affected <==> k in arrows0 && k != id && id in g0[k]
      modifies this`blockGraph
      ensures Core() && blockGraph.Keys == g0.Keys - {id}
      ensures forall k :: k in blockGraph ==>
        blockGraph[k] == if id in g0[k] then Blockers(cells, genData.width, genData.height, arrows[k]) else g0[k]
      ensures ListsCurrent(b0, genData.width, genData.height, arrows0, g0) ==>
        ListsCurrent(cells, genData.width, genData.height, arrows, blockGraph) &&
        (Acyclic(g0) ==> Acyclic(blockGraph))
    {
      ghost var w, h := genData.width, genData.height;
      assert arrows.Keys == arrows0.Keys - {id};
      assert forall k :: k in affected ==> k in arrows.Keys;
      RecomputeLists(affected);
      forall k | k in blockGraph
        ensures blockGraph[k] == if id in g0[k] then Blockers(cells, w, h, arrows[k]) else g0[k]
      {
        assert k in affected <==> id in g0[k];
      }
      if ListsCurrent(b0, w, h, arrows0, g0) {
        DeleteKeepsCurrent(b0, w, h, arrows0, id, g0, affected, blockGraph);
      }
    }

    /** Enters a freshly painted arrow into both tables, with an empty block list. */
    method Register(id: int, a: ArrowData, ghost b0: Board)
      requires Synced() && blockGraph.Keys == arrows.Keys
      requires Consistent(b0, genData.width, genData.height, arrows)
      requires occupiedPoints == |Occupied(b0, genData.width, genData.height)| + |a.points|
      requires id !in arrows && id != Free && WellFormed(a, genData.width, genData.height)
      requires FreeOn(b0, a.points) && Painted(b0, cells, genData.width, genData.height, a.points, id)
      modifies this`arrows, this`blockGraph
      ensures Core() && arrows == old(arrows)[id := a] && blockGraph == old(blockGraph)[id := []]
      ensures Erase(cells, id) == b0
    {
      PaintCounted(b0, cells, genData.width, genData.height, arrows, id, a);
      arrows := arrows[id := a];
      blockGraph := blockGraph[id := []];
    }

    /** Generates a puzzle: clears the tables, makes an all-free grid, then makes up to
        MaxAttempts attempts, stopping early once the density is reached or no cell is
        free. `trace` holds the grid and table before each attempt made and after the last
        one, and `trials` the choices of each attempt: the run starts blank, attempt k takes
        `trace[k]` to `trace[k + 1]` as Advances says, and a run cut short of MaxAttempts
        stopped for one of the loop's two reasons. Every arrow kept has at least one
        segment, every block list is current and the block graph has no cycle, so the
        puzzle can be cleared. */
    method GeneratePuzzle(rolls: Rolls) returns (ghost trace: seq<Snapshot>, ghost trials: seq<Trial>)
      requires Usable(genData)
      modifies this, graph
      ensures genData == old(genData) && fresh(graph)
      ensures Run(genData, rolls, trace, trials) && |trials| <= Max(genData.maxAttempts, 0)
      ensures trace[0] == Snapshot(Blank(genData.width, genData.height), map[])
      ensures trace[|trials|] == Snapshot(cells, arrows)
      ensures |trials| < genData.maxAttempts ==> Halts(genData, trace[|trials|])
      ensures Current() && Drawn() && Acyclic(blockGraph)
      ensures forall k :: k in arrows ==> 0 <= k < genData.maxAttempts
      ensures exists order :: ClearsBy(cells, genData.width, genData.height, arrows, order)
    {
      ClearArrows();
      InitGrid();
      BlankConsistent(genData.width, genData.height);
      assert Acyclic(blockGraph) by {
        forall c ensures !IsCycle(blockGraph, c) {
          if |c| >= 1 { assert c[0] !in blockGraph; }
        }
      }
      trace, trials := RunAttempts(rolls);
      CurrentSolvable(cells, genData.width, genData.height, arrows, blockGraph);
    }

    /** The loop of GeneratePuzzle: attempts 0, 1, ... until MaxAttempts, or until an
        attempt stops the run. */
    method RunAttempts(rolls: Rolls) returns (ghost trace: seq<Snapshot>, ghost trials: seq<Trial>)
      requires Usable(genData) && Current() && Drawn() && Acyclic(blockGraph) && arrows == map[]
      modifies this`cells, this`occupiedPoints, this`arrows, this`blockGraph, graph
      ensures Run(genData, rolls, trace, trials) && |trials| <= Max(genData.maxAttempts, 0)
      ensures trace[0] == Snapshot(old(cells), map[])
      ensures trace[|trials|] == Snapshot(cells, arrows)
      ensures |trials| < genData.maxAttempts ==> Halts(genData, trace[|trials|])
      ensures Current() && Drawn() && Acyclic(blockGraph)
      ensures forall k :: k in arrows ==> 0 <= k < genData.maxAttempts
    {
      trace, trials := [Snapshot(cells, arrows)], [];
      var i := 0;
      while i < genData.maxAttempts
        invariant 0 <= i <= Max(genData.maxAttempts, 0)
        invariant Current() && Drawn() && Acyclic(blockGraph)
        invariant forall k :: k in arrows ==> 0 <= k < i
        invariant Run(genData, rolls, trace, trials) && |trials| == i
        invariant trace[0] == Snapshot(old(cells), map[])
        invariant trace[i] == Snapshot(cells, arrows)
      {
        var stop, start;
        ghost var grown, b1;
        stop, start, grown, b1 := Attempt(i, rolls);
        if stop {
          break;
        }
        RunSnoc(genData, rolls, trace, trials, Trial(start, grown, b1), Snapshot(cells, arrows));
        trace, trials := trace + [Snapshot(cells, arrows)], trials + [Trial(start, grown, b1)];
        i := i + 1;
      }
    }

    /** The all-free grid of the configured size, and no occupied cell counted. */
    method InitGrid()
      requires Usable(genData) && occupiedPoints == 0
      modifies this`graph, this`cells
      ensures fresh(graph) && Synced() && cells == Blank(genData.width, genData.height)
    {
      var w, h := genData.width, genData.height;
      var a := new int[w, h];
      var i := 0;
      while i < w
        invariant 0 <= i <= w
        invariant forall x, y :: 0 <= x < i && 0 <= y < h ==> a[x, y] == Free
      {
        var j := 0;
        while j < h
          invariant 0 <= j <= h
          invariant forall x, y :: 0 <= x < w && 0 <= y < h && (x < i || (x == i && y < j)) ==> a[x, y] == Free
        {
          a[i, j] := Free;
          j := j + 1;
        }
        i := i + 1;
      }
      graph := a;
      cells := Blank(w, h);
    }

    /** Attempt `i` of the generation loop: stop when the density is reached or no cell is
        free; otherwise choose the free cell `start` and try to place arrow `i` there, which
        is kept exactly when it grows a segment and passes validation. */
    method Attempt(i: int, rolls: Rolls) returns (stop: bool, start: Point, ghost grown: ArrowData, ghost b1: Board)
      requires Usable(genData) && i >= 0
      requires Current() && Drawn() && Acyclic(blockGraph)
      requires forall k :: k in arrows ==> 0 <= k < i
      modifies this`cells, this`occupiedPoints, this`arrows, this`blockGraph, graph
      ensures Current() && Drawn() && Acyclic(blockGraph)
      ensures forall k :: k in arrows ==> 0 <= k <= i
      ensures stop <==>
        DensityReached(old(occupiedPoints), genData) || FreeCells(old(cells), genData.width, genData.height) == {}
      ensures i !in arrows ==>
        cells == old(cells) && arrows == old(arrows) && blockGraph == old(blockGraph)
        && occupiedPoints == old(occupiedPoints)
      ensures i in arrows ==> arrows == old(arrows)[i := grown] && cells == b1
      ensures !stop ==> start in FreeCells(old(cells), genData.width, genData.height)
      ensures !stop && rolls.fromInside(i) ==> CentreRanked(old(cells), genData.width, genData.height, start)
      ensures !stop && Grows(old(cells), genData.width, genData.height, start, SampleLength(genData, rolls.lengthPick(i))) ==>
        GrownBy(genData, rolls, old(cells), i, start, grown, b1)
      ensures i in arrows <==>
        && !stop
        && Grows(old(cells), genData.width, genData.height, start, SampleLength(genData, rolls.lengthPick(i)))
        && Accepted(b1, genData.width, genData.height, old(arrows)[i := grown], i)
      ensures stop ==> Halts(genData, Snapshot(old(cells), old(arrows)))
      ensures !stop ==>
        Advances(genData, rolls, i, Snapshot(old(cells), old(arrows)), Trial(start, grown, b1), Snapshot(cells, arrows))
    {
      if DensityReached(occupiedPoints, genData) {
        return true, Point(0, 0), ArrowData([], Point(0, 0)), cells;
      }
      ghost var s0 := Snapshot(cells, arrows);
      stop, start, grown, b1 := TryFreeCell(i, rolls);
      if !stop {
        var w, h, len := genData.width, genData.height, SampleLength(genData, rolls.lengthPick(i));
        ghost var kept := Grows(s0.cells, w, h, start, len) && Accepted(b1, w, h, s0.arrows[i := grown], i);
        assert kept <==> i in arrows;
        assert Snapshot(cells, arrows) == if kept then Snapshot(b1, s0.arrows[i := grown]) else s0;
        StepAdvances(genData, rolls, i, s0, Trial(start, grown, b1), Snapshot(cells, arrows));
      }
    }

    /** The rest of attempt `i` once the density is not yet reached: stop when no cell is
        free; otherwise choose the free cell `start` and try to place arrow `i` there. */
    method TryFreeCell(i: int, rolls: Rolls) returns (stop: bool, start: Point, ghost grown: ArrowData, ghost b1: Board)
      requires i >= 0
      requires Current() && Drawn() && Acyclic(blockGraph)
      requires forall k :: k in arrows ==> 0 <= k < i
      modifies this`cells, this`occupiedPoints, this`arrows, this`blockGraph, graph
      ensures Current() && Drawn() && Acyclic(blockGraph)
      ensures forall k :: k in arrows ==> 0 <= k <= i
      ensures stop <==> FreeCells(old(cells), genData.width, genData.height) == {}
      ensures i !in arrows ==>
        cells == old(cells) && arrows == old(arrows) && blockGraph == old(blockGraph)
        && occupiedPoints == old(occupiedPoints)
      ensures i in arrows ==> arrows == old(arrows)[i := grown] && cells == b1
      ensures !stop ==> start in FreeCells(old(cells), genData.width, genData.height)
      ensures !stop && rolls.fromInside(i) ==> CentreRanked(old(cells), genData.width, genData.height, start)
      ensures !stop && Grows(old(cells), genData.width, genData.height, start, SampleLength(genData, rolls.lengthPick(i))) ==>
        GrownBy(genData, rolls, old(cells), i, start, grown, b1)
      ensures i in arrows <==>
        && !stop
        && Grows(old(cells), genData.width, genData.height, start, SampleLength(genData, rolls.lengthPick(i)))
        && Accepted(b1, genData.width, genData.height, old(arrows)[i := grown], i)
    {
      ghost var b0, arrows0 := cells, arrows;
      var choice := ChooseStartPoint(rolls.fromInside(i), rolls.startPick(i));
      assert cells == b0 && arrows == arrows0;
      if choice.None? {
        assert i !in arrows;
        return true, Point(0, 0), ArrowData([], Point(0, 0)), cells;
      }
      start := choice.value;
      FreeCellsIff(cells, genData.width, genData.height, start);
      grown, b1 := PlaceArrow(start, i, rolls);
      forall k | k in arrows ensures 0 <= k <= i {
        assert k in arrows0.Keys + {i};
      }
      stop := false;
    }

    /** Tries to grow arrow `attempt` from `start` and keeps it only when no cycle of the
        recomputed block graph is reachable from it; otherwise nothing changes. When the
        arrow has a segment, `grown` is the arrow grown and `b1` the grid it was marked on. */
    method PlaceArrow(start: Point, attempt: int, rolls: Rolls) returns (ghost grown: ArrowData, ghost b1: Board)
      requires Current() && Drawn() && Acyclic(blockGraph)
      requires InBounds(start, genData.width, genData.height) && attempt != Free && attempt !in arrows
      modifies this`cells, this`occupiedPoints, this`arrows, this`blockGraph, graph
      ensures Current() && Drawn() && Acyclic(blockGraph)
      ensures attempt !in arrows ==>
        cells == old(cells) && arrows == old(arrows) && blockGraph == old(blockGraph)
        && occupiedPoints == old(occupiedPoints)
      ensures attempt in arrows ==>
        && arrows == old(arrows)[attempt := arrows[attempt]] && arrows[attempt].points[0] == start
        && FreeOn(old(cells), arrows[attempt].points)
        && Painted(old(cells), cells, genData.width, genData.height, arrows[attempt].points, attempt)
      ensures Grows(old(cells), genData.width, genData.height, start, SampleLength(genData, rolls.lengthPick(attempt))) ==>
        GrownBy(genData, rolls, old(cells), attempt, start, grown, b1)
      ensures attempt in arrows <==>
        && Grows(old(cells), genData.width, genData.height, start, SampleLength(genData, rolls.lengthPick(attempt)))
        && Accepted(b1, genData.width, genData.height, old(arrows)[attempt := grown], attempt)
      ensures attempt in arrows ==> arrows[attempt] == grown && cells == b1
      ensures arrows.Keys <= old(arrows).Keys + {attempt}
    {
      ghost var b0, arrows0, g0 := cells, arrows, blockGraph;
      ghost var w, h, len := genData.width, genData.height, SampleLength(genData, rolls.lengthPick(attempt));
      grown, b1 := ArrowData([], start), cells;
      var newID := GenerateArrow(start, attempt, rolls);
      if newID != NoArrow {
        assert Grows(b0, w, h, start, len);
        grown, b1 := arrows[attempt], cells;
        assert arrows == arrows0[attempt := grown];
        KeepIfAcyclic(newID, b0, arrows0, g0);
        assert attempt in arrows <==> Accepted(b1, w, h, arrows0[attempt := grown], attempt);
        if attempt in arrows {
          AllDrawnAdd(arrows0, attempt, grown);
        }
      } else {
        assert !Grows(b0, w, h, start, len);
      }
    }

    /** Validates the arrow `newID` just entered on top of grid `b0`, arrows `arrows0` and
        current lists `g0`: keeps it when no cycle is reachable from it, and deletes it
        otherwise, which restores grid, tables and counter. */
    method KeepIfAcyclic(newID: int, ghost b0: Board, ghost arrows0: map<int, ArrowData>, ghost g0: Graph)
      requires Core() && newID in arrows && newID !in arrows0 && arrows == arrows0[newID := arrows[newID]]
      requires Erase(cells, newID) == b0 && Consistent(b0, genData.width, genData.height, arrows0)
      requires ListsCurrent(b0, genData.width, genData.height, arrows0, g0) && Acyclic(g0)
      modifies this`cells, this`occupiedPoints, this`arrows, this`blockGraph, graph
      ensures Current() && Acyclic(blockGraph)
      ensures newID in arrows ==> cells == old(cells) && arrows == old(arrows) && occupiedPoints == old(occupiedPoints)
      ensures newID !in arrows ==> cells == b0 && arrows == arrows0 && blockGraph == g0
      ensures newID !in arrows ==> occupiedPoints == old(occupiedPoints) - |old(arrows)[newID].points|
      ensures newID in arrows <==> Accepted(old(cells), genData.width, genData.height, old(arrows), newID)
    {
      ghost var lists := ListsOf(cells, genData.width, genData.height, arrows);
      var ok := Validate(newID);
      ListsUnique(cells, genData.width, genData.height, arrows, blockGraph, lists);
      if !ok {
        Discard(newID, b0, arrows0, g0);
      } else {
        AddedAcyclic(cells, genData.width, genData.height, arrows, newID, b0, arrows0, g0, blockGraph);
      }
    }

    /** Deletes the arrow `id` entered on top of grid `b0`, arrows `arrows0` and lists `g0`,
        once every list is current: all three are as they were. */
    method Discard(id: int, ghost b0: Board, ghost arrows0: map<int, ArrowData>, ghost g0: Graph)
      requires Current() && id in arrows && id !in arrows0 && arrows == arrows0[id := arrows[id]]
      requires Erase(cells, id) == b0 && Consistent(b0, genData.width, genData.height, arrows0)
      requires ListsCurrent(b0, genData.width, genData.height, arrows0, g0)
      modifies this`cells, this`occupiedPoints, this`arrows, this`blockGraph, graph
      ensures Current() && cells == b0 && arrows == arrows0 && blockGraph == g0
      ensures occupiedPoints == old(occupiedPoints) - |old(arrows)[id].points|
    {
      UpdateThenRemove(arrows0, id, arrows[id]);
      DeleteArrow(id);
      ListsUnique(b0, genData.width, genData.height, arrows0, blockGraph, g0);
    }

    /** Picks the start cell of the next arrow among the free cells, sorted nearest to the
        centre first: when `fromInside`, among the first min(20, n / 2) of them (the first
        one when that is 0), otherwise among all n. None when no cell is free. */
    method ChooseStartPoint(fromInside: bool, pick: nat) returns (start: Option<Point>)
      requires Synced()
      ensures start.None? <==> FreeCells(cells, genData.width, genData.height) == {}
      ensures start.Some? ==> start.value in FreeCells(cells, genData.width, genData.height)
      ensures start.Some? && fromInside ==>
        var free := FreeCells(cells, genData.width, genData.height);
        |Nearer(free, start.value, Centre(genData.width, genData.height))| <= Max(0, Min(20, |free| / 2) - 1)
    {
      var w, h := graph.Length0, graph.Length1;
      var freePoints := FreeList();
      ghost var free := FreeCells(cells, w, h);
      assert (set q | q in freePoints) == free;
      DistinctCard(freePoints);
      if |freePoints| == 0 {
        assert free == {};
        return None;
      }
      var center := Centre(w, h);
      var sorted := SortByCentre(freePoints, center);
      SortByCentreCorrect(freePoints, center);
      assert |sorted| == |freePoints| by {
        assert |multiset(sorted)| == |multiset(freePoints)|;
      }
      assert (set q | q in sorted) == free by {
        forall q ensures q in sorted <==> q in freePoints {
          assert q in sorted <==> q in multiset(sorted);
          assert q in freePoints <==> q in multiset(freePoints);
        }
      }
      var idx;
      if fromInside {
        idx := RangeInt(pick, 0, Min(20, |sorted| / 2));
      } else {
        idx := RangeInt(pick, 0, |sorted|);
      }
      RankBound(sorted, center, idx);
      assert sorted[idx] in sorted;
      return Some(sorted[idx]);
    }

    /** The free cells in column-major order, each once. */
    method FreeList() returns (freePoints: seq<Point>)
      requires Synced()
      ensures Distinct(freePoints)
      ensures forall p :: p in freePoints <==> p in FreeCells(cells, genData.width, genData.height)
    {
      var w, h := graph.Length0, graph.Length1;
      freePoints := [];
      var i := 0;
      while i < w
        invariant 0 <= i <= w && Distinct(freePoints)
        invariant forall p :: p in freePoints <==> InBounds(p, w, h) && cells[p.x][p.y] == Free && p.x < i
      {
        var j := 0;
        while j < h
          invariant 0 <= j <= h && Distinct(freePoints)
          invariant forall p :: p in freePoints <==>
            InBounds(p, w, h) && cells[p.x][p.y] == Free && (p.x < i || (p.x == i && p.y < j))
        {
          if graph[i, j] == Free {
            assert Point(i, j) !in freePoints;
            freePoints := freePoints + [Point(i, j)];
          }
          j := j + 1;
        }
        i := i + 1;
      }
      forall p ensures p in freePoints <==> p in FreeCells(cells, w, h) {
        FreeCellsIff(cells, w, h, p);
      }
    }

    /** Attempt number `attempt`: unless `start` is taken, grows a new arrow with id
        `attempt` from it and enters it with an empty block list; an arrow that never left
        its start cell is deleted again. Returns the new id, or NoArrow. */
    method GenerateArrow(start: Point, attempt: int, rolls: Rolls) returns (newID: int)
      requires Core() && InBounds(start, genData.width, genData.height)
      requires attempt != Free && attempt !in arrows
      modifies this`cells, this`occupiedPoints, this`arrows, this`blockGraph, graph
      ensures Core()
      ensures newID == NoArrow || newID == attempt
      ensures newID == NoArrow <==>
        || !Open(old(cells), genData.width, genData.height, start)
        || SampleLength(genData, rolls.lengthPick(attempt)) < 1
        || Stuck(old(cells), genData.width, genData.height, start)
      ensures newID == NoArrow ==>
        && cells == old(cells) && arrows == old(arrows) && occupiedPoints == old(occupiedPoints)
        && blockGraph.Keys == old(blockGraph).Keys
        && (old(Current()) ==> blockGraph == old(blockGraph))
      ensures newID == attempt ==>
        && attempt in arrows && arrows == old(arrows)[attempt := arrows[attempt]]
        && blockGraph == old(blockGraph)[attempt := []]
      ensures newID == attempt ==> GrownBy(genData, rolls, old(cells), attempt, start, arrows[attempt], cells)
      ensures newID == attempt ==> Erase(cells, attempt) == old(cells)
      ensures newID == attempt ==> occupiedPoints == old(occupiedPoints) + |arrows[attempt].points|
    {
      if graph[start.x, start.y] != Free {
        return NoArrow;
      }
      ghost var b0, arrows0, g0 := cells, arrows, blockGraph;
      var drawn := SpawnArrow(start, attempt, rolls);
      if !drawn {
        Withdraw(attempt, b0, arrows0, g0);
        return NoArrow;
      }
      return attempt;
    }

    /** Deletes the arrow `id` just entered: grid, tables and counter are as before it. */
    method Withdraw(id: int, ghost b0: Board, ghost arrows0: map<int, ArrowData>, ghost g0: Graph)
      requires Core() && id !in arrows0 && id in arrows && arrows == arrows0[id := arrows[id]]
      requires blockGraph == g0[id := []] && g0.Keys == arrows0.Keys && Erase(cells, id) == b0
      requires Consistent(b0, genData.width, genData.height, arrows0)
      modifies this`cells, this`occupiedPoints, this`arrows, this`blockGraph, graph
      ensures Core() && cells == b0 && arrows == arrows0 && blockGraph.Keys == g0.Keys
      ensures occupiedPoints == old(occupiedPoints) - |old(arrows)[id].points|
      ensures ListsCurrent(b0, genData.width, genData.height, arrows0, g0) ==> blockGraph == g0
    {
      ghost var g1 := blockGraph;
      UpdateThenRemove(arrows0, id, arrows[id]);
      DeleteArrow(id);
      if ListsCurrent(b0, genData.width, genData.height, arrows0, g0) {
        DeleteFreshRestores(b0, genData.width, genData.height, arrows0, g0, id, g1, blockGraph);
      }
    }

    /** Creates arrow `attempt`, grows it from the free cell `start` and enters it in both
        tables with an empty block list; reports whether it has a segment to draw. */
    method SpawnArrow(start: Point, attempt: int, rolls: Rolls) returns (drawn: bool)
      requires Core() && Open(cells, genData.width, genData.height, start)
      requires attempt != Free && attempt !in arrows
      modifies this`cells, this`occupiedPoints, this`arrows, this`blockGraph, graph
      ensures Core()
      ensures attempt in arrows && arrows == old(arrows)[attempt := arrows[attempt]]
      ensures blockGraph == old(blockGraph)[attempt := []]
      ensures drawn <==> (SampleLength(genData, rolls.lengthPick(attempt)) >= 1 &&
        !Stuck(old(cells), genData.width, genData.height, start))
      ensures arrows[attempt].points[0] == start && (drawn <==> |arrows[attempt].points| >= 2)
      ensures |arrows[attempt].points| <= Max(SampleLength(genData, rolls.lengthPick(attempt)), 0) + 1
      ensures |arrows[attempt].points| < SampleLength(genData, rolls.lengthPick(attempt)) + 1 ==>
        Stuck(cells, genData.width, genData.height, Last(arrows[attempt].points))
      ensures FreeOn(old(cells), arrows[attempt].points)
      ensures Painted(old(cells), cells, genData.width, genData.height, arrows[attempt].points, attempt)
      ensures Erase(cells, attempt) == old(cells)
      ensures occupiedPoints == old(occupiedPoints) + |arrows[attempt].points|
      ensures arrows[attempt] == ArrowOf(genData, rolls, old(cells), attempt, start)
    {
      ghost var b0 := cells;
      var newArrow := new Arrow.InitializeArrow(attempt, this, rolls.lengthPick(attempt), rolls.dirPick(attempt));
      newArrow.GenerateArrow(start, this, TurnsOf(rolls, attempt), PicksOf(rolls, attempt));
      var shape := ArrowData(newArrow.arrowPoints, newArrow.dir);
      Register(attempt, shape, b0);
      drawn := newArrow.DrawArrow();
    }

    /** A mark for every live arrow, each of them unvisited. */
    method AllUnvisited() returns (visited: map<int, int>)
      ensures visited.Keys == arrows.Keys && forall k :: k in visited ==> visited[k] == Unvisited
    {
      visited := map[];
      var rest := arrows.Keys;
      while rest != {}
        invariant rest <= arrows.Keys && visited.Keys == arrows.Keys - rest
        invariant forall k :: k in visited ==> visited[k] == Unvisited
        decreases |rest|
      {
        SomeMember(rest);
        var k :| k in rest;
        visited := visited[k := Unvisited];
        rest := rest - {k};
      }
    }

    /** Recomputes every block list, then searches depth first from `newID` with every
        arrow unvisited: true exactly when no cycle of the block graph is reachable from
        `newID`. */
    method Validate(newID: int) returns (ok: bool)
      requires Core() && newID in arrows
      modifies this`blockGraph
      ensures Current()
      ensures ok <==> !CycleReachable(blockGraph, newID)
    {
      RecomputeLists(arrows.Keys);
      var visited := AllUnvisited();
      CurrentClosed(cells, genData.width, genData.height, arrows, blockGraph);
      FreshMarks(blockGraph, visited);
      ghost var noStack: seq<int> := [];
      assert (set k | k in noStack) == {};
      var after;
      ok, after := Dfs(blockGraph, visited, newID, []);
      if ok {
        NoCycleFromClosed(blockGraph, Marked(after, Done), newID);
      }
    }

    method ClearArrows()
      modifies this`arrows, this`blockGraph, this`occupiedPoints
      ensures arrows == map[] && blockGraph == map[] && occupiedPoints == 0
    {
      arrows := map[];
      blockGraph := map[];
      occupiedPoints := 0;
    }
  }

  class Arrow {
    var arrowPoints: seq<Point>
    var dir: Point
    var arrowID: int
    var puzzleGraph: PuzzleGraph
    /** The number of growth steps to try. */
    var length: int

    /** Draws the length and the initial direction; the arrow has no cells yet. */
    constructor InitializeArrow(id: int, g: PuzzleGraph, lengthRoll: nat, dirRoll: nat)
      ensures arrowID == id && puzzleGraph == g && arrowPoints == []
      ensures length == SampleLength(g.genData, lengthRoll) && dir == SampleDir(dirRoll)
      ensures g.genData.minArrowLength <= g.genData.maxArrowLength ==>
        g.genData.minArrowLength <= length <= g.genData.maxArrowLength
      ensures IsCardinal(dir)
    {
      arrowID := id;
      puzzleGraph := g;
      arrowPoints := [];
      length := SampleLength(g.genData, lengthRoll);
      dir := SampleDir(dirRoll);
    }

    /** The neighbours of the arrow's last cell that are inside the grid and free: whether
        the one straight ahead is, and the others in up, right, down, left order. */
    method CandidateDirs(g: PuzzleGraph) returns (possibleDirs: seq<Point>, canGoStraight: bool)
      requires g.Synced() && |arrowPoints| >= 1
      ensures canGoStraight <==>
        IsCardinal(dir) && Open(g.cells, g.genData.width, g.genData.height, Add(Last(arrowPoints), dir))
      ensures possibleDirs == FreeTurns(g.cells, g.genData.width, g.genData.height, Last(arrowPoints), dir, CardinalDirs)
      ensures forall d :: d in possibleDirs <==>
        d in CardinalDirs && d != dir && Open(g.cells, g.genData.width, g.genData.height, Add(Last(arrowPoints), d))
      ensures Distinct(possibleDirs)
      ensures |possibleDirs| == 0 && !canGoStraight <==>
        Stuck(g.cells, g.genData.width, g.genData.height, Last(arrowPoints))
    {
      var last := Last(arrowPoints);
      possibleDirs, canGoStraight := ScanNeighbours(g, last);
      NeighbourScan(g.cells, g.genData.width, g.genData.height, last, dir, possibleDirs, canGoStraight);
    }

    /** The loop over the four directions from `last`: straight on is noted, the other free
        in-grid neighbours are collected in order. */
    method ScanNeighbours(g: PuzzleGraph, last: Point) returns (possibleDirs: seq<Point>, canGoStraight: bool)
      requires g.Synced()
      ensures canGoStraight <==> IsCardinal(dir) && Open(g.cells, g.genData.width, g.genData.height, Add(last, dir))
      ensures possibleDirs == FreeTurns(g.cells, g.genData.width, g.genData.height, last, dir, CardinalDirs)
    {
      var w, h := g.genData.width, g.genData.height;
      possibleDirs, canGoStraight := [], false;
      var k := 0;
      while k < |CardinalDirs|
        invariant 0 <= k <= |CardinalDirs|
        invariant canGoStraight <==> dir in CardinalDirs[..k] && Open(g.cells, w, h, Add(last, dir))
        invariant possibleDirs == FreeTurns(g.cells, w, h, last, dir, CardinalDirs[..k])
      {
        var newDir := CardinalDirs[k];
        var nextP := Add(last, newDir);
        assert CardinalDirs[..k + 1] == CardinalDirs[..k] + [newDir];
        FreeTurnsSnoc(g.cells, w, h, last, dir, CardinalDirs[..k], newDir);
        if nextP.x < 0 || nextP.y < 0 || nextP.x >= w || nextP.y >= h {
        } else if g.IsPointOccupied(nextP) {
          OccupiedIff(g.cells, w, h, nextP);
        } else if newDir == dir {
          canGoStraight := true;
        } else {
          possibleDirs := possibleDirs + [newDir];
        }
        k := k + 1;
      }
      assert CardinalDirs[..|CardinalDirs|] == CardinalDirs;
    }

    /** The arrow so far: a well-formed path from `start` over cells that were free in `b0`,
        and the grid is `b0` with exactly those cells marked with the arrow's id. */
    ghost predicate Grown(g: PuzzleGraph, b0: Board, start: Point)
      reads this, g, g.graph
    {
      && g.Synced() && arrowID != Free
      && |arrowPoints| >= 1 && arrowPoints[0] == start
      && WellFormed(ArrowData(arrowPoints, dir), g.genData.width, g.genData.height)
      && Shaped(b0, g.genData.width, g.genData.height)
      && FreeOn(b0, arrowPoints)
      && Painted(b0, g.cells, g.genData.width, g.genData.height, arrowPoints, arrowID)
    }

    /** One growth step from an end that is not stuck: turn to a picked free neighbour when
        the roll says so or straight on is closed, then add and mark the next cell. */
    method Extend(g: PuzzleGraph, possibleDirs: seq<Point>, canGoStraight: bool,
                  doTurn: bool, pick: nat, ghost b0: Board, ghost start: Point)
      requires Grown(g, b0, start)
      requires canGoStraight ==>
        Open(g.cells, g.genData.width, g.genData.height, Add(arrowPoints[|arrowPoints| - 1], dir))
      requires forall d :: d in possibleDirs ==>
        d in CardinalDirs && Open(g.cells, g.genData.width, g.genData.height, Add(arrowPoints[|arrowPoints| - 1], d))
      requires |possibleDirs| > 0 || canGoStraight
      modifies this`arrowPoints, this`dir, g`cells, g`occupiedPoints, g.graph
      ensures Grown(g, b0, start)
      ensures dir == if (doTurn || !canGoStraight) && |possibleDirs| > 0
        then possibleDirs[RangeInt(pick, 0, |possibleDirs|)] else old(dir)
      ensures arrowPoints == old(arrowPoints) + [Add(old(arrowPoints)[|old(arrowPoints)| - 1], dir)]
      ensures g.cells == Set(old(g.cells), Last(arrowPoints), arrowID)
      ensures g.occupiedPoints == old(g.occupiedPoints) + 1
    {
      var d := dir;
      if (doTurn || !canGoStraight) && |possibleDirs| > 0 {
        d := possibleDirs[RangeInt(pick, 0, |possibleDirs|)];
        assert d in possibleDirs;
      } else {
        assert canGoStraight;
      }
      StepTo(g, d, b0, start);
    }

    /** Turns the arrow to the cardinal heading `d`, whose cell from the end is free, then
        adds and marks that cell. */
    method StepTo(g: PuzzleGraph, d: Point, ghost b0: Board, ghost start: Point)
      requires Grown(g, b0, start) && IsCardinal(d)
      requires Open(g.cells, g.genData.width, g.genData.height, Add(Last(arrowPoints), d))
      modifies this`arrowPoints, this`dir, g`cells, g`occupiedPoints, g.graph
      ensures Grown(g, b0, start)
      ensures dir == d
      ensures arrowPoints == old(arrowPoints) + [Add(Last(old(arrowPoints)), d)]
      ensures g.cells == Set(old(g.cells), Last(arrowPoints), arrowID)
      ensures g.occupiedPoints == old(g.occupiedPoints) + 1
    {
      var w, h := g.genData.width, g.genData.height;
      var next := Add(arrowPoints[|arrowPoints| - 1], d);
      ghost var before, path := g.cells, arrowPoints;
      GrowStep(b0, before, w, h, path, dir, d, arrowID);
      dir := d;
      arrowPoints := arrowPoints + [next];
      g.SetGraphPoint(next, arrowID);
      PaintMore(b0, before, w, h, path, next, arrowID);
    }

    /** One pass of the growth loop: find the free neighbours of the last cell; when there
        are none, report that the arrow is stuck and change nothing, otherwise take one step. */
    method GrowOnce(g: PuzzleGraph, doTurn: bool, pick: nat, ghost b0: Board, ghost start: Point)
      returns (grew: bool)
      requires Grown(g, b0, start)
      modifies this`arrowPoints, this`dir, g`cells, g`occupiedPoints, g.graph
      ensures Grown(g, b0, start)
      ensures grew <==> !Stuck(old(g.cells), g.genData.width, g.genData.height, Last(old(arrowPoints)))
      ensures grew ==>
        dir == StepDir(old(g.cells), g.genData.width, g.genData.height, Last(old(arrowPoints)), old(dir), doTurn, pick)
      ensures grew ==> arrowPoints == old(arrowPoints) + [Add(Last(old(arrowPoints)), dir)]
      ensures grew ==> g.cells == Set(old(g.cells), Last(arrowPoints), arrowID)
      ensures grew ==> g.occupiedPoints == old(g.occupiedPoints) + 1
      ensures !grew ==>
        arrowPoints == old(arrowPoints) && dir == old(dir) && g.cells == old(g.cells)
        && g.occupiedPoints == old(g.occupiedPoints)
    {
      var possibleDirs, canGoStraight := CandidateDirs(g);
      if |possibleDirs| == 0 && !canGoStraight {
        return false;
      }
      Extend(g, possibleDirs, canGoStraight, doTurn, pick, b0, start);
      return true;
    }

    /** The first cell of the arrow: `start`, marked on the grid. */
    method Plant(start: Point, g: PuzzleGraph)
      requires g.Synced() && Open(g.cells, g.genData.width, g.genData.height, start)
      requires arrowPoints == [] && IsCardinal(dir) && arrowID != Free
      modifies this`arrowPoints, this`puzzleGraph, g`cells, g`occupiedPoints, g.graph
      ensures puzzleGraph == g && arrowPoints == [start] && Grown(g, old(g.cells), start)
      ensures g.cells == Set(old(g.cells), start, arrowID)
      ensures g.occupiedPoints == old(g.occupiedPoints) + 1
    {
      ghost var b0 := g.cells;
      puzzleGraph := g;
      arrowPoints := [start];
      g.SetGraphPoint(start, arrowID);
      PaintMore(b0, b0, g.genData.width, g.genData.height, [], start, arrowID);
      assert [] + [start] == [start];
    }

    /** Grows the arrow from `start`: up to `length` steps, each straight on or (when the
        turn roll says so, or straight on is closed) turning to a free neighbour, stopping
        early when no neighbour is free. Every cell is marked on the grid as it is added.
        `turn(i)` and `turnPick(i)` are the random draws of step `i`. */
    method GenerateArrow(start: Point, g: PuzzleGraph, turn: int -> bool, turnPick: int -> nat)
      requires g.Synced() && Open(g.cells, g.genData.width, g.genData.height, start)
      requires arrowPoints == [] && IsCardinal(dir) && arrowID != Free
      modifies this`arrowPoints, this`dir, this`puzzleGraph, g`cells, g`occupiedPoints, g.graph
      ensures puzzleGraph == g && Grown(g, old(g.cells), start)
      ensures g.occupiedPoints == old(g.occupiedPoints) + |arrowPoints|
      ensures |arrowPoints| <= Max(length, 0) + 1
      ensures |arrowPoints| < length + 1 ==>
        Stuck(g.cells, g.genData.width, g.genData.height, arrowPoints[|arrowPoints| - 1])
      ensures |arrowPoints| >= 2 <==>
        length >= 1 && !Stuck(old(g.cells), g.genData.width, g.genData.height, start)
      ensures ArrowData(arrowPoints, dir) ==
        GrownFrom(old(g.cells), g.genData.width, g.genData.height, arrowID, start, old(dir), length, turn, turnPick)
    {
      ghost var b0 := g.cells;
      Plant(start, g);
      GrowSteps(g, turn, turnPick, b0, start);
      StartStuck(b0, g.cells, g.genData.width, g.genData.height, arrowPoints, dir, arrowID);
    }

    /** The growth loop of GenerateArrow once the start cell is planted: steps 1 .. `length`,
        stopping early when the end is stuck. */
    method GrowSteps(g: PuzzleGraph, turn: int -> bool, turnPick: int -> nat, ghost b0: Board, ghost start: Point)
      requires Grown(g, b0, start) && arrowPoints == [start]
      modifies this`arrowPoints, this`dir, g`cells, g`occupiedPoints, g.graph
      ensures Grown(g, b0, start)
      ensures g.occupiedPoints == old(g.occupiedPoints) + |arrowPoints| - 1
      ensures 1 <= |arrowPoints| <= Max(length, 0) + 1
      ensures |arrowPoints| < length + 1 ==>
        Stuck(g.cells, g.genData.width, g.genData.height, arrowPoints[|arrowPoints| - 1])
      ensures ArrowData(arrowPoints, dir) ==
        GrowPath(old(g.cells), g.genData.width, g.genData.height, arrowID, [start], old(dir), 1, length, turn, turnPick)
    {
      ghost var w, h := g.genData.width, g.genData.height;
      ghost var target := GrowPath(g.cells, w, h, arrowID, [start], dir, 1, length, turn, turnPick);
      var i := 1;
      while i <= length
        invariant 1 <= i <= Max(length, 0) + 1
        invariant |arrowPoints| == i
        invariant Grown(g, b0, start)
        invariant g.occupiedPoints == old(g.occupiedPoints) + i - 1
        invariant GrowPath(g.cells, w, h, arrowID, arrowPoints, dir, i, length, turn, turnPick) == target
        decreases length - i
      {
        var grew := GrowAt(g, i, turn, turnPick, b0, start);
        if !grew {
          break;
        }
        i := i + 1;
      }
      if i > length {
        GrowPathStops(g.cells, w, h, arrowID, arrowPoints, dir, i, length, turn, turnPick);
      }
    }

    /** Step `i` of the growth loop, with the draws `turn(i)` and `turnPick(i)`: it moves
        on exactly as GrowPath says, or the end is stuck and nothing changes. */
    method GrowAt(g: PuzzleGraph, i: int, turn: int -> bool, turnPick: int -> nat, ghost b0: Board, ghost start: Point)
      returns (grew: bool)
      requires Grown(g, b0, start) && |arrowPoints| == i && i <= length
      modifies this`arrowPoints, this`dir, g`cells, g`occupiedPoints, g.graph
      ensures Grown(g, b0, start)
      ensures grew ==> |arrowPoints| == i + 1 && g.occupiedPoints == old(g.occupiedPoints) + 1
      ensures !grew ==> arrowPoints == old(arrowPoints) && g.occupiedPoints == old(g.occupiedPoints)
      ensures !grew ==> Stuck(g.cells, g.genData.width, g.genData.height, Last(arrowPoints))
      ensures GrowPath(old(g.cells), g.genData.width, g.genData.height, arrowID, old(arrowPoints), old(dir), i, length, turn, turnPick) ==
        if grew then GrowPath(g.cells, g.genData.width, g.genData.height, arrowID, arrowPoints, dir, i + 1, length, turn, turnPick)
        else ArrowData(arrowPoints, dir)
    {
      ghost var w, h := g.genData.width, g.genData.height;
      ghost var b, path, d := g.cells, arrowPoints, dir;
      grew := GrowOnce(g, turn(i), turnPick(i), b0, start);
      if grew {
        GrowPathStep(b, w, h, arrowID, path, d, i, length, turn, turnPick);
      } else {
        GrowPathStops(b, w, h, arrowID, path, d, i, length, turn, turnPick);
      }
    }

    /** Whether the grown arrow has a segment to draw. */
    function DrawArrow(): (drawn: bool)
      reads this
      ensures drawn <==> |arrowPoints| >= 2
    {
      |arrowPoints| > 1
    }

    /** A click removes the arrow unless its block list is non-empty. With current lists,
        the arrow goes exactly when nothing lies straight ahead of it, and the lists stay
        current and cycle-free. */
    method OnPointerClick()
      requires puzzleGraph.Core() && arrowID in puzzleGraph.arrows
      modifies puzzleGraph`cells, puzzleGraph`occupiedPoints, puzzleGraph`arrows, puzzleGraph`blockGraph,
        puzzleGraph.graph
      ensures puzzleGraph.Core()
      ensures old(|puzzleGraph.blockGraph[arrowID]| > 0) ==>
        && puzzleGraph.cells == old(puzzleGraph.cells) && puzzleGraph.arrows == old(puzzleGraph.arrows)
        && puzzleGraph.blockGraph == old(puzzleGraph.blockGraph)
        && puzzleGraph.occupiedPoints == old(puzzleGraph.occupiedPoints)
      ensures old(|puzzleGraph.blockGraph[arrowID]| == 0) ==>
        && puzzleGraph.cells == Erase(old(puzzleGraph.cells), arrowID)
        && puzzleGraph.arrows == old(puzzleGraph.arrows) - {arrowID}
        && puzzleGraph.occupiedPoints == old(puzzleGraph.occupiedPoints) - |old(puzzleGraph.arrows)[arrowID].points|
      ensures old(puzzleGraph.Current()) ==>
        && puzzleGraph.Current()
        && (arrowID !in puzzleGraph.arrows <==>
              old(|puzzleGraph.arrows[arrowID].points| >= 1 &&
                  ClearAhead(puzzleGraph.cells, puzzleGraph.genData.width, puzzleGraph.genData.height,
                             puzzleGraph.arrows[arrowID])))
        && (old(Acyclic(puzzleGraph.blockGraph)) ==> Acyclic(puzzleGraph.blockGraph))
    {
      var g := puzzleGraph;
      if g.IsArrowBlock(arrowID) {
        return;
      }
      g.DeleteArrow(arrowID);
    }
  }
}
