/** Why a cycle-free block graph is what generation must keep: with every list current, a
    cycle-free puzzle can be cleared completely by removing, one at a time, an arrow that
    nothing lies in front of. */
module Solvability {
  import opened Geometry
  import opened Grids
  import opened Rays
  import opened BlockGraphs
  import opened LiveGraph

  /** The block lists of every live arrow on board `b`. */
  ghost function ListsOf(b: Board, w: int, h: int, arrows: map<int, ArrowData>): Graph
    requires Consistent(b, w, h, arrows)
  {
    map k | k in arrows :: Blockers(b, w, h, arrows[k])
  }

  /** Removing the arrows in `order`, each with nothing ahead of it at its turn, clears every
      arrow of the table. */
  ghost predicate ClearsBy(b: Board, w: int, h: int, arrows: map<int, ArrowData>, order: seq<int>)
    decreases |order|
  {
    if order == [] then arrows == map[]
    else
      && order[0] in arrows && Shaped(b, w, h) && |arrows[order[0]].points| >= 1
      && ClearAhead(b, w, h, arrows[order[0]])
      && ClearsBy(Erase(b, order[0]), w, h, arrows - {order[0]}, order[1..])
  }

  /** A consistent grid whose block lists form no cycle can be cleared. */
  lemma {:induction false} Solvable(b: Board, w: int, h: int, arrows: map<int, ArrowData>)
    requires Consistent(b, w, h, arrows) && Acyclic(ListsOf(b, w, h, arrows))
    ensures exists order :: ClearsBy(b, w, h, arrows, order)
    decreases arrows.Keys
  {
    if arrows == map[] {
      assert ClearsBy(b, w, h, arrows, []);
    } else {
      var g := ListsOf(b, w, h, arrows);
      CurrentClosed(b, w, h, arrows, g);
      SomeSink(g);
      var id :| id in g && |g[id]| == 0;
      BlockedIffNotClear(b, w, h, arrows[id]);
      var b1, arrows1 := Erase(b, id), arrows - {id};
      RemoveKeepsAcyclic(b, w, h, arrows, id);
      assert arrows1.Keys < arrows.Keys;
      Solvable(b1, w, h, arrows1);
      var rest :| ClearsBy(b1, w, h, arrows1, rest);
      ClearsFirst(b, w, h, arrows, id, rest);
      assert ClearsBy(b, w, h, arrows, [id] + rest);
    }
  }

  /** One clear arrow removed, then a clearing order of the rest. */
  lemma ClearsFirst(b: Board, w: int, h: int, arrows: map<int, ArrowData>, id: int, rest: seq<int>)
    requires id in arrows && Shaped(b, w, h) && |arrows[id].points| >= 1
    requires ClearAhead(b, w, h, arrows[id])
    requires ClearsBy(Erase(b, id), w, h, arrows - {id}, rest)
    ensures ClearsBy(b, w, h, arrows, [id] + rest)
  {
    assert ([id] + rest)[1..] == rest;
  }

  /** Removing any arrow keeps the grid consistent and the lists cycle-free: each list
      only loses entries. */
  lemma RemoveKeepsAcyclic(b: Board, w: int, h: int, arrows: map<int, ArrowData>, id: int)
    requires Consistent(b, w, h, arrows) && id in arrows && Acyclic(ListsOf(b, w, h, arrows))
    ensures Consistent(Erase(b, id), w, h, arrows - {id})
    ensures Acyclic(ListsOf(Erase(b, id), w, h, arrows - {id}))
  {
    var g := ListsOf(b, w, h, arrows);
    EraseCounted(b, w, h, arrows, id);
    var g1 := ListsOf(Erase(b, id), w, h, arrows - {id});
    forall k, i | k in g1 && 0 <= i < |g1[k]| ensures g1[k][i] in g[k] {
      BlockersErase(b, w, h, arrows[k], id);
      RemoveAllIff(g[k], id, g1[k][i]);
    }
    AcyclicSubgraph(g, g1);
  }

  /** Current lists are the lists of the grid, so a cycle-free current graph can be cleared. */
  lemma CurrentSolvable(b: Board, w: int, h: int, arrows: map<int, ArrowData>, bg: Graph)
    requires Consistent(b, w, h, arrows) && ListsCurrent(b, w, h, arrows, bg) && Acyclic(bg)
    ensures exists order :: ClearsBy(b, w, h, arrows, order)
  {
    ListsUnique(b, w, h, arrows, bg, ListsOf(b, w, h, arrows));
    Solvable(b, w, h, arrows);
  }
}
