/** How the block graph of the live arrows responds to adding and deleting an arrow when
    every list is the ray scan of its arrow on the current grid. */
module LiveGraph {
  import opened Geometry
  import opened Grids
  import opened Rays
  import opened BlockGraphs

  /** `bg` holds, for every live arrow and nothing else, its block list on board `b`. */
  ghost predicate ListsCurrent(b: Board, w: int, h: int, arrows: map<int, ArrowData>, bg: Graph)
    requires Consistent(b, w, h, arrows)
  {
    bg.Keys == arrows.Keys && forall k :: k in arrows ==> bg[k] == Blockers(b, w, h, arrows[k])
  }

  /** The lists are determined by the grid and the arrow table. */
  lemma ListsUnique(b: Board, w: int, h: int, arrows: map<int, ArrowData>, g1: Graph, g2: Graph)
    requires Consistent(b, w, h, arrows)
    requires ListsCurrent(b, w, h, arrows, g1) && ListsCurrent(b, w, h, arrows, g2)
    ensures g1 == g2
  {
    assert forall k :: k in g1 ==> g1[k] == g2[k];
  }

  /** Current lists only mention live arrows, so the dfs never looks up a missing id. */
  lemma CurrentClosed(b: Board, w: int, h: int, arrows: map<int, ArrowData>, bg: Graph)
    requires Consistent(b, w, h, arrows) && ListsCurrent(b, w, h, arrows, bg)
    ensures Closed(bg)
  {
    forall k, i | k in bg && 0 <= i < |bg[k]| ensures bg[k][i] in bg {
      BlockersLive(b, w, h, arrows, arrows[k], bg[k][i]);
    }
  }

  /** No ray meets an id that owns no cell. */
  lemma FreshUnlisted(b: Board, w: int, h: int, arrows: map<int, ArrowData>, a: ArrowData, id: int)
    requires Consistent(b, w, h, arrows) && |a.points| >= 1 && id !in arrows
    ensures id !in Blockers(b, w, h, a)
  {
    if id in Blockers(b, w, h, a) {
      BlockersLive(b, w, h, arrows, a, id);
    }
  }

  /** Adding arrow `id` to a cycle-free, current graph and recomputing every list gives a
      cycle-free graph exactly when no cycle is reachable from `id`: the recomputed lists of
      the old arrows differ from their old lists only by entries `id`. */
  lemma InsertKeepsAcyclic(b1: Board, w: int, h: int, arrows0: map<int, ArrowData>,
                           id: int, g0: Graph, g1: Graph)
    requires Shaped(b1, w, h) && id != Free
    requires forall k :: k in arrows0 ==> |arrows0[k].points| >= 1
    requires g0.Keys == arrows0.Keys && g1.Keys == arrows0.Keys + {id}
    requires forall k :: k in arrows0 ==> g0[k] == Blockers(Erase(b1, id), w, h, arrows0[k])
    requires forall k :: k in arrows0 && k != id ==> g1[k] == Blockers(b1, w, h, arrows0[k])
    requires Acyclic(g0) && !CycleReachable(g1, id)
    ensures Acyclic(g1)
  {
    forall k, i | k in g1 && k != id && 0 <= i < |g1[k]| && g1[k][i] != id
      ensures g1[k][i] in g0[k]
    {
      ListShrinks(b1, w, h, arrows0[k], id, g1[k][i]);
    }
    AcyclicAfterInsert(g0, g1, id);
  }

  /** The same, stated for arrow `id` entered on top of grid `b0` and arrows `arrows0`
      whose lists `g0` were current and cycle-free. */
  lemma AddedAcyclic(b1: Board, w: int, h: int, arrows1: map<int, ArrowData>, id: int,
                     b0: Board, arrows0: map<int, ArrowData>, g0: Graph, g1: Graph)
    requires Consistent(b1, w, h, arrows1) && ListsCurrent(b1, w, h, arrows1, g1)
    requires id in arrows1 && id !in arrows0 && arrows1 == arrows0[id := arrows1[id]]
    requires Erase(b1, id) == b0 && Consistent(b0, w, h, arrows0) && ListsCurrent(b0, w, h, arrows0, g0)
    requires Acyclic(g0) && !CycleReachable(g1, id)
    ensures Acyclic(g1)
  {
    assert g1.Keys == arrows0.Keys + {id};
    assert forall k :: k in arrows0 ==> |arrows0[k].points| >= 1 && g0[k] == Blockers(Erase(b1, id), w, h, arrows0[k]);
    assert forall k :: k in arrows0 && k != id ==> arrows0[k] == arrows1[k] && g1[k] == Blockers(b1, w, h, arrows0[k]);
    InsertKeepsAcyclic(b1, w, h, arrows0, id, g0, g1);
  }

  lemma ListShrinks(b1: Board, w: int, h: int, a: ArrowData, id: int, x: int)
    requires Shaped(b1, w, h) && |a.points| >= 1 && id != Free
    requires x in Blockers(b1, w, h, a) && x != id
    ensures Shaped(Erase(b1, id), w, h) && x in Blockers(Erase(b1, id), w, h, a)
  {
    BlockersErase(b1, w, h, a, id);
    RemoveAllIff(Blockers(b1, w, h, a), id, x);
  }

  /** Deleting arrow `id` and recomputing just the lists `ks` that mentioned it keeps every
      list current and the graph cycle-free. */
  lemma DeleteKeepsCurrent(b0: Board, w: int, h: int, arrows0: map<int, ArrowData>,
                           id: int, g0: Graph, ks: set<int>, g1: Graph)
    requires Consistent(b0, w, h, arrows0) && id in arrows0 && ListsCurrent(b0, w, h, arrows0, g0)
    requires Consistent(Erase(b0, id), w, h, arrows0 - {id})
    requires forall k :: k in ks <==> k in arrows0 && k != id && id in g0[k]
    requires g1.Keys == g0.Keys - {id}
    requires forall k :: k in g1 ==>
      g1[k] == if k in ks then Blockers(Erase(b0, id), w, h, (arrows0 - {id})[k]) else (g0 - {id})[k]
    ensures ListsCurrent(Erase(b0, id), w, h, arrows0 - {id}, g1)
    ensures Acyclic(g0) ==> Acyclic(g1)
  {
    forall k | k in g1
      ensures g1[k] == if id in g0[k] then Blockers(Erase(b0, id), w, h, arrows0[k]) else g0[k]
    {
      assert k in ks <==> id in g0[k];
      assert (arrows0 - {id})[k] == arrows0[k] && (g0 - {id})[k] == g0[k];
    }
    DeleteListsCurrent(b0, w, h, arrows0, id, g0, g1);
  }

  /** The other lists never mentioned `id`, and erasing `id` removes exactly its entries
      from a ray. */
  lemma DeleteListsCurrent(b0: Board, w: int, h: int, arrows0: map<int, ArrowData>,
                           id: int, g0: Graph, g1: Graph)
    requires Consistent(b0, w, h, arrows0) && id in arrows0 && ListsCurrent(b0, w, h, arrows0, g0)
    requires Consistent(Erase(b0, id), w, h, arrows0 - {id})
    requires g1.Keys == g0.Keys - {id}
    requires forall k :: k in g1 ==>
      g1[k] == if id in g0[k] then Blockers(Erase(b0, id), w, h, arrows0[k]) else g0[k]
    ensures ListsCurrent(Erase(b0, id), w, h, arrows0 - {id}, g1)
    ensures Acyclic(g0) ==> Acyclic(g1)
  {
    var b1, arrows1 := Erase(b0, id), arrows0 - {id};
    forall k | k in arrows1 ensures g1[k] == Blockers(b1, w, h, arrows1[k]) {
      BlockersErase(b0, w, h, arrows0[k], id);
      if id !in g0[k] {
        RemoveAllAbsent(g0[k], id);
      }
    }
    forall k, i | k in g1 && 0 <= i < |g1[k]| ensures g1[k][i] in g0[k] {
      BlockersErase(b0, w, h, arrows0[k], id);
      RemoveAllIff(g0[k], id, g1[k][i]);
    }
    if Acyclic(g0) {
      AcyclicSubgraph(g0, g1);
    }
  }

  /** Entering an arrow `id` that no list mentions, with an empty list, and deleting it
      again gives back the lists it started from. */
  lemma DeleteFreshRestores(b0: Board, w: int, h: int, arrows0: map<int, ArrowData>, g0: Graph,
                            id: int, g1: Graph, g2: Graph)
    requires Consistent(b0, w, h, arrows0) && ListsCurrent(b0, w, h, arrows0, g0) && id !in arrows0
    requires g1 == g0[id := []] && g2.Keys == g1.Keys - {id}
    requires forall k :: k in g2 ==>
      g2[k] == if id in g1[k] then Blockers(b0, w, h, arrows0[k]) else g1[k]
    ensures g2 == g0
  {
    forall k | k in g2 ensures g2[k] == g0[k] {
      FreshUnlisted(b0, w, h, arrows0, arrows0[k], id);
      assert g1[k] == g0[k];
    }
  }

  /** With current lists, an arrow counts as blocked exactly when some cell straight ahead
      of it, within max(width, height), is occupied. */
  lemma BlockedMeaning(b: Board, w: int, h: int, arrows: map<int, ArrowData>, bg: Graph, id: int)
    requires id in bg
    ensures Consistent(b, w, h, arrows) && ListsCurrent(b, w, h, arrows, bg) ==>
      (|bg[id]| > 0 <==> !ClearAhead(b, w, h, arrows[id]))
  {
    if Consistent(b, w, h, arrows) && ListsCurrent(b, w, h, arrows, bg) {
      BlockedIffNotClear(b, w, h, arrows[id]);
    }
  }
}
