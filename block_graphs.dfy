/** The block graph (arrow id -> the ids on its ray) and the depth-first cycle check run
    from a newly added arrow. An arrow can only be removed after every arrow blocking it,
    so a cycle of blocking makes the puzzle unsolvable. */
module BlockGraphs {
  import opened Geometry

  type Graph = map<int, seq<int>>

  /** Visit marks of the depth-first search. */
  const Unvisited: int := 0
  const InProgress: int := 1
  const Done: int := 2

  /** Every blocking id is itself a node of the graph. */
  ghost predicate Closed(g: Graph) {
    forall k, i :: k in g && 0 <= i < |g[k]| ==> g[k][i] in g
  }

  ghost predicate IsPath(g: Graph, p: seq<int>) {
    && |p| >= 1
    && (forall i :: 0 <= i < |p| ==> p[i] in g)
    && (forall i :: 0 <= i < |p| - 1 ==> p[i + 1] in g[p[i]])
  }

  ghost predicate IsCycle(g: Graph, c: seq<int>) {
    IsPath(g, c) && |c| >= 2 && c[0] == c[|c| - 1]
  }

  ghost predicate Acyclic(g: Graph) {
    forall c :: !IsCycle(g, c)
  }

  /** Some path from `root` comes back to a node it has already passed. */
  ghost predicate CycleReachable(g: Graph, root: int) {
    exists p :: IsPath(g, p) && p[0] == root && |p| >= 2 && p[|p| - 1] in p[..|p| - 1]
  }

  ghost function Marked(visited: map<int, int>, mark: int): set<int> {
    set k | k in visited && visited[k] == mark
  }

  ghost predicate AllIn(p: seq<int>, s: set<int>) {
    forall i :: 0 <= i < |p| ==> p[i] in s
  }

  /** No edge leaves `s`. */
  ghost predicate ClosedIn(g: Graph, s: set<int>) {
    forall k, i :: k in s && k in g && 0 <= i < |g[k]| ==> g[k][i] in s
  }

  /** No cycle lies wholly inside `s`. */
  ghost predicate AcyclicIn(g: Graph, s: set<int>) {
    forall c :: IsCycle(g, c) ==> !AllIn(c, s)
  }

  /** The cycle `c` read from position `i` on. */
  function Rotation(c: seq<int>, i: int): seq<int>
    requires 0 <= i < |c|
  {
    c[i..] + c[1..i + 1]
  }

  lemma RotationIsCycle(g: Graph, c: seq<int>, i: int)
    requires IsCycle(g, c) && 0 <= i < |c| - 1
    ensures IsCycle(g, Rotation(c, i)) && Rotation(c, i)[0] == c[i]
    ensures forall j :: 0 <= j < |c| ==> Rotation(c, i)[j] in c
  {
    var q, m := Rotation(c, i), |c| - 1;
    assert |q| == |c|;
    forall j | 0 <= j < |q| ensures q[j] == if j <= m - i then c[i + j] else c[j - (m - i)] {
    }
    forall j | 0 <= j < |q| - 1 ensures q[j + 1] in g[q[j]] {
      if j + 1 <= m - i {
      } else if j == m - i {
        assert q[j] == c[m] == c[0] && q[j + 1] == c[1];
      } else {
      }
    }
  }

  /** A path that starts inside a set no edge leaves stays inside it. */
  lemma {:induction false} PathStaysIn(g: Graph, s: set<int>, p: seq<int>)
    requires ClosedIn(g, s) && IsPath(g, p) && p[0] in s
    ensures AllIn(p, s)
  {
    if |p| > 1 {
      var q := p[..|p| - 1];
      assert IsPath(g, q);
      PathStaysIn(g, s, q);
      var m := |p| - 2;
      assert p[m] == q[m] && p[m + 1] in g[p[m]];
      var t :| 0 <= t < |g[p[m]]| && g[p[m]][t] == p[m + 1];
      assert p[m + 1] in s;
      forall i | 0 <= i < |p| ensures p[i] in s {
        if i <= m { assert p[i] == q[i]; }
      }
    }
  }

  /** The cycle hidden in a path that revisits a node. */
  lemma LassoCycle(g: Graph, p: seq<int>) returns (c: seq<int>)
    requires IsPath(g, p) && |p| >= 2 && p[|p| - 1] in p[..|p| - 1]
    ensures IsCycle(g, c) && forall i :: 0 <= i < |c| ==> c[i] in p
  {
    var j :| 0 <= j < |p| - 1 && p[j] == p[|p| - 1];
    c := p[j..];
    forall i | 0 <= i < |c| - 1 ensures c[i + 1] in g[c[i]] {
      assert c[i] == p[j + i] && c[i + 1] == p[j + i + 1];
    }
  }

  /** Acyclicity is exactly the absence of a cycle reachable from any node. */
  lemma AcyclicIffNoReachableCycle(g: Graph)
    ensures Acyclic(g) <==> forall r :: r in g ==> !CycleReachable(g, r)
  {
    forall r | r in g && CycleReachable(g, r) ensures !Acyclic(g) {
      var p :| IsPath(g, p) && p[0] == r && |p| >= 2 && p[|p| - 1] in p[..|p| - 1];
      var c := LassoCycle(g, p);
    }
    forall c | IsCycle(g, c) ensures c[0] in g && CycleReachable(g, c[0]) {
      assert c[|c| - 1] == c[0] && c[0] in c[..|c| - 1];
    }
  }

  /** From a node inside a closed, cycle-free set no cycle can be reached. */
  lemma NoCycleFromClosed(g: Graph, s: set<int>, root: int)
    requires ClosedIn(g, s) && AcyclicIn(g, s) && root in s
    ensures !CycleReachable(g, root)
  {
    if CycleReachable(g, root) {
      var p :| IsPath(g, p) && p[0] == root && |p| >= 2 && p[|p| - 1] in p[..|p| - 1];
      PathStaysIn(g, s, p);
      var c := LassoCycle(g, p);
      assert AllIn(c, s);
    }
  }

  /** Finishing a node all of whose successors are finished keeps the finished set closed
      and cycle-free. */
  lemma FinishNode(g: Graph, s: set<int>, n: int)
    requires ClosedIn(g, s) && AcyclicIn(g, s)
    requires n in g && n !in s
    requires forall i :: 0 <= i < |g[n]| ==> g[n][i] in s
    ensures ClosedIn(g, s + {n}) && AcyclicIn(g, s + {n})
  {
    var s' := s + {n};
    forall c | IsCycle(g, c) ensures !AllIn(c, s') {
      if AllIn(c, s') {
        if n in c {
          var i :| 0 <= i < |c| && c[i] == n;
          if i == |c| - 1 { i := 0; }
          RotationIsCycle(g, c, i);
          var q := Rotation(c, i);
          assert q[1] in g[q[0]];
          var t :| 0 <= t < |g[n]| && g[n][t] == q[1];
          var tail := q[1..];
          assert IsPath(g, tail);
          PathStaysIn(g, s, tail);
        }
      }
    }
  }

  /** Adding node `n` (with edges into and out of it only) to a cycle-free graph gives a
      cycle-free graph exactly when no cycle is reachable from `n`. */
  lemma AcyclicAfterInsert(g0: Graph, g1: Graph, n: int)
    requires Acyclic(g0)
    requires g1.Keys - {n} <= g0.Keys
    requires forall k, i :: k in g1 && k != n && 0 <= i < |g1[k]| && g1[k][i] != n ==> g1[k][i] in g0[k]
    requires !CycleReachable(g1, n)
    ensures Acyclic(g1)
  {
    forall c | IsCycle(g1, c) ensures false {
      if n in c {
        var i :| 0 <= i < |c| && c[i] == n;
        if i == |c| - 1 { i := 0; }
        RotationIsCycle(g1, c, i);
      } else {
        assert IsPath(g1, c);
        forall j | 0 <= j < |c| ensures c[j] in g0 {
          assert c[j] in c && c[j] in g1;
        }
        forall j | 0 <= j < |c| - 1 ensures c[j + 1] in g0[c[j]] {
          var k, x := c[j], c[j + 1];
          assert k in c && x in c && k in g1 && x in g1[k];
          var t :| 0 <= t < |g1[k]| && g1[k][t] == x;
          assert g1[k][t] in g0[k];
        }
        assert IsCycle(g0, c);
      }
    }
  }

  /** Dropping nodes and edges cannot create a cycle. */
  lemma AcyclicSubgraph(g0: Graph, g1: Graph)
    requires Acyclic(g0)
    requires g1.Keys <= g0.Keys
    requires forall k, i :: k in g1 && 0 <= i < |g1[k]| ==> g1[k][i] in g0[k]
    ensures Acyclic(g1)
  {
    forall c | IsCycle(g1, c) ensures false {
      assert IsPath(g1, c);
      forall j | 0 <= j < |c| - 1 ensures c[j + 1] in g0[c[j]] {
        var k, x := c[j], c[j + 1];
        assert k in g1 && x in g1[k];
        var t :| 0 <= t < |g1[k]| && g1[k][t] == x;
        assert g1[k][t] in g0[k];
      }
      assert IsCycle(g0, c);
    }
  }

  /** An arrow that lies on its own ray is a cycle by itself. */
  lemma SelfBlockIsCycle(g: Graph, id: int)
    requires id in g && id in g[id]
    ensures CycleReachable(g, id) && !Acyclic(g)
  {
    var p := [id, id];
    assert p[..1] == [id];
    assert IsPath(g, p) && p[1] in p[..1];
    assert IsCycle(g, p);
  }

  /** Three arrows blocking each other in a ring: the third one added closes a cycle that
      the search from it reaches, while the first two alone have none. */
  lemma RingOfThree()
    ensures CycleReachable(map[0 := [1], 1 := [2], 2 := [0]], 2)
    ensures Acyclic(map[0 := [1], 1 := []])
  {
    var g := map[0 := [1], 1 := [2], 2 := [0]];
    var p := [2, 0, 1, 2];
    assert p[..3] == [2, 0, 1];
    assert IsPath(g, p) && p[3] in p[..3];
    var g2 := map[0 := [1], 1 := []];
    forall c | IsPath(g2, c) && |c| >= 2 ensures c[0] != c[|c| - 1] {
      forall i | 0 <= i < |c| ensures c[i] == i + c[0] && c[i] <= 1 {
        IncreasingAlong(g2, c, i);
      }
    }
  }

  lemma {:induction false} IncreasingAlong(g: Graph, c: seq<int>, i: int)
    requires g == map[0 := [1], 1 := []] && IsPath(g, c) && 0 <= i < |c|
    ensures c[i] == i + c[0] && c[i] <= 1
  {
    if i > 0 {
      IncreasingAlong(g, c, i - 1);
      assert c[i] in g[c[i - 1]];
    }
  }

  /** A path of `n` steps from `k` that always takes the first successor, in a closed
      graph where no node is a sink. */
  lemma {:induction false} FirstChoicePath(g: Graph, k: int, n: nat) returns (p: seq<int>)
    requires Closed(g) && k in g && forall j :: j in g ==> |g[j]| > 0
    ensures IsPath(g, p) && |p| == n + 1 && p[0] == k
    decreases n
  {
    if n == 0 {
      p := [k];
    } else {
      var q := FirstChoicePath(g, g[k][0], n - 1);
      p := [k] + q;
      forall i | 0 <= i < |p| - 1 ensures p[i + 1] in g[p[i]] {
        if i > 0 { assert p[i] == q[i - 1] && p[i + 1] == q[i]; }
      }
    }
  }

  /** A closed, non-empty graph in which every node has a successor has a cycle. */
  lemma NoSinkCycle(g: Graph)
    requires Closed(g) && g != map[]
    ensures (forall j :: j in g ==> |g[j]| > 0) ==> exists c :: IsCycle(g, c)
  {
    if forall j :: j in g ==> |g[j]| > 0 {
      assert (forall k :: k !in g.Keys) ==> g.Keys == {};
      var k :| k in g;
      var p := FirstChoicePath(g, k, |g.Keys|);
      var onPath := set x | x in p;
      assert onPath <= g.Keys;
      SubsetCard(onPath, g.Keys);
      if Distinct(p) {
        DistinctCard(p);
      }
      var i, j :| 0 <= i < j < |p| && p[i] == p[j];
      var c := p[i..j + 1];
      forall t | 0 <= t < |c| - 1 ensures c[t + 1] in g[c[t]] {
        assert c[t] == p[i + t] && c[t + 1] == p[i + t + 1];
      }
      assert IsCycle(g, c);
    }
  }

  /** A closed, non-empty, cycle-free graph has a node with an empty list. */
  lemma SomeSink(g: Graph)
    requires Closed(g) && Acyclic(g) && g != map[]
    ensures exists k :: k in g && |g[k]| == 0
  {
    NoSinkCycle(g);
  }

  /** One step of the depth-first search from `cur`. `stack` (ghost) is the chain of
      in-progress arrows that led here; its first element is where the search started.
      A false result means a cycle is reachable from the start; a true result finishes `cur`
      and everything reachable from it while keeping the finished set closed and cycle-free. */
  method Dfs(g: Graph, visited: map<int, int>, cur: int, ghost stack: seq<int>)
    returns (ok: bool, after: map<int, int>)
    requires Closed(g)
    requires visited.Keys == g.Keys && cur in g
    requires forall k :: k in visited ==> Unvisited <= visited[k] <= Done
    requires visited[cur] != Done
    requires stack != [] ==> IsPath(g, stack) && cur in g[stack[|stack| - 1]]
    requires Marked(visited, InProgress) == set k | k in stack
    requires ClosedIn(g, Marked(visited, Done)) && AcyclicIn(g, Marked(visited, Done))
    ensures !ok ==> CycleReachable(g, if stack == [] then cur else stack[0])
    ensures ok ==> after.Keys == g.Keys && forall k :: k in after ==> Unvisited <= after[k] <= Done
    ensures ok ==> Marked(after, InProgress) == set k | k in stack
    ensures ok ==> Marked(visited, Done) + {cur} <= Marked(after, Done)
    ensures ok ==> Marked(after, Unvisited) <= Marked(visited, Unvisited)
    ensures ok ==> ClosedIn(g, Marked(after, Done)) && AcyclicIn(g, Marked(after, Done))
    decreases |Marked(visited, Unvisited)|
  {
    if visited[cur] == InProgress {
      ok, after := false, visited;
      assert cur in Marked(visited, InProgress);
      var p := stack + [cur];
      assert p[..|p| - 1] == stack;
      assert IsPath(g, p);
      return;
    }
    after := visited[cur := InProgress];
    ghost var path := stack + [cur];
    EnterMarks(g, visited, cur, stack);
    var blocks := g[cur];
    var j := 0;
    while j < |blocks|
      invariant 0 <= j <= |blocks|
      invariant after.Keys == g.Keys && forall k :: k in after ==> Unvisited <= after[k] <= Done
      invariant Marked(after, InProgress) == set k | k in path
      invariant Marked(visited, Done) <= Marked(after, Done)
      invariant Marked(after, Unvisited) <= Marked(visited, Unvisited) - {cur}
      invariant ClosedIn(g, Marked(after, Done)) && AcyclicIn(g, Marked(after, Done))
      invariant forall t :: 0 <= t < j ==> blocks[t] in Marked(after, Done)
    {
      var next := blocks[j];
      if after[next] != Done {
        assert IsPath(g, path);
        assert |Marked(after, Unvisited)| < |Marked(visited, Unvisited)| by {
          SubsetSmaller(Marked(after, Unvisited), Marked(visited, Unvisited), cur);
        }
        var r;
        r, after := Dfs(g, after, next, path);
        if !r {
          ok := false;
          return;
        }
      }
      j := j + 1;
    }
    LeaveMarks(g, after, cur, stack);
    after := after[cur := Done];
    ok := true;
  }

  /** Entering `cur`: it joins the stack and leaves the unvisited. */
  lemma EnterMarks(g: Graph, visited: map<int, int>, cur: int, stack: seq<int>)
    requires cur in visited && cur in g && visited[cur] != InProgress
    requires stack != [] ==> IsPath(g, stack) && cur in g[stack[|stack| - 1]]
    requires Marked(visited, InProgress) == set k | k in stack
    ensures cur !in stack && IsPath(g, stack + [cur])
    ensures Marked(visited[cur := InProgress], InProgress) == set k | k in stack + [cur]
    ensures Marked(visited[cur := InProgress], Done) == Marked(visited, Done) - {cur}
    ensures Marked(visited[cur := InProgress], Unvisited) == Marked(visited, Unvisited) - {cur}
  {
    MarkedUpdate(visited, cur, InProgress, InProgress);
    MarkedUpdate(visited, cur, InProgress, Done);
    MarkedUpdate(visited, cur, InProgress, Unvisited);
    var path := stack + [cur];
    assert (set k | k in path) == (set k | k in stack) + {cur};
    assert path[..|path| - 1] == stack;
    assert cur !in Marked(visited, InProgress);
  }

  /** Leaving `cur` once all its successors are finished: it moves from the stack to the
      finished set, which stays closed and cycle-free. */
  lemma LeaveMarks(g: Graph, after: map<int, int>, cur: int, stack: seq<int>)
    requires cur in after && cur in g && cur !in stack
    requires Marked(after, InProgress) == set k | k in stack + [cur]
    requires ClosedIn(g, Marked(after, Done)) && AcyclicIn(g, Marked(after, Done))
    requires forall t :: 0 <= t < |g[cur]| ==> g[cur][t] in Marked(after, Done)
    ensures Marked(after[cur := Done], InProgress) == set k | k in stack
    ensures Marked(after[cur := Done], Done) == Marked(after, Done) + {cur}
    ensures Marked(after[cur := Done], Unvisited) == Marked(after, Unvisited) - {cur}
    ensures ClosedIn(g, Marked(after[cur := Done], Done)) && AcyclicIn(g, Marked(after[cur := Done], Done))
  {
    var path := stack + [cur];
    assert cur in path;
    assert (set k | k in path) == (set k | k in stack) + {cur};
    FinishNode(g, Marked(after, Done), cur);
    MarkedUpdate(after, cur, Done, InProgress);
    MarkedUpdate(after, cur, Done, Done);
    MarkedUpdate(after, cur, Done, Unvisited);
  }

  /** With nothing visited yet, the dfs may start anywhere with an empty stack. */
  lemma FreshMarks(g: Graph, visited: map<int, int>)
    requires forall k :: k in visited ==> visited[k] == Unvisited
    ensures Marked(visited, InProgress) == {} && Marked(visited, Done) == {}
    ensures ClosedIn(g, {}) && AcyclicIn(g, {})
  {
    forall k ensures k !in Marked(visited, InProgress) && k !in Marked(visited, Done) {
    }
    forall c | IsCycle(g, c) ensures !AllIn(c, {}) {
      assert c[0] !in {};
    }
  }

  lemma MarkedUpdate(v: map<int, int>, k: int, m: int, mark: int)
    requires k in v
    ensures Marked(v[k := m], mark) == if mark == m then Marked(v, mark) + {k} else Marked(v, mark) - {k}
  {
  }

  lemma SubsetSmaller(a: set<int>, b: set<int>, x: int)
    requires a <= b - {x} && x in b
    ensures |a| < |b|
  {
    assert |a| <= |b - {x}| by { SubsetCard(a, b - {x}); }
  }
}
