/**
 * pathfinder/SearchPath.java: Dijkstra's search for a least-cost path in a
 * graph whose edge labels are distances. A path is its start node and the
 * steps taken from it; each step is an edge (the node reached, its cost).
 */
module Pathfinder {
  import opened Wrappers
  import opened Edges
  import opened Graphs

  /** A path: the node it starts at and the steps (node reached, cost) taken from there. */
  datatype Path<N> = Path(start: N, steps: seq<Edge<N, real>>)

  /** The total cost of a sequence of steps. */
  function CostOf<N>(steps: seq<Edge<N, real>>): real
    decreases |steps|
  {
    if steps == [] then 0.0 else CostOf(steps[..|steps| - 1]) + steps[|steps| - 1].lbl
  }

  /** getCost: the sum of the costs of the path's steps. */
  function Cost<N>(p: Path<N>): real {
    CostOf(p.steps)
  }

  /** getEnd: the node the last step reaches, or the start of an empty path. */
  function End<N>(p: Path<N>): N {
    EndOf(p.start, p.steps)
  }

  /** extend: one more step, to `e.child` at cost `e.lbl`. */
  function Extend<N>(p: Path<N>, e: Edge<N, real>): (q: Path<N>)
    ensures q.start == p.start && End(q) == e.child
    ensures Cost(q) == Cost(p) + e.lbl
    ensures |q.steps| == |p.steps| + 1 && q.steps[..|p.steps|] == p.steps
  {
    var q := Path(p.start, p.steps + [e]);
    assert q.steps[..|p.steps|] == p.steps;
    q
  }

  /** PathSorter.compare: the order of the priority queue, by cost. */
  function ComparePaths<N>(p1: Path<N>, p2: Path<N>): (c: int)
    ensures c == -1 || c == 0 || c == 1
    ensures c < 0 <==> Cost(p1) < Cost(p2)
    ensures c > 0 <==> Cost(p2) < Cost(p1)
  {
    if Cost(p1) < Cost(p2) then -1 else if Cost(p1) == Cost(p2) then 0 else 1
  }

  /**
   * PriorityQueue.remove under PathSorter: takes out one path of least cost
   * and leaves the others.
   */
  method RemoveMin<N>(active: seq<Path<N>>) returns (min: Path<N>, rest: seq<Path<N>>)
    requires active != []
    ensures min in active && |rest| == |active| - 1
    ensures multiset(active) == multiset(rest) + multiset{min}
    ensures forall q :: q in active ==> Cost(min) <= Cost(q)
  {
    var m := 0;
    var i := 1;
    while i < |active|
      invariant 0 <= m < |active| && 1 <= i <= |active|
      invariant forall k :: 0 <= k < i ==> Cost(active[m]) <= Cost(active[k])
    {
      if ComparePaths(active[i], active[m]) < 0 {
        m := i;
      }
      i := i + 1;
    }
    min := active[m];
    rest := active[..m] + active[m + 1..];
    assert active == active[..m] + [active[m]] + active[m + 1..];
  }

  /** Every edge label (distance) is non-negative, as the campus data guarantees. */
  ghost predicate NonNegative<N>(adj: map<N, set<Edge<N, real>>>) {
    forall n, e :: n in adj && e in adj[n] ==> e.lbl >= 0.0
  }

  /**
   * A node the search still has to account for: not finished, and either
   * the destination or a node with outgoing edges (a node without edges is
   * never marked finished, since the marking happens inside the edge loop).
   */
  ghost predicate Live<N>(adj: map<N, set<Edge<N, real>>>, end: N, finished: set<N>, u: N) {
    u !in finished && (u == end || (u in adj && adj[u] != {}))
  }

  /** Every queued path is a walk of the graph from `start`. */
  ghost predicate ActiveWalks<N>(adj: map<N, set<Edge<N, real>>>, start: N, active: seq<Path<N>>) {
    forall q :: q in active ==> q.start == start && IsWalk(adj, start, q.steps)
  }

  /** While `start` is live, a path to it of cost at most zero is queued. */
  ghost predicate StartCovered<N>(adj: map<N, set<Edge<N, real>>>, start: N, end: N,
                                  active: seq<Path<N>>, finished: set<N>) {
    Live(adj, end, finished, start) ==> exists q :: q in active && End(q) == start && Cost(q) <= 0.0
  }

  /**
   * For every edge out of a finished node into a live node, a path to that
   * node is queued that costs no more than the finished node's distance plus the edge.
   */
  ghost predicate FrontierCovered<N>(adj: map<N, set<Edge<N, real>>>, end: N, active: seq<Path<N>>,
                                     finished: set<N>, dist: map<N, real>) {
    forall v, e :: v in finished && v in adj && v in dist && e in adj[v] && Live(adj, end, finished, e.child) ==>
      exists q :: q in active && End(q) == e.child && Cost(q) <= dist[v] + e.lbl
  }

  /** The recorded distance of a finished node is no more than the cost of any walk to it. */
  ghost predicate LowerBounds<N(!new)>(adj: map<N, set<Edge<N, real>>>, start: N, finished: set<N>, dist: map<N, real>) {
    forall es :: IsWalk(adj, start, es) && EndOf(start, es) in finished && EndOf(start, es) in dist ==>
      dist[EndOf(start, es)] <= CostOf(es)
  }

  /**
   * Every walk to a live node crosses the queue: some queued path costs no
   * more than the walk (for non-negative distances).
   */
  lemma {:induction false} Cut<N(!new)>(adj: map<N, set<Edge<N, real>>>, start: N, end: N, active: seq<Path<N>>,
                                  finished: set<N>, dist: map<N, real>, es: seq<Edge<N, real>>)
    requires NonNegative(adj) && dist.Keys == finished
    requires StartCovered(adj, start, end, active, finished)
    requires FrontierCovered(adj, end, active, finished, dist)
    requires LowerBounds(adj, start, finished, dist)
    requires IsWalk(adj, start, es) && Live(adj, end, finished, EndOf(start, es))
    ensures exists q :: q in active && Cost(q) <= CostOf(es)
    decreases |es|
  {
    if es != [] {
      var init := es[..|es| - 1];
      var e := es[|es| - 1];
      var v := EndOf(start, init);
      if v in finished {
        assert dist[v] <= CostOf(init);
        assert Live(adj, end, finished, e.child);
        var q :| q in active && End(q) == e.child && Cost(q) <= dist[v] + e.lbl;
      } else {
        assert Live(adj, end, finished, v);
        Cut(adj, start, end, active, finished, dist, init);
        var q :| q in active && Cost(q) <= CostOf(init);
        assert e.lbl >= 0.0;
      }
    }
  }

  /** Every walk to a live node crosses the queue; so an empty queue leaves every live node unreachable. */
  lemma {:induction false} Reached<N>(adj: map<N, set<Edge<N, real>>>, start: N, end: N, active: seq<Path<N>>,
                                      finished: set<N>, dist: map<N, real>, es: seq<Edge<N, real>>)
    requires dist.Keys == finished
    requires StartCovered(adj, start, end, active, finished)
    requires FrontierCovered(adj, end, active, finished, dist)
    requires IsWalk(adj, start, es) && Live(adj, end, finished, EndOf(start, es))
    ensures active != []
    decreases |es|
  {
    if es != [] {
      var init := es[..|es| - 1];
      var e := es[|es| - 1];
      var v := EndOf(start, init);
      if v in finished {
        assert Live(adj, end, finished, e.child);
      } else {
        assert Live(adj, end, finished, v);
        Reached(adj, start, end, active, finished, dist, init);
      }
    }
  }

  /** All the facts the search keeps between two removals from the queue. */
  ghost predicate SearchInv<N(!new)>(adj: map<N, set<Edge<N, real>>>, start: N, end: N, active: seq<Path<N>>,
                                     finished: set<N>, dist: map<N, real>) {
    && ActiveWalks(adj, start, active)
    && finished <= adj.Keys && dist.Keys == finished && end !in finished
    && StartCovered(adj, start, end, active, finished)
    && FrontierCovered(adj, end, active, finished, dist)
    && (NonNegative(adj) ==> LowerBounds(adj, start, finished, dist))
  }

  /** `min` is a least-cost path of `active`, and `rest` is what remains once it is removed. */
  ghost predicate Popped<N>(active: seq<Path<N>>, min: Path<N>, rest: seq<Path<N>>) {
    && min in active && |rest| == |active| - 1
    && multiset(active) == multiset(rest) + multiset{min}
    && forall q :: q in active ==> Cost(min) <= Cost(q)
  }

  lemma PoppedMembers<N>(active: seq<Path<N>>, min: Path<N>, rest: seq<Path<N>>)
    requires Popped(active, min, rest)
    ensures forall q :: q in active ==> q in rest || q == min
    ensures forall q :: q in rest ==> q in active
  {
    forall q | q in active ensures q in rest || q == min {
      assert q in multiset(active);
    }
    forall q | q in rest ensures q in active {
      assert q in multiset(rest);
      assert q in multiset(active);
    }
  }

  /**
   * The effect of the loop over the edges of `min`'s end node: every edge
   * whose child was not finished when it was visited adds the extended path
   * to the queue, and the end node is marked finished as soon as one edge has
   * been visited.
   */
  ghost predicate Expanded<N>(min: Path<N>, outgoing: set<Edge<N, real>>, active0: seq<Path<N>>, finished0: set<N>,
                              active: seq<Path<N>>, finished: set<N>) {
    && finished == (if outgoing == {} then finished0 else finished0 + {End(min)})
    && (outgoing == {} ==> active == active0)
    && (forall q :: q in active0 ==> q in active)
    && (forall q :: q in active ==> q in active0 || exists e :: e in outgoing && e.child !in finished0 && q == Extend(min, e))
    && (forall e :: e in outgoing && e.child !in finished ==> Extend(min, e) in active)
  }

  /** The `for` loop of findShortestPath over the edges of the node `min` reaches. */
  method Expand<N(==)>(min: Path<N>, outgoing: set<Edge<N, real>>, active0: seq<Path<N>>, finished0: set<N>)
    returns (active: seq<Path<N>>, finished: set<N>)
    ensures Expanded(min, outgoing, active0, finished0, active, finished)
  {
    active, finished := active0, finished0;
    var todo := outgoing;
    while todo != {}
      invariant todo <= outgoing
      invariant finished0 <= finished <= finished0 + {End(min)}
      invariant End(min) in finished <==> End(min) in finished0 || todo != outgoing
      invariant todo == outgoing ==> active == active0
      invariant forall q :: q in active0 ==> q in active
      invariant forall q :: q in active ==> q in active0 || exists e :: e in outgoing && e.child !in finished0 && q == Extend(min, e)
      invariant forall e :: e in outgoing && e !in todo && e.child !in finished ==> Extend(min, e) in active
      decreases todo
    {
      var edge :| edge in todo;
      var p := edge.child;
      if p !in finished {
        var q := Extend(min, edge);
        assert edge in outgoing && edge.child !in finished0;
        ghost var before := active;
        active := active + [q];
        assert forall q' :: q' in active ==> q' in before || q' == q;
      }
      finished := finished + {End(min)};
      todo := todo - {edge};
    }
  }

  /** Removing the least-cost path from a one-path queue takes that path and empties the queue. */
  lemma OnlyPath<N>(p: Path<N>, active: seq<Path<N>>, min: Path<N>, rest: seq<Path<N>>)
    requires active == [p] && min in active && |rest| == |active| - 1
    ensures min == p && rest == []
  {
  }

  /** A least-cost queued path to a live node costs no more than any walk to that node. */
  lemma PoppedIsShortest<N(!new)>(adj: map<N, set<Edge<N, real>>>, start: N, end: N, active: seq<Path<N>>,
                                  finished: set<N>, dist: map<N, real>, min: Path<N>, rest: seq<Path<N>>)
    requires SearchInv(adj, start, end, active, finished, dist) && NonNegative(adj)
    requires Popped(active, min, rest) && Live(adj, end, finished, End(min))
    ensures forall es :: IsWalk(adj, start, es) && EndOf(start, es) == End(min) ==> Cost(min) <= CostOf(es)
  {
    forall es | IsWalk(adj, start, es) && EndOf(start, es) == End(min)
      ensures Cost(min) <= CostOf(es)
    {
      Cut(adj, start, end, active, finished, dist, es);
    }
  }

  /** Dropping a path whose end is already finished keeps the invariant. */
  lemma SkipKeepsInv<N(!new)>(adj: map<N, set<Edge<N, real>>>, start: N, end: N, active: seq<Path<N>>,
                              finished: set<N>, dist: map<N, real>, min: Path<N>, rest: seq<Path<N>>)
    requires SearchInv(adj, start, end, active, finished, dist)
    requires Popped(active, min, rest) && End(min) in finished
    ensures SearchInv(adj, start, end, rest, finished, dist)
  {
    PoppedMembers(active, min, rest);
  }

  /** The paths added by expanding a walk to a node are walks. */
  lemma ExpandKeepsWalks<N>(adj: map<N, set<Edge<N, real>>>, start: N, active0: seq<Path<N>>, finished0: set<N>,
                            min: Path<N>, rest: seq<Path<N>>, active: seq<Path<N>>, finished: set<N>)
    requires ActiveWalks(adj, start, active0) && Popped(active0, min, rest) && End(min) in adj
    requires Expanded(min, adj[End(min)], rest, finished0, active, finished)
    ensures ActiveWalks(adj, start, active)
  {
    PoppedMembers(active0, min, rest);
    forall e | e in adj[End(min)]
      ensures IsWalk(adj, start, Extend(min, e).steps)
    {
      WalkExtend(adj, start, min.steps, e);
    }
  }

  /** Expanding the least-cost path keeps the start and the frontier covered. */
  lemma ExpandKeepsCover<N>(adj: map<N, set<Edge<N, real>>>, start: N, end: N, active0: seq<Path<N>>,
                            finished0: set<N>, dist0: map<N, real>, min: Path<N>, rest: seq<Path<N>>,
                            active: seq<Path<N>>, finished: set<N>, dist: map<N, real>)
    requires dist0.Keys == finished0
    requires StartCovered(adj, start, end, active0, finished0)
    requires FrontierCovered(adj, end, active0, finished0, dist0)
    requires Popped(active0, min, rest)
    requires End(min) !in finished0 && End(min) != end && End(min) in adj
    requires Expanded(min, adj[End(min)], rest, finished0, active, finished)
    requires dist == if adj[End(min)] == {} then dist0 else dist0[End(min) := Cost(min)]
    ensures StartCovered(adj, start, end, active, finished)
    ensures FrontierCovered(adj, end, active, finished, dist)
  {
    PoppedMembers(active0, min, rest);
    var u := End(min);
    if Live(adj, end, finished, start) {
      var q0 :| q0 in active0 && End(q0) == start && Cost(q0) <= 0.0;
      assert q0 != min;
    }
    forall v, e | v in finished && v in adj && v in dist && e in adj[v] && Live(adj, end, finished, e.child)
      ensures exists q :: q in active && End(q) == e.child && Cost(q) <= dist[v] + e.lbl
    {
      if v == u {
        assert Extend(min, e) in active;
      } else {
        assert Live(adj, end, finished0, e.child);
        var q0 :| q0 in active0 && End(q0) == e.child && Cost(q0) <= dist0[v] + e.lbl;
        assert q0 != min;
      }
    }
  }

  /** Expanding the least-cost path records a distance no walk beats. */
  lemma ExpandKeepsBounds<N(!new)>(adj: map<N, set<Edge<N, real>>>, start: N, end: N, active0: seq<Path<N>>,
                                   finished0: set<N>, dist0: map<N, real>, min: Path<N>, rest: seq<Path<N>>,
                                   finished: set<N>, dist: map<N, real>)
    requires SearchInv(adj, start, end, active0, finished0, dist0) && NonNegative(adj)
    requires Popped(active0, min, rest)
    requires End(min) !in finished0 && End(min) != end && End(min) in adj
    requires finished == if adj[End(min)] == {} then finished0 else finished0 + {End(min)}
    requires dist == if adj[End(min)] == {} then dist0 else dist0[End(min) := Cost(min)]
    ensures LowerBounds(adj, start, finished, dist)
  {
    if adj[End(min)] != {} {
      PoppedIsShortest(adj, start, end, active0, finished0, dist0, min, rest);
    }
  }

  /**
   * Expanding the least-cost path, when its end is an unfinished node other
   * than the destination, keeps the invariant.
   */
  lemma ExpandKeepsInv<N(!new)>(adj: map<N, set<Edge<N, real>>>, start: N, end: N, active0: seq<Path<N>>,
                                finished0: set<N>, dist0: map<N, real>, min: Path<N>, rest: seq<Path<N>>,
                                active: seq<Path<N>>, finished: set<N>, dist: map<N, real>)
    requires SearchInv(adj, start, end, active0, finished0, dist0)
    requires Popped(active0, min, rest)
    requires End(min) !in finished0 && End(min) != end && End(min) in adj
    requires Expanded(min, adj[End(min)], rest, finished0, active, finished)
    requires dist == if adj[End(min)] == {} then dist0 else dist0[End(min) := Cost(min)]
    ensures SearchInv(adj, start, end, active, finished, dist)
  {
    ExpandKeepsWalks(adj, start, active0, finished0, min, rest, active, finished);
    ExpandKeepsCover(adj, start, end, active0, finished0, dist0, min, rest, active, finished, dist);
    if NonNegative(adj) {
      ExpandKeepsBounds(adj, start, end, active0, finished0, dist0, min, rest, finished, dist);
    }
  }

  /**
   * findShortestPath(start, end, graph). The source asks for both nodes to be
   * in the graph; outside that, the model follows the code: when start is
   * end the empty path is returned at once, when start is not a node the
   * edge lookup throws, and a missing end is simply never reached.
   */
  method FindShortestPath<N(==, !new)>(start: N, end: N, graph: Graph<N, real>) returns (r: Result<Option<Path<N>>>)
    requires graph.Valid()
    ensures r.Err? <==> start !in graph.graph && start != end
    ensures r.Err? ==> r.error == IllegalArgumentException(ParentMissing)
    ensures start == end ==> r == Ok(Some(Path(start, [])))
    ensures r.Ok? && r.value.Some? ==>
              && r.value.value.start == start
              && End(r.value.value) == end
              && IsWalk(graph.graph, start, r.value.value.steps)
    ensures r.Ok? && r.value.Some? && NonNegative(graph.graph) ==>
              forall es :: IsWalk(graph.graph, start, es) && EndOf(start, es) == end ==>
                Cost(r.value.value) <= CostOf(es)
    ensures r == Ok(None) ==> forall es :: IsWalk(graph.graph, start, es) ==> EndOf(start, es) != end
  {
    ghost var adj := graph.graph;
    var init := Path(start, []);
    var active := [init];
    var finished: set<N> := {};
    ghost var dist: map<N, real> := map[];
    while active != []
      invariant SearchInv(adj, start, end, active, finished, dist)
      invariant start !in adj || start == end ==> active == [init] && finished == {}
      decreases |adj.Keys - finished|, |active|
    {
      ghost var active0, finished0, dist0 := active, finished, dist;
      var minPath, rest := RemoveMin(active);
      active := rest;
      var minDest := End(minPath);
      if start !in adj || start == end {
        OnlyPath(init, active0, minPath, rest);
      }
      if minDest == end {
        if NonNegative(adj) {
          PoppedIsShortest(adj, start, end, active0, finished, dist, minPath, rest);
        }
        return Ok(Some(minPath));
      } else if minDest !in finished {
        var edges := graph.GetEdges(minDest);
        if edges.Err? {
          return Err(edges.error);
        }
        active, finished := Expand(minPath, edges.value, rest, finished);
        dist := if edges.value == {} then dist else dist[minDest := Cost(minPath)];
        ExpandKeepsInv(adj, start, end, active0, finished0, dist0, minPath, rest, active, finished, dist);
        if edges.value != {} {
          Shrinks(adj.Keys, finished0, finished);
        }
      } else {
        SkipKeepsInv(adj, start, end, active0, finished, dist, minPath, rest);
      }
    }
    forall es | IsWalk(adj, start, es) && EndOf(start, es) == end
      ensures false
    {
      Reached(adj, start, end, active, finished, dist, es);
    }
    return Ok(None);
  }
}
