/**
 * graph/Graph.java: a mutable, directed, labelled multigraph. The graph is a
 * map from each node to the set of its outgoing edges; an edge is identified
 * by its (child, label) pair, so several labels between the same two nodes
 * coexist while an exact duplicate is refused.
 */
module Graphs {
  import opened Wrappers
  import opened Edges

  /** The adjacency structure: each node mapped to its outgoing edges. */
  type Adjacency<N(==), L(==)> = map<N, set<Edge<N, L>>>
  // Ghost members below spell the map type out, since they need no equality on N and L.

  /** Rep invariant (Graph.java:23-25): the child of every edge is a node. */
  ghost predicate Closed<N, L>(adj: map<N, set<Edge<N, L>>>) {
    forall n, e :: n in adj && e in adj[n] ==> e.child in adj
  }

  /** The messages of the IllegalArgumentExceptions Graph throws. */
  const ParentOrChildMissing: string := "parent/child node does not exist"
  const NodeMissing: string := "node does not exist"
  const LabelMissing: string := "label does not exist"
  const ParentMissing: string := "parent node does not exist"

  /** The node a sequence of edges followed from `start` arrives at. */
  function EndOf<N, L>(start: N, es: seq<Edge<N, L>>): N {
    if es == [] then start else es[|es| - 1].child
  }

  /**
   * `es` is a walk from `start`: every edge is an outgoing edge of the node
   * the edges before it arrive at.
   */
  ghost predicate IsWalk<N, L>(adj: map<N, set<Edge<N, L>>>, start: N, es: seq<Edge<N, L>>)
    decreases |es|
  {
    es == [] ||
    (var init := es[..|es| - 1];
     IsWalk(adj, start, init) && EndOf(start, init) in adj && es[|es| - 1] in adj[EndOf(start, init)])
  }

  /** Following one more outgoing edge of the end node extends a walk. */
  lemma WalkExtend<N, L>(adj: map<N, set<Edge<N, L>>>, start: N, es: seq<Edge<N, L>>, e: Edge<N, L>)
    requires IsWalk(adj, start, es)
    requires EndOf(start, es) in adj && e in adj[EndOf(start, es)]
    ensures IsWalk(adj, start, es + [e]) && EndOf(start, es + [e]) == e.child
  {
    assert (es + [e])[..|es|] == es;
  }

  /**
   * A walk that leaves a node ends at a node of the graph when the graph is
   * closed; the node a walk reaches is in any set of nodes that contains
   * the start and every child of its members.
   */
  lemma {:induction false} WalkStaysInside<N, L>(adj: map<N, set<Edge<N, L>>>, inside: set<N>, start: N, es: seq<Edge<N, L>>)
    requires start in inside
    requires forall n, e :: n in inside && n in adj && e in adj[n] ==> e.child in inside
    requires IsWalk(adj, start, es)
    ensures EndOf(start, es) in inside
    decreases |es|
  {
    if es != [] {
      WalkStaysInside(adj, inside, start, es[..|es| - 1]);
    }
  }

  /** Visiting more of the nodes leaves fewer of them unvisited. */
  lemma Shrinks<N>(nodes: set<N>, visited: set<N>, more: set<N>)
    requires visited < more && more - visited <= nodes
    ensures |nodes - more| < |nodes - visited|
  {
    assert nodes - visited == (nodes - more) + (more - visited);
    assert (nodes - more) * (more - visited) == {};
    assert |more - visited| > 0;
  }

  class Graph<N(==), L(==)> {
    /** The map from every node to its outgoing edges (the `graph` field). */
    var graph: Adjacency<N, L>

    ghost predicate Valid()
      reads this
    {
      Closed(graph)
    }

    /** Creates the empty graph. */
    constructor ()
      ensures Valid() && graph == map[]
    {
      graph := map[];
    }

    /** hasNode: true iff `name` is a node. */
    function HasNode(name: N): (b: bool)
      reads this
      ensures b <==> name in graph
    {
      name in graph
    }

    /**
     * hasLabel: true iff `parent` has the outgoing edge (child, label). The
     * source dereferences the parent's edge set, so the parent must be a node.
     */
    function HasLabel(parent: N, child: N, lbl: L): (b: bool)
      reads this
      requires parent in graph
      ensures b <==> Edge(child, lbl) in graph[parent]
    {
      Edge(child, lbl) in graph[parent]
    }

    /** hasEdge: hasLabel for the edge's child and label. */
    function HasEdge(parent: N, edge: Edge<N, L>): (b: bool)
      reads this
      requires parent in graph
      ensures b <==> edge in graph[parent]
    {
      HasLabel(parent, edge.child, edge.lbl)
    }

    /**
     * addNode: adds `name` with no outgoing edges and returns true when it is
     * new; otherwise changes nothing and returns false.
     */
    method AddNode(name: N) returns (added: bool)
      requires Valid()
      modifies this
      ensures Valid()
      ensures added <==> name !in old(graph)
      ensures graph == if added then old(graph)[name := {}] else old(graph)
      ensures name in graph && graph.Keys == old(graph).Keys + {name}
      ensures forall n :: n in old(graph) ==> graph[n] == old(graph)[n]
    {
      added := false;
      if name !in graph {
        added := true;
        graph := graph[name := {}];
      }
    }

    /**
     * addChild(parent, child, label): throws when either node is missing
     * (changing nothing); otherwise adds the edge and returns true iff
     * (child, label) was not already an outgoing edge of parent.
     */
    method AddChild(parent: N, child: N, lbl: L) returns (r: Result<bool>)
      requires Valid()
      modifies this
      ensures Valid()
      ensures parent !in old(graph) || child !in old(graph) ==>
                r == Err(IllegalArgumentException(ParentOrChildMissing)) && graph == old(graph)
      ensures parent in old(graph) && child in old(graph) ==>
                && r == Ok(Edge(child, lbl) !in old(graph)[parent])
                && graph == old(graph)[parent := old(graph)[parent] + {Edge(child, lbl)}]
    {
      if parent !in graph || child !in graph {
        return Err(IllegalArgumentException(ParentOrChildMissing));
      }
      var edges := graph[parent];
      var newEdge := Edge(child, lbl);
      var added := false;
      if newEdge !in edges {
        added := true;
        graph := graph[parent := edges + {newEdge}];
      } else {
        assert edges + {newEdge} == edges;
      }
      return Ok(added);
    }

    /** addChild(parent, edge): addChild with the edge's child and label. */
    method AddEdge(parent: N, edge: Edge<N, L>) returns (r: Result<bool>)
      requires Valid()
      modifies this
      ensures Valid()
      ensures parent !in old(graph) || edge.child !in old(graph) ==>
                r == Err(IllegalArgumentException(ParentOrChildMissing)) && graph == old(graph)
      ensures parent in old(graph) && edge.child in old(graph) ==>
                && r == Ok(edge !in old(graph)[parent])
                && graph == old(graph)[parent := old(graph)[parent] + {edge}]
    {
      r := AddChild(parent, edge.child, edge.lbl);
    }

    /**
     * removeNode: throws when `name` is not a node; otherwise removes it and
     * every edge, in every remaining node's set, whose child is `name`. All
     * other nodes and edges stay.
     */
    method RemoveNode(name: N) returns (r: Result<()>)
      requires Valid()
      modifies this
      ensures Valid()
      ensures name !in old(graph) ==> r == Err(IllegalArgumentException(NodeMissing)) && graph == old(graph)
      ensures name in old(graph) ==>
                && r == Ok(())
                && graph.Keys == old(graph).Keys - {name}
                && forall n :: n in graph ==> graph[n] == set e | e in old(graph)[n] && e.child != name
    {
      if name !in graph {
        return Err(IllegalArgumentException(NodeMissing));
      }
      var keys := graph.Keys;
      var todo := keys;
      while todo != {}
        invariant todo <= keys && graph.Keys == keys
        invariant forall n :: n in keys - todo ==> graph[n] == set e | e in old(graph)[n] && e.child != name
        invariant forall n :: n in todo ==> graph[n] == old(graph)[n]
        decreases todo
      {
        var node :| node in todo;
        var isChild := IsChildOf(name, node);
        if isChild == Ok(true) {
          var s := graph[node];
          var it := s;
          var kept := s;
          while it != {}
            invariant it <= s
            invariant kept == set e | e in s && (e in it || e.child != name)
            decreases it
          {
            var e :| e in it;
            if e.child == name {
              kept := kept - {e};
            }
            it := it - {e};
          }
          graph := graph[node := kept];
        }
        todo := todo - {node};
      }
      graph := graph - {name};
      return Ok(());
    }

    /**
     * removeEdgeFrom(parent, child, label): throws when either node is
     * missing or the edge (child, label) is not an outgoing edge of parent;
     * otherwise removes exactly that edge.
     */
    method RemoveEdgeFrom(parent: N, child: N, lbl: L) returns (r: Result<()>)
      requires Valid()
      modifies this
      ensures Valid()
      ensures parent !in old(graph) || child !in old(graph) ==>
                r == Err(IllegalArgumentException(NodeMissing)) && graph == old(graph)
      ensures parent in old(graph) && child in old(graph) && Edge(child, lbl) !in old(graph)[parent] ==>
                r == Err(IllegalArgumentException(LabelMissing)) && graph == old(graph)
      ensures parent in old(graph) && child in old(graph) && Edge(child, lbl) in old(graph)[parent] ==>
                r == Ok(()) && graph == old(graph)[parent := old(graph)[parent] - {Edge(child, lbl)}]
    {
      if parent !in graph || child !in graph {
        return Err(IllegalArgumentException(NodeMissing));
      }
      var edge := Edge(child, lbl);
      var removed := edge in graph[parent];
      if !removed {
        assert graph[parent] - {edge} == graph[parent];
      }
      graph := graph[parent := graph[parent] - {edge}];
      if !removed {
        return Err(IllegalArgumentException(LabelMissing));
      }
      return Ok(());
    }

    /** removeEdgeFrom(parent, edge): removeEdgeFrom with the edge's child and label. */
    method RemoveEdge(parent: N, edge: Edge<N, L>) returns (r: Result<()>)
      requires Valid()
      modifies this
      ensures Valid()
      ensures parent !in old(graph) || edge.child !in old(graph) ==>
                r == Err(IllegalArgumentException(NodeMissing)) && graph == old(graph)
      ensures parent in old(graph) && edge.child in old(graph) && edge !in old(graph)[parent] ==>
                r == Err(IllegalArgumentException(LabelMissing)) && graph == old(graph)
      ensures parent in old(graph) && edge.child in old(graph) && edge in old(graph)[parent] ==>
                r == Ok(()) && graph == old(graph)[parent := old(graph)[parent] - {edge}]
    {
      r := RemoveEdgeFrom(parent, edge.child, edge.lbl);
    }

    /**
     * getEdges: throws when `parent` is not a node; otherwise a copy of its
     * outgoing edges (a set value, which the caller cannot use to change the graph).
     */
    function GetEdges(parent: N): (r: Result<set<Edge<N, L>>>)
      reads this
      ensures parent !in graph ==> r == Err(IllegalArgumentException(ParentMissing))
      ensures parent in graph ==> r == Ok(graph[parent])
    {
      if parent !in graph then Err(IllegalArgumentException(ParentMissing)) else Ok(graph[parent])
    }

    /**
     * getLabels: throws when either node is missing; otherwise exactly the
     * labels of the edges from parent to child (possibly none).
     */
    method GetLabels(parent: N, child: N) returns (r: Result<set<L>>)
      ensures parent !in graph || child !in graph ==> r == Err(IllegalArgumentException(ParentOrChildMissing))
      ensures parent in graph && child in graph ==>
                r == Ok(set e | e in graph[parent] && e.child == child :: e.lbl)
    {
      if parent !in graph || child !in graph {
        return Err(IllegalArgumentException(ParentOrChildMissing));
      }
      var edges := graph[parent];
      var result: set<L> := {};
      var rest := edges;
      while rest != {}
        invariant rest <= edges
        invariant result == set e | e in edges - rest && e.child == child :: e.lbl
        decreases rest
      {
        var e :| e in rest;
        if e.child == child {
          result := result + {e.lbl};
        }
        rest := rest - {e};
      }
      assert edges - rest == edges;
      return Ok(result);
    }

    /** getNodes: a copy of the set of nodes. */
    function GetNodes(): (r: set<N>)
      reads this
      ensures r == graph.Keys
    {
      graph.Keys
    }

    /**
     * isChildOf(child, parent): throws when either node is missing; otherwise
     * true iff some edge from parent has `child` as its child.
     */
    method IsChildOf(child: N, parent: N) returns (r: Result<bool>)
      ensures child !in graph || parent !in graph ==> r == Err(IllegalArgumentException(NodeMissing))
      ensures child in graph && parent in graph ==>
                r.Ok? && (r.value <==> exists e :: e in graph[parent] && e.child == child)
    {
      if child !in graph || parent !in graph {
        return Err(IllegalArgumentException(NodeMissing));
      }
      var found := false;
      var edges := graph[parent];
      var rest := edges;
      while rest != {}
        invariant rest <= edges
        invariant found <==> exists e :: e in edges - rest && e.child == child
        decreases rest
      {
        var e :| e in rest;
        if e.child == child {
          found := true;
        }
        rest := rest - {e};
      }
      return Ok(found);
    }
  }

  /**
   * Two labels between the same nodes coexist, a repeated edge is refused
   * and an edge needs both of its nodes: the setUp, testAddDuplicateNode,
   * testAddDuplicateLabel and testAddEdgeToNonExistChild cases of
   * src/test/java/graph/implTest/GraphTest.java (lines 23-36, 70-81, 163-166).
   */
  method LabelScenario() {
    var g := new Graph<string, string>();
    var a := g.AddNode("n1");
    var b := g.AddNode("n2");
    var again := g.AddNode("n1");
    assert a && b && !again;
    var e1 := g.AddChild("n1", "n2", "e1");
    var e2 := g.AddChild("n1", "n2", "e2");
    assert e1 == Ok(true) && e2 == Ok(true);
    var dup := g.AddChild("n1", "n2", "e1");
    assert dup == Ok(false);
    var bad := g.AddChild("n1", "n3", "e1");
    assert bad.Err?;
  }

  /**
   * Removing a node removes the edges into it, a self-loop included: the
   * testRemoveNodeWithEdges and testCircularEdge cases of
   * src/test/java/graph/implTest/GraphTest.java (lines 124-136, 149-155).
   */
  method RemoveScenario() {
    var g := new Graph<string, string>();
    var a := g.AddNode("n1");
    var b := g.AddNode("n2");
    var loop := g.AddChild("n2", "n2", "e3");
    var back := g.AddChild("n1", "n2", "e4");
    assert loop == Ok(true) && back == Ok(true);
    var removed := g.RemoveNode("n2");
    assert removed == Ok(());
    assert g.graph.Keys == {"n1"};
    assert g.graph["n1"] == {};
  }
}
