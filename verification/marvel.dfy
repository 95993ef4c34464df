/**
 * marvel/MarvelPaths.java and marvel/MarvelPath.java: the character graph
 * built from comic books (an edge per pair of characters sharing a book,
 * labelled by the book, in both directions) and the breadth-first search for
 * a shortest chain of such edges between two characters.
 */
module Marvel {
  import opened Wrappers
  import opened Edges
  import opened Graphs
  import JavaStrings

  /** An edge of the character graph: the other character and the book they share. */
  type BookEdge = Edge<string, string>

  /**
   * The message of the ClassCastException TreeSet raises on an element that
   * is not Comparable, in the wording of Java 8; later JVMs write "class
   * graph.Edge cannot be cast to class java.lang.Comparable" and add the
   * module of each class.
   */
  const NotComparable: string := "graph.Edge cannot be cast to java.lang.Comparable"

  /** The (child, label) order of edges: by child, then by label, both in String.compareTo order. */
  function CompareEdges(e1: BookEdge, e2: BookEdge): int {
    if JavaStrings.CompareTo(e1.child, e2.child) > 0 then 1
    else if JavaStrings.CompareTo(e1.child, e2.child) < 0 then -1
    else JavaStrings.CompareTo(e1.lbl, e2.lbl)
  }

  /** The edge order tells two edges apart exactly when they differ. */
  lemma CompareEdgesZeroIffEqual(e1: BookEdge, e2: BookEdge)
    ensures CompareEdges(e1, e2) == 0 <==> e1 == e2
  {
    JavaStrings.CompareToZeroIffEqual(e1.child, e2.child);
    JavaStrings.CompareToZeroIffEqual(e1.lbl, e2.lbl);
  }

  /** Swapping the edges negates the comparison. */
  lemma CompareEdgesAntisymmetric(e1: BookEdge, e2: BookEdge)
    ensures CompareEdges(e1, e2) == -CompareEdges(e2, e1)
  {
    JavaStrings.CompareToAntisymmetric(e1.child, e2.child);
    JavaStrings.CompareToAntisymmetric(e1.lbl, e2.lbl);
  }

  /** The strict edge order is transitive. */
  lemma CompareEdgesTransitive(e1: BookEdge, e2: BookEdge, e3: BookEdge)
    requires CompareEdges(e1, e2) < 0 && CompareEdges(e2, e3) < 0
    ensures CompareEdges(e1, e3) < 0
  {
    var a, b, c := e1.child, e2.child, e3.child;
    JavaStrings.CompareToZeroIffEqual(a, b);
    JavaStrings.CompareToZeroIffEqual(b, c);
    JavaStrings.CompareToZeroIffEqual(a, c);
    if JavaStrings.CompareTo(a, b) < 0 && JavaStrings.CompareTo(b, c) < 0 {
      JavaStrings.CompareToTransitive(a, b, c);
    } else if JavaStrings.CompareTo(a, b) < 0 {
      assert b == c;
    } else if JavaStrings.CompareTo(b, c) < 0 {
      assert a == b;
    } else {
      assert a == b && b == c;
      JavaStrings.CompareToTransitive(e1.lbl, e2.lbl, e3.lbl);
    }
  }

  /** A least edge of a non-empty set in the (child, label) order. */
  method MinEdge(s: set<BookEdge>) returns (m: BookEdge)
    requires s != {}
    ensures m in s
    ensures forall x :: x in s ==> CompareEdges(m, x) <= 0
  {
    m :| m in s;
    CompareEdgesZeroIffEqual(m, m);
    var rest := s - {m};
    while rest != {}
      invariant rest <= s && m in s
      invariant forall x :: x in s - rest ==> CompareEdges(m, x) <= 0
      decreases rest
    {
      var x :| x in rest;
      if CompareEdges(x, m) < 0 {
        forall y | y in s - rest
          ensures CompareEdges(x, y) < 0
        {
          CompareEdgesZeroIffEqual(m, y);
          if m != y {
            CompareEdgesTransitive(x, m, y);
          }
        }
        m := x;
        CompareEdgesZeroIffEqual(m, m);
      } else {
        CompareEdgesAntisymmetric(x, m);
      }
      rest := rest - {x};
    }
  }

  /**
   * The iteration order of `new TreeSet<>(edges)` under the (child, label)
   * comparator: every edge once, in strictly increasing order.
   */
  method SortEdges(s: set<BookEdge>) returns (r: seq<BookEdge>)
    ensures forall e :: e in r <==> e in s
    ensures forall i, j :: 0 <= i < j < |r| ==> CompareEdges(r[i], r[j]) < 0
  {
    r := [];
    var rest := s;
    while rest != {}
      invariant rest <= s
      invariant forall e :: e in s <==> e in r || e in rest
      invariant forall i, j :: 0 <= i < j < |r| ==> CompareEdges(r[i], r[j]) < 0
      invariant forall i, x :: 0 <= i < |r| && x in rest ==> CompareEdges(r[i], x) < 0
      decreases rest
    {
      var m := MinEdge(rest);
      forall x | x in rest - {m}
        ensures CompareEdges(m, x) < 0
      {
        CompareEdgesZeroIffEqual(m, x);
      }
      r := r + [m];
      rest := rest - {m};
    }
  }

  /**
   * The lexicographic order on edge lists of the same length, edge by edge
   * in the (child, label) order: the order in which a search that expands
   * the edges of each character in that order meets the walks of a length.
   */
  predicate LexLess(a: seq<BookEdge>, b: seq<BookEdge>)
    requires |a| == |b|
  {
    a != [] && (CompareEdges(a[0], b[0]) < 0 || (a[0] == b[0] && LexLess(a[1..], b[1..])))
  }

  predicate LexLeq(a: seq<BookEdge>, b: seq<BookEdge>)
    requires |a| == |b|
  {
    a == b || LexLess(a, b)
  }

  /** The lexicographic order is transitive. */
  lemma {:induction false} LexLessTrans(a: seq<BookEdge>, b: seq<BookEdge>, c: seq<BookEdge>)
    requires |a| == |b| == |c| && LexLess(a, b) && LexLess(b, c)
    ensures LexLess(a, c)
    decreases |a|
  {
    if CompareEdges(a[0], b[0]) < 0 {
      if CompareEdges(b[0], c[0]) < 0 {
        CompareEdgesTransitive(a[0], b[0], c[0]);
      }
    } else if CompareEdges(b[0], c[0]) >= 0 {
      LexLessTrans(a[1..], b[1..], c[1..]);
    }
  }

  /** A strictly smaller prefix decides the order, whatever follows it. */
  lemma {:induction false} LexLessAppend(a: seq<BookEdge>, b: seq<BookEdge>, x: BookEdge, y: BookEdge)
    requires |a| == |b| && LexLess(a, b)
    ensures LexLess(a + [x], b + [y])
    decreases |a|
  {
    assert (a + [x])[0] == a[0] && (b + [y])[0] == b[0];
    if CompareEdges(a[0], b[0]) >= 0 {
      assert (a + [x])[1..] == a[1..] + [x] && (b + [y])[1..] == b[1..] + [y];
      LexLessAppend(a[1..], b[1..], x, y);
    }
  }

  /** Behind the same prefix, the last edges decide the order. */
  lemma {:induction false} LexLessLast(a: seq<BookEdge>, x: BookEdge, y: BookEdge)
    requires CompareEdges(x, y) < 0
    ensures LexLess(a + [x], a + [y])
    decreases |a|
  {
    if a != [] {
      assert (a + [x])[0] == a[0] && (a + [y])[0] == a[0];
      assert (a + [x])[1..] == a[1..] + [x] && (a + [y])[1..] == a[1..] + [y];
      LexLessLast(a[1..], x, y);
    }
  }

  /** Extending two ordered lists keeps them ordered when the prefixes differ or the last edges are ordered. */
  lemma LexLeqAppend(a: seq<BookEdge>, b: seq<BookEdge>, x: BookEdge, y: BookEdge)
    requires |a| == |b| && LexLeq(a, b) && (a == b ==> CompareEdges(x, y) <= 0)
    ensures LexLeq(a + [x], b + [y])
  {
    if a != b {
      LexLessAppend(a, b, x, y);
    } else if x != y {
      CompareEdgesZeroIffEqual(x, y);
      LexLessLast(a, x, y);
    }
  }

  /** Every visited character is mapped to a walk from `start` that ends at it. */
  ghost predicate PathsAreWalks(adj: map<string, set<BookEdge>>, start: string, m: map<string, seq<BookEdge>>) {
    forall v :: v in m ==> IsWalk(adj, start, m[v]) && EndOf(start, m[v]) == v
  }

  /** The walk recorded for a visited character is no longer than any walk to it. */
  ghost predicate Shortest(adj: map<string, set<BookEdge>>, start: string, m: map<string, seq<BookEdge>>) {
    forall es :: IsWalk(adj, start, es) && EndOf(start, es) in m ==> |m[EndOf(start, es)]| <= |es|
  }

  /** A visited character no longer queued has been expanded: all its neighbours are visited. */
  ghost predicate ProcessedClosed(adj: map<string, set<BookEdge>>, m: map<string, seq<BookEdge>>, q: seq<string>) {
    forall v :: v in m && v !in q ==> v in adj && forall e :: e in adj[v] ==> e.child in m
  }

  /** The queue holds visited characters, in order of path length, spanning at most two lengths. */
  ghost predicate Levels(m: map<string, seq<BookEdge>>, q: seq<string>) {
    && (forall v :: v in q ==> v in m)
    && (forall i, j :: 0 <= i < j < |q| ==> |m[q[i]]| <= |m[q[j]]| <= |m[q[0]]| + 1)
  }

  /** No character is queued twice. */
  ghost predicate Distinct(q: seq<string>) {
    forall i, j :: 0 <= i < j < |q| ==> q[i] != q[j]
  }

  /**
   * The queue is in lexicographic order of the recorded paths within each
   * length, and the paths one edge longer than the head's all leave from a
   * character whose path comes before the head's.
   */
  ghost predicate LexOrdered(m: map<string, seq<BookEdge>>, q: seq<string>)
    requires forall v :: v in q ==> v in m
  {
    && (forall i, j :: 0 <= i < j < |q| && |m[q[i]]| == |m[q[j]]| ==> LexLess(m[q[i]], m[q[j]]))
    && (forall j :: 0 <= j < |q| && |m[q[j]]| == |m[q[0]]| + 1 ==> LexLess(m[q[j]][..|m[q[0]]|], m[q[0]]))
  }

  /** The walk recorded for a visited character is the lexicographically least of the shortest walks to it. */
  ghost predicate Least(adj: map<string, set<BookEdge>>, start: string, m: map<string, seq<BookEdge>>) {
    forall es :: IsWalk(adj, start, es) && EndOf(start, es) in m && |es| == |m[EndOf(start, es)]| ==>
      LexLeq(m[EndOf(start, es)], es)
  }

  /** The facts the search keeps between two removals from the queue. */
  ghost predicate BfsInv(adj: map<string, set<BookEdge>>, start: string, end: string,
                         m: map<string, seq<BookEdge>>, q: seq<string>) {
    && start in m
    && (forall v :: v in m ==> v == start || v in adj)
    && PathsAreWalks(adj, start, m) && Shortest(adj, start, m)
    && ProcessedClosed(adj, m, q) && Levels(m, q) && Distinct(q)
    && LexOrdered(m, q) && Least(adj, start, m)
    && (end in m ==> end in q)
  }

  /**
   * Walks to characters not yet visited are longer than the path of the
   * head of the queue.
   */
  lemma {:induction false} Frontier(adj: map<string, set<BookEdge>>, start: string,
                                    m: map<string, seq<BookEdge>>, q: seq<string>, es: seq<BookEdge>)
    requires start in m && Shortest(adj, start, m) && ProcessedClosed(adj, m, q) && Levels(m, q) && q != []
    requires IsWalk(adj, start, es) && EndOf(start, es) !in m
    ensures |es| >= |m[q[0]]| + 1
    decreases |es|
  {
    var init := es[..|es| - 1];
    var v := EndOf(start, init);
    if v in m {
      assert v in q;
      var j :| 0 <= j < |q| && q[j] == v;
      assert |m[q[0]]| <= |m[v]|;
      assert |m[v]| <= |init|;
    } else {
      Frontier(adj, start, m, q, init);
    }
  }

  /**
   * The effect of the inner `for` loop of findPath at `node`: every
   * neighbour not yet visited is mapped to the path of `node` extended by the
   * edge, and is queued once, behind the queue as it was.
   */
  ghost predicate Visited(node: string, edges: seq<BookEdge>, m0: map<string, seq<BookEdge>>, q0: seq<string>,
                          m: map<string, seq<BookEdge>>, q: seq<string>)
    requires node in m0
  {
    && m.Keys == m0.Keys + (set e | e in edges :: e.child)
    && (forall v :: v in m0 ==> m[v] == m0[v])
    && (forall v :: v in m && v !in m0 ==>
          && |m[v]| == |m0[node]| + 1 && m[v][..|m0[node]|] == m0[node]
          && m[v][|m0[node]|] in edges && m[v][|m0[node]|].child == v)
    && |q| >= |q0| && q[..|q0|] == q0
    && (forall t :: |q0| <= t < |q| ==> q[t] in m && q[t] !in m0)
    && (forall s, t :: |q0| <= s < t < |q| ==> q[s] != q[t])
    && (forall v :: v in m && v !in m0 ==> v in q[|q0|..])
    && (m.Keys == m0.Keys ==> q == q0)
  }

  /** A sequence one longer than its prefix `p` is `p` and its last element. */
  lemma PrefixAndLast<T>(s: seq<T>, p: seq<T>)
    requires |s| == |p| + 1 && s[..|p|] == p
    ensures s == p + [s[|p|]]
  {
    assert s == s[..|p|] + [s[|p|]];
  }

  /** The edges are in strictly increasing (child, label) order, as SortEdges returns them. */
  predicate Ascending(edges: seq<BookEdge>) {
    forall i, j :: 0 <= i < j < |edges| ==> CompareEdges(edges[i], edges[j]) < 0
  }

  /** A newly visited child is reached by the least of the edges to it. */
  ghost predicate LeastEdges(node: string, edges: seq<BookEdge>, m0: map<string, seq<BookEdge>>,
                             m: map<string, seq<BookEdge>>)
    requires node in m0
  {
    forall e :: e in edges && e.child in m && e.child !in m0 && |m[e.child]| > |m0[node]| ==>
      CompareEdges(m[e.child][|m0[node]|], e) <= 0
  }

  /** The new children are queued in the order of the edges that reach them. */
  ghost predicate QueuedInOrder(node: string, m0: map<string, seq<BookEdge>>, q0: seq<string>,
                                m: map<string, seq<BookEdge>>, q: seq<string>)
    requires node in m0
  {
    forall s, t :: |q0| <= s < t < |q| && q[s] in m && q[t] in m && |m[q[s]]| > |m0[node]| && |m[q[t]]| > |m0[node]| ==>
      CompareEdges(m[q[s]][|m0[node]|], m[q[t]][|m0[node]|]) < 0
  }

  /**
   * Visited, as the order lemmas use it: the queue is extended, the old
   * paths are kept and every new path is the head's path plus one edge.
   */
  ghost predicate Extended(node: string, m0: map<string, seq<BookEdge>>, q0: seq<string>,
                           m: map<string, seq<BookEdge>>, q: seq<string>)
    requires node in m0
  {
    && |q| >= |q0| && (forall t :: 0 <= t < |q0| ==> q[t] == q0[t])
    && (forall v :: v in m0 ==> v in m && m[v] == m0[v])
    && (forall v :: v in m && v !in m0 ==> |m[v]| == |m0[node]| + 1 && m[v] == m0[node] + [m[v][|m0[node]|]])
    && (forall t :: |q0| <= t < |q| ==> q[t] in m && q[t] !in m0)
  }

  /** Visited gives Extended. */
  lemma VisitedExtends(node: string, edges: seq<BookEdge>, m0: map<string, seq<BookEdge>>, q0: seq<string>,
                       m: map<string, seq<BookEdge>>, q: seq<string>)
    requires node in m0 && Visited(node, edges, m0, q0, m, q)
    ensures Extended(node, m0, q0, m, q)
  {
    forall v | v in m && v !in m0
      ensures m[v] == m0[node] + [m[v][|m0[node]|]]
    {
      PrefixAndLast(m[v], m0[node]);
    }
    assert forall t :: 0 <= t < |q0| ==> q[t] == q[..|q0|][t];
  }

  /** Visiting an edge whose child is already visited changes nothing. */
  lemma VisitSkip(node: string, edges: seq<BookEdge>, i: nat, m0: map<string, seq<BookEdge>>, q0: seq<string>,
                  m: map<string, seq<BookEdge>>, q: seq<string>)
    requires node in m0 && i < |edges| && Visited(node, edges[..i], m0, q0, m, q) && edges[i].child in m
    ensures Visited(node, edges[..i + 1], m0, q0, m, q)
  {
    assert edges[..i + 1] == edges[..i] + [edges[i]];
    assert (set e | e in edges[..i + 1] :: e.child) == (set e | e in edges[..i] :: e.child) + {edges[i].child};
  }

  /** An edge to a child visited through an earlier edge comes after that edge. */
  lemma SkipKeepsFirst(node: string, edges: seq<BookEdge>, i: nat, m0: map<string, seq<BookEdge>>, q0: seq<string>,
                       m: map<string, seq<BookEdge>>, q: seq<string>)
    requires node in m0 && i < |edges| && Ascending(edges) && edges[i].child in m
    requires Visited(node, edges[..i], m0, q0, m, q) && LeastEdges(node, edges[..i], m0, m) && QueuedInOrder(node, m0, q0, m, q)
    ensures LeastEdges(node, edges[..i + 1], m0, m) && QueuedInOrder(node, m0, q0, m, q)
  {
    var c := edges[i].child;
    assert forall e :: e in edges[..i + 1] ==> e in edges[..i] || e == edges[i];
    if c !in m0 {
      var k :| 0 <= k < i && edges[k] == m[c][|m0[node]|];
    }
  }

  /** Visiting an edge to a new child maps the child to the extended path and queues it. */
  lemma VisitAdd(node: string, edges: seq<BookEdge>, i: nat, m0: map<string, seq<BookEdge>>, q0: seq<string>,
                 m: map<string, seq<BookEdge>>, q: seq<string>)
    requires node in m0 && i < |edges| && Visited(node, edges[..i], m0, q0, m, q) && edges[i].child !in m
    ensures Visited(node, edges[..i + 1], m0, q0, m[edges[i].child := m[node] + [edges[i]]], q + [edges[i].child])
  {
    var edge := edges[i];
    var m', q' := m[edge.child := m[node] + [edge]], q + [edge.child];
    assert edges[..i + 1] == edges[..i] + [edge];
    assert (set e | e in edges[..i + 1] :: e.child) == (set e | e in edges[..i] :: e.child) + {edge.child};
    assert m'[edge.child][..|m0[node]|] == m0[node];
    assert q'[..|q0|] == q0;
    assert q'[|q0|..] == q[|q0|..] + [edge.child];
  }

  /** The first edge to a new child is the least edge to it, and it comes after the edges already followed. */
  lemma AddKeepsFirst(node: string, edges: seq<BookEdge>, i: nat, m0: map<string, seq<BookEdge>>, q0: seq<string>,
                      m: map<string, seq<BookEdge>>, q: seq<string>)
    requires node in m0 && i < |edges| && Ascending(edges) && edges[i].child !in m
    requires Visited(node, edges[..i], m0, q0, m, q) && LeastEdges(node, edges[..i], m0, m) && QueuedInOrder(node, m0, q0, m, q)
    ensures LeastEdges(node, edges[..i + 1], m0, m[edges[i].child := m[node] + [edges[i]]])
    ensures QueuedInOrder(node, m0, q0, m[edges[i].child := m[node] + [edges[i]]], q + [edges[i].child])
  {
    var edge := edges[i];
    var d := |m0[node]|;
    var m', q' := m[edge.child := m[node] + [edge]], q + [edge.child];
    assert m'[edge.child][d] == edge;
    forall e | e in edges[..i + 1] && e.child in m' && e.child !in m0 && |m'[e.child]| > d
      ensures CompareEdges(m'[e.child][d], e) <= 0
    {
      if e == edge {
        CompareEdgesZeroIffEqual(edge, edge);
      } else {
        assert e in edges[..i];
        assert e.child in (set e | e in edges[..i] :: e.child);
      }
    }
    forall s, t | |q0| <= s < t < |q'| && q'[s] in m' && q'[t] in m' && |m'[q'[s]]| > d && |m'[q'[t]]| > d
      ensures CompareEdges(m'[q'[s]][d], m'[q'[t]][d]) < 0
    {
      assert q'[s] == q[s] && q[s] in m;
      if t == |q| {
        var k :| 0 <= k < i && edges[k] == m[q[s]][d];
      } else {
        assert q'[t] == q[t] && q[t] in m;
      }
    }
  }

  /** What the inner loop of findPath keeps after following the first edges of the node. */
  ghost predicate VisitedInOrder(node: string, edges: seq<BookEdge>, m0: map<string, seq<BookEdge>>, q0: seq<string>,
                                 m: map<string, seq<BookEdge>>, q: seq<string>)
    requires node in m0
  {
    Visited(node, edges, m0, q0, m, q) && LeastEdges(node, edges, m0, m) && QueuedInOrder(node, m0, q0, m, q)
  }

  /** One step of the inner loop on an edge to a new child. */
  lemma StepAdd(node: string, edges: seq<BookEdge>, i: nat, m0: map<string, seq<BookEdge>>, q0: seq<string>,
                m: map<string, seq<BookEdge>>, q: seq<string>)
    requires node in m0 && i < |edges| && Ascending(edges) && edges[i].child !in m
    requires VisitedInOrder(node, edges[..i], m0, q0, m, q)
    ensures VisitedInOrder(node, edges[..i + 1], m0, q0, m[edges[i].child := m[node] + [edges[i]]], q + [edges[i].child])
  {
    AddKeepsFirst(node, edges, i, m0, q0, m, q);
    VisitAdd(node, edges, i, m0, q0, m, q);
  }

  /** One step of the inner loop on an edge to a child already visited. */
  lemma StepSkip(node: string, edges: seq<BookEdge>, i: nat, m0: map<string, seq<BookEdge>>, q0: seq<string>,
                 m: map<string, seq<BookEdge>>, q: seq<string>)
    requires node in m0 && i < |edges| && Ascending(edges) && edges[i].child in m
    requires VisitedInOrder(node, edges[..i], m0, q0, m, q)
    ensures VisitedInOrder(node, edges[..i + 1], m0, q0, m, q)
  {
    SkipKeepsFirst(node, edges, i, m0, q0, m, q);
    VisitSkip(node, edges, i, m0, q0, m, q);
  }

  /** The inner `for` loop of findPath over the sorted edges of `node`. */
  method Visit(node: string, edges: seq<BookEdge>, m0: map<string, seq<BookEdge>>, q0: seq<string>)
    returns (m: map<string, seq<BookEdge>>, q: seq<string>)
    requires node in m0 && Ascending(edges)
    ensures Visited(node, edges, m0, q0, m, q)
    ensures LeastEdges(node, edges, m0, m) && QueuedInOrder(node, m0, q0, m, q)
  {
    m, q := m0, q0;
    var i := 0;
    assert edges[..0] == [];
    while i < |edges|
      invariant 0 <= i <= |edges|
      invariant VisitedInOrder(node, edges[..i], m0, q0, m, q)
    {
      var edge := edges[i];
      if edge.child !in m {
        StepAdd(node, edges, i, m0, q0, m, q);
        var p2 := m[node] + [edge];
        m := m[edge.child := p2];
        q := q + [edge.child];
      } else {
        StepSkip(node, edges, i, m0, q0, m, q);
      }
      i := i + 1;
    }
    assert edges[..|edges|] == edges;
  }

  /** Visiting the head of the queue keeps every recorded path a walk, and a shortest one. */
  lemma VisitKeepsPaths(adj: map<string, set<BookEdge>>, start: string, end: string,
                        m0: map<string, seq<BookEdge>>, q0: seq<string>, edges: seq<BookEdge>,
                        m: map<string, seq<BookEdge>>, q: seq<string>)
    requires Closed(adj) && BfsInv(adj, start, end, m0, q0) && q0 != [] && q0[0] in adj
    requires forall e :: e in edges ==> e in adj[q0[0]]
    requires Visited(q0[0], edges, m0, q0[1..], m, q)
    ensures forall v :: v in m ==> v == start || v in adj
    ensures PathsAreWalks(adj, start, m) && Shortest(adj, start, m)
  {
    var node := q0[0];
    var k := |m0[node]|;
    forall v | v in m && v !in m0
      ensures IsWalk(adj, start, m[v]) && EndOf(start, m[v]) == v && v in adj
    {
      var e := m[v][k];
      PrefixAndLast(m[v], m0[node]);
      WalkExtend(adj, start, m0[node], e);
    }
    forall es | IsWalk(adj, start, es) && EndOf(start, es) in m
      ensures |m[EndOf(start, es)]| <= |es|
    {
      if EndOf(start, es) !in m0 {
        Frontier(adj, start, m0, q0, es);
      }
    }
  }

  /** Visiting the head of the queue leaves every visited, unqueued character with all its neighbours visited. */
  lemma VisitKeepsClosed(adj: map<string, set<BookEdge>>, m0: map<string, seq<BookEdge>>, q0: seq<string>,
                         edges: seq<BookEdge>, m: map<string, seq<BookEdge>>, q: seq<string>)
    requires ProcessedClosed(adj, m0, q0) && q0 != [] && q0[0] in adj && q0[0] in m0
    requires forall e :: e in adj[q0[0]] ==> e in edges
    requires Visited(q0[0], edges, m0, q0[1..], m, q)
    ensures ProcessedClosed(adj, m, q)
  {
    var n := |q0| - 1;
    assert forall t :: 0 <= t < n ==> q[t] == q0[t + 1];
    forall v | v in m && v !in q
      ensures v in adj && forall e :: e in adj[v] ==> e.child in m
    {
      if v != q0[0] {
        assert v !in q0;
      }
    }
  }

  /** Visiting the head of the queue keeps the queue ordered by path length, within two lengths. */
  lemma VisitKeepsLevels(m0: map<string, seq<BookEdge>>, q0: seq<string>, edges: seq<BookEdge>,
                         m: map<string, seq<BookEdge>>, q: seq<string>)
    requires Levels(m0, q0) && q0 != []
    requires Visited(q0[0], edges, m0, q0[1..], m, q)
    ensures Levels(m, q)
  {
    var k := |m0[q0[0]]|;
    var n := |q0| - 1;
    assert forall t :: 0 <= t < n ==> q[t] == q0[t + 1];
    forall i, j | 0 <= i < j < |q|
      ensures |m[q[i]]| <= |m[q[j]]| <= |m[q[0]]| + 1
    {
      if j < n {
        assert |m[q[i]]| == |m0[q0[i + 1]]| && |m[q[j]]| == |m0[q0[j + 1]]|;
        assert |m0[q0[0]]| <= |m0[q0[1]]|;
      } else if i < n {
        assert |m0[q0[i + 1]]| <= k + 1;
        assert |m0[q0[0]]| <= |m0[q0[1]]|;
      } else {
        assert q[j] in q[n..];
      }
    }
  }

  /** Visiting the head of the queue queues no character twice and keeps `end` queued once visited. */
  lemma VisitKeepsDistinct(end: string, m0: map<string, seq<BookEdge>>, q0: seq<string>, edges: seq<BookEdge>,
                           m: map<string, seq<BookEdge>>, q: seq<string>)
    requires Distinct(q0) && q0 != [] && q0[0] != end && (forall v :: v in q0 ==> v in m0)
    requires end in m0 ==> end in q0
    requires Visited(q0[0], edges, m0, q0[1..], m, q)
    ensures Distinct(q)
    ensures end in m ==> end in q
  {
    var n := |q0| - 1;
    assert forall t :: 0 <= t < n ==> q[t] == q0[t + 1];
    forall i, j | 0 <= i < j < |q|
      ensures q[i] != q[j]
    {
      if i < n && j >= n {
        assert q[i] in m0;
      }
    }
    if end in m && end in m0 {
      var t :| 0 <= t < |q0| && q0[t] == end;
      assert q[t - 1] == end;
    }
  }

  /** A list one edge longer whose prefix comes before p comes before p and any edge. */
  lemma ExtendOrdered(a: seq<BookEdge>, p: seq<BookEdge>, y: BookEdge)
    requires |a| == |p| + 1 && LexLess(a[..|p|], p)
    ensures LexLess(a, p + [y])
  {
    PrefixAndLast(a, a[..|p|]);
    LexLessAppend(a[..|p|], p, a[|p|], y);
  }

  /**
   * Visiting the head of the queue keeps the paths of each length queued in
   * lexicographic order: the new paths extend the head's, which comes after
   * the paths that the longer ones already queued extend.
   */
  lemma VisitKeepsOrder(m0: map<string, seq<BookEdge>>, q0: seq<string>, m: map<string, seq<BookEdge>>, q: seq<string>)
    requires q0 != [] && Levels(m0, q0) && LexOrdered(m0, q0)
    requires Extended(q0[0], m0, q0[1..], m, q) && QueuedInOrder(q0[0], m0, q0[1..], m, q)
    requires Levels(m, q)
    ensures LexOrdered(m, q)
  {
    var node := q0[0];
    var d := |m0[node]|;
    var n := |q0| - 1;
    assert forall t :: 0 <= t < n ==> q[t] == q0[t + 1] && m[q[t]] == m0[q0[t + 1]];
    forall i, j | 0 <= i < j < |q| && |m[q[i]]| == |m[q[j]]|
      ensures LexLess(m[q[i]], m[q[j]])
    {
      if j < n {
        assert LexLess(m0[q0[i + 1]], m0[q0[j + 1]]);
      } else if i < n {
        ExtendOrdered(m0[q0[i + 1]], m0[node], m[q[j]][d]);
      } else {
        LexLessLast(m0[node], m[q[i]][d], m[q[j]][d]);
      }
    }
    if q != [] {
      var h := q[0];
      if |m[h]| == d {
        assert n > 0 && LexLess(m0[node], m0[q0[1]]);
        forall j | 0 <= j < |q| && |m[q[j]]| == d + 1
          ensures LexLess(m[q[j]][..d], m[h])
        {
          if j < n {
            LexLessTrans(m0[q0[j + 1]][..d], m0[node], m0[q0[1]]);
          } else {
            assert m[q[j]][..d] == m0[node];
          }
        }
      } else {
        assert forall t :: 0 <= t < |q| ==> |m[q[t]]| <= d + 1;
      }
    }
  }

  /**
   * An edge to a character not yet visited, at the end of a walk as long as
   * the head's path, leaves from a queued character of the head's length.
   */
  lemma SourceQueued(adj: map<string, set<BookEdge>>, start: string, m0: map<string, seq<BookEdge>>, q0: seq<string>,
                     w: seq<BookEdge>, e: BookEdge) returns (j: nat)
    requires start in m0 && Shortest(adj, start, m0) && ProcessedClosed(adj, m0, q0) && Levels(m0, q0) && q0 != []
    requires IsWalk(adj, start, w) && |w| == |m0[q0[0]]|
    requires EndOf(start, w) in adj && e in adj[EndOf(start, w)] && e.child !in m0
    ensures j < |q0| && q0[j] == EndOf(start, w) && |m0[q0[j]]| == |w|
  {
    var u := EndOf(start, w);
    if u !in m0 {
      Frontier(adj, start, m0, q0, w);
    }
    assert u in q0;
    j :| 0 <= j < |q0| && q0[j] == u;
    assert |m0[q0[0]]| <= |m0[u]| <= |w|;
  }

  /**
   * The head's path extended by an edge comes no later than a walk through a
   * queued character of the same length: by the queue's order when that
   * character is behind the head, by the edge order when it is the head.
   */
  lemma LexFromQueue(m0: map<string, seq<BookEdge>>, q0: seq<string>, j: nat, w: seq<BookEdge>, x: BookEdge, e: BookEdge)
    requires Levels(m0, q0) && LexOrdered(m0, q0) && j < |q0|
    requires |m0[q0[j]]| == |w| && |m0[q0[0]]| == |w| && LexLeq(m0[q0[j]], w)
    requires j == 0 ==> CompareEdges(x, e) <= 0
    ensures LexLeq(m0[q0[0]] + [x], w + [e])
  {
    if j == 0 {
      LexLeqAppend(m0[q0[0]], w, x, e);
    } else {
      assert LexLess(m0[q0[0]], m0[q0[j]]);
      if m0[q0[j]] != w {
        LexLessTrans(m0[q0[0]], m0[q0[j]], w);
      }
      LexLessAppend(m0[q0[0]], w, x, e);
    }
  }

  /**
   * A walk to a newly visited character, as short as its recorded path,
   * is no less than the path through the least edge of the head.
   */
  lemma LeastNew(adj: map<string, set<BookEdge>>, start: string, m0: map<string, seq<BookEdge>>, q0: seq<string>,
                 edges: seq<BookEdge>, m: map<string, seq<BookEdge>>, es: seq<BookEdge>)
    requires start in m0 && Shortest(adj, start, m0) && ProcessedClosed(adj, m0, q0) && Levels(m0, q0)
    requires LexOrdered(m0, q0) && Least(adj, start, m0) && q0 != [] && q0[0] in adj
    requires forall e :: e in adj[q0[0]] ==> e in edges
    requires LeastEdges(q0[0], edges, m0, m)
    requires IsWalk(adj, start, es) && EndOf(start, es) in m && EndOf(start, es) !in m0
    requires |m[EndOf(start, es)]| == |m0[q0[0]]| + 1
    requires m[EndOf(start, es)] == m0[q0[0]] + [m[EndOf(start, es)][|m0[q0[0]]|]]
    requires |es| == |m[EndOf(start, es)]|
    ensures LexLeq(m[EndOf(start, es)], es)
  {
    var v := EndOf(start, es);
    var d := |m0[q0[0]]|;
    var w, e := es[..d], es[d];
    assert es == w + [e] && e.child == v;
    assert IsWalk(adj, start, w) && EndOf(start, w) in adj && e in adj[EndOf(start, w)];
    var j := SourceQueued(adj, start, m0, q0, w, e);
    assert LexLeq(m0[q0[j]], w);
    if j == 0 {
      assert e in edges;
    }
    LexFromQueue(m0, q0, j, w, m[v][d], e);
  }

  /** Visiting the head of the queue keeps every recorded path the least of the shortest walks. */
  lemma VisitKeepsLeast(adj: map<string, set<BookEdge>>, start: string, end: string,
                        m0: map<string, seq<BookEdge>>, q0: seq<string>, edges: seq<BookEdge>,
                        m: map<string, seq<BookEdge>>, q: seq<string>)
    requires BfsInv(adj, start, end, m0, q0) && q0 != [] && q0[0] in adj
    requires forall e :: e in adj[q0[0]] ==> e in edges
    requires Extended(q0[0], m0, q0[1..], m, q) && LeastEdges(q0[0], edges, m0, m)
    ensures Least(adj, start, m)
  {
    forall es | IsWalk(adj, start, es) && EndOf(start, es) in m && |es| == |m[EndOf(start, es)]|
      ensures LexLeq(m[EndOf(start, es)], es)
    {
      if EndOf(start, es) !in m0 {
        LeastNew(adj, start, m0, q0, edges, m, es);
      }
    }
  }

  /** Visiting the head of the queue keeps the invariant of the search. */
  lemma VisitKeepsInv(adj: map<string, set<BookEdge>>, start: string, end: string,
                      m0: map<string, seq<BookEdge>>, q0: seq<string>, edges: seq<BookEdge>,
                      m: map<string, seq<BookEdge>>, q: seq<string>)
    requires Closed(adj) && BfsInv(adj, start, end, m0, q0) && q0 != [] && q0[0] in adj && q0[0] != end
    requires forall e :: e in edges <==> e in adj[q0[0]]
    requires Visited(q0[0], edges, m0, q0[1..], m, q)
    requires LeastEdges(q0[0], edges, m0, m) && QueuedInOrder(q0[0], m0, q0[1..], m, q)
    ensures BfsInv(adj, start, end, m, q)
    ensures |adj.Keys - m.Keys| < |adj.Keys - m0.Keys| || (m.Keys == m0.Keys && |q| < |q0|)
  {
    if m.Keys != m0.Keys {
      Shrinks(adj.Keys, m0.Keys, m.Keys);
    }
    VisitKeepsPaths(adj, start, end, m0, q0, edges, m, q);
    VisitKeepsClosed(adj, m0, q0, edges, m, q);
    VisitKeepsLevels(m0, q0, edges, m, q);
    VisitKeepsDistinct(end, m0, q0, edges, m, q);
    VisitedExtends(q0[0], edges, m0, q0[1..], m, q);
    VisitKeepsOrder(m0, q0, m, q);
    VisitKeepsLeast(adj, start, end, m0, q0, edges, m, q);
  }

  /** Once the queue is empty, the visited characters are closed under edges, and `end` is not among them. */
  lemma Exhausted(adj: map<string, set<BookEdge>>, start: string, end: string, m: map<string, seq<BookEdge>>)
    requires BfsInv(adj, start, end, m, [])
    ensures forall es :: IsWalk(adj, start, es) ==> EndOf(start, es) != end
  {
    forall es | IsWalk(adj, start, es)
      ensures EndOf(start, es) != end
    {
      WalkStaysInside(adj, m.Keys, start, es);
    }
  }

  /**
   * The expansion of the head `node` of the queue `q0` in findPath: its edges
   * in (child, label) order, each new child recorded and queued behind `q`,
   * the rest of the queue.
   */
  method Expand(node: string, edges: set<BookEdge>, m: map<string, seq<BookEdge>>, q: seq<string>,
                ghost adj: map<string, set<BookEdge>>, ghost start: string, ghost end: string, ghost q0: seq<string>)
    returns (m': map<string, seq<BookEdge>>, q': seq<string>)
    requires Closed(adj) && BfsInv(adj, start, end, m, q0) && q0 != [] && q0[0] == node && q == q0[1..]
    requires node in adj && node != end && edges == adj[node]
    ensures BfsInv(adj, start, end, m', q')
    ensures |adj.Keys - m'.Keys| < |adj.Keys - m.Keys| || (m'.Keys == m.Keys && |q'| < |q0|)
  {
    var sorted := SortEdges(edges);
    m', q' := Visit(node, sorted, m, q);
    VisitKeepsInv(adj, start, end, m, q0, sorted, m', q');
  }

  /** The search starts with `start` visited through the empty walk and queued alone. */
  lemma Init(adj: map<string, set<BookEdge>>, start: string, end: string)
    ensures BfsInv(adj, start, end, map[start := []], [start])
  {
    var m: map<string, seq<BookEdge>> := map[start := []];
    forall es | IsWalk(adj, start, es) && EndOf(start, es) in m && |es| == |m[EndOf(start, es)]|
      ensures LexLeq(m[EndOf(start, es)], es)
    {
      assert es == [];
    }
  }

  /** When `end` reaches the head of the queue, its path is a least shortest walk to it. */
  lemma Found(adj: map<string, set<BookEdge>>, start: string, end: string, m: map<string, seq<BookEdge>>, q: seq<string>)
    requires BfsInv(adj, start, end, m, q) && q != [] && q[0] == end
    ensures m[end] == [] <==> start == end
    ensures m[end] != [] ==> IsWalk(adj, start, m[end]) && EndOf(start, m[end]) == end
    ensures forall es :: IsWalk(adj, start, es) && EndOf(start, es) == end ==> |m[end]| <= |es|
    ensures forall es :: IsWalk(adj, start, es) && EndOf(start, es) == end && |es| == |m[end]| ==> LexLeq(m[end], es)
  {
    assert end in m;
    assert IsWalk(adj, start, m[end]) && EndOf(start, m[end]) == end;
    if start == end {
      assert IsWalk(adj, start, []);
      assert |m[end]| <= 0;
    }
  }

  /**
   * findPath(start, end, graph): breadth-first search from `start`, visiting
   * each character's edges in (child, label) order. The empty list stands
   * both for "start is end" and for "no path"; when start is not a
   * character, the edge lookup throws.
   */
  method FindPath(start: string, end: string, graph: Graph<string, string>) returns (r: Result<seq<BookEdge>>)
    requires graph.Valid()
    ensures r.Err? <==> start !in graph.graph && start != end
    ensures r.Err? ==> r.error == IllegalArgumentException(ParentMissing)
    ensures start == end ==> r == Ok([])
    ensures r.Ok? && r.value != [] ==> IsWalk(graph.graph, start, r.value) && EndOf(start, r.value) == end
    ensures r.Ok? ==> forall es :: IsWalk(graph.graph, start, es) && EndOf(start, es) == end ==> |r.value| <= |es|
    ensures r.Ok? ==> forall es :: IsWalk(graph.graph, start, es) && EndOf(start, es) == end && |es| == |r.value| ==>
              LexLeq(r.value, es)
    ensures r.Ok? && r.value == [] && start != end ==>
              forall es :: IsWalk(graph.graph, start, es) ==> EndOf(start, es) != end
  {
    ghost var adj := graph.graph;
    var q := [start];
    var m := map[start := []];
    Init(adj, start, end);
    while q != []
      invariant BfsInv(adj, start, end, m, q)
      invariant start !in adj ==> q == [start] && m == map[start := []]
      decreases |adj.Keys - m.Keys|, |q|
    {
      ghost var m0, q0 := m, q;
      var node := q[0];
      q := q[1..];
      if node == end {
        Found(adj, start, end, m0, q0);
        return Ok(m[node]);
      }
      var edges := graph.GetEdges(node);
      if edges.Err? {
        return Err(edges.error);
      }
      m, q := Expand(node, edges.value, m, q, adj, start, end, q0);
    }
    Exhausted(adj, start, end, m);
    return Ok([]);
  }

  /**
   * findPath as written: `new TreeSet<>(edges)` orders edges by their
   * natural order, but Edge does not implement Comparable (its compareTo is
   * commented out), so building the set from any non-empty edge set throws
   * ClassCastException. The search therefore fails as soon as it expands a
   * character other than `end` that has an edge, and that is the start itself.
   */
  method FindPathAsWritten(start: string, end: string, graph: Graph<string, string>) returns (r: Result<seq<BookEdge>>)
    requires graph.Valid()
    ensures start == end ==> r == Ok([])
    ensures start != end && start !in graph.graph ==> r == Err(IllegalArgumentException(ParentMissing))
    ensures start != end && start in graph.graph && graph.graph[start] != {} ==>
              r == Err(ClassCastException(NotComparable))
    ensures start != end && start in graph.graph && graph.graph[start] == {} ==> r == Ok([])
  {
    var q := [start];
    var m := map[start := []];
    while q != []
      invariant m == map[start := []]
      invariant q == [start] || (q == [] && start in graph.graph && graph.graph[start] == {} && start != end)
      decreases |q|
    {
      var node := q[0];
      q := q[1..];
      if node == end {
        return Ok(m[node]);
      }
      var edges := graph.GetEdges(node);
      if edges.Err? {
        return Err(edges.error);
      }
      if edges.value != {} {
        return Err(ClassCastException(NotComparable));
      }
    }
    return Ok([]);
  }

  /** `a` and `c` are two different characters of `book`. */
  ghost predicate CoAppear(books: map<string, set<string>>, book: string, a: string, c: string) {
    book in books && a in books[book] && c in books[book] && a != c
  }

  /** All characters of the books in `done`. */
  ghost function Characters(books: map<string, set<string>>, done: set<string>): set<string> {
    set b, c | b in done && b in books && c in books[b] :: c
  }

  /** `new ArrayList<>(set)`: the elements of a set, each once, in some order. */
  method Enumerate(s: set<string>) returns (r: seq<string>)
    ensures forall x :: x in r <==> x in s
    ensures forall i, j :: 0 <= i < j < |r| ==> r[i] != r[j]
  {
    r := [];
    var rest := s;
    while rest != {}
      invariant rest <= s
      invariant forall x :: x in s <==> x in r || x in rest
      invariant forall x :: x in r ==> x !in rest
      invariant forall i, j :: 0 <= i < j < |r| ==> r[i] != r[j]
      decreases rest
    {
      var x :| x in rest;
      r := r + [x];
      rest := rest - {x};
    }
  }

  /** The position of a character in a list of distinct characters. */
  ghost function Pos(arr: seq<string>, a: string): (k: nat)
    requires a in arr
    ensures k < |arr| && arr[k] == a
  {
    if arr[0] == a then 0 else 1 + Pos(arr[1..], a)
  }

  /**
   * The pair of `a` and `c` has been handled by the i/j loops once they
   * reach (i, j): the earlier of the two comes before i, or it is i and the
   * later one comes before j.
   */
  ghost predicate PairDone(arr: seq<string>, a: string, c: string, i: int, j: int)
    requires a in arr && c in arr
  {
    var x, y := Pos(arr, a), Pos(arr, c);
    var lo, hi := if x < y then x else y, if x < y then y else x;
    lo < i || (lo == i && hi < j)
  }

  /**
   * The edges of `g`: those of `g0`, and the two edges labelled `book`
   * between the characters of every pair handled so far.
   */
  ghost predicate BookEdges(g0: map<string, set<BookEdge>>, book: string, arr: seq<string>, i: int, j: int,
                            g: map<string, set<BookEdge>>) {
    forall a, e :: a in g ==>
      (e in g[a] <==> (a in g0 && e in g0[a]) ||
                      (e.lbl == book && a in arr && e.child in arr && a != e.child && PairDone(arr, a, e.child, i, j)))
  }

  /** The pair (i, j) has not been handled yet, so its edge is not in the graph. */
  lemma NotYetAdded(g0: map<string, set<BookEdge>>, book: string, arr: seq<string>, i: nat, j: nat,
                    g: map<string, set<BookEdge>>)
    requires i < j < |arr| && forall x, y :: 0 <= x < y < |arr| ==> arr[x] != arr[y]
    requires forall a, e :: a in g0 && e in g0[a] ==> e.lbl != book
    requires BookEdges(g0, book, arr, i, j, g) && arr[i] in g
    ensures Edge(arr[j], book) !in g[arr[i]] && arr[i] != arr[j]
  {
    assert Pos(arr, arr[i]) == i && Pos(arr, arr[j]) == j;
  }

  /** In the first row a character met for the first time has no edges yet. */
  lemma NodeAdded(g0: map<string, set<BookEdge>>, book: string, arr: seq<string>, j: nat,
                  g: map<string, set<BookEdge>>, g2: map<string, set<BookEdge>>)
    requires 0 < j < |arr| && forall x, y :: 0 <= x < y < |arr| ==> arr[x] != arr[y]
    requires BookEdges(g0, book, arr, 0, j, g) && arr[j] !in g && g0.Keys <= g.Keys
    requires g2 == g[arr[j] := {}]
    ensures BookEdges(g0, book, arr, 0, j, g2)
  {
    forall e: BookEdge | e.child in arr && arr[j] != e.child
      ensures !PairDone(arr, arr[j], e.child, 0, j)
    {
      assert Pos(arr, arr[j]) == j;
    }
  }

  /** Adding the two edges of the pair (i, j) hands the loops on to (i, j + 1). */
  lemma PairAdded(g0: map<string, set<BookEdge>>, book: string, arr: seq<string>, i: nat, j: nat,
                  g: map<string, set<BookEdge>>, g2: map<string, set<BookEdge>>)
    requires i < j < |arr| && forall x, y :: 0 <= x < y < |arr| ==> arr[x] != arr[y]
    requires BookEdges(g0, book, arr, i, j, g) && arr[i] in g && arr[j] in g
    requires g2 == g[arr[i] := g[arr[i]] + {Edge(arr[j], book)}][arr[j] := g[arr[j]] + {Edge(arr[i], book)}]
    ensures BookEdges(g0, book, arr, i, j + 1, g2)
  {
    forall a, e | a in g2
      ensures e in g2[a] <==> (a in g0 && e in g0[a]) ||
                              (e.lbl == book && a in arr && e.child in arr && a != e.child && PairDone(arr, a, e.child, i, j + 1))
    {
      if a in arr && e.child in arr {
        var x, y := Pos(arr, a), Pos(arr, e.child);
        if (x == i && y == j) || (x == j && y == i) {
        } else {
          assert PairDone(arr, a, e.child, i, j + 1) == PairDone(arr, a, e.child, i, j);
        }
      }
    }
  }

  /** The end of the j loop at i is the start of the next i. */
  lemma RowDone(g0: map<string, set<BookEdge>>, book: string, arr: seq<string>, i: nat,
                g: map<string, set<BookEdge>>)
    requires i < |arr| && forall x, y :: 0 <= x < y < |arr| ==> arr[x] != arr[y]
    requires BookEdges(g0, book, arr, i, |arr|, g)
    ensures BookEdges(g0, book, arr, i + 1, i + 2, g)
  {
    forall a, c | a in arr && c in arr && a != c
      ensures PairDone(arr, a, c, i, |arr|) == PairDone(arr, a, c, i + 1, i + 2)
    {
      assert Pos(arr, a) != Pos(arr, c);
    }
  }

  /** Before the i loop no pair has been handled: the graph is the one the book started from. */
  lemma NothingDone(book: string, arr: seq<string>, g0: map<string, set<BookEdge>>)
    requires forall x, y :: 0 <= x < y < |arr| ==> arr[x] != arr[y]
    ensures BookEdges(g0, book, arr, 0, 1, g0)
  {
    forall a, e: BookEdge | a in g0 && a in arr && e.child in arr && a != e.child
      ensures !PairDone(arr, a, e.child, 0, 1)
    {
      assert Pos(arr, a) != Pos(arr, e.child);
    }
  }

  /** After the i loop every pair has been handled: the edges out of `a` are the old ones and those of the book. */
  lemma AllDone(g0: map<string, set<BookEdge>>, book: string, arr: seq<string>, chars: set<string>,
                g: map<string, set<BookEdge>>, a: string, e: BookEdge)
    requires forall x :: x in arr <==> x in chars
    requires BookEdges(g0, book, arr, |arr|, |arr| + 1, g)
    requires a in g
    ensures e in g[a] <==> (a in g0 && e in g0[a]) || (e.lbl == book && a in chars && e.child in chars && a != e.child)
  {
    if a in arr && e.child in arr {
      assert PairDone(arr, a, e.child, |arr|, |arr| + 1);
    }
  }

  /** One step of the j loop: makes `arr[j]` a node and links it with `arr[i]` both ways. */
  method AddPair(g: Graph<string, string>, book: string, arr: seq<string>, i: nat, j: nat,
                 ghost g0: map<string, set<BookEdge>>)
    requires i < j < |arr| && forall x, y :: 0 <= x < y < |arr| ==> arr[x] != arr[y]
    requires forall a, e :: a in g0 && e in g0[a] ==> e.lbl != book
    requires g.Valid() && arr[i] in g.graph && g0.Keys <= g.graph.Keys
    requires i > 0 ==> arr[j] in g.graph
    requires BookEdges(g0, book, arr, i, j, g.graph)
    modifies g
    ensures g.Valid() && g.graph.Keys == old(g.graph).Keys + {arr[j]}
    ensures BookEdges(g0, book, arr, i, j + 1, g.graph)
  {
    var hero := arr[i];
    var child := arr[j];
    if !g.HasNode(child) {
      ghost var before := g.graph;
      var _ := g.AddNode(child);
      NodeAdded(g0, book, arr, j, before, g.graph);
    }
    NotYetAdded(g0, book, arr, i, j, g.graph);
    if !g.HasLabel(hero, child, book) && hero != child {
      ghost var before := g.graph;
      var _ := g.AddChild(hero, child, book);
      var _ := g.AddChild(child, hero, book);
      PairAdded(g0, book, arr, i, j, before, g.graph);
    }
  }

  /** The characters among the first n of arr. */
  ghost function Named(arr: seq<string>, n: nat): set<string>
    requires n <= |arr|
  {
    if n == 0 then {} else Named(arr, n - 1) + {arr[n - 1]}
  }

  /** Named collects exactly the first n characters. */
  lemma {:induction false} NamedIn(arr: seq<string>, n: nat)
    requires n <= |arr|
    ensures forall x :: x in Named(arr, n) <==> exists k :: 0 <= k < n && arr[k] == x
  {
    if n > 0 {
      NamedIn(arr, n - 1);
    }
  }

  /** The k-th character is among the first n when k < n. */
  lemma NamedHas(arr: seq<string>, n: nat, k: nat)
    requires k < n <= |arr|
    ensures arr[k] in Named(arr, n)
  {
    NamedIn(arr, n);
  }

  /** An enumeration of s names exactly s. */
  lemma NamedAll(arr: seq<string>, s: set<string>)
    requires forall x :: x in arr <==> x in s
    ensures Named(arr, |arr|) == s
  {
    NamedIn(arr, |arr|);
    assert forall x :: x in arr <==> exists k :: 0 <= k < |arr| && arr[k] == x;
  }

  /** The j loop of buildGraph at `i`: pairs `i` with every later character. */
  method AddPairs(g: Graph<string, string>, book: string, arr: seq<string>, i: nat, ghost g0: map<string, set<BookEdge>>)
    requires i < |arr| && forall x, y :: 0 <= x < y < |arr| ==> arr[x] != arr[y]
    requires forall a, e :: a in g0 && e in g0[a] ==> e.lbl != book
    requires g.Valid() && arr[i] in g.graph
    requires g.graph.Keys == g0.Keys + (if i > 0 then Named(arr, |arr|) else {arr[0]})
    requires BookEdges(g0, book, arr, i, i + 1, g.graph)
    modifies g
    ensures g.Valid()
    ensures g.graph.Keys == g0.Keys + Named(arr, |arr|)
    ensures BookEdges(g0, book, arr, i, |arr|, g.graph)
  {
    var hero := arr[i];
    var j := i + 1;
    while j < |arr|
      invariant i + 1 <= j <= |arr|
      invariant g.Valid() && hero in g.graph
      invariant g.graph.Keys == g0.Keys + Named(arr, if i > 0 then |arr| else j)
      invariant BookEdges(g0, book, arr, i, j, g.graph)
    {
      NamedHas(arr, |arr|, j);
      AddPair(g, book, arr, i, j, g0);
      j := j + 1;
    }
  }

  /** The i loop of buildGraph for one book: runs the j loop at every index of arr. */
  method AddRows(g: Graph<string, string>, book: string, arr: seq<string>, ghost g0: map<string, set<BookEdge>>)
    requires forall x, y :: 0 <= x < y < |arr| ==> arr[x] != arr[y]
    requires forall a, e :: a in g0 && e in g0[a] ==> e.lbl != book
    requires g.Valid() && g.graph == g0
    modifies g
    ensures g.Valid()
    ensures g.graph.Keys == g0.Keys + Named(arr, |arr|)
    ensures BookEdges(g0, book, arr, |arr|, |arr| + 1, g.graph)
  {
    NothingDone(book, arr, g0);
    var i := 0;
    while i < |arr|
      invariant 0 <= i <= |arr|
      invariant g.Valid()
      invariant g.graph.Keys == g0.Keys + (if i > 0 then Named(arr, |arr|) else {})
      invariant BookEdges(g0, book, arr, i, i + 1, g.graph)
    {
      var hero := arr[i];
      NamedHas(arr, |arr|, i);
      if !g.HasNode(hero) {
        var _ := g.AddNode(hero);
      }
      AddPairs(g, book, arr, i, g0);
      RowDone(g0, book, arr, i, g.graph);
      i := i + 1;
    }
  }

  /**
   * One book of buildGraph: every character of the book becomes a node, and
   * every two different characters get the two edges labelled by the book.
   */
  method AddBook(g: Graph<string, string>, book: string, chars: set<string>)
    requires g.Valid()
    requires forall a, e :: a in g.graph && e in g.graph[a] ==> e.lbl != book
    modifies g
    ensures g.Valid()
    ensures g.graph.Keys == old(g.graph).Keys + chars
    ensures forall a, e :: a in g.graph ==>
              (e in g.graph[a] <==> (a in old(g.graph) && e in old(g.graph)[a]) ||
                                    (e.lbl == book && a in chars && e.child in chars && a != e.child))
  {
    ghost var g0 := g.graph;
    var arr := Enumerate(chars);
    AddRows(g, book, arr, g0);
    NamedAll(arr, chars);
    forall a, e | a in g.graph
      ensures e in g.graph[a] <==> (a in g0 && e in g0[a]) || (e.lbl == book && a in chars && e.child in chars && a != e.child)
    {
      AllDone(g0, book, arr, chars, g.graph, a, e);
    }
  }

  /**
   * buildGraph(map): the character graph of a map from each book to its
   * characters. The nodes are all the characters; there is an edge from a
   * to c labelled b exactly when a and c are different characters of book b.
   */
  method BuildGraph(books: map<string, set<string>>) returns (g: Graph<string, string>)
    ensures fresh(g) && g.Valid()
    ensures g.graph.Keys == Characters(books, books.Keys)
    ensures forall a, e :: a in g.graph ==> (e in g.graph[a] <==> CoAppear(books, e.lbl, a, e.child))
  {
    g := new Graph();
    var todo := books.Keys;
    while todo != {}
      invariant fresh(g) && g.Valid()
      invariant todo <= books.Keys
      invariant g.graph.Keys == Characters(books, books.Keys - todo)
      invariant forall a, e :: a in g.graph ==>
                  (e in g.graph[a] <==> e.lbl !in todo && CoAppear(books, e.lbl, a, e.child))
      decreases todo
    {
      var book :| book in todo;
      AddBook(g, book, books[book]);
      assert Characters(books, books.Keys - (todo - {book})) == Characters(books, books.Keys - todo) + books[book];
      todo := todo - {book};
    }
  }
}
