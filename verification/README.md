# Campus map, Marvel paths and rational polynomials: a Dafny model

This project models the core of the campus-map repository in Dafny:

- **The generic graph.** `graph/Graph.java` is a directed multigraph. It maps each node to its set of outgoing labelled edges. An `Edge` (`graph/Edge.java`) is a pair of a child node and a label.
- **Dijkstra's search.** `pathfinder/SearchPath.java` finds a least-cost path over `Double`-weighted edges.
- **The campus model.** `pathfinder/ModelConnector.java` turns building and walkway records into a graph of campus points. It answers building-name queries and shortest-path queries.
- **The Marvel graph.** `marvel/MarvelPaths.java` and `marvel/MarvelPath.java` build a character graph from comic books: one edge in each direction per pair of characters sharing a book, labelled with the book. They then search it breadth-first for a shortest chain of characters.
- **Polynomial arithmetic.** `poly/RatPoly.java` implements polynomials with rational coefficients: addition, subtraction, multiplication, truncating division, differentiation and antidifferentiation. `poly/RatPolyStack.java` is the stack of an RPN calculator over them.

Files and modules:

| file | module | models |
|---|---|---|
| `wrappers.dfy` | `Wrappers` | `Option`, `Result` and the Java exceptions the core throws |
| `java_strings.dfy` | `JavaStrings` | `String.hashCode` with 32-bit wrap-around, `String.compareTo` |
| `edge.dfy` | `Edges` | `Edge`: `toString`, `hashCode`, `equals` |
| `graph.dfy` | `Graphs` | the `Graph` class, walks in a graph |
| `search_path.dfy` | `Pathfinder` | `Path`, `findShortestPath` (Dijkstra) |
| `model_connector.dfy` | `Campus` | the `ModelConnector` class, `buildGraph` |
| `marvel.dfy` | `Marvel` | `findPath` (BFS), `buildGraph` |
| `rat_term.dfy` | `Terms` | the parts of RatNum and RatTerm that RatPoly uses |
| `rat_poly.dfy` | `Polys` | `RatPoly` and its operations |
| `rat_poly_stack.dfy` | `PolyStack` | the `RatPolyStack` class |

How the source's forms are modelled:

- **Objects updated in place are classes.**
  - `Graph` is a class. Its `map` field is replaced by its methods, and each method states the whole new map.
  - `ModelConnector` is a class too. Its constructor takes the parsed records as parameters.
  - `RatPolyStack` is a class with a `seq` field, stored bottom first like `java.util.Stack`. `Contents()` reads it top first, as the class documentation writes `[p1, p2, ...]:S`.
- **Immutable values are datatypes.** `RatPoly` is an immutable value, so it is a datatype.
- **Loops become methods.** Every Java loop is a `while` or `for` loop in a method:
  - `degree`, `getTerm`, `isNaN`, `sortedInsert` and `duplicate`;
  - the loops of `negate`, `add`, `mul`, `div`, `differentiate` and `antiDifferentiate`;
  - the two searches and both `buildGraph`s.
- **Each method is proved against a specification.** The specification is a function or predicate on values: `IsSum`, `IsProduct`, `IsQuotient`, `IsDerivative`, `WalkwayGraph`, `IsWalk` and similar.

## Model

| member | source | states |
|---|---|---|
| JavaStrings.Wrap32 | src/main/java/graph/Edge.java:96-98 | the result is a 32-bit int congruent to the input modulo 2^32 (Java int addition wraps) |
| JavaStrings.Hash | src/main/java/graph/Edge.java:96-98 | String.hashCode of a child or label, as Edge.hashCode adds them: always a 32-bit int value |
| JavaStrings.CompareTo | src/main/java/graph/Edge.java:62-70 | String.compareTo: when one string is a prefix of the other, the difference of the lengths |
| JavaStrings.HashAaBB | src/main/java/graph/Edge.java:85-86 | the distinct strings "Aa" and "BB" have the same String.hashCode, 2112 |
| JavaStrings.CompareToZeroIffEqual | src/main/java/graph/Edge.java:62-70 | String.compareTo is 0 exactly on equal strings |
| JavaStrings.CompareToAntisymmetric | src/main/java/graph/Edge.java:62-70 | compareTo(a, b) is minus compareTo(b, a) |
| JavaStrings.CompareToTransitive | src/main/java/graph/Edge.java:62-70 | compareTo's "less than" is transitive |
| Edges.ToString | src/main/java/graph/Edge.java:51-53 | the string is the child's text, "(", the label's text and ")" |
| Edges.HashCode | src/main/java/graph/Edge.java:90-98 | hashCode: a 32-bit int congruent modulo 2^32 to the sum of the child's and the label's hash codes |
| Edges.EqualsAsWritten | src/main/java/graph/Edge.java:80-88 | equals as written holds exactly for an Edge whose child and label hash codes match this edge's |
| Edges.EqualsAsWrittenCollision | src/main/java/graph/Edge.java:80-88 | two different edges, to "Aa" and to "BB", are equal under equals as written |
| Edges.Equals | src/main/java/graph/Edge.java:72-79 | the documented equals: true exactly for an Edge with the same child and the same label |
| Edges.EqualsImpliesSameHashCode | src/main/java/graph/Edge.java:90-98 | equal edges have equal hashCode, and equals as written accepts them too |
| Graphs.WalkExtend | src/main/java/graph/Graph.java:23-29 | a walk followed by an outgoing edge of its end is a walk ending at that edge's child |
| Graphs.WalkStaysInside | src/main/java/graph/Graph.java:23-29 | a walk from inside a set of nodes closed under edges never leaves it |
| Graphs.Graph.Valid | src/main/java/graph/Graph.java:301-316 | checkRep's invariant: the child of every edge is a node of the graph |
| Graphs.Graph.constructor | src/main/java/graph/Graph.java:35-38 | the new graph has no nodes |
| Graphs.Graph.HasNode | src/main/java/graph/Graph.java:47-52 | true exactly when the node is a key of the map |
| Graphs.Graph.HasLabel | src/main/java/graph/Graph.java:63-68 | true exactly when the parent has an edge to the child with that label |
| Graphs.Graph.HasEdge | src/main/java/graph/Graph.java:78-81 | true exactly when the edge is among the parent's edges |
| Graphs.Graph.AddNode | src/main/java/graph/Graph.java:92-101 | adds the node with no edges, returning true, exactly when it was absent; nothing else changes; every edge's child stays a node |
| Graphs.Graph.AddChild | src/main/java/graph/Graph.java:116-130 | throws "parent/child node does not exist" without change when an endpoint is missing; otherwise adds the edge and returns whether it was new |
| Graphs.Graph.AddEdge | src/main/java/graph/Graph.java:143-146 | the same, for an Edge value |
| Graphs.Graph.RemoveNode | src/main/java/graph/Graph.java:157-176 | throws "node does not exist" for a missing node; otherwise removes the node and every edge into it from every other node |
| Graphs.Graph.RemoveEdgeFrom | src/main/java/graph/Graph.java:189-200 | throws "node does not exist" for a missing endpoint and "label does not exist" for a missing edge, leaving the graph unchanged; otherwise removes exactly that edge |
| Graphs.Graph.RemoveEdge | src/main/java/graph/Graph.java:212-215 | the same, for an Edge value |
| Graphs.Graph.GetEdges | src/main/java/graph/Graph.java:225-233 | the parent's edge set, or "parent node does not exist" |
| Graphs.Graph.GetLabels | src/main/java/graph/Graph.java:245-259 | the labels of exactly the edges from parent to child, or the missing-node exception |
| Graphs.Graph.GetNodes | src/main/java/graph/Graph.java:266-271 | exactly the keys of the map |
| Graphs.Graph.IsChildOf | src/main/java/graph/Graph.java:282-296 | true exactly when some edge of the parent leads to the child; throws when either is not a node |
| Pathfinder.Extend | src/main/java/pathfinder/SearchPath.java:43 | the extended path keeps the start and the old steps, ends at the edge's child and costs the edge's weight more |
| Pathfinder.ComparePaths | src/main/java/pathfinder/SearchPath.java:56-62 | negative, zero or positive as the first path is cheaper, as cheap, or dearer than the second |
| Pathfinder.RemoveMin | src/main/java/pathfinder/SearchPath.java:26-32 | the priority queue's remove: a least-cost path, and the queue without exactly that one occurrence |
| Pathfinder.Expand | src/main/java/pathfinder/SearchPath.java:40-47 | the edge loop queues the extension along every edge to an unfinished node and nothing else, and marks the node finished when it has an edge |
| Pathfinder.Cut | src/main/java/pathfinder/SearchPath.java:30-48 | with non-negative weights, every walk to a node still to be settled crosses the queue at a path no dearer than the walk |
| Pathfinder.PoppedIsShortest | src/main/java/pathfinder/SearchPath.java:32-36 | the least-cost queued path to an unsettled node is no dearer than any walk to that node |
| Pathfinder.ExpandKeepsInv | src/main/java/pathfinder/SearchPath.java:37-47 | expanding a popped path keeps the search invariant |
| Pathfinder.FindShortestPath | src/main/java/pathfinder/SearchPath.java:25-51 | start = end gives the empty path; otherwise an exception exactly when start is not a node; a returned path is a walk from start to end that, for non-negative weights, costs no more than any walk from start to end; null only when no walk reaches end |
| Campus.WalkwayGraphContents | src/main/java/pathfinder/ModelConnector.java:82-103 | the graph's nodes are exactly the records' endpoints, and a node's edges are exactly the segments starting there |
| Campus.RepeatedWalkway | src/main/java/pathfinder/ModelConnector.java:98-100 | a record that appears again changes nothing (the hasLabel guard) |
| Campus.WalkwayGraphClosed | src/main/java/pathfinder/ModelConnector.java:39-43 | every edge's child is a node |
| Campus.WalkwayGraphNonNegative | src/main/java/pathfinder/ModelConnector.java:39-43 | non-negative record lengths give non-negative edge labels |
| Campus.BuildGraph | src/main/java/pathfinder/ModelConnector.java:82-103 | the loop builds exactly the graph of the records |
| Campus.LoadBuildings | src/main/java/pathfinder/ModelConnector.java:65-76 | each short name gets the coordinates and the long name of its first record, and only names that appear are mapped |
| Campus.ModelConnector.constructor | src/main/java/pathfinder/ModelConnector.java:58-80 | the loaded buildings and the walkway graph of the records |
| Campus.ModelConnector.CheckRep | src/main/java/pathfinder/ModelConnector.java:184-195 | holds exactly when every edge's child is a node and every label is non-negative |
| Campus.ModelConnector.ShortNameExists | src/main/java/pathfinder/ModelConnector.java:109-114 | true exactly for a known short name |
| Campus.ModelConnector.LongNameForShort | src/main/java/pathfinder/ModelConnector.java:121-129 | the long name of a known short name, and an exception exactly for an unknown one |
| Campus.ModelConnector.GetCoordinate | src/main/java/pathfinder/ModelConnector.java:138-145 | the point of a known building, and an exception exactly for an unknown one |
| Campus.ModelConnector.BuildingNames | src/main/java/pathfinder/ModelConnector.java:150-155 | a map with exactly the known short names, each mapped to its long name |
| Campus.ModelConnector.FindShortestPath | src/main/java/pathfinder/ModelConnector.java:168-178 | an exception for an unknown building; otherwise the shortest-path guarantees of findShortestPath between the two buildings' points |
| Campus.LoadedRepOk | src/main/java/pathfinder/ModelConnector.java:78-79 | a connector built from records of non-negative length satisfies checkRep |
| Marvel.CompareEdges | src/test/java/marvel/specTest/MarvelTestDriver.java:283-293 | the EdgeSorter order: by child, then by label, both in String.compareTo order; 0 exactly on equal edges (CompareEdgesZeroIffEqual) |
| Marvel.CompareEdgesZeroIffEqual | src/main/java/graph/Edge.java:62-70 | the (child, label) edge order is 0 exactly on equal edges |
| Marvel.CompareEdgesAntisymmetric | src/main/java/graph/Edge.java:62-70 | the edge order is antisymmetric |
| Marvel.CompareEdgesTransitive | src/main/java/graph/Edge.java:62-70 | the edge order is transitive |
| Marvel.MinEdge | src/main/java/marvel/MarvelPaths.java:67 | a least edge of a non-empty set in the edge order |
| Marvel.SortEdges | src/main/java/marvel/MarvelPaths.java:67-68 | the edges of the set, each once, in strictly increasing edge order |
| Marvel.Visit | src/main/java/marvel/MarvelPaths.java:68-79 | each edge to an unvisited character records the path extended by that edge and queues the character |
| Marvel.Frontier | src/main/java/marvel/MarvelPaths.java:58-81 | a walk to an unvisited character is longer than the path of the queue's head |
| Marvel.VisitKeepsInv | src/main/java/marvel/MarvelPaths.java:62-80 | expanding the queue's head keeps the BFS invariant: recorded paths are the least shortest walks, and the queue is in level order and, within a level, in lexicographic order |
| Marvel.LexLessTrans | src/main/java/marvel/MarvelPaths.java:67-68 | the lexicographic order of edge lists, edge by edge in the (child, label) order, is transitive |
| Marvel.LexLessAppend | src/main/java/marvel/MarvelPaths.java:70-75 | extending two lists ordered by their prefixes keeps them ordered, whatever edges follow |
| Marvel.LexLessLast | src/main/java/marvel/MarvelPaths.java:70-75 | two extensions of the same path are ordered as their last edges |
| Marvel.VisitKeepsOrder | src/main/java/marvel/MarvelPaths.java:62-80 | expanding the head keeps the queue in lexicographic order within each length |
| Marvel.SourceQueued | src/main/java/marvel/MarvelPaths.java:58-81 | the last edge of a walk to an unvisited character, as long as the head's path plus one, leaves a queued character of the head's length |
| Marvel.LexFromQueue | src/main/java/marvel/MarvelPaths.java:62-80 | the head's path plus an edge comes no later than any walk through a queued character of the same length |
| Marvel.LeastNew | src/main/java/marvel/MarvelPaths.java:68-79 | a newly recorded path is no later in lexicographic order than any walk of its length to that character |
| Marvel.VisitKeepsLeast | src/main/java/marvel/MarvelPaths.java:62-80 | after expanding the head, every recorded path is the least of the shortest walks to its character |
| Marvel.Expand | src/main/java/marvel/MarvelPaths.java:67-79 | sorting the head's edges and visiting them keeps the BFS invariant and shrinks the measure of the loop |
| Marvel.Init | src/main/java/marvel/MarvelPaths.java:58-61 | the start mapped to the empty walk and queued alone satisfies the BFS invariant |
| Marvel.Found | src/main/java/marvel/MarvelPaths.java:63-65 | when end is dequeued its path is empty exactly for start = end, and is otherwise a walk to end that is shortest and, among the shortest, lexicographically least |
| Marvel.Exhausted | src/main/java/marvel/MarvelPaths.java:82 | when the queue empties before end is reached, no walk from start reaches end |
| Marvel.FindPath | src/main/java/marvel/MarvelPaths.java:57-83 | an empty list for start = end; an exception exactly when start is not a character; otherwise a walk from start to end no longer than any other and, among walks of its length, the least in lexicographic (child, label) order, or the empty list only when none exists |
| Marvel.FindPathAsWritten | src/main/java/marvel/MarvelPaths.java:57-83 | as written: ClassCastException whenever start is not end and has an edge |
| Marvel.Enumerate | src/main/java/marvel/MarvelPath.java:85 | the list copy of a set: its elements, each once |
| Marvel.AddPair | src/main/java/marvel/MarvelPath.java:93-102 | one inner step adds the second character as a node and, for distinct characters, the book edge in both directions |
| Marvel.AddPairs | src/main/java/marvel/MarvelPath.java:92-103 | the inner loop handles every later character of the book's list |
| Marvel.AddRows | src/main/java/marvel/MarvelPath.java:87-104 | the outer loop makes every character of the book's list a node and handles every pair of them |
| Marvel.AddBook | src/main/java/marvel/MarvelPath.java:85-105 | one book adds its characters as nodes and an edge labelled by the book between every two different characters of it, and nothing else |
| Marvel.BuildGraph | src/main/java/marvel/MarvelPath.java:82-108 | the nodes are exactly the characters of the books; a→c with label b exactly when a and c are different characters of book b |
| Polys.CofindAt | src/main/java/poly/RatPoly.java:161-163 | in a sorted list the coefficient at a term's exponent is that term's coefficient |
| Polys.Canonical | src/main/java/poly/RatPoly.java:39-48 | two term lists satisfying the rep invariant with the same coefficients are equal |
| Polys.SortedInsert | src/main/java/poly/RatPoly.java:157-198 | keeps the list sorted; adds the term's coefficient at its exponent; leaves all other coefficients; a zero term changes nothing |
| Polys.Duplicate | src/main/java/poly/RatPoly.java:278-285 | the copy equals the list |
| Polys.Sorted | src/main/java/poly/RatPoly.java:39-48 | the rep invariant on a term list: exponents strictly descending and no zero coefficient |
| Polys.Valid | src/main/java/poly/RatPoly.java:569-579 | checkRep's invariant: the term list is Sorted |
| Polys.HasNaN | src/main/java/poly/RatPoly.java:143-151 | true exactly when some term is NaN |
| Polys.IsNaN | src/main/java/poly/RatPoly.java:138-151 | true exactly when some term of the polynomial has a NaN coefficient |
| Polys.Equals | src/main/java/poly/RatPoly.java:553-566 | equals: every two NaN polynomials are equal; otherwise the term lists must be equal |
| Polys.HashCode | src/main/java/poly/RatPoly.java:537-543 | hashCode: 0 for a NaN polynomial; otherwise the hash of the term list, given as a parameter |
| Polys.EqualsIsEquivalence | src/main/java/poly/RatPoly.java:546-565 | equals is reflexive, symmetric and transitive, and makes every two NaN polynomials equal |
| Polys.EqualsImpliesSameHashCode | src/main/java/poly/RatPoly.java:530-544 | equal polynomials have equal hashCode: 0 for every NaN polynomial, the term list's hash otherwise |
| Polys.NaNAtZero | src/main/java/poly/RatPoly.java:39-48 | in a sorted list a NaN term can only sit at exponent 0, and without one every coefficient is rational |
| Polys.MaxExpt | src/main/java/poly/RatPoly.java:111-118 | every exponent is at most the result, which is 0 or some term's exponent |
| Polys.Degree | src/main/java/poly/RatPoly.java:105-118 | every coefficient above the degree is zero, and for a non-zero polynomial the coefficient at the degree is not |
| Polys.GetTerm | src/main/java/poly/RatPoly.java:120-136 | the term of that degree, with its coefficient, or the zero term when there is none |
| Polys.ScanNaN | src/main/java/poly/RatPoly.java:143-151 | the isNaN loop decides whether some term is NaN |
| Polys.ScanDegree | src/main/java/poly/RatPoly.java:111-118 | the degree loop computes the degree |
| Polys.ScanTerm | src/main/java/poly/RatPoly.java:128-136 | the getTerm loop finds the term of that degree |
| Polys.FromTerm | src/main/java/poly/RatPoly.java:70-76 | a valid polynomial whose only coefficient is the term's |
| Polys.FromInt | src/main/java/poly/RatPoly.java:85-91 | a valid polynomial equal to c·x^e |
| Polys.NegatedTerms | src/main/java/poly/RatPoly.java:210-214 | negating every term keeps the list sorted and negates every coefficient |
| Polys.Negate | src/main/java/poly/RatPoly.java:205-217 | NaN for NaN; otherwise a valid polynomial with every coefficient negated |
| Polys.Add | src/main/java/poly/RatPoly.java:219-238 | NaN when either operand is; otherwise a valid polynomial whose coefficients are the sums |
| Polys.Sub | src/main/java/poly/RatPoly.java:240-250 | NaN when either operand is; otherwise the coefficient differences |
| Polys.InsertRow | src/main/java/poly/RatPoly.java:264-268 | the inner loop adds the products of one term with every term of the other factor |
| Polys.MulAsWritten | src/main/java/poly/RatPoly.java:260-271 | as written: coefficients are the sums of the products of terms whose exponents add up, with no NaN case |
| Polys.MulNaNByZero | src/main/java/poly/RatPoly.java:252-271 | as written, NaN times zero is the zero polynomial, not NaN |
| Polys.Mul | src/main/java/poly/RatPoly.java:252-271 | NaN when either factor is; otherwise a valid polynomial whose coefficient at e is the sum over exponent pairs adding up to e |
| Polys.DerivedCoeff | src/main/java/poly/RatPoly.java:340-346 | the derived terms are sorted, free of NaN, and have coefficient (e+1)·c(e+1) at each e |
| Polys.DerivedConsCoeff | src/main/java/poly/RatPoly.java:351-365 | the coefficient (e+1)·c(e+1) at each e carries over from the derivative of the tail to the derivative of the whole list |
| Polys.DifferentiateTerms | src/main/java/poly/RatPoly.java:351-365 | the loop with its remove-and-step-back leaves exactly the non-zero derivatives of the terms, in order |
| Polys.Differentiate | src/main/java/poly/RatPoly.java:340-367 | NaN for NaN; otherwise a valid polynomial with coefficient (e+1)·c(e+1) at e |
| Polys.AntiTerms | src/main/java/poly/RatPoly.java:385-392 | antidifferentiating every term keeps NaN-ness, leaves no constant term, and puts c(e)/(e+1) at e+1 |
| Polys.AntiDifferentiate | src/main/java/poly/RatPoly.java:369-396 | NaN for a NaN constant; NaN for a NaN polynomial; otherwise the constant at exponent 0 and c(e)/(e+1) at e+1 |
| Polys.DiffOfAntiDiff | src/main/java/poly/RatPoly.java:375-377 | differentiating the antiderivative gives back the polynomial |
| Polys.AntiDiffOfDiff | src/main/java/poly/RatPoly.java:343-345 | antidifferentiating the derivative with its constant term gives back the polynomial |
| Polys.RowShift | src/main/java/poly/RatPoly.java:262-268 | one row of the product shifts the other factor by the term's exponent and scales it by the term's coefficient |
| Polys.PairSumSplit | src/main/java/poly/RatPoly.java:333 | the product distributes over a sum in its second factor |
| Polys.SingleProduct | src/main/java/poly/RatPoly.java:333 | multiplying by a single term shifts and scales the coefficients |
| Polys.DivStep | src/main/java/poly/RatPoly.java:328-334 | one step of long division keeps u = v·quotient + remainder |
| Polys.LeadFactor | src/main/java/poly/RatPoly.java:331 | the factor is the remainder's leading coefficient over the divisor's, at the difference of the degrees |
| Polys.DivDegree | src/main/java/poly/RatPoly.java:331-334 | subtracting factor·v cancels the leading term, so the remainder's degree drops |
| Polys.DivideOnce | src/main/java/poly/RatPoly.java:330-335 | one loop pass keeps u = v·quotient + remainder and lowers the remainder's degree |
| Polys.Div | src/main/java/poly/RatPoly.java:286-338 | NaN when either is NaN or the divisor is zero; otherwise a valid quotient of degree at most u's, with a remainder of lower degree than v such that u = v·q + r |
| PolyStack.TopFirstAt | src/main/java/poly/RatPolyStack.java:121-125 | element i from the top is element size−1−i of the bottom-first list |
| PolyStack.TopFirstPush | src/main/java/poly/RatPolyStack.java:57 | pushing puts the element at the front of the top-first view |
| PolyStack.RatPolyStack.Contents | src/main/java/poly/RatPolyStack.java:9-25 | the abstraction function: element i of the stack from the top is element size−1−i of the `Stack` |
| PolyStack.RatPolyStack.constructor | src/main/java/poly/RatPolyStack.java:31-35 | the new stack is [] |
| PolyStack.RatPolyStack.Size | src/main/java/poly/RatPolyStack.java:37-49 | the counting loop returns the number of elements |
| PolyStack.RatPolyStack.Push | src/main/java/poly/RatPolyStack.java:51-63 | this_post = [p]:this |
| PolyStack.RatPolyStack.Pop | src/main/java/poly/RatPolyStack.java:65-76 | if this = [p]:S then it returns p and this_post = S |
| PolyStack.RatPolyStack.Dup | src/main/java/poly/RatPolyStack.java:78-90 | if this = [p]:S then this_post = [p, p]:S |
| PolyStack.RatPolyStack.Swap | src/main/java/poly/RatPolyStack.java:92-105 | if this = [p1, p2]:S then this_post = [p2, p1]:S |
| PolyStack.RatPolyStack.Clear | src/main/java/poly/RatPolyStack.java:107-118 | this_post = [] |
| PolyStack.RatPolyStack.GetNthFromTopAsWritten | src/main/java/poly/RatPolyStack.java:127-135 | as written: the element index places from the bottom |
| PolyStack.RatPolyStack.GetNthFromTop | src/main/java/poly/RatPolyStack.java:120-126 | if this = S:[p]:T with S.size() = index, then p |
| PolyStack.NthFromTopMismatch | src/main/java/poly/RatPolyStack.java:127-135 | on the stack [1, 0], getNthFromTop(0) as written returns 0, not the top 1 |
| PolyStack.RatPolyStack.Add | src/main/java/poly/RatPolyStack.java:137-149 | if this = [p1, p2]:S then this_post = [p1 + p2]:S |
| PolyStack.RatPolyStack.Sub | src/main/java/poly/RatPolyStack.java:151-164 | if this = [p1, p2]:S then this_post = [p2 − p1]:S |
| PolyStack.RatPolyStack.Mul | src/main/java/poly/RatPolyStack.java:166-178 | if this = [p1, p2]:S then this_post = [p1 · p2]:S |
| PolyStack.RatPolyStack.Div | src/main/java/poly/RatPolyStack.java:180-193 | if this = [p1, p2]:S then this_post = [p2 / p1]:S, truncating |
| PolyStack.RatPolyStack.Differentiate | src/main/java/poly/RatPolyStack.java:195-206 | if this = [p1]:S then this_post = [dp1/dx]:S |
| PolyStack.RatPolyStack.Integrate | src/main/java/poly/RatPolyStack.java:208-221 | if this = [p1]:S then this_post = [the antiderivative of p1 with constant 0]:S |

## Left out

- RatNum and RatTerm are not part of this model. `Terms` gives them the behaviour RatPoly relies on:
  - a coefficient is an exact rational or NaN, and NaN absorbs every operation;
  - division by zero gives NaN;
  - a zero or NaN coefficient goes with exponent 0;
  - a term's `add`, `mul` and `div` combine exponents as RatPoly uses them.
- RatPoly `eval` and `integrate` are left out because they use IEEE doubles. `toString` and `valueOf` are left out because they are text formatting and parsing. `equals` and `hashCode` are `Polys.Equals` and `Polys.HashCode`. `hashCode` takes the hash of a non-NaN term list as a parameter, because `List.hashCode` and RatTerm's `hashCode` are not part of this model.
- RatPoly `checkRep` and the class rep invariants are modelled as the predicates `Polys.Valid`, `Graphs.Graph.Valid`, `Campus.ModelConnector.Valid` and `PolyStack.RatPolyStack.Valid`. Java's `assert` statements are not modelled.
- PolyStack.RatPolyStack.Mul: the stack multiplies with the corrected `Polys.Mul`, so its new top is NaN when either factor is NaN. The source pushes the unguarded `p1.mul(p2)` (`RatPolyStack.java:177`), which gives the zero polynomial on the stacks [NaN, 0] and [0, NaN]: the mul row of "## Findings" and `Polys.MulNaNByZero`. When neither factor is NaN the two give the same coefficients, since both `Polys.Mul` and `Polys.MulAsWritten` are proved equal to the convolution sum.
- Polys.SortedInsert: `sortedInsert` edits its list argument in place. The model returns the new list as a value, so aliasing of that list is not modelled.
- The copy `new RatPoly(List)` makes without copying is not modelled as aliasing, because term lists are values in the model.
- Java `int` exponents and counters are unbounded here: overflow of `degree()`, exponents and `size()` at 2^31 is not modelled.
- The stack's `iterator()` is modelled as indexing into the list from the bottom. `RatPolyStack.Valid` requires every element to be a well-formed RatPoly, which every RatPoly constructor ensures; the Java rep invariant says only that elements are non-null.
- Pathfinder.FindShortestPath: the least-cost guarantee is proved only for non-negative weights. With a negative edge Dijkstra's method does not promise it, and the campus data has none (checkRep asserts it).
- The priority queue of `findShortestPath` is modelled as a sequence with a linear least-cost scan. Ties between equal-cost paths may be broken differently from `PriorityQueue`, so only the cost of the returned path is fixed, not which of several shortest paths it is.
- Marvel.FindPath visits each character's edges in (child, label) order, the order of the commented-out `Edge.compareTo` and of the test driver's sorter. With that order fixed, the result is the lexicographically least of the shortest walks, edge by edge in that order. `HashMap` and `HashSet` iteration order elsewhere is not modelled: `Enumerate` returns the elements in some order.
- MarvelPath.java's `findPath` is a duplicate of MarvelPaths.java's and is modelled once.
- The `main` methods, the file parsers, the campus data files, the Spark server and the JavaScript user interfaces are left out, because they are I/O. The records the parsers would produce are parameters of `Campus.ModelConnector.constructor` and `Marvel.BuildGraph`.
- Graphs.Graph.AddChild, Graphs.Graph.HasLabel, Graphs.Graph.RemoveEdgeFrom, Marvel.BuildGraph and Campus.BuildGraph use value equality on edges, the corrected `Edge.equals`. The source's `HashSet<Edge>` uses the hash-comparing `equals` (`Edge.java:85-86`), so for children or labels whose hash codes collide it differs: `addChild` refuses the second edge and returns false, `hasLabel` answers true for an edge that is absent, `removeEdgeFrom` removes the colliding edge, and both `buildGraph`s drop the edges between two such characters of one book ("Aa" and "BB"). The mismatch itself is the first row of "## Findings".
- Strings are sequences of Dafny characters. `String.hashCode` and `compareTo` are computed over those characters, which stand for UTF-16 code units.
- `Double` edge weights are modelled as mathematical reals, so there is no rounding and no NaN or infinity weights.

## Findings

| source | as written | input that shows it | evidently intended | confidence | as-written member | corrected member |
|---|---|---|---|---|---|---|
| src/main/java/graph/Edge.java:80-88 | `equals` compares the hash codes of child and label, not the values | edges to "Aa" and to "BB" with the same label: different, but "Aa" and "BB" both hash to 2112 | equal exactly when child and label are equal | not executed | Edges.EqualsAsWrittenCollision | Edges.Equals |
| src/main/java/poly/RatPolyStack.java:127-135 | `getNthFromTop` advances the stack's iterator, which runs from the bottom | stack with 1 on top of 0: getNthFromTop(0) returns 0 | the element index places from the top | not executed | PolyStack.NthFromTopMismatch | PolyStack.RatPolyStack.GetNthFromTop |
| src/main/java/marvel/MarvelPaths.java:67 | `new TreeSet<>(graph.getEdges(node))` on `Edge`, which does not implement `Comparable` (its `compareTo` is commented out) | any search from a character that has an edge to a different end: ClassCastException | visit the edges in (child, label) order | not executed | Marvel.FindPathAsWritten | Marvel.FindPath |
| src/main/java/poly/RatPoly.java:260-271 | `mul` has no NaN guard, so a NaN factor times the zero polynomial gives zero | RatPoly.NaN.mul(RatPoly.ZERO) returns 0 | NaN when either factor is NaN, as documented | not executed | Polys.MulNaNByZero | Polys.Mul |
