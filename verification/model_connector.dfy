/**
 * pathfinder/ModelConnector.java: the campus model behind the path-finding
 * user interfaces. It keeps a graph of campus coordinates joined by walkways
 * labelled with their lengths, and two tables keyed by a building's short
 * name: its coordinate and its long name. The building and walkway records
 * the constructor reads from the campus data files are its inputs here.
 */
module Campus {
  import opened Wrappers
  import opened Edges
  import opened Graphs
  import opened Pathfinder

  /** A coordinate on the campus map. */
  datatype Point = Point(x: real, y: real)

  /** One record of the buildings file. */
  datatype CampusBuilding = CampusBuilding(shortName: string, longName: string, x: real, y: real)

  /** One record of the walkways file: a segment from (x1, y1) to (x2, y2) of the given length. */
  datatype CampusPath = CampusPath(x1: real, y1: real, x2: real, y2: real, distance: real)

  type Walkways = map<Point, set<Edge<Point, real>>>

  /** The message of the exceptions thrown for an unknown short name. */
  const NoSuchBuilding: string := "building does not exists"
  /** getCoordinate spells its message differently. */
  const NoSuchBuildingCoordinate: string := "building does not exist"

  function StartOf(p: CampusPath): Point {
    Point(p.x1, p.y1)
  }

  function EndPoint(p: CampusPath): Point {
    Point(p.x2, p.y2)
  }

  /** The directed edge a walkway record contributes: to its end, labelled with its length. */
  function EdgeOf(p: CampusPath): Edge<Point, real> {
    Edge(EndPoint(p), p.distance)
  }

  /**
   * One step of buildGraph: both endpoints become nodes (if they were not
   * yet), then the start gets the edge to the end.
   */
  function AddWalkway(g: Walkways, p: CampusPath): Walkways {
    var g1 := if StartOf(p) in g then g else g[StartOf(p) := {}];
    var g2 := if EndPoint(p) in g1 then g1 else g1[EndPoint(p) := {}];
    g2[StartOf(p) := g2[StartOf(p)] + {EdgeOf(p)}]
  }

  /** The graph buildGraph makes of the records, taken in order. */
  function WalkwayGraph(paths: seq<CampusPath>): Walkways
    decreases |paths|
  {
    if paths == [] then map[]
    else AddWalkway(WalkwayGraph(paths[..|paths| - 1]), paths[|paths| - 1])
  }

  /** The nodes are the endpoints of the records, and the edges are exactly one per distinct record. */
  ghost predicate DescribesWalkways(g: Walkways, paths: seq<CampusPath>) {
    && (forall n :: n in g <==> exists p :: p in paths && (n == StartOf(p) || n == EndPoint(p)))
    && (forall n, e :: n in g ==> (e in g[n] <==> exists p :: p in paths && StartOf(p) == n && e == EdgeOf(p)))
  }

  /** The graph of the records has exactly their endpoints as nodes and their segments as edges. */
  lemma {:induction false} WalkwayGraphContents(paths: seq<CampusPath>)
    ensures DescribesWalkways(WalkwayGraph(paths), paths)
    decreases |paths|
  {
    if paths != [] {
      var init, p := paths[..|paths| - 1], paths[|paths| - 1];
      WalkwayGraphContents(init);
      assert paths == init + [p];
      var g := WalkwayGraph(paths);
      forall n
        ensures n in g <==> exists q :: q in paths && (n == StartOf(q) || n == EndPoint(q))
      {
        if n in g && n != StartOf(p) && n != EndPoint(p) {
          var q :| q in init && (n == StartOf(q) || n == EndPoint(q));
          assert q in paths;
        }
      }
      forall n, e | n in g
        ensures e in g[n] <==> exists q :: q in paths && StartOf(q) == n && e == EdgeOf(q)
      {
        if e in g[n] && !(n == StartOf(p) && e == EdgeOf(p)) {
          var q :| q in init && StartOf(q) == n && e == EdgeOf(q);
          assert q in paths;
        }
      }
    }
  }

  /** A record that repeats an earlier one adds nothing. */
  lemma RepeatedWalkway(paths: seq<CampusPath>, p: CampusPath)
    requires p in paths
    ensures WalkwayGraph(paths + [p]) == WalkwayGraph(paths)
  {
    WalkwayGraphContents(paths);
    var g := WalkwayGraph(paths);
    assert (paths + [p])[..|paths|] == paths;
    assert StartOf(p) in g && EndPoint(p) in g;
    assert g[StartOf(p)] + {EdgeOf(p)} == g[StartOf(p)];
  }

  /** The records' graph satisfies the Graph invariant: every edge leads to a node. */
  lemma WalkwayGraphClosed(paths: seq<CampusPath>)
    ensures Closed(WalkwayGraph(paths))
  {
    WalkwayGraphContents(paths);
    var g := WalkwayGraph(paths);
    forall n, e: Edge<Point, real> | n in g && e in g[n]
      ensures e.child in g
    {
      var q :| q in paths && StartOf(q) == n && e == EdgeOf(q);
    }
  }

  /** When no record has a negative length, no edge has a negative label. */
  lemma WalkwayGraphNonNegative(paths: seq<CampusPath>)
    requires forall p :: p in paths ==> p.distance >= 0.0
    ensures NonNegative(WalkwayGraph(paths))
  {
    WalkwayGraphContents(paths);
    var g := WalkwayGraph(paths);
    forall n, e: Edge<Point, real> | n in g && e in g[n]
      ensures e.lbl >= 0.0
    {
      var q :| q in paths && StartOf(q) == n && e == EdgeOf(q);
    }
  }

  /**
   * buildGraph: a new graph with, for each record in turn, both endpoints
   * added as nodes and then the start-to-end edge, unless that edge is
   * already there.
   */
  method BuildGraph(paths: seq<CampusPath>) returns (g: Graph<Point, real>)
    ensures fresh(g) && g.Valid()
    ensures g.graph == WalkwayGraph(paths)
  {
    g := new Graph();
    var i := 0;
    while i < |paths|
      invariant 0 <= i <= |paths|
      invariant g.Valid() && g.graph == WalkwayGraph(paths[..i])
    {
      var p := paths[i];
      var start, end := StartOf(p), EndPoint(p);
      assert paths[..i + 1] == paths[..i] + [p];
      if !g.HasNode(start) {
        var _ := g.AddNode(start);
      }
      if !g.HasNode(end) {
        var _ := g.AddNode(end);
      }
      if !g.HasLabel(start, end, p.distance) {
        var added := g.AddChild(start, end, p.distance);
        assert added.Ok?;
      } else {
        assert g.graph[start] + {EdgeOf(p)} == g.graph[start];
      }
      i := i + 1;
    }
    assert paths[..i] == paths;
  }

  /** Record `k` is the first with its short name. */
  ghost predicate IsFirst(buildings: seq<CampusBuilding>, k: int)
    requires 0 <= k < |buildings|
  {
    forall j :: 0 <= j < k ==> buildings[j].shortName != buildings[k].shortName
  }

  /**
   * The two tables know exactly the short names of the first `n` records,
   * and hold what the first record of each short name says.
   */
  ghost predicate FirstWinsUpTo(buildings: seq<CampusBuilding>, n: int, coordinates: map<string, Point>,
                                names: map<string, string>)
    requires 0 <= n <= |buildings|
  {
    && (forall s :: s in coordinates <==> exists k :: 0 <= k < n && buildings[k].shortName == s)
    && names.Keys == coordinates.Keys
    && (forall k :: 0 <= k < n && IsFirst(buildings, k) ==>
          && coordinates[buildings[k].shortName] == Point(buildings[k].x, buildings[k].y)
          && names[buildings[k].shortName] == buildings[k].longName)
  }

  ghost predicate FirstWins(buildings: seq<CampusBuilding>, coordinates: map<string, Point>,
                            names: map<string, string>)
  {
    FirstWinsUpTo(buildings, |buildings|, coordinates, names)
  }

  /**
   * The constructor's loop over the building records: a short name already
   * in a table keeps the entry of its earlier record.
   */
  method LoadBuildings(buildings: seq<CampusBuilding>) returns (coordinates: map<string, Point>, names: map<string, string>)
    ensures FirstWins(buildings, coordinates, names)
  {
    coordinates, names := map[], map[];
    var i := 0;
    while i < |buildings|
      invariant 0 <= i <= |buildings|
      invariant FirstWinsUpTo(buildings, i, coordinates, names)
    {
      var b := buildings[i];
      if b.shortName !in coordinates {
        assert IsFirst(buildings, i);
        coordinates := coordinates[b.shortName := Point(b.x, b.y)];
      } else {
        assert !IsFirst(buildings, i);
      }
      if b.shortName !in names {
        names := names[b.shortName := b.longName];
      }
      i := i + 1;
    }
  }

  class ModelConnector {
    var graph: Graph<Point, real>
    /** Short name to coordinate. */
    var buildingCoordinates: map<string, Point>
    /** Short name to long name. */
    var shortToLong: map<string, string>

    /**
     * The graph keeps its own invariant (every edge's child is a node) and
     * both tables know the same buildings.
     */
    ghost predicate Valid()
      reads this, graph
    {
      graph.Valid() && buildingCoordinates.Keys == shortToLong.Keys
    }

    /**
     * Loads the buildings (first record of a short name wins) and the
     * walkway graph.
     */
    constructor (buildings: seq<CampusBuilding>, paths: seq<CampusPath>)
      ensures Valid()
      ensures FirstWins(buildings, buildingCoordinates, shortToLong)
      ensures graph.graph == WalkwayGraph(paths)
      ensures fresh(graph)
    {
      var coordinates, names := LoadBuildings(buildings);
      var g := BuildGraph(paths);
      buildingCoordinates := coordinates;
      shortToLong := names;
      graph := g;
    }

    /**
     * checkRep: every edge leads to a node and no edge has a negative
     * length. Its assertions pass exactly when this is true.
     */
    predicate CheckRep()
      reads this, graph
      ensures CheckRep() <==> Closed(graph.graph) && NonNegative(graph.graph)
    {
      forall n :: n in graph.graph ==>
        forall e :: e in graph.graph[n] ==> e.child in graph.graph && e.lbl >= 0.0
    }

    /** shortNameExists: true iff the short name is a building's. */
    function ShortNameExists(shortName: string): (b: bool)
      reads this
      ensures b <==> shortName in shortToLong
    {
      shortName in shortToLong
    }

    /** longNameForShort: the long name, or an exception for an unknown short name. */
    function LongNameForShort(shortName: string): (r: Result<string>)
      reads this
      ensures shortName !in shortToLong <==> r == Err(IllegalArgumentException(NoSuchBuilding))
      ensures shortName in shortToLong ==> r == Ok(shortToLong[shortName])
    {
      if shortName in shortToLong then Ok(shortToLong[shortName])
      else Err(IllegalArgumentException(NoSuchBuilding))
    }

    /** getCoordinate: the building's coordinate, or an exception for an unknown short name. */
    function GetCoordinate(shortName: string): (r: Result<Point>)
      reads this
      ensures shortName !in buildingCoordinates <==> r == Err(IllegalArgumentException(NoSuchBuildingCoordinate))
      ensures shortName in buildingCoordinates ==> r == Ok(buildingCoordinates[shortName])
    {
      if shortName in buildingCoordinates then Ok(buildingCoordinates[shortName])
      else Err(IllegalArgumentException(NoSuchBuildingCoordinate))
    }

    /** buildingNames: a copy of the short-to-long table. */
    function BuildingNames(): (r: map<string, string>)
      reads this
      ensures forall s :: s in r <==> ShortNameExists(s)
      ensures forall s :: s in r ==> Ok(r[s]) == LongNameForShort(s)
    {
      shortToLong
    }

    /**
     * findShortestPath: an exception unless both short names are buildings;
     * otherwise Dijkstra's search between their coordinates. A building
     * whose coordinate is no node of the graph makes the search itself
     * throw, unless both names are at the same coordinate.
     */
    method FindShortestPath(startShortName: string, endShortName: string) returns (r: Result<Option<Path<Point>>>)
      requires Valid()
      ensures startShortName !in buildingCoordinates || endShortName !in buildingCoordinates ==>
                r == Err(IllegalArgumentException(NoSuchBuilding))
      ensures startShortName in buildingCoordinates && endShortName in buildingCoordinates ==>
                var start, end := buildingCoordinates[startShortName], buildingCoordinates[endShortName];
                && (r.Err? <==> start !in graph.graph && start != end)
                && (r.Err? ==> r.error == IllegalArgumentException(ParentMissing))
                && (r.Ok? && r.value.Some? ==>
                      r.value.value.start == start && End(r.value.value) == end &&
                      IsWalk(graph.graph, start, r.value.value.steps))
                && (r.Ok? && r.value.Some? && CheckRep() ==>
                      forall es :: IsWalk(graph.graph, start, es) && EndOf(start, es) == end ==>
                        Cost(r.value.value) <= CostOf(es))
                && (r == Ok(None) ==> forall es :: IsWalk(graph.graph, start, es) ==> EndOf(start, es) != end)
    {
      if startShortName !in buildingCoordinates || endShortName !in buildingCoordinates {
        return Err(IllegalArgumentException(NoSuchBuilding));
      }
      var start := buildingCoordinates[startShortName];
      var end := buildingCoordinates[endShortName];
      r := Pathfinder.FindShortestPath(start, end, graph);
    }
  }

  /** The model the constructor loads from non-negative walkway lengths passes checkRep. */
  lemma LoadedRepOk(m: ModelConnector, paths: seq<CampusPath>)
    requires m.graph.graph == WalkwayGraph(paths)
    requires forall p :: p in paths ==> p.distance >= 0.0
    ensures m.CheckRep()
  {
    WalkwayGraphClosed(paths);
    WalkwayGraphNonNegative(paths);
  }
}
