/**
 * `DynaPlex::Graph`: a directed graph with positive edge weights, built from
 * an edge list or a grid of arrows, whose all-pairs shortest distances and
 * first hops are precomputed at construction.
 *
 * Construction throws on bad input in the source; here it is a static method
 * returning a `Result`. The configuration arrives already read: an absent key
 * is `None`.
 */
module Graphs {
  import opened Wrappers
  import opened Arith
  import opened GraphEdges
  import opened GraphGrid
  import opened GraphPaths

  /** The keys the graph constructor reads. */
  datatype GraphConfig = GraphConfig(
    format: Option<string>,
    edges: Option<seq<EdgeConfig>>,
    rows: Option<seq<string>>,
    graphType: Option<string>,
    allowDoubleEdges: Option<bool>)

  /** `Graph::Coords`. */
  datatype Coords = Coords(row: int, col: int)

  /** What the format and type branches of the constructor produce, before validation. */
  datatype RawGraph = RawGraph(edges: seq<Edge>, grid: Option<Grid>)

  /** The "format" key, "edge_list" when absent. */
  function Format(config: GraphConfig): (f: string)
    ensures config.format.None? ==> f == "edge_list"
    ensures config.format.Some? ==> f == config.format.value
  {
    config.format.GetOr("edge_list")
  }

  /** The "type" key, "directed" when absent. */
  function GraphType(config: GraphConfig): (t: string)
    ensures config.graphType.None? ==> t == "directed"
    ensures config.graphType.Some? ==> t == config.graphType.value
  {
    config.graphType.GetOr("directed")
  }

  /** The constructor reads `rows[0]` of a grid without checking that a row exists. */
  predicate GridRowsPresent(config: GraphConfig) {
    Format(config) == "grid" && config.rows.Some? ==> |config.rows.value| > 0
  }

  /** The edge list after `type = "undirected"` doubling. */
  function Doubled(E: seq<Edge>): (out: seq<Edge>)
    ensures |out| == 2 * |E| && out[..|E|] == E
    ensures forall i :: 0 <= i < |E| ==> out[|E| + i] == Reversed(E[i])
  {
    E + seq(|E|, i requires 0 <= i < |E| => Reversed(E[i]))
  }

  /** A reversed grid step is a grid step. */
  lemma ReversedGridStep(e: Edge, width: nat, height: nat)
    requires IsGridStep(e, width, height)
    ensures IsGridStep(Reversed(e), width, height)
  {
  }

  /** The format branch of the constructor: the edges as read, with the grid for format "grid". */
  function FormatEdges(config: GraphConfig): (r: Result<RawGraph, GraphError>)
    requires GridRowsPresent(config)
    ensures r.Success? ==> forall i :: 0 <= i < |r.value.edges| ==> r.value.edges[i].weight > 0.0
    ensures r.Success? && r.value.grid.Some? ==>
      forall i :: 0 <= i < |r.value.edges| ==> IsGridStep(r.value.edges[i], r.value.grid.value.width, r.value.grid.value.height)
    ensures r.Success? ==> (r.value.grid.Some? <==> Format(config) == "grid")
    ensures Format(config) != "edge_list" && Format(config) != "grid" ==> r == Failure(UnsupportedFormat(Format(config)))
  {
    var format := Format(config);
    if format == "edge_list" then
      if config.edges.None? then Failure(MissingKey("edges"))
      else
        var es := EdgesFromConfig(config.edges.value);
        if es.Failure? then Failure(es.error) else Success(RawGraph(es.value, None))
    else if format == "grid" then
      if config.rows.None? then Failure(MissingKey("rows"))
      else
        var g := GridSpec(config.rows.value);
        if g.Failure? then Failure(g.error)
        else
          assert forall i :: 0 <= i < |g.value.edges| ==> IsGridStep(g.value.edges[i], g.value.width, g.value.height) by {
            assert forall i :: 0 <= i < |g.value.edges| ==> g.value.edges[i] in g.value.edges;
          }
          Success(RawGraph(g.value.edges, Some(g.value)))
    else Failure(UnsupportedFormat(format))
  }

  /** The format and type branches of the constructor. */
  function ConfigEdges(config: GraphConfig): (r: Result<RawGraph, GraphError>)
    requires GridRowsPresent(config)
    ensures r.Success? ==> forall i :: 0 <= i < |r.value.edges| ==> r.value.edges[i].weight > 0.0
    ensures r.Success? && r.value.grid.Some? ==>
      forall i :: 0 <= i < |r.value.edges| ==> IsGridStep(r.value.edges[i], r.value.grid.value.width, r.value.grid.value.height)
    ensures r.Success? ==> (r.value.grid.Some? <==> Format(config) == "grid")
    ensures r.Success? ==> GraphType(config) == "directed" || GraphType(config) == "undirected"
    ensures Format(config) != "edge_list" && Format(config) != "grid" ==> r == Failure(UnsupportedFormat(Format(config)))
  {
    var base := FormatEdges(config);
    if base.Failure? then base
    else
      var t := GraphType(config);
      if t == "undirected" then
        var E := base.value.edges;
        assert base.value.grid.Some? ==> forall i :: 0 <= i < |E| ==>
          IsGridStep(Reversed(E[i]), base.value.grid.value.width, base.value.grid.value.height);
        Success(base.value.(edges := Doubled(E)))
      else if t == "directed" then base
      else Failure(UnsupportedType(t))
  }

  /** The edge list `ValidateEdgeVectorAndComputeNumNodes` leaves: sorted, and merged when double edges are allowed. */
  function Validated(raw: seq<Edge>, allowDoubleEdges: bool): seq<Edge> {
    if allowDoubleEdges then Merged(SortByKey(raw)) else SortByKey(raw)
  }

  /** Distances to `d` from every source, as one column of the table. */
  ghost function ColumnOf(dist: seq<seq<Dist>>, d: nat): (col: seq<Dist>)
    ensures |col| == |dist| && forall u :: 0 <= u < |dist| && d < |dist[u]| ==> col[u] == dist[u][d]
  {
    seq(|dist|, u requires 0 <= u < |dist| => if d < |dist[u]| then dist[u][d] else Infinite)
  }

  /** Validation keeps the edges inside the node range, and leaves one edge per key when it succeeds. */
  lemma ValidatedWithin(raw: seq<Edge>, n: nat, allowDoubleEdges: bool)
    requires EdgesWithin(raw, n)
    ensures EdgesWithin(Validated(raw, allowDoubleEdges), n)
    ensures allowDoubleEdges || StrictlySorted(SortByKey(raw)) ==> StrictlySorted(Validated(raw, allowDoubleEdges))
  {
    var sorted := SortByKey(raw);
    PermutationKeepsWithin(raw, sorted, n);
    if allowDoubleEdges {
      var merged := Merged(sorted);
      MergedFromInput(sorted);
      MergedStrictlySorted(sorted);
      forall i | 0 <= i < |merged|
        ensures merged[i].orig < n && merged[i].dest < n && merged[i].weight > 0.0
      {
        var j :| 0 <= j < |sorted| && sorted[j] == merged[i];
      }
    }
  }

  /**
   * The steps of `ValidateEdgeVectorAndComputeNumNodes` on the edge list:
   * the node count, the sorted list, and the list that is kept, or the
   * duplicate-edge error.
   */
  method ValidateEdges(raw: seq<Edge>, start: nat, allowDoubleEdges: bool)
    returns (n: nat, sorted: seq<Edge>, r: Result<seq<Edge>, GraphError>)
    requires forall i :: 0 <= i < |raw| ==> raw[i].weight > 0.0
    ensures n == NodeCount(raw, start) && sorted == SortByKey(raw)
    ensures r.Success? <==> allowDoubleEdges || StrictlySorted(sorted)
    ensures r.Failure? ==> ReportsFirstDuplicate(sorted, r.error)
    ensures r.Success? ==>
      r.value == Validated(raw, allowDoubleEdges) && StrictlySorted(r.value) && EdgesWithin(r.value, n)
  {
    n := ComputeNumNodes(raw, start);
    assert EdgesWithin(raw, n);
    ValidatedWithin(raw, n, allowDoubleEdges);
    sorted := SortByKey(raw);
    if !allowDoubleEdges {
      var check := CheckNoDuplicates(sorted);
      if check.Failure? {
        return n, sorted, Failure(check.error);
      }
      return n, sorted, Success(sorted);
    }
    var merged := MergeDoubleEdges(sorted);
    return n, sorted, Success(merged);
  }

  /**
   * The loop of `Path`: follow the recorded first hops from `o` until `d`.
   * Each hop lowers the remaining distance by the edge's weight, so the
   * edges taken form a walk whose weight is the distance.
   */
  method FollowHops(E: seq<Edge>, n: nat, dist: seq<seq<Dist>>, hops: seq<seq<int>>, o: nat, d: nat)
    returns (path: seq<Edge>)
    requires TablesValid(E, n, dist, hops) && o < n && d < n && dist[o][d].Finite?
    ensures IsWalk(E, o, d, path) && WalkWeight(path) == dist[o][d].value
  {
    path := [];
    var current: nat := o;
    while current != d
      invariant current < n && dist[current][d].Finite?
      invariant IsWalk(E, o, current, path)
      invariant WalkWeight(path) + dist[current][d].value == dist[o][d].value
      decreases Closer(ColumnOf(dist, d), current)
    {
      FirstHopDistance(E, n, dist, hops, current, d);
      var edgeIndex := hops[current][d];
      var e := E[edgeIndex];
      WalkSnoc(E, o, current, path, e);
      path := path + [e];
      assert Closer(ColumnOf(dist, d), e.dest) < Closer(ColumnOf(dist, d), current) by {
        assert e.dest in Closer(ColumnOf(dist, d), current);
      }
      current := e.dest;
    }
    assert RowValid(E, n, d, dist[d], hops[d]);
  }

  /** A grid graph has no more nodes than cells: every edge is a grid step. */
  lemma GridNodeBound(raw: seq<Edge>, width: nat, height: nat)
    requires forall i :: 0 <= i < |raw| ==> IsGridStep(raw[i], width, height)
    ensures NodeCount(raw, 0) <= width * height
  {
    var n := NodeCount(raw, 0);
    if n > 0 {
      var i :| 0 <= i < |raw| && (raw[i].orig == n - 1 || raw[i].dest == n - 1);
      assert IsGridStep(raw[i], width, height);
    }
  }

  /** `Graph`. */
  class Graph {
    var numNodes: nat
    var edges: seq<Edge>
    var edgeIndices: seq<seq<int>>
    var distances: seq<seq<Dist>>
    var formatIsGrid: bool
    var width: int
    var height: int

    /**
     * The state every constructed graph is in: the edges are sorted with one
     * edge per (orig, dest) key, they join nodes below `numNodes` with
     * positive weights, the tables hold shortest distances and first hops,
     * and a grid has positive dimensions.
     */
    ghost predicate Valid()
      reads this
    {
      TablesValid(edges, numNodes, distances, edgeIndices) && StrictlySorted(edges) &&
      (formatIsGrid ==> width >= 1 && height >= 1)
    }

    /** `Graph()`: no nodes, no edges, not a grid. */
    constructor()
      ensures numNodes == 0 && edges == [] && distances == [] && edgeIndices == [] && !formatIsGrid
      ensures Valid()
    {
      numNodes := 0;
      edges := [];
      edgeIndices := [];
      distances := [];
      formatIsGrid := false;
      width, height := 0, 0;
    }

    /** `Graph(const VarGroup&)`. */
    static method FromConfig(config: GraphConfig) returns (r: Result<Graph, GraphError>)
      requires GridRowsPresent(config)
      ensures var raw := ConfigEdges(config);
        raw.Failure? ==> r.Failure? && r.error == raw.error
      ensures var raw := ConfigEdges(config);
        raw.Success? && r.Failure? ==> ReportsFirstDuplicate(SortByKey(raw.value.edges), r.error)
      ensures var raw := ConfigEdges(config);
        raw.Success? ==>
          (r.Success? <==> config.allowDoubleEdges.GetOr(false) || StrictlySorted(SortByKey(raw.value.edges)))
      ensures r.Success? ==>
        var raw := ConfigEdges(config).value;
        fresh(r.value) && r.value.Valid() &&
        r.value.edges == Validated(raw.edges, config.allowDoubleEdges.GetOr(false)) &&
        r.value.numNodes == NodeCount(raw.edges, 0) &&
        r.value.formatIsGrid == raw.grid.Some? &&
        (raw.grid.Some? ==>
          r.value.width == raw.grid.value.width && r.value.height == raw.grid.value.height &&
          r.value.numNodes <= raw.grid.value.width * raw.grid.value.height)
    {
      var g := new Graph();
      var loaded := g.LoadEdges(config);
      if loaded.Failure? {
        return Failure(loaded.error);
      }
      ghost var raw := ConfigEdges(config).value;
      var v := g.ValidateEdgeVectorAndComputeNumNodes(config.allowDoubleEdges.GetOr(false));
      if v.Failure? {
        return Failure(v.error);
      }
      if raw.grid.Some? {
        GridNodeBound(raw.edges, raw.grid.value.width, raw.grid.value.height);
      }
      g.PCSP();
      return Success(g);
    }

    /** The format branch of the constructor, filling the fields as it goes. */
    method LoadFormat(config: GraphConfig) returns (r: Result<(), GraphError>)
      requires GridRowsPresent(config)
      requires numNodes == 0 && !formatIsGrid
      modifies this
      ensures numNodes == 0 && distances == old(distances) && edgeIndices == old(edgeIndices)
      ensures r.Failure? <==> FormatEdges(config).Failure?
      ensures r.Failure? ==> r.error == FormatEdges(config).error
      ensures r.Success? ==>
        var raw := FormatEdges(config).value;
        edges == raw.edges && formatIsGrid == raw.grid.Some? &&
        (raw.grid.Some? ==> width == raw.grid.value.width >= 1 && height == raw.grid.value.height >= 1)
    {
      var format := Format(config);
      if format == "edge_list" {
        if config.edges.None? {
          return Failure(MissingKey("edges"));
        }
        var es := EdgesFromConfig(config.edges.value);
        if es.Failure? {
          return Failure(es.error);
        }
        edges := es.value;
      } else if format == "grid" {
        formatIsGrid := true;
        if config.rows.None? {
          return Failure(MissingKey("rows"));
        }
        var rows := config.rows.value;
        height := |rows|;
        width := CountChar(rows[0], '|') + 1;
        var grid := ParseGrid(rows);
        if grid.Failure? {
          return Failure(grid.error);
        }
        edges := grid.value.edges;
      } else {
        return Failure(UnsupportedFormat(format));
      }
      return Success(());
    }

    /** The format and type branches of the constructor. */
    method LoadEdges(config: GraphConfig) returns (r: Result<(), GraphError>)
      requires GridRowsPresent(config)
      requires numNodes == 0 && !formatIsGrid
      modifies this
      ensures numNodes == 0 && distances == old(distances) && edgeIndices == old(edgeIndices)
      ensures r.Failure? <==> ConfigEdges(config).Failure?
      ensures r.Failure? ==> r.error == ConfigEdges(config).error
      ensures r.Success? ==>
        var raw := ConfigEdges(config).value;
        edges == raw.edges && formatIsGrid == raw.grid.Some? &&
        (raw.grid.Some? ==> width == raw.grid.value.width >= 1 && height == raw.grid.value.height >= 1)
    {
      var base := LoadFormat(config);
      if base.Failure? {
        return base;
      }
      var t := GraphType(config);
      if t == "undirected" {
        var doubled := AddReversedEdges(edges);
        assert doubled == Doubled(edges);
        edges := doubled;
      } else if t != "directed" {
        return Failure(UnsupportedType(t));
      }
      return Success(());
    }

    /**
     * `ValidateEdgeVectorAndComputeNumNodes`: count the nodes, sort the edges,
     * then reject or merge edges with a repeated (orig, dest) key.
     */
    method ValidateEdgeVectorAndComputeNumNodes(allowDoubleEdges: bool) returns (r: Result<(), GraphError>)
      requires forall i :: 0 <= i < |edges| ==> edges[i].weight > 0.0
      modifies this
      ensures formatIsGrid == old(formatIsGrid) && width == old(width) && height == old(height)
      ensures distances == old(distances) && edgeIndices == old(edgeIndices)
      ensures numNodes == NodeCount(old(edges), old(numNodes))
      ensures r.Success? <==> allowDoubleEdges || StrictlySorted(SortByKey(old(edges)))
      ensures r.Failure? ==> ReportsFirstDuplicate(SortByKey(old(edges)), r.error)
      ensures r.Success? ==>
        edges == Validated(old(edges), allowDoubleEdges) && StrictlySorted(edges) && EdgesWithin(edges, numNodes)
    {
      var n, sorted, validated := ValidateEdges(edges, numNodes, allowDoubleEdges);
      numNodes, edges := n, sorted;
      if validated.Failure? {
        return Failure(validated.error);
      }
      edges := validated.value;
      return Success(());
    }

    /** `PCSP`: one shortest-path search and backtrack per source node. */
    method PCSP()
      requires EdgesWithin(edges, numNodes) && UniqueKeys(edges)
      modifies this
      ensures numNodes == old(numNodes) && edges == old(edges)
      ensures formatIsGrid == old(formatIsGrid) && width == old(width) && height == old(height)
      ensures TablesValid(edges, numNodes, distances, edgeIndices)
    {
      var dist: seq<seq<Dist>> := [];
      var hops: seq<seq<int>> := [];
      for source := 0 to numNodes
        invariant numNodes == old(numNodes) && edges == old(edges)
        invariant formatIsGrid == old(formatIsGrid) && width == old(width) && height == old(height)
        invariant |dist| == source && |hops| == source
        invariant forall s :: 0 <= s < source ==> RowValid(edges, numNodes, s, dist[s], hops[s])
      {
        var row, hop := ShortestRow(edges, numNodes, source);
        dist := dist + [row];
        hops := hops + [hop];
      }
      distances := dist;
      edgeIndices := hops;
    }

    // ----- grid coordinates -----

    /** `NodeAt`: `row * width + col` for a cell inside a grid graph. */
    function NodeAt(row: int, col: int): (r: Result<int, GraphError>)
      reads this
      ensures r.Success? <==> formatIsGrid && 0 <= row < height && 0 <= col < width
      ensures !formatIsGrid ==> r == Failure(NotGrid)
      ensures formatIsGrid && !(0 <= row < height) ==> r == Failure(InvalidRow)
      ensures formatIsGrid && 0 <= row < height && !(0 <= col < width) ==> r == Failure(InvalidCol)
    {
      if !formatIsGrid then Failure(NotGrid)
      else if row < 0 || row >= height then Failure(InvalidRow)
      else if col < 0 || col >= width then Failure(InvalidCol)
      else Success(row * width + col)
    }

    /** `Width`. */
    function Width(): (r: Result<int, GraphError>)
      reads this
      ensures r.Success? <==> formatIsGrid
    {
      if !formatIsGrid then Failure(NotGrid) else Success(width)
    }

    /** `Height`. */
    function Height(): (r: Result<int, GraphError>)
      reads this
      ensures r.Success? <==> formatIsGrid
    {
      if !formatIsGrid then Failure(NotGrid) else Success(height)
    }

    /** `Coordinates`: row by division, column as the remainder. */
    function Coordinates(node: int): (r: Result<Coords, GraphError>)
      reads this
      ensures r.Success? <==> formatIsGrid && 0 <= node < width * height
      ensures !formatIsGrid ==> r == Failure(NotGrid)
      ensures formatIsGrid && !(0 <= node < width * height) ==> r == Failure(NodeNotInGrid)
    {
      if !formatIsGrid then Failure(NotGrid)
      else if node < 0 || node >= width * height then Failure(NodeNotInGrid)
      else
        var row := node / width;
        Success(Coords(row, node - row * width))
    }

    /** `Coordinates` undoes `NodeAt`. */
    lemma CoordinatesOfNodeAt(row: int, col: int)
      requires Valid() && NodeAt(row, col).Success?
      ensures Coordinates(NodeAt(row, col).value) == Success(Coords(row, col))
    {
      GridIndexCoords(row, col, width);
      GridIndexBound(row, col, width, height);
    }

    /** `NodeAt` undoes `Coordinates`: every grid node is the node at its coordinates. */
    lemma NodeAtOfCoordinates(node: int)
      requires Valid() && Coordinates(node).Success?
      ensures var c := Coordinates(node).value;
        0 <= c.row < height && 0 <= c.col < width && NodeAt(c.row, c.col) == Success(node)
    {
      var q, m := node / width, node % width;
      assert node == q * width + m;
    }

    // ----- queries -----

    predicate InRange(o: int, d: int)
      reads this
    {
      0 <= o < numNodes && 0 <= d < numNodes
    }

    /** `ExistsPath`: whether the distance is finite, which is whether some walk leads from `o` to `d`. */
    function ExistsPath(o: int, d: int): (r: Result<bool, GraphError>)
      requires Valid()
      reads this
      ensures r.Success? <==> InRange(o, d)
      ensures r.Failure? ==> r.error == InvalidNode
      ensures r.Success? ==> (r.value <==> HasWalk(edges, o, d))
    {
      if o < 0 || o >= numNodes || d < 0 || d >= numNodes then Failure(InvalidNode)
      else
        RowIsShortest(edges, numNodes, o, distances[o], edgeIndices[o], d);
        Success(distances[o][d].Finite?)
    }

    /** `Distance`: the weight of a lightest walk from `o` to `d`; an error when there is none. */
    function Distance(o: int, d: int): (r: Result<real, GraphError>)
      requires Valid()
      reads this
      ensures r.Success? <==> InRange(o, d) && HasWalk(edges, o, d)
      ensures !InRange(o, d) ==> r == Failure(InvalidNode)
      ensures InRange(o, d) && !HasWalk(edges, o, d) ==> r == Failure(NoPath)
      ensures r.Success? ==>
        HasWalkOfWeight(edges, o, d, r.value) &&
        forall p :: IsWalk(edges, o, d, p) ==> r.value <= WalkWeight(p)
    {
      if o < 0 || o >= numNodes || d < 0 || d >= numNodes then Failure(InvalidNode)
      else
        RowIsShortest(edges, numNodes, o, distances[o], edgeIndices[o], d);
        if distances[o][d].Infinite? then Failure(NoPath)
        else Success(distances[o][d].value)
    }

    /**
     * `NextEdge`: the first edge of a shortest walk from `o` to `d`. It leaves
     * `o`, and the distance from its end to `d` is the rest of the distance.
     */
    function NextEdge(o: int, d: int): (r: Result<Edge, GraphError>)
      requires Valid()
      reads this
      ensures r.Success? <==> InRange(o, d) && HasWalk(edges, o, d) && o != d
      ensures !InRange(o, d) ==> r == Failure(InvalidNode)
      ensures InRange(o, d) && !HasWalk(edges, o, d) ==> r == Failure(NoPath)
      ensures InRange(o, d) && o == d ==> r == Failure(OriginIsDestination)
      ensures r.Success? ==>
        r.value in edges && r.value.orig == o && r.value.dest < numNodes &&
        distances[o][d].Finite? && distances[r.value.dest][d].Finite? &&
        distances[r.value.dest][d].value == distances[o][d].value - r.value.weight
    {
      if o < 0 || o >= numNodes || d < 0 || d >= numNodes then Failure(InvalidNode)
      else
        RowIsShortest(edges, numNodes, o, distances[o], edgeIndices[o], d);
        if distances[o][d].Infinite? then Failure(NoPath)
        else if o == d then Failure(OriginIsDestination)
        else
          FirstHopDistance(edges, numNodes, distances, edgeIndices, o, d);
          var edgeIndex := edgeIndices[o][d];
          Success(edges[edgeIndex])
    }

    /**
     * `Path`: the first hops followed from `o` until `d`; a walk from `o` to
     * `d` whose weight is the distance, so a lightest one.
     */
    method Path(o: int, d: int) returns (r: Result<seq<Edge>, GraphError>)
      requires Valid()
      ensures r.Success? <==> InRange(o, d) && HasWalk(edges, o, d)
      ensures !InRange(o, d) ==> r == Failure(InvalidNode)
      ensures InRange(o, d) && !HasWalk(edges, o, d) ==> r == Failure(NoPath)
      ensures r.Success? ==>
        IsWalk(edges, o, d, r.value) && distances[o][d].Finite? && WalkWeight(r.value) == distances[o][d].value
    {
      if o < 0 || o >= numNodes || d < 0 || d >= numNodes {
        return Failure(InvalidNode);
      }
      RowIsShortest(edges, numNodes, o, distances[o], edgeIndices[o], d);
      if distances[o][d].Infinite? {
        return Failure(NoPath);
      }
      var path := FollowHops(edges, numNodes, distances, edgeIndices, o, d);
      return Success(path);
    }
  }
}
