/**
 * Edges of `DynaPlex::Graph` and the edge-list processing done while a graph
 * is built: validation of an edge read from configuration, undirected
 * doubling, the lexicographic sort by (orig, dest), the node count, and either
 * rejection of duplicate edges or their merge into the lightest one.
 *
 * Node ids are `uint32_t` in the source; here they are `nat` and the
 * configuration check keeps them at most `MaxUint32`. Weights are `real`.
 */
module GraphEdges {
  import opened Wrappers

  const MaxUint32: int := 0xFFFF_FFFF

  /** `Graph::Edge`; the weight defaults to 1 as in `Edge(orig, dest)`. */
  datatype Edge = Edge(orig: nat, dest: nat, weight: real := 1.0)

  /** `Edge()`: orig 0, dest 0, weight 1. */
  function DefaultEdge(): (e: Edge)
    ensures e.orig == 0 && e.dest == 0 && e.weight == 1.0
  {
    Edge(0, 0)
  }

  /** The errors `Graph` and `Edge` throw, one constructor per distinct message. */
  datatype GraphError =
    | MissingKey(key: string)
    | EndpointOutOfRange
    | SelfLoop
    | NonPositiveWeight
    | NotRectangular
    | ArrowOutside(direction: char, row: int, col: int)
    | UnrecognizedCharacter
    | UnsupportedFormat(format: string)
    | UnsupportedType(graphType: string)
    | DuplicateEdge(orig: nat, dest: nat)
    | NotGrid
    | InvalidRow
    | InvalidCol
    | NodeNotInGrid
    | InvalidNode
    | NoPath
    | PathConstructionFailed
    | OriginIsDestination
    | NextEdgeNotFound

  /** An edge entry of the configuration; a key may be absent. */
  datatype EdgeConfig = EdgeConfig(orig: Option<int>, dest: Option<int>, weight: Option<real>)

  /** `Edge(const VarGroup&)`: read, range-check, reject self-loops, default and check the weight. */
  function EdgeFromConfig(c: EdgeConfig): (r: Result<Edge, GraphError>)
    ensures r.Success? <==>
      c.orig.Some? && c.dest.Some? &&
      0 <= c.orig.value <= MaxUint32 && 0 <= c.dest.value <= MaxUint32 &&
      c.orig.value != c.dest.value && c.weight.GetOr(1.0) > 0.0
    ensures r.Success? ==>
      r.value.orig == c.orig.value && r.value.dest == c.dest.value && r.value.weight == c.weight.GetOr(1.0)
    ensures c.orig.None? ==> r == Failure(MissingKey("orig"))
    ensures c.orig.Some? && c.dest.None? ==> r == Failure(MissingKey("dest"))
  {
    if c.orig.None? then Failure(MissingKey("orig"))
    else if c.dest.None? then Failure(MissingKey("dest"))
    else
      var o, d := c.orig.value, c.dest.value;
      if o < 0 || o > MaxUint32 || d < 0 || d > MaxUint32 then Failure(EndpointOutOfRange)
      else if o == d then Failure(SelfLoop)
      else
        var w := c.weight.GetOr(1.0);
        if w <= 0.0 then Failure(NonPositiveWeight)
        else Success(Edge(o, d, w))
  }

  /** `config.Get("edges", edges)`: every entry must be a valid edge; the first bad one is reported. */
  function EdgesFromConfig(cs: seq<EdgeConfig>): (r: Result<seq<Edge>, GraphError>)
    ensures r.Success? <==> forall i :: 0 <= i < |cs| ==> EdgeFromConfig(cs[i]).Success?
    ensures r.Success? ==> |r.value| == |cs| && forall i :: 0 <= i < |cs| ==> r.value[i] == EdgeFromConfig(cs[i]).value
  {
    if |cs| == 0 then Success([])
    else
      var first := EdgeFromConfig(cs[0]);
      if first.Failure? then Failure(first.error)
      else
        var rest := EdgesFromConfig(cs[1..]);
        if rest.Failure? then Failure(rest.error)
        else
          assert forall i :: 1 <= i < |cs| ==> cs[i] == cs[1..][i - 1];
          Success([first.value] + rest.value)
  }

  /** Every edge joins two distinct nodes below `n` and has a positive weight. */
  predicate EdgesWithin(E: seq<Edge>, n: nat) {
    forall i :: 0 <= i < |E| ==> E[i].orig < n && E[i].dest < n && E[i].weight > 0.0
  }

  // ----- undirected doubling -----

  /** The same edge traversed the other way. */
  function Reversed(e: Edge): (r: Edge)
    ensures r.orig == e.dest && r.dest == e.orig && r.weight == e.weight
  {
    Edge(e.dest, e.orig, e.weight)
  }

  /** Reversing twice gives the edge back. */
  lemma ReversedTwice(e: Edge)
    ensures Reversed(Reversed(e)) == e
  {
  }

  /** `type = "undirected"`: append the reverse of every edge, same weight. */
  method AddReversedEdges(E: seq<Edge>) returns (out: seq<Edge>)
    ensures |out| == 2 * |E| && out[..|E|] == E
    ensures forall i :: 0 <= i < |E| ==> out[|E| + i] == Reversed(E[i])
  {
    out := E;
    var current := |E|;
    for i := 0 to current
      invariant |out| == current + i && out[..current] == E
      invariant forall j :: 0 <= j < i ==> out[current + j] == Reversed(E[j])
    {
      out := out + [Reversed(out[i])];
    }
  }

  /** After doubling, the reverse of every edge is present: the edge relation is symmetric. */
  lemma DoubledIsSymmetric(E: seq<Edge>, out: seq<Edge>)
    requires |out| == 2 * |E| && out[..|E|] == E
    requires forall i :: 0 <= i < |E| ==> out[|E| + i] == Reversed(E[i])
    ensures forall i :: 0 <= i < |out| ==> Reversed(out[i]) in out
  {
    forall i | 0 <= i < |out|
      ensures Reversed(out[i]) in out
    {
      if i < |E| {
        assert out[..|E|][i] == out[i];
        assert out[|E| + i] == Reversed(out[i]);
      } else {
        var k := i - |E|;
        assert out[..|E|][k] == out[k];
        assert out[i] == Reversed(E[k]);
        assert out[k] == Reversed(out[i]);
      }
    }
  }

  // ----- ordering -----

  /** The comparator of the sort: lexicographic on (orig, dest). */
  predicate KeyLess(a: Edge, b: Edge) {
    a.orig < b.orig || (a.orig == b.orig && a.dest < b.dest)
  }

  predicate SameKey(a: Edge, b: Edge) {
    a.orig == b.orig && a.dest == b.dest
  }

  predicate SortedByKey(E: seq<Edge>) {
    forall i, j :: 0 <= i < j < |E| ==> !KeyLess(E[j], E[i])
  }

  predicate StrictlySorted(E: seq<Edge>) {
    forall i, j :: 0 <= i < j < |E| ==> KeyLess(E[i], E[j])
  }

  predicate UniqueKeys(E: seq<Edge>) {
    forall i, j :: 0 <= i < j < |E| ==> !SameKey(E[i], E[j])
  }

  lemma StrictlySortedUnique(E: seq<Edge>)
    requires StrictlySorted(E)
    ensures UniqueKeys(E) && SortedByKey(E)
  {
  }

  /** No key in `rest`, made of `e` and elements of the sorted `E` after its head, is below that head. */
  lemma NotBelowHead(e: Edge, E: seq<Edge>, rest: seq<Edge>)
    requires |E| > 0 && SortedByKey(E) && !KeyLess(e, E[0])
    requires forall j :: 0 <= j < |rest| ==> rest[j] == e || rest[j] in E[1..]
    ensures forall j :: 0 <= j < |rest| ==> !KeyLess(rest[j], E[0])
  {
    forall j | 0 <= j < |rest|
      ensures !KeyLess(rest[j], E[0])
    {
      if rest[j] != e {
        var k :| 0 <= k < |E[1..]| && E[1..][k] == rest[j];
        assert E[k + 1] == rest[j];
      }
    }
  }

  /** A sorted list stays sorted under a head no greater than any of its keys. */
  lemma ConsSorted(x: Edge, rest: seq<Edge>)
    requires SortedByKey(rest) && forall j :: 0 <= j < |rest| ==> !KeyLess(rest[j], x)
    ensures SortedByKey([x] + rest)
  {
    var r := [x] + rest;
    forall i, j | 0 <= i < j < |r|
      ensures !KeyLess(r[j], r[i])
    {
      assert r[j] == rest[j - 1];
      if i > 0 {
        assert r[i] == rest[i - 1];
      }
    }
  }

  /** Inserts `e` into a sorted list before the first strictly greater key. */
  function InsertByKey(e: Edge, E: seq<Edge>): (r: seq<Edge>)
    requires SortedByKey(E)
    ensures |r| == |E| + 1
    ensures forall j :: 0 <= j < |r| ==> r[j] == e || r[j] in E
    ensures SortedByKey(r) && multiset(r) == multiset(E) + multiset{e}
  {
    if |E| == 0 then [e]
    else if KeyLess(E[0], e) || SameKey(E[0], e) then
      var rest := InsertByKey(e, E[1..]);
      assert E == [E[0]] + E[1..];
      NotBelowHead(e, E, rest);
      ConsSorted(E[0], rest);
      [E[0]] + rest
    else
      assert forall j :: 0 <= j < |E| ==> !KeyLess(E[j], e) by {
        forall j | 0 <= j < |E| ensures !KeyLess(E[j], e) {
          assert !KeyLess(E[j], E[0]);
        }
      }
      ConsSorted(e, E);
      [e] + E
  }

  /** `std::sort` with the (orig, dest) comparator: sorted, and a permutation of the input. */
  function SortByKey(E: seq<Edge>): (r: seq<Edge>)
    ensures SortedByKey(r) && multiset(r) == multiset(E)
  {
    if |E| == 0 then []
    else
      assert E == [E[0]] + E[1..];
      InsertByKey(E[0], SortByKey(E[1..]))
  }

  /** A permutation keeps every edge's endpoints and weight. */
  lemma PermutationKeepsWithin(E: seq<Edge>, F: seq<Edge>, n: nat)
    requires multiset(E) == multiset(F) && EdgesWithin(E, n)
    ensures EdgesWithin(F, n)
  {
    forall i | 0 <= i < |F|
      ensures F[i].orig < n && F[i].dest < n && F[i].weight > 0.0
    {
      assert F[i] in multiset(F);
      assert F[i] in multiset(E);
      var j :| 0 <= j < |E| && E[j] == F[i];
    }
  }

  // ----- node count -----

  /** The node count the validation loop computes: one more than the largest endpoint seen, starting from `start`. */
  function NodeCount(E: seq<Edge>, start: nat): (n: nat)
    ensures start <= n
    ensures forall i :: 0 <= i < |E| ==> E[i].orig < n && E[i].dest < n
    ensures n == start || exists i :: 0 <= i < |E| && (E[i].orig == n - 1 || E[i].dest == n - 1)
  {
    if |E| == 0 then start
    else
      var m := NodeCount(E[..|E| - 1], start);
      assert forall i :: 0 <= i < |E| - 1 ==> E[..|E| - 1][i] == E[i];
      var e := E[|E| - 1];
      var m1 := if e.dest >= m then e.dest + 1 else m;
      if e.orig >= m1 then e.orig + 1 else m1
  }

  /** The first loop of `ValidateEdgeVectorAndComputeNumNodes`. */
  method ComputeNumNodes(E: seq<Edge>, start: nat) returns (numNodes: nat)
    ensures numNodes == NodeCount(E, start)
  {
    numNodes := start;
    for i := 0 to |E|
      invariant numNodes == NodeCount(E[..i], start)
    {
      assert E[..i + 1][..i] == E[..i];
      if E[i].dest >= numNodes {
        numNodes := E[i].dest + 1;
      }
      if E[i].orig >= numNodes {
        numNodes := E[i].orig + 1;
      }
    }
    assert E[..|E|] == E;
  }

  // ----- duplicates -----

  /** On a sorted list, equal keys are adjacent: checking neighbours finds every duplicate. */
  lemma {:induction false} AdjacentDistinctIffUnique(E: seq<Edge>)
    requires SortedByKey(E)
    ensures (forall i :: 1 <= i < |E| ==> !SameKey(E[i], E[i - 1])) <==> StrictlySorted(E)
  {
    if forall i :: 1 <= i < |E| ==> !SameKey(E[i], E[i - 1]) {
      forall i, j | 0 <= i < j < |E|
        ensures KeyLess(E[i], E[j])
      {
        assert !KeyLess(E[j - 1], E[i]) || i == j - 1;
        assert KeyLess(E[j - 1], E[j]) by {
          assert !KeyLess(E[j], E[j - 1]) && !SameKey(E[j], E[j - 1]);
        }
      }
    }
  }

  /** Position `i` holds the first key of `E` that repeats its left neighbour. */
  predicate FirstDuplicateAt(E: seq<Edge>, i: int) {
    1 <= i < |E| && SameKey(E[i], E[i - 1]) &&
    forall j :: 1 <= j < i ==> !SameKey(E[j], E[j - 1])
  }

  /** `err` is the duplicate-edge error naming the first repeated key of `E`. */
  predicate ReportsFirstDuplicate(E: seq<Edge>, err: GraphError) {
    exists i :: 1 <= i < |E| && FirstDuplicateAt(E, i) && err == DuplicateEdge(E[i].orig, E[i].dest)
  }

  /** There is at most one first repeated key. */
  lemma FirstDuplicateUnique(E: seq<Edge>, i: int, j: int)
    requires FirstDuplicateAt(E, i) && FirstDuplicateAt(E, j)
    ensures i == j
  {
  }

  /** The duplicate check without `allow_double_edges`: the first adjacent repeated key is an error. */
  method CheckNoDuplicates(E: seq<Edge>) returns (r: Result<(), GraphError>)
    requires SortedByKey(E)
    ensures r.Success? <==> StrictlySorted(E)
    ensures r.Failure? ==> ReportsFirstDuplicate(E, r.error)
  {
    AdjacentDistinctIffUnique(E);
    var i := 1;
    while i < |E|
      invariant 1 <= i
      invariant forall j :: 1 <= j < i && j < |E| ==> !SameKey(E[j], E[j - 1])
    {
      if E[i].orig == E[i - 1].orig && E[i].dest == E[i - 1].dest {
        assert FirstDuplicateAt(E, i);
        return Failure(DuplicateEdge(E[i].orig, E[i].dest));
      }
      i := i + 1;
    }
    return Success(());
  }

  /** The merge with `allow_double_edges`, edge by edge: a repeated key keeps the lower weight. */
  function Merged(E: seq<Edge>): (M: seq<Edge>)
    ensures |E| > 0 ==> |M| > 0 && SameKey(M[|M| - 1], E[|E| - 1])
  {
    if |E| == 0 then []
    else
      var M := Merged(E[..|E| - 1]);
      var e := E[|E| - 1];
      if |M| > 0 && M[|M| - 1].orig == e.orig && M[|M| - 1].dest == e.dest then
        if e.weight < M[|M| - 1].weight then M[|M| - 1 := M[|M| - 1].(weight := e.weight)]
        else M
      else M + [e]
  }

  /** Every kept edge is one of the input edges, weight included. */
  lemma {:induction false} MergedFromInput(E: seq<Edge>)
    ensures forall i :: 0 <= i < |Merged(E)| ==> Merged(E)[i] in E
  {
    if |E| > 0 {
      var P := E[..|E| - 1];
      MergedFromInput(P);
      var M, e, M' := Merged(P), E[|E| - 1], Merged(E);
      assert forall x :: x in P ==> x in E;
      forall i | 0 <= i < |M'| ensures M'[i] in E {
        if i < |M| && M'[i] == M[i] {
          assert M[i] in P;
        } else {
          assert M'[i] == e;
        }
      }
    }
  }

  /** On a sorted list the merge keeps exactly one edge per (orig, dest) key. */
  lemma {:induction false} MergedStrictlySorted(E: seq<Edge>)
    requires SortedByKey(E)
    ensures StrictlySorted(Merged(E))
  {
    if |E| > 0 {
      var P := E[..|E| - 1];
      assert SortedByKey(P) by {
        assert forall i :: 0 <= i < |P| ==> P[i] == E[i];
      }
      MergedStrictlySorted(P);
      var M, e := Merged(P), E[|E| - 1];
      if !(|M| > 0 && SameKey(M[|M| - 1], e)) {
        MergedFromInput(P);
        forall i | 0 <= i < |M| ensures KeyLess(M[i], e) {
          var j :| 0 <= j < |P| && M[i] == P[j];
          assert !KeyLess(e, P[j]) by {
            assert P[j] == E[j];
          }
          assert SameKey(M[|M| - 1], P[|P| - 1]);
        }
        assert Merged(E) == M + [e];
      }
    }
  }

  /** For every edge of `E`, the edge of `M` with its key weighs no more. */
  ghost predicate KeepsLighter(M: seq<Edge>, E: seq<Edge>) {
    forall j :: 0 <= j < |E| ==>
      exists i :: 0 <= i < |M| && SameKey(M[i], E[j]) && M[i].weight <= E[j].weight
  }

  /** For every input edge, the kept edge with its key weighs no more. */
  lemma {:induction false} MergedKeepsLightest(E: seq<Edge>)
    ensures KeepsLighter(Merged(E), E)
  {
    if |E| > 0 {
      var P := E[..|E| - 1];
      MergedKeepsLightest(P);
      var M, M' := Merged(P), Merged(E);
      assert forall i :: 0 <= i < |M| ==> SameKey(M'[i], M[i]) && M'[i].weight <= M[i].weight;
      forall j | 0 <= j < |E|
        ensures exists i :: 0 <= i < |M'| && SameKey(M'[i], E[j]) && M'[i].weight <= E[j].weight
      {
        var i := |M'| - 1;
        if j < |P| {
          assert P[j] == E[j];
          i :| 0 <= i < |M| && SameKey(M[i], P[j]) && M[i].weight <= P[j].weight;
        }
        assert SameKey(M'[i], E[j]) && M'[i].weight <= E[j].weight;
      }
    }
  }

  /** The merge loop of `ValidateEdgeVectorAndComputeNumNodes` with `allow_double_edges`. */
  method MergeDoubleEdges(withDuplicates: seq<Edge>) returns (edges: seq<Edge>)
    ensures edges == Merged(withDuplicates)
  {
    edges := [];
    for i := 0 to |withDuplicates|
      invariant edges == Merged(withDuplicates[..i])
    {
      assert withDuplicates[..i + 1][..i] == withDuplicates[..i];
      var e := withDuplicates[i];
      if |edges| > 0 && edges[|edges| - 1].orig == e.orig && edges[|edges| - 1].dest == e.dest {
        if e.weight < edges[|edges| - 1].weight {
          edges := edges[|edges| - 1 := edges[|edges| - 1].(weight := e.weight)];
        }
      } else {
        edges := edges + [e];
      }
    }
    assert withDuplicates[..|withDuplicates|] == withDuplicates;
  }
}
