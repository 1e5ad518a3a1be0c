/**
 * The single-source part of `Graph::PCSP`: Dijkstra's algorithm with a
 * priority queue that keeps stale entries (an entry whose distance exceeds
 * the node's current distance is skipped when popped), followed by the
 * backtrack over the predecessor array that records, per destination, the
 * index of the first edge on the path from the source.
 *
 * `std::numeric_limits<double>::max()` marks an unreachable node; here it is
 * the `Infinite` distance. Weights are positive reals, so no sum overflows.
 */
module GraphPaths {
  import opened GraphEdges

  /** An entry of the distance table. */
  datatype Dist = Finite(value: real) | Infinite

  // ----- walks -----

  /** `p` is a chain of edges of `E` leading from `a` to `b` (the empty chain when `a == b`). */
  predicate IsWalk(E: seq<Edge>, a: nat, b: nat, p: seq<Edge>)
    decreases |p|
  {
    if |p| == 0 then a == b
    else p[0] in E && p[0].orig == a && IsWalk(E, p[0].dest, b, p[1..])
  }

  /** Total weight of a chain of edges. */
  function WalkWeight(p: seq<Edge>): real
    decreases |p|
  {
    if |p| == 0 then 0.0 else p[0].weight + WalkWeight(p[1..])
  }

  ghost predicate HasWalk(E: seq<Edge>, a: nat, b: nat) {
    exists p :: IsWalk(E, a, b, p)
  }

  ghost predicate HasWalkOfWeight(E: seq<Edge>, a: nat, b: nat, w: real) {
    exists p :: IsWalk(E, a, b, p) && WalkWeight(p) == w
  }

  /** Extending a walk by an edge leaving its end. */
  lemma {:induction false} WalkSnoc(E: seq<Edge>, a: nat, b: nat, p: seq<Edge>, e: Edge)
    requires IsWalk(E, a, b, p) && e in E && e.orig == b
    ensures IsWalk(E, a, e.dest, p + [e])
    ensures WalkWeight(p + [e]) == WalkWeight(p) + e.weight
    decreases |p|
  {
    if |p| > 0 {
      assert (p + [e])[1..] == p[1..] + [e];
      WalkSnoc(E, p[0].dest, b, p[1..], e);
    }
  }

  // ----- relaxation -----

  /** Edge `e` satisfies the triangle inequality in the table `D`. */
  predicate EdgeRelaxed(e: Edge, D: seq<Dist>) {
    e.orig < |D| && e.dest < |D| &&
    (D[e.orig].Finite? ==> D[e.dest].Finite? && D[e.dest].value <= D[e.orig].value + e.weight)
  }

  /** Every edge leaving `v` is relaxed. */
  predicate RelaxedFrom(E: seq<Edge>, D: seq<Dist>, v: nat) {
    forall i :: 0 <= i < |E| && E[i].orig == v ==> EdgeRelaxed(E[i], D)
  }

  /** Every edge is relaxed. */
  predicate AllRelaxed(E: seq<Edge>, D: seq<Dist>) {
    forall i :: 0 <= i < |E| ==> EdgeRelaxed(E[i], D)
  }

  /**
   * In a relaxed table, a walk from a node with a finite entry leads to a
   * node with a finite entry at most the walk's weight further.
   */
  lemma {:induction false} WalkLowerBound(E: seq<Edge>, D: seq<Dist>, a: nat, b: nat, p: seq<Edge>)
    requires AllRelaxed(E, D) && a < |D| && D[a].Finite? && IsWalk(E, a, b, p)
    ensures b < |D| && D[b].Finite? && D[b].value <= D[a].value + WalkWeight(p)
    decreases |p|
  {
    if |p| > 0 {
      var i :| 0 <= i < |E| && E[i] == p[0];
      assert EdgeRelaxed(E[i], D);
      WalkLowerBound(E, D, p[0].dest, b, p[1..]);
    }
  }

  /** `D'` is `D` with some finite entries lowered and some infinite ones made finite. */
  predicate NoWorse(D: seq<Dist>, D': seq<Dist>) {
    |D'| == |D| && forall v :: 0 <= v < |D| && D[v].Finite? ==> D'[v].Finite? && D'[v].value <= D[v].value
  }

  lemma RelaxedStays(E: seq<Edge>, D: seq<Dist>, D': seq<Dist>, v: nat)
    requires RelaxedFrom(E, D, v) && NoWorse(D, D') && v < |D| && D'[v] == D[v]
    ensures RelaxedFrom(E, D', v)
  {
    forall i | 0 <= i < |E| && E[i].orig == v
      ensures EdgeRelaxed(E[i], D')
    {
      assert EdgeRelaxed(E[i], D);
    }
  }

  // ----- the priority queue -----

  /** `std::pair<WeightType, int64_t>` in the queue. */
  datatype QElem = QElem(dist: real, node: nat)

  /** The pair order; `std::greater` makes the queue's top the least pair. */
  predicate QLess(x: QElem, y: QElem) {
    x.dist < y.dist || (x.dist == y.dist && x.node < y.node)
  }

  /** `top()` then `pop()`: the least pair leaves the queue. */
  method PopMin(Q: seq<QElem>) returns (top: QElem, rest: seq<QElem>)
    requires |Q| > 0
    ensures top in Q && forall x :: x in Q ==> !QLess(x, top)
    ensures multiset(rest) == multiset(Q) - multiset{top} && |rest| == |Q| - 1
  {
    var k := 0;
    for i := 1 to |Q|
      invariant 0 <= k < |Q|
      invariant forall j :: 0 <= j < i ==> !QLess(Q[j], Q[k])
    {
      if QLess(Q[i], Q[k]) {
        k := i;
      }
    }
    top := Q[k];
    rest := Q[..k] + Q[k + 1..];
    assert Q == Q[..k] + [Q[k]] + Q[k + 1..];
  }

  // ----- one relaxation round -----

  /** The edge `via[v]` from `prev[v]` to `v` accounts exactly for `D[v]`. */
  predicate TreeLink(E: seq<Edge>, D: seq<Dist>, prev: seq<int>, via: seq<int>, v: nat)
    requires v < |D| && |prev| == |D| && |via| == |D|
  {
    0 <= prev[v] < |D| && 0 <= via[v] < |E| &&
    E[via[v]].orig == prev[v] && E[via[v]].dest == v &&
    D[prev[v]].Finite? && D[v].Finite? && D[v].value == D[prev[v]].value + E[via[v]].weight
  }

  /** Every pair in `Q'` was in `Q` or lies beyond `D[w]` and bounds its node's entry in `D'`. */
  ghost predicate PushedBeyond(n: nat, w: nat, D: seq<Dist>, Q: seq<QElem>, D': seq<Dist>, Q': seq<QElem>)
    requires w < |D| && D[w].Finite? && |D'| == n
  {
    forall x :: x in Q' ==> x in Q || (x.node < n && x.dist > D[w].value && D'[x.node].Finite? && D'[x.node].value <= x.dist)
  }

  /**
   * Every node keeps its entry, or has a strictly better one reached through
   * an edge from `w`, with the new pair in `Q'`.
   */
  ghost predicate KeptOrImproved(E: seq<Edge>, n: nat, w: nat, D: seq<Dist>, prev: seq<int>, via: seq<int>,
                                 D': seq<Dist>, prev': seq<int>, via': seq<int>, Q': seq<QElem>)
    requires |D| == n && |prev| == n && |via| == n && |D'| == n && |prev'| == n && |via'| == n
  {
    forall v :: 0 <= v < n ==>
      (D'[v] == D[v] && prev'[v] == prev[v] && via'[v] == via[v]) ||
      (prev'[v] == w && TreeLink(E, D', prev', via', v) && (D[v].Infinite? || D'[v].value < D[v].value) &&
       QElem(D'[v].value, v) in Q')
  }

  /**
   * What relaxing the edges out of `w` does: every edge out of `w` ends up
   * relaxed, `w` keeps its distance, and every other node either keeps its
   * entry or gets a strictly better one through an edge from `w`, with the
   * new pair pushed; every pushed pair lies beyond `D[w]`.
   */
  ghost predicate RelaxOutcome(E: seq<Edge>, n: nat, w: nat, D: seq<Dist>, prev: seq<int>, via: seq<int>, Q: seq<QElem>,
                               D': seq<Dist>, prev': seq<int>, via': seq<int>, Q': seq<QElem>)
    requires |D| == n && |prev| == n && |via| == n && w < n && D[w].Finite?
  {
    |D'| == n && |prev'| == n && |via'| == n &&
    RelaxedFrom(E, D', w) && D'[w] == D[w] && NoWorse(D, D') &&
    multiset(Q) <= multiset(Q') &&
    PushedBeyond(n, w, D, Q, D', Q') &&
    KeptOrImproved(E, n, w, D, prev, via, D', prev', via', Q')
  }

  /** The invariant of the edge loop of `RelaxFrom` after the first `i` edges. */
  ghost predicate RelaxInv(E: seq<Edge>, n: nat, w: nat, D: seq<Dist>, prev: seq<int>, via: seq<int>, Q: seq<QElem>,
                           i: nat, D': seq<Dist>, prev': seq<int>, via': seq<int>, Q': seq<QElem>)
    requires |D| == n && |prev| == n && |via| == n && w < n && D[w].Finite? && i <= |E|
  {
    |D'| == n && |prev'| == n && |via'| == n &&
    D'[w] == D[w] && NoWorse(D, D') &&
    (forall j :: 0 <= j < i && E[j].orig == w ==> EdgeRelaxed(E[j], D')) &&
    multiset(Q) <= multiset(Q') &&
    PushedBeyond(n, w, D, Q, D', Q') &&
    KeptOrImproved(E, n, w, D, prev, via, D', prev', via', Q') &&
    (RelaxedFrom(E, D, w) ==> D' == D && prev' == prev && via' == via && Q' == Q)
  }

  /** Edge `i` needs no update: the invariant extends past it unchanged. */
  lemma RelaxSkip(E: seq<Edge>, n: nat, w: nat, D: seq<Dist>, prev: seq<int>, via: seq<int>, Q: seq<QElem>,
                  i: nat, D': seq<Dist>, prev': seq<int>, via': seq<int>, Q': seq<QElem>)
    requires EdgesWithin(E, n) && |D| == n && |prev| == n && |via| == n && w < n && D[w].Finite? && i < |E|
    requires RelaxInv(E, n, w, D, prev, via, Q, i, D', prev', via', Q')
    requires E[i].orig == w ==> D'[E[i].dest].Finite? && D'[E[i].dest].value <= D'[w].value + E[i].weight
    ensures RelaxInv(E, n, w, D, prev, via, Q, i + 1, D', prev', via', Q')
  {
  }

  /** Pushing `(cand, u)` beyond `D[w]` while lowering `u` to `cand` keeps every pair an upper bound. */
  lemma PushKeepsBeyond(n: nat, w: nat, D: seq<Dist>, Q: seq<QElem>, D': seq<Dist>, Q': seq<QElem>, u: nat, cand: real)
    requires w < |D| && D[w].Finite? && |D'| == n && u < n && cand > D[w].value
    requires PushedBeyond(n, w, D, Q, D', Q')
    requires D'[u].Infinite? || D'[u].value > cand
    ensures PushedBeyond(n, w, D, Q, D'[u := Finite(cand)], Q' + [QElem(cand, u)])
  {
    var D2, Q2 := D'[u := Finite(cand)], Q' + [QElem(cand, u)];
    forall x | x in Q2
      ensures x in Q || (x.node < n && x.dist > D[w].value && D2[x.node].Finite? && D2[x.node].value <= x.dist)
    {
      if x != QElem(cand, u) {
        assert x in Q';
      }
    }
  }

  /** Recording the edge `E[i]` from `w` as the way to its destination keeps every node kept or improved. */
  lemma LinkKeepsImproved(E: seq<Edge>, n: nat, w: nat, D: seq<Dist>, prev: seq<int>, via: seq<int>,
                          D': seq<Dist>, prev': seq<int>, via': seq<int>, Q': seq<QElem>, i: nat)
    requires |D| == n && |prev| == n && |via| == n && |D'| == n && |prev'| == n && |via'| == n
    requires w < n && D'[w].Finite? && i < |E| && E[i].orig == w && E[i].dest < n && E[i].dest != w
    requires NoWorse(D, D') && KeptOrImproved(E, n, w, D, prev, via, D', prev', via', Q')
    requires D'[E[i].dest].Infinite? || D'[E[i].dest].value > D'[w].value + E[i].weight
    ensures var u, cand := E[i].dest, D'[w].value + E[i].weight;
      KeptOrImproved(E, n, w, D, prev, via, D'[u := Finite(cand)], prev'[u := w], via'[u := i], Q' + [QElem(cand, u)])
  {
    var u, cand := E[i].dest, D'[w].value + E[i].weight;
    var D2, prev2, via2, Q2 := D'[u := Finite(cand)], prev'[u := w], via'[u := i], Q' + [QElem(cand, u)];
    forall v | 0 <= v < n
      ensures (D2[v] == D[v] && prev2[v] == prev[v] && via2[v] == via[v]) ||
        (prev2[v] == w && TreeLink(E, D2, prev2, via2, v) && (D[v].Infinite? || D2[v].value < D[v].value) &&
         QElem(D2[v].value, v) in Q2)
    {
      if v == u {
        assert TreeLink(E, D2, prev2, via2, v);
      } else if !(D'[v] == D[v] && prev'[v] == prev[v] && via'[v] == via[v]) {
        assert TreeLink(E, D', prev', via', v);
        assert TreeLink(E, D2, prev2, via2, v);
      }
    }
  }

  /** Edge `i` improves its destination: recording it extends the invariant. */
  lemma RelaxUpdate(E: seq<Edge>, n: nat, w: nat, D: seq<Dist>, prev: seq<int>, via: seq<int>, Q: seq<QElem>,
                    i: nat, D': seq<Dist>, prev': seq<int>, via': seq<int>, Q': seq<QElem>,
                    D2: seq<Dist>, prev2: seq<int>, via2: seq<int>, Q2: seq<QElem>)
    requires EdgesWithin(E, n) && |D| == n && |prev| == n && |via| == n && w < n && D[w].Finite? && i < |E|
    requires RelaxInv(E, n, w, D, prev, via, Q, i, D', prev', via', Q')
    requires E[i].orig == w
    requires D'[E[i].dest].Infinite? || D'[E[i].dest].value > D'[w].value + E[i].weight
    requires var u, cand := E[i].dest, D'[w].value + E[i].weight;
      D2 == D'[u := Finite(cand)] && prev2 == prev'[u := w] && via2 == via'[u := i] && Q2 == Q' + [QElem(cand, u)]
    ensures RelaxInv(E, n, w, D, prev, via, Q, i + 1, D2, prev2, via2, Q2)
  {
    var e, cand := E[i], D'[w].value + E[i].weight;
    assert e.dest != w;
    forall j | 0 <= j < i + 1 && E[j].orig == w
      ensures EdgeRelaxed(E[j], D2)
    {
      if j < i {
        assert EdgeRelaxed(E[j], D');
      }
    }
    assert multiset(Q) <= multiset(Q2) by {
      assert multiset(Q2) == multiset(Q') + multiset{QElem(cand, e.dest)};
    }
    PushKeepsBeyond(n, w, D, Q, D', Q', e.dest, cand);
    LinkKeepsImproved(E, n, w, D, prev, via, D', prev', via', Q', i);
  }

  /** One pass of the edge loop of `RelaxFrom`: relax edge `i` if it leaves `w` and improves its destination. */
  method RelaxEdge(E: seq<Edge>, n: nat, w: nat, D: seq<Dist>, prev: seq<int>, ghost via: seq<int>, Q: seq<QElem>,
                   i: nat, D': seq<Dist>, prev': seq<int>, ghost via': seq<int>, Q': seq<QElem>)
    returns (D2: seq<Dist>, prev2: seq<int>, ghost via2: seq<int>, Q2: seq<QElem>)
    requires EdgesWithin(E, n) && |D| == n && |prev| == n && |via| == n && w < n && D[w].Finite? && i < |E|
    requires RelaxInv(E, n, w, D, prev, via, Q, i, D', prev', via', Q')
    ensures RelaxInv(E, n, w, D, prev, via, Q, i + 1, D2, prev2, via2, Q2)
  {
    var e := E[i];
    if e.orig == w {
      var cand := D'[w].value + e.weight;
      if D'[e.dest].Infinite? || D'[e.dest].value > cand {
        D2, prev2, via2, Q2 := D'[e.dest := Finite(cand)], prev'[e.dest := w], via'[e.dest := i], Q' + [QElem(cand, e.dest)];
        RelaxUpdate(E, n, w, D, prev, via, Q, i, D', prev', via', Q', D2, prev2, via2, Q2);
        return;
      }
    }
    RelaxSkip(E, n, w, D, prev, via, Q, i, D', prev', via', Q');
    return D', prev', via', Q';
  }

  /** The loop over all edges for the popped node `w`. */
  method RelaxFrom(E: seq<Edge>, n: nat, w: nat, D: seq<Dist>, prev: seq<int>, ghost via: seq<int>, Q: seq<QElem>)
    returns (D': seq<Dist>, prev': seq<int>, ghost via': seq<int>, Q': seq<QElem>)
    requires EdgesWithin(E, n) && |D| == n && |prev| == n && |via| == n && w < n && D[w].Finite?
    ensures RelaxOutcome(E, n, w, D, prev, via, Q, D', prev', via', Q')
    ensures RelaxedFrom(E, D, w) ==> D' == D && prev' == prev && via' == via && Q' == Q
  {
    D', prev', via', Q' := D, prev, via, Q;
    for i := 0 to |E|
      invariant RelaxInv(E, n, w, D, prev, via, Q, i, D', prev', via', Q')
    {
      D', prev', via', Q' := RelaxEdge(E, n, w, D, prev, via, Q, i, D', prev', via', Q');
    }
  }

  // ----- the search loop -----

  /**
   * The invariant of the search from `s`. Nodes outside `todo` are settled:
   * their distance is final, at most the last popped distance, and their
   * edges are relaxed. Every queue entry lies at or beyond the last popped
   * distance and bounds its node's distance from above. Every unsettled node
   * with a finite distance has that distance queued. Every reached node other
   * than `s` hangs off a settled predecessor through an edge that accounts
   * for its distance.
   */
  ghost predicate SearchInv(E: seq<Edge>, n: nat, s: nat, D: seq<Dist>, prev: seq<int>, via: seq<int>,
                            Q: seq<QElem>, todo: set<nat>, last: real)
  {
    |D| == n && |prev| == n && |via| == n && s < n &&
    D[s] == Finite(0.0) && prev[s] == -1 &&
    (forall v :: 0 <= v < n && D[v].Finite? ==> D[v].value >= 0.0) &&
    (forall x :: x in Q ==> x.node < n && x.dist >= last && D[x.node].Finite? && D[x.node].value <= x.dist) &&
    (forall v :: 0 <= v < n && v !in todo ==> D[v].Finite? && D[v].value <= last && RelaxedFrom(E, D, v)) &&
    (forall v :: v in todo ==> v < n && (D[v].Finite? ==> QElem(D[v].value, v) in Q)) &&
    (forall v :: 0 <= v < n ==> (D[v].Finite? <==> v == s || prev[v] != -1)) &&
    (forall v :: 0 <= v < n && prev[v] != -1 ==> TreeLink(E, D, prev, via, v) && prev[v] !in todo)
  }

  /** Popping an entry that no unsettled node needs (stale, or for a settled node) keeps the invariant. */
  lemma PopKeeps(E: seq<Edge>, n: nat, s: nat, D: seq<Dist>, prev: seq<int>, via: seq<int>,
                 Q: seq<QElem>, todo: set<nat>, last: real, top: QElem, rest: seq<QElem>)
    requires SearchInv(E, n, s, D, prev, via, Q, todo, last)
    requires top in Q && (forall x :: x in Q ==> !QLess(x, top)) && multiset(rest) == multiset(Q) - multiset{top}
    requires top.node !in todo || top.dist != D[top.node].value
    ensures SearchInv(E, n, s, D, prev, via, rest, todo, top.dist)
  {
    forall x | x in rest
      ensures x in Q
    {
      assert x in multiset(rest);
    }
    forall v | v in todo && D[v].Finite?
      ensures QElem(D[v].value, v) in rest
    {
      var x := QElem(D[v].value, v);
      assert x in multiset(Q) && x != top;
      assert x in multiset(rest);
    }
  }

  /** Settling the popped node and relaxing its edges keeps the invariant. */
  lemma SettleKeeps(E: seq<Edge>, n: nat, s: nat, D: seq<Dist>, prev: seq<int>, via: seq<int>,
                    Q: seq<QElem>, todo: set<nat>, last: real, top: QElem, rest: seq<QElem>,
                    D': seq<Dist>, prev': seq<int>, via': seq<int>, Q': seq<QElem>)
    requires EdgesWithin(E, n)
    requires SearchInv(E, n, s, D, prev, via, Q, todo, last)
    requires top in Q && (forall x :: x in Q ==> !QLess(x, top)) && multiset(rest) == multiset(Q) - multiset{top}
    requires top.node in todo && top.dist == D[top.node].value
    requires RelaxOutcome(E, n, top.node, D, prev, via, rest, D', prev', via', Q')
    ensures SearchInv(E, n, s, D', prev', via', Q', todo - {top.node}, top.dist)
  {
    var w, d, todo' := top.node, top.dist, todo - {top.node};
    forall x | x in rest
      ensures x in Q && x in Q'
    {
      assert x in multiset(rest);
      assert x in multiset(Q');
    }
    // No node at or below the popped distance improves.
    assert forall v :: 0 <= v < n && D[v].Finite? && D[v].value <= d ==>
      D'[v] == D[v] && prev'[v] == prev[v] && via'[v] == via[v];
    assert D'[s] == D[s] && prev'[s] == prev[s];
    forall v | 0 <= v < n && v !in todo'
      ensures D'[v].Finite? && D'[v].value <= d && RelaxedFrom(E, D', v)
    {
      if v != w {
        RelaxedStays(E, D, D', v);
      }
    }
    forall v | v in todo' && D'[v].Finite?
      ensures QElem(D'[v].value, v) in Q'
    {
      if D'[v] == D[v] {
        var x := QElem(D[v].value, v);
        assert x in multiset(Q) && x != top;
        assert x in multiset(rest);
      }
    }
    forall v | 0 <= v < n && prev'[v] != -1
      ensures TreeLink(E, D', prev', via', v) && prev'[v] !in todo'
    {
      if D'[v] == D[v] && prev'[v] == prev[v] && via'[v] == via[v] {
        var u := prev[v];
        assert TreeLink(E, D, prev, via, v) && u !in todo;
        assert D'[u] == D[u];
      }
    }
    forall v | 0 <= v < n && D'[v].Finite?
      ensures D'[v].value >= 0.0
    {
      if !(D'[v] == D[v]) {
        assert TreeLink(E, D', prev', via', v);
        assert E[via'[v]].weight > 0.0;
      }
    }
  }

  /**
   * What the search leaves: the source at 0, every edge relaxed, and every
   * reached node other than the source linked to its predecessor by an edge
   * that accounts for its distance; unreached nodes have no predecessor.
   */
  ghost predicate ShortestTree(E: seq<Edge>, n: nat, s: nat, D: seq<Dist>, prev: seq<int>, via: seq<int>) {
    |D| == n && |prev| == n && |via| == n && s < n &&
    D[s] == Finite(0.0) && prev[s] == -1 && AllRelaxed(E, D) &&
    (forall v :: 0 <= v < n && D[v].Finite? ==> D[v].value >= 0.0) &&
    (forall v :: 0 <= v < n ==> (D[v].Finite? <==> v == s || prev[v] != -1)) &&
    (forall v :: 0 <= v < n && prev[v] != -1 ==> TreeLink(E, D, prev, via, v))
  }

  /** The nodes `0 .. n - 1`. */
  ghost function Below(n: nat): (r: set<nat>)
    ensures forall v: nat :: v in r <==> v < n
  {
    if n == 0 then {} else Below(n - 1) + {n - 1}
  }

  /**
   * One pass of the search loop: pop the least pair; skip it if stale,
   * otherwise relax the edges out of its node and settle that node.
   */
  method SearchStep(E: seq<Edge>, n: nat, s: nat, D: seq<Dist>, prev: seq<int>, ghost via: seq<int>,
                    Q: seq<QElem>, ghost todo: set<nat>, ghost last: real)
    returns (D': seq<Dist>, prev': seq<int>, ghost via': seq<int>, Q': seq<QElem>, ghost todo': set<nat>, ghost last': real)
    requires EdgesWithin(E, n) && SearchInv(E, n, s, D, prev, via, Q, todo, last) && |Q| > 0
    ensures SearchInv(E, n, s, D', prev', via', Q', todo', last')
    ensures |todo'| < |todo| || (todo' == todo && |Q'| < |Q|)
  {
    var top, rest := PopMin(Q);
    var where, dist := top.node, top.dist;
    if dist > D[where].value {
      PopKeeps(E, n, s, D, prev, via, Q, todo, last, top, rest);
      return D, prev, via, rest, todo, dist;
    }
    D', prev', via', Q' := RelaxFrom(E, n, where, D, prev, via, rest);
    if where in todo {
      SettleKeeps(E, n, s, D, prev, via, Q, todo, last, top, rest, D', prev', via', Q');
      todo' := todo - {where};
    } else {
      assert RelaxedFrom(E, D, where);
      PopKeeps(E, n, s, D, prev, via, Q, todo, last, top, rest);
      todo' := todo;
    }
    last' := dist;
  }

  /** With the queue empty, the unsettled nodes are unreachable and the table is a shortest-path tree. */
  lemma SearchDone(E: seq<Edge>, n: nat, s: nat, D: seq<Dist>, prev: seq<int>, via: seq<int>, todo: set<nat>, last: real)
    requires EdgesWithin(E, n) && SearchInv(E, n, s, D, prev, via, [], todo, last)
    ensures ShortestTree(E, n, s, D, prev, via)
  {
    forall i | 0 <= i < |E|
      ensures EdgeRelaxed(E[i], D)
    {
      var v := E[i].orig;
      if v !in todo {
        assert RelaxedFrom(E, D, v);
      }
    }
  }

  /** The `while (!activeVertices.empty())` loop of `PCSP` for one source. */
  method Search(E: seq<Edge>, n: nat, s: nat) returns (D: seq<Dist>, prev: seq<int>, ghost via: seq<int>)
    requires EdgesWithin(E, n) && s < n
    ensures ShortestTree(E, n, s, D, prev, via)
  {
    D := seq(n, v => if v == s then Finite(0.0) else Infinite);
    prev := seq(n, v => -1);
    via := seq(n, v => -1);
    var Q := [QElem(0.0, s)];
    ghost var todo: set<nat> := Below(n);
    ghost var last := 0.0;
    while |Q| > 0
      invariant SearchInv(E, n, s, D, prev, via, Q, todo, last)
      decreases |todo|, |Q|
    {
      D, prev, via, Q, todo, last := SearchStep(E, n, s, D, prev, via, Q, todo, last);
    }
    SearchDone(E, n, s, D, prev, via, todo, last);
  }

  // ----- backtracking -----

  /** The inner `for` of the backtrack: the first edge from `orig` to `dest`, or -1. */
  method FindEdge(E: seq<Edge>, orig: nat, dest: nat) returns (found: int)
    ensures -1 <= found < |E|
    ensures found == -1 <==> forall i :: 0 <= i < |E| ==> !(E[i].orig == orig && E[i].dest == dest)
    ensures found >= 0 ==>
      E[found].orig == orig && E[found].dest == dest &&
      forall i :: 0 <= i < found ==> !(E[i].orig == orig && E[i].dest == dest)
  {
    for i := 0 to |E|
      invariant forall j :: 0 <= j < i ==> !(E[j].orig == orig && E[j].dest == dest)
    {
      if E[i].orig == orig && E[i].dest == dest {
        return i;
      }
    }
    return -1;
  }

  /** Nodes strictly closer to the source than `v`: shrinks along predecessor links. */
  ghost function Closer(D: seq<Dist>, v: nat): set<nat>
    requires v < |D|
  {
    set u: nat | u < |D| && D[u].Finite? && D[v].Finite? && D[u].value < D[v].value
  }

  /**
   * The entry `edgeIndices[s][d]` in terms of the row `D` of distances from
   * `s`: -1 when `d` is `s` or unreachable, otherwise an edge leaving `s` after
   * which a walk to `d` of the remaining distance exists.
   */
  ghost predicate FirstHopOk(E: seq<Edge>, s: nat, D: seq<Dist>, d: nat, i: int)
    requires d < |D|
  {
    if d == s || D[d].Infinite? then i == -1
    else 0 <= i < |E| && E[i].orig == s && HasWalkOfWeight(E, E[i].dest, d, D[d].value - E[i].weight)
  }

  /**
   * The backtrack from `dest` along `previous` for one destination. Each
   * step overwrites the recorded index, so the last edge found, the one
   * leaving the source, is what remains.
   */
  method Backtrack(E: seq<Edge>, n: nat, s: nat, D: seq<Dist>, prev: seq<int>, ghost via: seq<int>, d: nat)
    returns (idx: int)
    requires EdgesWithin(E, n) && UniqueKeys(E) && ShortestTree(E, n, s, D, prev, via) && d < n
    ensures FirstHopOk(E, s, D, d, idx)
    ensures D[d].Finite? ==> HasWalkOfWeight(E, s, d, D[d].value)
  {
    idx := -1;
    var current: nat := d;
    ghost var p: seq<Edge> := [];
    while current != s && prev[current] != -1
      invariant current < n && D[current].Finite? == D[d].Finite?
      invariant D[d].Finite? ==> IsWalk(E, current, d, p) && WalkWeight(p) + D[current].value == D[d].value
      invariant idx == -1 ==> current == d && p == []
      invariant d == s || D[d].Infinite? ==> idx == -1
      invariant idx != -1 ==> 0 <= idx < |E| && |p| > 0 && E[idx] == p[0] && E[idx].orig == current
      decreases Closer(D, current)
    {
      assert TreeLink(E, D, prev, via, current);
      var pred: nat := prev[current];
      var found := FindEdge(E, pred, current);
      if found != -1 {
        idx := found;
      }
      assert found == via[current];
      assert E[idx] in E;
      p := [E[idx]] + p;
      assert Closer(D, pred) < Closer(D, current) by {
        assert pred in Closer(D, current) && pred !in Closer(D, pred);
      }
      current := pred;
    }
    if D[d].Finite? {
      assert current == s;
      if idx != -1 {
        assert IsWalk(E, E[idx].dest, d, p[1..]);
        assert WalkWeight(p) == E[idx].weight + WalkWeight(p[1..]);
      }
    }
  }

  // ----- one row of the tables -----

  /**
   * The row of `distances` and `edgeIndices` for source `s`: the source at 0,
   * every edge relaxed, every finite entry the weight of some walk, and the
   * recorded first hops.
   */
  ghost predicate RowValid(E: seq<Edge>, n: nat, s: nat, row: seq<Dist>, hops: seq<int>) {
    |row| == n && |hops| == n && s < n && row[s] == Finite(0.0) && AllRelaxed(E, row) &&
    (forall d :: 0 <= d < n && row[d].Finite? ==> HasWalkOfWeight(E, s, d, row[d].value)) &&
    (forall d :: 0 <= d < n ==> FirstHopOk(E, s, row, d, hops[d]))
  }

  /** The first `d` entries of the row and of the first hops are filled from the search result `D`. */
  ghost predicate RowPrefix(E: seq<Edge>, s: nat, D: seq<Dist>, row: seq<Dist>, hops: seq<int>, d: nat)
    requires d <= |D|
  {
    row == D[..d] && |hops| == d &&
    (forall d' :: 0 <= d' < d && row[d'].Finite? ==> HasWalkOfWeight(E, s, d', row[d'].value)) &&
    (forall d' :: 0 <= d' < d ==> FirstHopOk(E, s, D, d', hops[d']))
  }

  lemma RowPrefixStep(E: seq<Edge>, s: nat, D: seq<Dist>, row: seq<Dist>, hops: seq<int>, d: nat, idx: int)
    requires d < |D| && RowPrefix(E, s, D, row, hops, d)
    requires FirstHopOk(E, s, D, d, idx) && (D[d].Finite? ==> HasWalkOfWeight(E, s, d, D[d].value))
    ensures RowPrefix(E, s, D, row + [D[d]], hops + [idx], d + 1)
  {
    assert D[..d + 1] == D[..d] + [D[d]];
  }

  /** One iteration of the `source` loop of `PCSP`: search, then fill the row. */
  method ShortestRow(E: seq<Edge>, n: nat, s: nat) returns (row: seq<Dist>, hops: seq<int>)
    requires EdgesWithin(E, n) && UniqueKeys(E) && s < n
    ensures RowValid(E, n, s, row, hops)
  {
    var D, prev, via := Search(E, n, s);
    row, hops := [], [];
    for d := 0 to n
      invariant RowPrefix(E, s, D, row, hops, d)
    {
      var idx := Backtrack(E, n, s, D, prev, via, d);
      RowPrefixStep(E, s, D, row, hops, d, idx);
      row := row + [D[d]];
      hops := hops + [idx];
    }
    assert row == D;
  }

  // ----- what a valid row means -----

  /**
   * A valid row holds shortest distances: an entry is finite exactly when a
   * walk from the source exists, and then no walk is lighter and some walk
   * has exactly that weight.
   */
  lemma RowIsShortest(E: seq<Edge>, n: nat, s: nat, row: seq<Dist>, hops: seq<int>, d: nat)
    requires RowValid(E, n, s, row, hops) && d < n
    ensures row[d].Finite? <==> HasWalk(E, s, d)
    ensures forall p :: IsWalk(E, s, d, p) ==> row[d].Finite? && row[d].value <= WalkWeight(p)
    ensures row[d].Finite? ==> HasWalkOfWeight(E, s, d, row[d].value)
  {
    forall p | IsWalk(E, s, d, p)
      ensures row[d].Finite? && row[d].value <= WalkWeight(p)
    {
      WalkLowerBound(E, row, s, d, p);
    }
  }

  /** The per-source rows of the distance and first-hop tables. */
  ghost predicate TablesValid(E: seq<Edge>, n: nat, dist: seq<seq<Dist>>, hops: seq<seq<int>>) {
    EdgesWithin(E, n) && |dist| == n && |hops| == n &&
    forall s :: 0 <= s < n ==> RowValid(E, n, s, dist[s], hops[s])
  }

  /**
   * Following the recorded first hop from `s` towards `d` lands on a node
   * whose own distance to `d` is exactly the rest: `dist[x][d] = dist[s][d] - w`.
   */
  lemma FirstHopDistance(E: seq<Edge>, n: nat, dist: seq<seq<Dist>>, hops: seq<seq<int>>, s: nat, d: nat)
    requires TablesValid(E, n, dist, hops) && s < n && d < n && s != d && dist[s][d].Finite?
    ensures var i := hops[s][d];
      0 <= i < |E| && E[i].orig == s && E[i].dest < n &&
      dist[E[i].dest][d].Finite? && dist[E[i].dest][d].value == dist[s][d].value - E[i].weight
  {
    assert RowValid(E, n, s, dist[s], hops[s]);
    assert FirstHopOk(E, s, dist[s], d, hops[s][d]);
    var i := hops[s][d];
    var e := E[i];
    var x := e.dest;
    var p :| IsWalk(E, x, d, p) && WalkWeight(p) == dist[s][d].value - e.weight;
    assert RowValid(E, n, x, dist[x], hops[x]);
    WalkLowerBound(E, dist[x], x, d, p);
    var q :| IsWalk(E, x, d, q) && WalkWeight(q) == dist[x][d].value;
    assert IsWalk(E, s, d, [e] + q) by {
      assert ([e] + q)[1..] == q;
    }
    assert WalkWeight([e] + q) == e.weight + WalkWeight(q) by {
      assert ([e] + q)[1..] == q;
    }
    WalkLowerBound(E, dist[s], s, d, [e] + q);
  }
}
