/** What the built-in patterns match, spelled out edge by edge. */
module BuiltinPatterns {
  import opened Basics
  import opened Edges
  import opened TemporalCsr
  import opened Patterns

  /** Position `p` is an edge of the index from `u` to `v`, of any type, active at `t`. */
  ghost predicate EdgeAt(csr: Csr, t: I64, p: nat, u: U64, v: U64)
    requires Wf(csr)
  {
    && p < |csr.dst| && u < csr.nodeCount && csr.offsets[u] <= p < csr.offsets[u + 1]
    && csr.validFrom[p] <= t < csr.validTo[p]
    && csr.dst[p] == v
  }

  /** Pairwise distinct nodes, the first of them in the index, none the unbound marker. */
  ghost predicate DistinctNodes(csr: Csr, nodes: seq<U64>) {
    && nodes != [] && nodes[0] < csr.nodeCount
    && (forall i, j :: 0 <= i < j < |nodes| ==> nodes[i] != nodes[j])
    && (forall i :: 0 <= i < |nodes| ==> nodes[i] != 0xFFFF_FFFF_FFFF_FFFF)
  }

  ghost predicate StartsBefore(csr: Csr, p: nat, q: nat)
    requires Wf(csr)
  {
    p < |csr.dst| && q < |csr.dst| && csr.validFrom[p] < csr.validFrom[q]
  }

  /** A chain of `len` edges through `len + 1` nodes. */
  ghost predicate IsChain(csr: Csr, len: nat, t: I64, h: Hit)
    requires Wf(csr)
  {
    && |h.nodes| == len + 1 && |h.pos| == len && DistinctNodes(csr, h.nodes)
    && (forall i :: 0 <= i < len ==> EdgeAt(csr, t, h.pos[i], h.nodes[i], h.nodes[i + 1]))
    && (forall i, j :: 0 <= i && j == i + 1 < len ==> StartsBefore(csr, h.pos[i], h.pos[j]))
  }

  /** A cycle of `len` edges through `len` nodes. */
  ghost predicate IsCycle(csr: Csr, len: nat, t: I64, h: Hit)
    requires Wf(csr) && len > 0
  {
    && |h.nodes| == len && |h.pos| == len && DistinctNodes(csr, h.nodes)
    && (forall i :: 0 <= i < len - 1 ==> EdgeAt(csr, t, h.pos[i], h.nodes[i], h.nodes[i + 1]))
    && EdgeAt(csr, t, h.pos[len - 1], h.nodes[len - 1], h.nodes[0])
    && (forall i, j :: 0 <= i && j == i + 1 < len ==> StartsBefore(csr, h.pos[i], h.pos[j]))
  }

  /** Two arms from the first to the last of four nodes; along each arm the second edge starts later. */
  ghost predicate IsDiamond(csr: Csr, t: I64, h: Hit)
    requires Wf(csr)
  {
    && |h.nodes| == 4 && |h.pos| == 4 && DistinctNodes(csr, h.nodes)
    && EdgeAt(csr, t, h.pos[0], h.nodes[0], h.nodes[1]) && EdgeAt(csr, t, h.pos[2], h.nodes[1], h.nodes[3])
    && EdgeAt(csr, t, h.pos[1], h.nodes[0], h.nodes[2]) && EdgeAt(csr, t, h.pos[3], h.nodes[2], h.nodes[3])
    && StartsBefore(csr, h.pos[0], h.pos[2]) && StartsBefore(csr, h.pos[1], h.pos[3])
  }

  lemma FitsIsEdgeAt(csr: Csr, pat: Pattern, t: I64, nodes: seq<U64>, i: nat, p: nat)
    requires Wf(csr) && InBounds(pat) && |nodes| == pat.numVars && i < |pat.edges| && pat.edges[i].edgeType == None
    ensures EdgeFits(csr, pat, t, nodes, i, p) <==>
              EdgeAt(csr, t, p, nodes[pat.edges[i].src], nodes[pat.edges[i].dst])
  {
  }

  /** An order between consecutive edges only is an order of start times along the positions. */
  lemma ChainOrders(csr: Csr, pat: Pattern, pos: seq<nat>)
    requires Wf(csr) && InBounds(pat) && |pos| == |pat.edges| && forall i :: 0 <= i < |pos| ==> pos[i] < |csr.dst|
    requires |pos| > 0 && pat.eventOrders == Chain(|pos| - 1)
    ensures OrdersHold(csr, pat, pos) <==>
              forall i, j :: 0 <= i && j == i + 1 < |pos| ==> StartsBefore(csr, pos[i], pos[j])
  {
    var orders := pat.eventOrders;
    if OrdersHold(csr, pat, pos) {
      forall i, j | 0 <= i && j == i + 1 < |pos| ensures StartsBefore(csr, pos[i], pos[j]) {
        assert orders[i] in orders;
      }
    }
    if forall i, j :: 0 <= i && j == i + 1 < |pos| ==> StartsBefore(csr, pos[i], pos[j]) {
      forall o | o in orders ensures StartsBefore(csr, pos[o.before], pos[o.after]) {
        var i :| 0 <= i < |orders| && orders[i] == o;
      }
    }
  }

  ghost predicate Untyped(pat: Pattern) {
    forall i :: 0 <= i < |pat.edges| ==> pat.edges[i].edgeType == None
  }

  /** Every pattern edge is an edge of the index between the bound nodes. */
  ghost predicate EdgesAt(csr: Csr, pat: Pattern, t: I64, h: Hit)
    requires Wf(csr) && InBounds(pat) && |h.nodes| == pat.numVars && |h.pos| == |pat.edges|
  {
    forall i :: 0 <= i < |h.pos| ==>
      EdgeAt(csr, t, h.pos[i], h.nodes[pat.edges[i].src], h.nodes[pat.edges[i].dst])
  }

  /** A match of an untyped pattern, part by part. */
  lemma UntypedMatch(csr: Csr, pat: Pattern, t: I64, h: Hit)
    requires Wf(csr) && InBounds(pat) && Untyped(pat)
    requires |h.nodes| == pat.numVars && |h.pos| == |pat.edges|
    ensures IsMatch(csr, pat, t, h) <==> DistinctNodes(csr, h.nodes) && EdgesAt(csr, pat, t, h) && OrdersHold(csr, pat, h.pos)
  {
    forall i | 0 <= i < |h.pos|
      ensures EdgeFits(csr, pat, t, h.nodes, i, h.pos[i])
              <==> EdgeAt(csr, t, h.pos[i], h.nodes[pat.edges[i].src], h.nodes[pat.edges[i].dst])
    {
      FitsIsEdgeAt(csr, pat, t, h.nodes, i, h.pos[i]);
    }
    hide EdgeFits, EdgeAt, OrdersHold;
    if EdgesAt(csr, pat, t, h) {
      InIndex(csr, pat, t, h);
    }
  }

  lemma InIndex(csr: Csr, pat: Pattern, t: I64, h: Hit)
    requires Wf(csr) && InBounds(pat) && |h.nodes| == pat.numVars && |h.pos| == |pat.edges| && EdgesAt(csr, pat, t, h)
    ensures forall i :: 0 <= i < |h.pos| ==> h.pos[i] < |csr.dst|
  {
  }

  /** `temporal_path(len)` matches exactly the chains of `len` edges with ascending start times. */
  lemma TemporalPathMeans(csr: Csr, len: nat, t: I64, h: Hit)
    requires Wf(csr) && len >= 1
    ensures InBounds(TemporalPath(len))
    ensures IsMatch(csr, TemporalPath(len), t, h) <==> IsChain(csr, len, t, h)
  {
    var pat := TemporalPath(len);
    if |h.nodes| == len + 1 && |h.pos| == len {
      UntypedMatch(csr, pat, t, h);
      assert EdgesAt(csr, pat, t, h) <==>
               forall i :: 0 <= i < len ==> EdgeAt(csr, t, h.pos[i], h.nodes[i], h.nodes[i + 1]);
      if EdgesAt(csr, pat, t, h) {
        InIndex(csr, pat, t, h);
        ChainOrders(csr, pat, h.pos);
      }
      hide IsMatch, EdgeAt, DistinctNodes, OrdersHold, StartsBefore, EdgesAt;
    }
  }

  /** `ring(len)` matches exactly the cycles of `len` edges with ascending start times. */
  lemma RingMeans(csr: Csr, len: nat, t: I64, h: Hit)
    requires Wf(csr) && len >= 2
    ensures InBounds(Ring(len))
    ensures IsMatch(csr, Ring(len), t, h) <==> IsCycle(csr, len, t, h)
  {
    RingInBounds(len);
    if |h.nodes| == len && |h.pos| == len {
      RingEdgesAt(csr, len, t, h);
      UntypedMatch(csr, Ring(len), t, h);
      if EdgesAt(csr, Ring(len), t, h) {
        InIndex(csr, Ring(len), t, h);
        ChainOrders(csr, Ring(len), h.pos);
      }
      hide IsMatch, EdgeAt, DistinctNodes, OrdersHold, StartsBefore, EdgesAt;
    }
  }

  lemma RingEdgesAt(csr: Csr, len: nat, t: I64, h: Hit)
    requires Wf(csr) && len >= 2 && InBounds(Ring(len)) && |h.nodes| == len && |h.pos| == len
    ensures EdgesAt(csr, Ring(len), t, h) <==>
              && (forall i :: 0 <= i < len - 1 ==> EdgeAt(csr, t, h.pos[i], h.nodes[i], h.nodes[i + 1]))
              && EdgeAt(csr, t, h.pos[len - 1], h.nodes[len - 1], h.nodes[0])
  {
    hide EdgeAt;
    var edges := Ring(len).edges;
    forall i | 0 <= i < len ensures edges[i].src == i && edges[i].dst == if i < len - 1 then i + 1 else 0 {
      RingEdge(len, i);
    }
    hide Ring;
    if EdgesAt(csr, Ring(len), t, h) {
      assert EdgeAt(csr, t, h.pos[len - 1], h.nodes[edges[len - 1].src], h.nodes[edges[len - 1].dst]);
      forall i | 0 <= i < len - 1 ensures EdgeAt(csr, t, h.pos[i], h.nodes[i], h.nodes[i + 1]) {
        assert EdgeAt(csr, t, h.pos[i], h.nodes[edges[i].src], h.nodes[edges[i].dst]);
      }
    }
  }

  /** `diamond()` matches exactly the time-ordered diamonds. */
  lemma DiamondMeans(csr: Csr, t: I64, h: Hit)
    requires Wf(csr)
    ensures InBounds(Diamond())
    ensures IsMatch(csr, Diamond(), t, h) <==> IsDiamond(csr, t, h)
  {
    var pat := Diamond();
    if |h.nodes| == 4 && |h.pos| == 4 {
      UntypedMatch(csr, pat, t, h);
      assert EdgesAt(csr, pat, t, h) <==>
               && EdgeAt(csr, t, h.pos[0], h.nodes[0], h.nodes[1]) && EdgeAt(csr, t, h.pos[1], h.nodes[0], h.nodes[2])
               && EdgeAt(csr, t, h.pos[2], h.nodes[1], h.nodes[3]) && EdgeAt(csr, t, h.pos[3], h.nodes[2], h.nodes[3]);
      if EdgesAt(csr, pat, t, h) {
        InIndex(csr, pat, t, h);
        DiamondOrders(csr, h.pos);
      }
      hide IsMatch, DistinctNodes, OrdersHold, EdgesAt;
    }
  }

  lemma DiamondOrders(csr: Csr, pos: seq<nat>)
    requires Wf(csr) && InBounds(Diamond()) && |pos| == 4 && forall i :: 0 <= i < 4 ==> pos[i] < |csr.dst|
    ensures OrdersHold(csr, Diamond(), pos) <==>
              StartsBefore(csr, pos[0], pos[2]) && StartsBefore(csr, pos[1], pos[3])
  {
    var orders := Diamond().eventOrders;
    assert orders[0] in orders && orders[1] in orders;
  }
}
