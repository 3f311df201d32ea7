/** Temporal graph patterns, their built-in constructors, and what it means to match one. */
module Patterns {
  import opened Basics
  import opened Edges
  import opened TemporalCsr

  datatype PatternEdge = PatternEdge(src: nat, dst: nat, edgeType: Option<U16>)

  /** A strict order between the start times of two matched edges. */
  datatype EventOrder = EventOrder(before: nat, after: nat)

  datatype Pattern = Pattern(numVars: nat, edges: seq<PatternEdge>, eventOrders: seq<EventOrder>)

  /** `nodes[v]` is the node bound to variable `v`; the edges are listed in pattern order. */
  datatype Match = Match(nodes: seq<U64>, edges: seq<Edge>)

  /** A match by its CSR edge positions, which identify it even among parallel edges. */
  datatype Hit = Hit(nodes: seq<U64>, pos: seq<nat>)

  /** The value of an unbound variable. */
  const UNBOUND: U64 := U64_MAX

  // ---------- constructors ----------

  function Chain(n: nat): (orders: seq<EventOrder>)
  {
    seq(n, i requires 0 <= i < n => EventOrder(i, i + 1))
  }

  /** A chain of `len` edges, each starting later than the one before. */
  function TemporalPath(len: nat): (p: Pattern)
    requires len >= 1
  {
    Pattern(len + 1, seq(len, i requires 0 <= i < len => PatternEdge(i, i + 1, None)), Chain(len - 1))
  }

  /** `a -> b -> d` and `a -> c -> d`, each arm ordered in time. */
  function Diamond(): (p: Pattern)
  {
    Pattern(4,
            [PatternEdge(0, 1, None), PatternEdge(0, 2, None), PatternEdge(1, 3, None), PatternEdge(2, 3, None)],
            [EventOrder(0, 2), EventOrder(1, 3)])
  }

  /** A chain that closes on its first variable; the start times increase from there. */
  function Ring(len: nat): (p: Pattern)
    requires len >= 2
  {
    Pattern(len, seq(len, i requires 0 <= i < len => PatternEdge(i, (i + 1) % len, None)), Chain(len - 1))
  }

  // ---------- well-formed patterns ----------

  /** Every index is in range: what the matcher needs in order not to panic. */
  ghost predicate InBounds(pat: Pattern) {
    && (forall i :: 0 <= i < |pat.edges| ==> pat.edges[i].src < pat.numVars && pat.edges[i].dst < pat.numVars)
    && (forall i :: 0 <= i < |pat.eventOrders| ==>
          pat.eventOrders[i].before < |pat.edges| && pat.eventOrders[i].after < |pat.edges|)
  }

  /** The variables bound once the first `k` edges have been matched. */
  ghost function Bound(pat: Pattern, k: nat): (s: set<nat>)
    requires k <= |pat.edges|
  {
    if k == 0 then {0} else Bound(pat, k - 1) + {pat.edges[k - 1].dst}
  }

  /** Each edge leaves an already bound variable, and in the end every variable is bound. */
  ghost predicate WellFormed(pat: Pattern) {
    && pat.numVars >= 1
    && InBounds(pat)
    && (forall i :: 0 <= i < |pat.edges| ==> pat.edges[i].src in Bound(pat, i))
    && (forall v :: 0 <= v < pat.numVars ==> v in Bound(pat, |pat.edges|))
  }

  /** Bound variables stay bound. */
  lemma {:induction false} BoundGrows(pat: Pattern, i: nat, j: nat)
    requires i <= j <= |pat.edges|
    ensures Bound(pat, i) <= Bound(pat, j)
    ensures forall k :: 0 <= k < i ==> pat.edges[k].dst in Bound(pat, j)
    decreases j
  {
    if i < j {
      BoundGrows(pat, i, j - 1);
    } else if j > 0 {
      BoundGrows(pat, j - 1, j - 1);
    }
  }

  lemma {:induction false} BoundOfChain(pat: Pattern, k: nat)
    requires k <= |pat.edges| && forall i :: 0 <= i < k ==> pat.edges[i].dst == i + 1
    ensures forall v: nat :: v in Bound(pat, k) <==> v <= k
  {
    if k > 0 {
      BoundOfChain(pat, k - 1);
    }
  }

  /** `temporal_path(len)` is well-formed at every length. */
  lemma TemporalPathWellFormed(len: nat)
    requires len >= 1
    ensures WellFormed(TemporalPath(len))
  {
    var p := TemporalPath(len);
    forall i | 0 <= i <= len ensures forall v: nat :: v in Bound(p, i) <==> v <= i {
      BoundOfChain(p, i);
    }
  }

  lemma RingEdge(len: nat, j: nat)
    requires 2 <= len && j < len
    ensures Ring(len).edges[j].src == j && Ring(len).edges[j].dst < len
    ensures j < len - 1 ==> Ring(len).edges[j].dst == j + 1
  {
    if j < len - 1 {
      assert (j + 1) % len == j + 1;
    } else {
      assert len % len == 0;
    }
  }

  lemma BoundOfRing(len: nat, k: nat, v: nat)
    requires 2 <= len && k < len
    ensures v in Bound(Ring(len), k) <==> v <= k
  {
    var p := Ring(len);
    forall j | 0 <= j < k ensures p.edges[j].dst == j + 1 {
      RingEdge(len, j);
    }
    hide Ring, Bound;
    BoundOfChain(p, k);
  }

  /** The edges and orders of a ring stay inside it. */
  lemma RingInBounds(len: nat)
    requires len >= 2
    ensures InBounds(Ring(len))
  {
    var p := Ring(len);
    forall i | 0 <= i < |p.edges| ensures p.edges[i].src < len && p.edges[i].dst < len {
      RingEdge(len, i);
    }
  }

  /** `ring(len)` is well-formed at every length. */
  lemma RingWellFormed(len: nat)
    requires len >= 2
    ensures WellFormed(Ring(len))
  {
    RingInBounds(len);
    RingForward(len);
    RingCovers(len);
    hide Bound, InBounds;
  }

  lemma RingForward(len: nat)
    requires len >= 2
    ensures forall i :: 0 <= i < len ==> Ring(len).edges[i].src in Bound(Ring(len), i)
  {
    hide Bound;
    forall i | 0 <= i < len ensures Ring(len).edges[i].src in Bound(Ring(len), i) {
      BoundOfRing(len, i, i);
    }
  }

  lemma RingCovers(len: nat)
    requires len >= 2
    ensures forall v :: 0 <= v < len ==> v in Bound(Ring(len), len)
  {
    BoundGrows(Ring(len), len - 1, len);
    hide Bound, Ring;
    forall v | 0 <= v < len ensures v in Bound(Ring(len), len) {
      BoundOfRing(len, len - 1, v);
    }
  }

  /** `diamond()` is well-formed. */
  lemma DiamondWellFormed()
    ensures WellFormed(Diamond())
  {
    var d := Diamond();
    assert Bound(d, 1) == {0, 1};
    assert Bound(d, 2) == {0, 1, 2};
    assert Bound(d, 3) == {0, 1, 2, 3};
    assert Bound(d, 4) == {0, 1, 2, 3};
  }

  // ---------- matches ----------

  predicate TypeFits(e: PatternEdge, edgeType: U16) {
    e.edgeType.None? || e.edgeType.value == edgeType
  }

  /** Position `p` is a CSR edge active at `t` that fits pattern edge `i` under the bindings. */
  ghost predicate EdgeFits(csr: Csr, pat: Pattern, t: I64, nodes: seq<U64>, i: nat, p: nat)
    requires Wf(csr) && InBounds(pat) && |nodes| == pat.numVars && i < |pat.edges|
  {
    var e, s := pat.edges[i], nodes[pat.edges[i].src];
    && s < csr.nodeCount && csr.offsets[s] <= p < csr.offsets[s + 1]
    && ActiveAt(csr, p, t)
    && TypeFits(e, csr.edgeType[p])
    && csr.dst[p] == nodes[e.dst]
  }

  predicate OrdersHold(csr: Csr, pat: Pattern, pos: seq<nat>)
    requires Wf(csr) && InBounds(pat) && |pos| == |pat.edges| && forall i :: 0 <= i < |pos| ==> pos[i] < |csr.dst|
  {
    forall o | o in pat.eventOrders ::
      o.before < |pos| && o.after < |pos| && csr.validFrom[pos[o.before]] < csr.validFrom[pos[o.after]]
  }

  /** The declarative definition of a match: an injective binding of the variables and a CSR edge for each
      pattern edge, active at `t`, of the required type, between the bound nodes, with the event times in order. */
  ghost predicate IsMatch(csr: Csr, pat: Pattern, t: I64, h: Hit)
    requires Wf(csr) && InBounds(pat)
  {
    && |h.nodes| == pat.numVars >= 1 && |h.pos| == |pat.edges|
    && h.nodes[0] < csr.nodeCount
    && NoDup(h.nodes) && UNBOUND !in h.nodes
    && (forall i :: 0 <= i < |h.pos| ==> h.pos[i] < |csr.dst| && EdgeFits(csr, pat, t, h.nodes, i, h.pos[i]))
    && OrdersHold(csr, pat, h.pos)
  }

  /** The reported match of a hit. */
  function ToMatch(csr: Csr, pat: Pattern, h: Hit): (m: Match)
    requires Wf(csr) && InBounds(pat) && |h.nodes| == pat.numVars && |h.pos| == |pat.edges|
    requires forall i :: 0 <= i < |h.pos| ==> h.pos[i] < |csr.dst|
    ensures m.nodes == h.nodes && |m.edges| == |h.pos|
    ensures forall i :: 0 <= i < |h.pos| ==>
              m.edges[i] == Edge(h.nodes[pat.edges[i].src], h.nodes[pat.edges[i].dst],
                                 csr.edgeType[h.pos[i]], csr.validFrom[h.pos[i]], csr.validTo[h.pos[i]])
  {
    Match(h.nodes,
          seq(|h.pos|, i requires 0 <= i < |h.pos| =>
                Edge(h.nodes[pat.edges[i].src], h.nodes[pat.edges[i].dst],
                     csr.edgeType[h.pos[i]], csr.validFrom[h.pos[i]], csr.validTo[h.pos[i]])))
  }
}
