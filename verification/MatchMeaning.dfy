/** The search tree against the declarative matches: sound, complete, each match exactly once. */
module MatchMeaning {
  import opened Basics
  import opened TemporalCsr
  import opened Patterns
  import opened MatchTrace

  /** Exactly the variables the first `k` edges bind are bound. */
  ghost predicate Binds(pat: Pattern, nodes: seq<U64>, k: nat)
    requires k <= |pat.edges| && |nodes| == pat.numVars
  {
    forall v :: 0 <= v < pat.numVars ==> (nodes[v] != UNBOUND <==> v in Bound(pat, k))
  }

  ghost predicate Injective(nodes: seq<U64>) {
    forall u, v :: 0 <= u < v < |nodes| && nodes[u] != UNBOUND ==> nodes[u] != nodes[v]
  }

  ghost predicate Fitting(csr: Csr, pat: Pattern, t: I64, nodes: seq<U64>, chosen: seq<nat>)
    requires Shape(csr, pat, nodes, chosen)
  {
    forall i :: 0 <= i < |chosen| ==> EdgeFits(csr, pat, t, nodes, i, chosen[i])
  }

  /** The bindings after `chosen` are those the first edges force, and the chosen edges fit them. */
  ghost predicate Partial(csr: Csr, pat: Pattern, t: I64, nodes: seq<U64>, chosen: seq<nat>) {
    && Shape(csr, pat, nodes, chosen)
    && Binds(pat, nodes, |chosen|)
    && Injective(nodes)
    && Fitting(csr, pat, t, nodes, chosen)
  }

  /** `whole` agrees with every binding already made. */
  ghost predicate Extends(nodes: seq<U64>, whole: seq<U64>) {
    && |nodes| == |whole|
    && forall v :: 0 <= v < |nodes| && nodes[v] != UNBOUND ==> whole[v] == nodes[v]
  }

  ghost predicate Below(nodes: seq<U64>, chosen: seq<nat>, h: Hit) {
    Extends(nodes, h.nodes) && chosen <= h.pos
  }

  // ---------- one step down the tree ----------

  lemma FittingAppend(csr: Csr, pat: Pattern, t: I64, nodes: seq<U64>, chosen: seq<nat>, p: nat)
    requires Shape(csr, pat, nodes, chosen) && |chosen| < |pat.edges| && p < |csr.dst|
    requires Fitting(csr, pat, t, nodes, chosen) && EdgeFits(csr, pat, t, nodes, |chosen|, p)
    ensures Shape(csr, pat, nodes, chosen + [p]) && Fitting(csr, pat, t, nodes, chosen + [p])
  {
    hide EdgeFits;
    var longer := chosen + [p];
    forall i | 0 <= i < |longer| ensures EdgeFits(csr, pat, t, nodes, i, longer[i]) {
      assert longer[i] == if i < |chosen| then chosen[i] else p;
    }
  }

  /** Following a bound edge keeps the partial match. */
  lemma StepBound(csr: Csr, pat: Pattern, t: I64, nodes: seq<U64>, chosen: seq<nat>, p: nat)
    requires WellFormed(pat) && Partial(csr, pat, t, nodes, chosen) && |chosen| < |pat.edges| && p < |csr.dst|
    requires EdgeFits(csr, pat, t, nodes, |chosen|, p) && nodes[pat.edges[|chosen|].dst] != UNBOUND
    ensures Partial(csr, pat, t, nodes, chosen + [p])
  {
    hide EdgeFits, WellFormed, Fitting;
    FittingAppend(csr, pat, t, nodes, chosen, p);
    assert pat.edges[|chosen|].dst in Bound(pat, |chosen|);
    assert Bound(pat, |chosen| + 1) == Bound(pat, |chosen|);
  }

  /** Binding a fresh variable to a node not in use keeps the partial match. */
  lemma StepFresh(csr: Csr, pat: Pattern, t: I64, nodes: seq<U64>, chosen: seq<nat>, p: nat)
    requires WellFormed(pat) && Partial(csr, pat, t, nodes, chosen) && |chosen| < |pat.edges| && p < |csr.dst|
    requires var k := |chosen|; var e := pat.edges[k];
             && nodes[e.dst] == UNBOUND && csr.dst[p] !in nodes
             && EdgeFits(csr, pat, t, nodes[e.dst := csr.dst[p]], k, p)
    ensures Partial(csr, pat, t, nodes[pat.edges[|chosen|].dst := csr.dst[p]], chosen + [p])
  {
    hide EdgeFits, WellFormed, Fitting, Binds, Injective, Bound;
    var k := |chosen|;
    var v := pat.edges[k].dst;
    var next := nodes[v := csr.dst[p]];
    RebindFitting(csr, pat, t, nodes, chosen, v, csr.dst[p]);
    FittingAppend(csr, pat, t, next, chosen, p);
    RebindShape(pat, nodes, k, csr.dst[p]);
  }

  lemma RebindShape(pat: Pattern, nodes: seq<U64>, k: nat, x: U64)
    requires InBounds(pat) && k < |pat.edges| && |nodes| == pat.numVars
    requires Binds(pat, nodes, k) && Injective(nodes)
    requires nodes[pat.edges[k].dst] == UNBOUND && x !in nodes
    ensures var next := nodes[pat.edges[k].dst := x];
            Binds(pat, next, k + 1) && Injective(next)
  {
    var v := pat.edges[k].dst;
    var next := nodes[v := x];
    assert nodes[v] in nodes;
    assert Bound(pat, k + 1) == Bound(pat, k) + {v};
    forall a, b | 0 <= a < b < |next| && next[a] != UNBOUND ensures next[a] != next[b] {
      assert nodes[a] in nodes && nodes[b] in nodes;
    }
  }

  /** Binding an unbound variable changes nothing for the edges already chosen. */
  lemma RebindFitting(csr: Csr, pat: Pattern, t: I64, nodes: seq<U64>, chosen: seq<nat>, v: nat, x: U64)
    requires WellFormed(pat) && Shape(csr, pat, nodes, chosen)
    requires Binds(pat, nodes, |chosen|) && Fitting(csr, pat, t, nodes, chosen)
    requires v < |nodes| && nodes[v] == UNBOUND
    ensures Shape(csr, pat, nodes[v := x], chosen) && Fitting(csr, pat, t, nodes[v := x], chosen)
  {
    hide EdgeFits;
    var next := nodes[v := x];
    forall i | 0 <= i < |chosen| ensures EdgeFits(csr, pat, t, next, i, chosen[i]) {
      assert EdgeFits(csr, pat, t, nodes, i, chosen[i]);
      BoundGrows(pat, i, |chosen|);
      BoundGrows(pat, i + 1, |chosen|);
      assert pat.edges[i].src in Bound(pat, |chosen|) && pat.edges[i].dst in Bound(pat, |chosen|);
      EdgeFitsSame(csr, pat, t, nodes, next, i, chosen[i]);
    }
  }

  lemma EdgeFitsSame(csr: Csr, pat: Pattern, t: I64, nodes: seq<U64>, next: seq<U64>, i: nat, p: nat)
    requires Wf(csr) && InBounds(pat) && |nodes| == |next| == pat.numVars && i < |pat.edges|
    requires EdgeFits(csr, pat, t, nodes, i, p)
    requires nodes[pat.edges[i].src] == next[pat.edges[i].src] && nodes[pat.edges[i].dst] == next[pat.edges[i].dst]
    ensures EdgeFits(csr, pat, t, next, i, p)
  {
  }

  // ---------- soundness ----------

  lemma {:induction false} TraceSound(csr: Csr, pat: Pattern, t: I64, nodes: seq<U64>, chosen: seq<nat>, h: Hit)
    requires WellFormed(pat) && Partial(csr, pat, t, nodes, chosen) && nodes[0] < csr.nodeCount
    requires Found(h) in Trace(csr, pat, t, nodes, chosen)
    ensures IsMatch(csr, pat, t, h) && Below(nodes, chosen, h)
    decreases |pat.edges| - |chosen|, 2, 0
  {
    if |chosen| == |pat.edges| {
      assert h == Hit(nodes, chosen);
      forall v | 0 <= v < |nodes| ensures nodes[v] != UNBOUND {
        assert v in Bound(pat, |chosen|);
      }
    } else {
      var from := nodes[pat.edges[|chosen|].src];
      assert from != UNBOUND && from < csr.nodeCount;
      var ps := NeighborPositions(csr, from, t).value;
      NeighborPositionsAre(csr, from, t);
      OverSound(csr, pat, t, nodes, chosen, ps, h);
    }
  }

  lemma {:induction false} OverSound(csr: Csr, pat: Pattern, t: I64, nodes: seq<U64>, chosen: seq<nat>, ps: seq<nat>, h: Hit)
    requires WellFormed(pat) && Partial(csr, pat, t, nodes, chosen) && |chosen| < |pat.edges|
    requires nodes[0] < csr.nodeCount && nodes[pat.edges[|chosen|].src] < csr.nodeCount
    requires var from := nodes[pat.edges[|chosen|].src];
             forall i :: 0 <= i < |ps| ==>
               csr.offsets[from] <= ps[i] < csr.offsets[from + 1] && ActiveAt(csr, ps[i], t)
    requires Found(h) in TraceOver(csr, pat, t, nodes, chosen, ps)
    ensures IsMatch(csr, pat, t, h) && Below(nodes, chosen, h)
    decreases |pat.edges| - |chosen|, 1, |ps|
  {
    var init := ps[..|ps| - 1];
    if Found(h) in TraceOver(csr, pat, t, nodes, chosen, init) {
      OverSound(csr, pat, t, nodes, chosen, init, h);
    } else {
      BranchSound(csr, pat, t, nodes, chosen, ps[|ps| - 1], h);
    }
  }

  lemma {:induction false} BranchSound(csr: Csr, pat: Pattern, t: I64, nodes: seq<U64>, chosen: seq<nat>, p: nat, h: Hit)
    requires WellFormed(pat) && Partial(csr, pat, t, nodes, chosen) && |chosen| < |pat.edges|
    requires nodes[0] < csr.nodeCount && nodes[pat.edges[|chosen|].src] < csr.nodeCount
    requires var from := nodes[pat.edges[|chosen|].src];
             csr.offsets[from] <= p < csr.offsets[from + 1] && ActiveAt(csr, p, t)
    requires Found(h) in Branch(csr, pat, t, nodes, chosen, p)
    ensures IsMatch(csr, pat, t, h) && Below(nodes, chosen, h)
    decreases |pat.edges| - |chosen|, 0, 0
  {
    hide Trace, IsMatch, Fitting, Injective, Bound;
    var e := pat.edges[|chosen|];
    assert e.src in Bound(pat, |chosen|);
    if nodes[e.dst] != UNBOUND {
      assert EdgeFits(csr, pat, t, nodes, |chosen|, p);
      hide EdgeFits, Binds, WellFormed;
      StepBound(csr, pat, t, nodes, chosen, p);
      TraceSound(csr, pat, t, nodes, chosen + [p], h);
      assert chosen <= chosen + [p];
    } else {
      ZeroBound(pat, |chosen|);
      var next := nodes[e.dst := csr.dst[p]];
      assert EdgeFits(csr, pat, t, next, |chosen|, p);
      assert next[0] == nodes[0];
      hide EdgeFits, Binds, WellFormed;
      StepFresh(csr, pat, t, nodes, chosen, p);
      TraceSound(csr, pat, t, next, chosen + [p], h);
      assert chosen <= chosen + [p];
      ExtendsFirst(nodes, e.dst, csr.dst[p], h.nodes);
    }
  }

  lemma ZeroBound(pat: Pattern, k: nat)
    requires k <= |pat.edges|
    ensures 0 in Bound(pat, k)
  {
    BoundGrows(pat, 0, k);
  }

  lemma ExtendsFirst(nodes: seq<U64>, v: nat, x: U64, whole: seq<U64>)
    requires v < |nodes| && nodes[v] == UNBOUND && Extends(nodes[v := x], whole)
    ensures Extends(nodes, whole)
  {
    var next := nodes[v := x];
    forall u | 0 <= u < |nodes| && nodes[u] != UNBOUND ensures whole[u] == nodes[u] {
      assert next[u] == nodes[u];
    }
  }

  // ---------- completeness ----------

  lemma {:induction false} TraceComplete(csr: Csr, pat: Pattern, t: I64, nodes: seq<U64>, chosen: seq<nat>, h: Hit)
    requires WellFormed(pat) && Partial(csr, pat, t, nodes, chosen)
    requires IsMatch(csr, pat, t, h) && Below(nodes, chosen, h)
    ensures Found(h) in Trace(csr, pat, t, nodes, chosen)
    decreases |pat.edges| - |chosen|, 2, 0
  {
    if |chosen| == |pat.edges| {
      WholeHit(csr, pat, t, nodes, chosen, h);
    } else {
      NextFits(csr, pat, t, nodes, chosen, h);
      BranchComplete(csr, pat, t, nodes, chosen, h);
      hide IsMatch, Partial, WellFormed, Branch, Below;
      var from := nodes[pat.edges[|chosen|].src];
      OverContains(csr, pat, t, nodes, chosen, NeighborPositions(csr, from, t).value, h.pos[|chosen|], Found(h));
    }
  }

  /** With every edge chosen, the bindings and positions are the hit itself. */
  lemma WholeHit(csr: Csr, pat: Pattern, t: I64, nodes: seq<U64>, chosen: seq<nat>, h: Hit)
    requires WellFormed(pat) && Partial(csr, pat, t, nodes, chosen) && |chosen| == |pat.edges|
    requires IsMatch(csr, pat, t, h) && Below(nodes, chosen, h)
    ensures h == Hit(nodes, chosen) && OrdersHold(csr, pat, chosen)
  {
    assert h.pos == chosen;
    forall v | 0 <= v < |nodes| ensures nodes[v] == h.nodes[v] {
      assert v in Bound(pat, |chosen|);
    }
    assert h.nodes == nodes;
  }

  /** The next edge of the hit leaves a bound variable and is among the candidates. */
  lemma NextFits(csr: Csr, pat: Pattern, t: I64, nodes: seq<U64>, chosen: seq<nat>, h: Hit)
    requires WellFormed(pat) && Partial(csr, pat, t, nodes, chosen) && |chosen| < |pat.edges|
    requires IsMatch(csr, pat, t, h) && Below(nodes, chosen, h)
    ensures Shape(csr, pat, nodes, chosen) && |h.pos| == |pat.edges| && h.pos[|chosen|] < |csr.dst|
    ensures var from := nodes[pat.edges[|chosen|].src];
            && from != UNBOUND && NeighborPositions(csr, from, t).Ok?
            && h.pos[|chosen|] in NeighborPositions(csr, from, t).value
  {
    var k := |chosen|;
    var from := nodes[pat.edges[k].src];
    assert from != UNBOUND && from == h.nodes[pat.edges[k].src];
    assert EdgeFits(csr, pat, t, h.nodes, k, h.pos[k]);
    hide IsMatch, Partial, WellFormed;
    NeighborPositionsAre(csr, from, t);
  }

  lemma {:induction false} OverContains(csr: Csr, pat: Pattern, t: I64, nodes: seq<U64>, chosen: seq<nat>, ps: seq<nat>,
                                        p: nat, ev: Event)
    requires Shape(csr, pat, nodes, chosen) && |chosen| < |pat.edges|
    requires forall i :: 0 <= i < |ps| ==> ps[i] < |csr.dst|
    requires p in ps && ev in Branch(csr, pat, t, nodes, chosen, p)
    ensures ev in TraceOver(csr, pat, t, nodes, chosen, ps)
    decreases |ps|
  {
    hide Branch;
    if ps[|ps| - 1] != p {
      OverContains(csr, pat, t, nodes, chosen, ps[..|ps| - 1], p, ev);
    }
  }

  lemma {:induction false} BranchComplete(csr: Csr, pat: Pattern, t: I64, nodes: seq<U64>, chosen: seq<nat>, h: Hit)
    requires WellFormed(pat) && Partial(csr, pat, t, nodes, chosen) && |chosen| < |pat.edges|
    requires IsMatch(csr, pat, t, h) && Below(nodes, chosen, h)
    ensures Found(h) in Branch(csr, pat, t, nodes, chosen, h.pos[|chosen|])
    decreases |pat.edges| - |chosen|, 0, 0
  {
    hide Trace, Fitting, Injective, Bound;
    var k := |chosen|;
    var e, p := pat.edges[k], h.pos[k];
    assert e.src in Bound(pat, k);
    assert EdgeFits(csr, pat, t, h.nodes, k, p);
    assert nodes[e.src] == h.nodes[e.src];
    assert chosen + [p] <= h.pos;
    if nodes[e.dst] != UNBOUND {
      StepBound(csr, pat, t, nodes, chosen, p);
      TraceComplete(csr, pat, t, nodes, chosen + [p], h);
    } else {
      DestinationIsFree(nodes, h.nodes, e.dst);
      var next := nodes[e.dst := csr.dst[p]];
      assert next[e.src] == nodes[e.src];
      assert EdgeFits(csr, pat, t, next, k, p);
      StepFresh(csr, pat, t, nodes, chosen, p);
      TraceComplete(csr, pat, t, next, chosen + [p], h);
    }
  }

  /** In an injective full binding, the node of an unbound variable is not among those in use. */
  lemma DestinationIsFree(nodes: seq<U64>, whole: seq<U64>, v: nat)
    requires Extends(nodes, whole) && NoDup(whole) && UNBOUND !in whole && v < |nodes| && nodes[v] == UNBOUND
    ensures whole[v] !in nodes
  {
    forall u | 0 <= u < |nodes| ensures nodes[u] != whole[v] {
      assert whole[u] in whole && whole[v] in whole;
    }
  }

  // ---------- order, hence exactly once ----------

  ghost predicate LexLess(a: seq<nat>, b: seq<nat>) {
    exists k :: 0 <= k < |a| && k < |b| && a[..k] == b[..k] && a[k] < b[k]
  }

  /** The hits come in strictly ascending lexicographic order of edge positions. */
  ghost predicate Ordered(evs: seq<Event>) {
    forall i, j :: 0 <= i < j < |evs| && evs[i].Found? && evs[j].Found? ==> LexLess(evs[i].hit.pos, evs[j].hit.pos)
  }

  ghost predicate AllBelow(evs: seq<Event>, chosen: seq<nat>) {
    forall i :: 0 <= i < |evs| && evs[i].Found? ==> chosen <= evs[i].hit.pos
  }

  lemma {:induction false} TraceOrdered(csr: Csr, pat: Pattern, t: I64, nodes: seq<U64>, chosen: seq<nat>)
    requires Shape(csr, pat, nodes, chosen)
    ensures Ordered(Trace(csr, pat, t, nodes, chosen)) && AllBelow(Trace(csr, pat, t, nodes, chosen), chosen)
    decreases |pat.edges| - |chosen|, 2, 0
  {
    if |chosen| < |pat.edges| {
      var from := nodes[pat.edges[|chosen|].src];
      if from != UNBOUND && from < csr.nodeCount {
        NeighborPositionsAre(csr, from, t);
        OverOrdered(csr, pat, t, nodes, chosen, NeighborPositions(csr, from, t).value);
      }
    }
  }

  lemma {:induction false} OverOrdered(csr: Csr, pat: Pattern, t: I64, nodes: seq<U64>, chosen: seq<nat>, ps: seq<nat>)
    requires Shape(csr, pat, nodes, chosen) && |chosen| < |pat.edges|
    requires forall i :: 0 <= i < |ps| ==> ps[i] < |csr.dst|
    requires forall i, j :: 0 <= i < j < |ps| ==> ps[i] < ps[j]
    ensures Ordered(TraceOver(csr, pat, t, nodes, chosen, ps)) && AllBelow(TraceOver(csr, pat, t, nodes, chosen, ps), chosen)
    ensures var evs := TraceOver(csr, pat, t, nodes, chosen, ps);
            forall i :: 0 <= i < |evs| && evs[i].Found? ==>
              |evs[i].hit.pos| > |chosen| && evs[i].hit.pos[|chosen|] in ps
    decreases |pat.edges| - |chosen|, 1, |ps|
  {
    if ps != [] {
      var init, p := ps[..|ps| - 1], ps[|ps| - 1];
      OverOrdered(csr, pat, t, nodes, chosen, init);
      BranchOrdered(csr, pat, t, nodes, chosen, p);
      var a, b := TraceOver(csr, pat, t, nodes, chosen, init), Branch(csr, pat, t, nodes, chosen, p);
      hide Branch, TraceOver;
      forall i, j | 0 <= i < |a| && 0 <= j < |b| && a[i].Found? && b[j].Found?
        ensures LexLess(a[i].hit.pos, b[j].hit.pos)
      {
        var x, y := a[i].hit.pos, b[j].hit.pos;
        assert x[..|chosen|] == chosen && y[..|chosen|] == chosen && y[|chosen|] == (chosen + [p])[|chosen|] == p;
        var h :| 0 <= h < |init| && init[h] == x[|chosen|];
        assert ps[h] < p;
      }
      ConcatOrdered(a, b, chosen, p, init, ps);
      OverUnfold(csr, pat, t, nodes, chosen, ps);
    }
  }

  lemma OverUnfold(csr: Csr, pat: Pattern, t: I64, nodes: seq<U64>, chosen: seq<nat>, ps: seq<nat>)
    requires Shape(csr, pat, nodes, chosen) && |chosen| < |pat.edges| && ps != []
    requires forall i :: 0 <= i < |ps| ==> ps[i] < |csr.dst|
    ensures TraceOver(csr, pat, t, nodes, chosen, ps)
            == TraceOver(csr, pat, t, nodes, chosen, ps[..|ps| - 1]) + Branch(csr, pat, t, nodes, chosen, ps[|ps| - 1])
  {
  }

  lemma ConcatOrdered(a: seq<Event>, b: seq<Event>, chosen: seq<nat>, p: nat, init: seq<nat>, ps: seq<nat>)
    requires Ordered(a) && Ordered(b) && AllBelow(a, chosen) && AllBelow(b, chosen + [p]) && ps == init + [p]
    requires forall i :: 0 <= i < |a| && a[i].Found? ==> |a[i].hit.pos| > |chosen| && a[i].hit.pos[|chosen|] in init
    requires forall i, j :: 0 <= i < |a| && 0 <= j < |b| && a[i].Found? && b[j].Found? ==>
               LexLess(a[i].hit.pos, b[j].hit.pos)
    ensures Ordered(a + b) && AllBelow(a + b, chosen)
    ensures forall i :: 0 <= i < |a + b| && (a + b)[i].Found? ==>
              |(a + b)[i].hit.pos| > |chosen| && (a + b)[i].hit.pos[|chosen|] in ps
  {
    hide LexLess;
    var c := a + b;
    forall i | 0 <= i < |c| && c[i].Found?
      ensures chosen <= c[i].hit.pos && |c[i].hit.pos| > |chosen| && c[i].hit.pos[|chosen|] in ps
    {
      if i >= |a| {
        assert chosen + [p] <= c[i].hit.pos;
        assert (chosen + [p])[|chosen|] == p && (chosen + [p])[..|chosen|] == chosen;
      }
    }
    forall i, j | 0 <= i < j < |c| && c[i].Found? && c[j].Found? ensures LexLess(c[i].hit.pos, c[j].hit.pos) {
      if i >= |a| {
        assert c[i] == b[i - |a|] && c[j] == b[j - |a|];
      } else if j >= |a| {
        assert c[j] == b[j - |a|];
      }
    }
  }

  lemma {:induction false} BranchOrdered(csr: Csr, pat: Pattern, t: I64, nodes: seq<U64>, chosen: seq<nat>, p: nat)
    requires Shape(csr, pat, nodes, chosen) && |chosen| < |pat.edges| && p < |csr.dst|
    ensures Ordered(Branch(csr, pat, t, nodes, chosen, p)) && AllBelow(Branch(csr, pat, t, nodes, chosen, p), chosen + [p])
    decreases |pat.edges| - |chosen|, 0, 0
  {
    var e := pat.edges[|chosen|];
    TraceOrdered(csr, pat, t, nodes, chosen + [p]);
    TraceOrdered(csr, pat, t, nodes[e.dst := csr.dst[p]], chosen + [p]);
  }

  // ---------- faults ----------

  /** Every edge of the index ends at an existing node. */
  ghost predicate DstInRange(csr: Csr) {
    forall p :: 0 <= p < |csr.dst| ==> csr.dst[p] < csr.nodeCount
  }

  ghost predicate AllFound(evs: seq<Event>) {
    forall i :: 0 <= i < |evs| ==> evs[i].Found?
  }

  ghost predicate BoundInRange(csr: Csr, nodes: seq<U64>) {
    forall v :: 0 <= v < |nodes| && nodes[v] != UNBOUND ==> nodes[v] < csr.nodeCount
  }

  lemma {:induction false} TraceNoFault(csr: Csr, pat: Pattern, t: I64, nodes: seq<U64>, chosen: seq<nat>)
    requires Shape(csr, pat, nodes, chosen) && DstInRange(csr) && BoundInRange(csr, nodes)
    ensures AllFound(Trace(csr, pat, t, nodes, chosen))
    decreases |pat.edges| - |chosen|, 2, 0
  {
    if |chosen| < |pat.edges| {
      var from := nodes[pat.edges[|chosen|].src];
      if from != UNBOUND {
        OverNoFault(csr, pat, t, nodes, chosen, NeighborPositions(csr, from, t).value);
      }
    }
  }

  lemma {:induction false} OverNoFault(csr: Csr, pat: Pattern, t: I64, nodes: seq<U64>, chosen: seq<nat>, ps: seq<nat>)
    requires Shape(csr, pat, nodes, chosen) && DstInRange(csr) && BoundInRange(csr, nodes) && |chosen| < |pat.edges|
    requires forall i :: 0 <= i < |ps| ==> ps[i] < |csr.dst|
    ensures AllFound(TraceOver(csr, pat, t, nodes, chosen, ps))
    decreases |pat.edges| - |chosen|, 1, |ps|
  {
    if ps != [] {
      var p := ps[|ps| - 1];
      OverNoFault(csr, pat, t, nodes, chosen, ps[..|ps| - 1]);
      var e := pat.edges[|chosen|];
      TraceNoFault(csr, pat, t, nodes, chosen + [p]);
      TraceNoFault(csr, pat, t, nodes[e.dst := csr.dst[p]], chosen + [p]);
    }
  }

  // ---------- the whole enumeration ----------

  /** Order of the whole enumeration: by start node, then by edge positions. */
  ghost predicate HitLess(a: Hit, b: Hit)
    requires a.nodes != [] && b.nodes != []
  {
    a.nodes[0] < b.nodes[0] || (a.nodes[0] == b.nodes[0] && LexLess(a.pos, b.pos))
  }

  ghost predicate HitsAscend(hits: seq<Hit>) {
    && (forall i :: 0 <= i < |hits| ==> hits[i].nodes != [])
    && forall i, j :: 0 <= i < j < |hits| ==> HitLess(hits[i], hits[j])
  }

  lemma LexLessIrreflexive(a: seq<nat>)
    ensures !LexLess(a, a)
  {
  }

  /** In an ascending enumeration no hit occurs twice. */
  lemma AscendingIsOnce(hits: seq<Hit>)
    requires HitsAscend(hits)
    ensures NoDup(hits)
  {
    forall i, j | 0 <= i < j < |hits| ensures hits[i] != hits[j] {
      LexLessIrreflexive(hits[i].pos);
      assert HitLess(hits[i], hits[j]);
    }
  }

  ghost function Hits(evs: seq<Event>): (hs: seq<Hit>)
    requires AllFound(evs)
    ensures |hs| == |evs|
    ensures forall i :: 0 <= i < |evs| ==> hs[i] == evs[i].hit
  {
    seq(|evs|, i requires 0 <= i < |evs| => evs[i].hit)
  }

  /** Anchored at `start`, the search finds exactly the matches that start there. */
  lemma FromMeaning(csr: Csr, pat: Pattern, t: I64, start: U64)
    requires Wf(csr) && WellFormed(pat) && start < csr.nodeCount && start != UNBOUND
    ensures forall h :: Found(h) in TraceFrom(csr, pat, t, start) <==> IsMatch(csr, pat, t, h) && h.nodes[0] == start
    ensures Ordered(TraceFrom(csr, pat, t, start))
    ensures DstInRange(csr) ==> AllFound(TraceFrom(csr, pat, t, start))
  {
    var nodes := seq(pat.numVars, _ => UNBOUND)[0 := start];
    assert Partial(csr, pat, t, nodes, []);
    TraceOrdered(csr, pat, t, nodes, []);
    if DstInRange(csr) {
      TraceNoFault(csr, pat, t, nodes, []);
    }
    forall h ensures Found(h) in TraceFrom(csr, pat, t, start) <==> IsMatch(csr, pat, t, h) && h.nodes[0] == start {
      StartMeaning(csr, pat, t, start, nodes, h);
    }
  }

  lemma StartMeaning(csr: Csr, pat: Pattern, t: I64, start: U64, nodes: seq<U64>, h: Hit)
    requires Wf(csr) && WellFormed(pat) && start < csr.nodeCount && start != UNBOUND
    requires nodes == seq(pat.numVars, _ => UNBOUND)[0 := start] && Partial(csr, pat, t, nodes, [])
    ensures Found(h) in Trace(csr, pat, t, nodes, []) <==> IsMatch(csr, pat, t, h) && h.nodes[0] == start
  {
    hide Trace;
    if Found(h) in Trace(csr, pat, t, nodes, []) {
      TraceSound(csr, pat, t, nodes, [], h);
      assert nodes[0] == start;
    }
    if IsMatch(csr, pat, t, h) && h.nodes[0] == start {
      assert [] <= h.pos;
      TraceComplete(csr, pat, t, nodes, [], h);
    }
  }

  /** Over all start nodes: every match exactly once, in ascending order, and no fault if all edges end at
      existing nodes. */
  lemma {:induction false} AllMeaning(csr: Csr, pat: Pattern, t: I64, n: nat)
    requires Wf(csr) && WellFormed(pat) && n <= csr.nodeCount <= U64_MAX && DstInRange(csr)
    ensures AllFound(TraceAll(csr, pat, t, n))
    ensures var hits := Hits(TraceAll(csr, pat, t, n));
            && HitsAscend(hits)
            && forall h :: h in hits <==> IsMatch(csr, pat, t, h) && h.nodes[0] < n
  {
    if n > 0 {
      AllMeaning(csr, pat, t, n - 1);
      FromMeaning(csr, pat, t, n - 1);
      hide WellFormed, IsMatch, HitsAscend, DstInRange, Ordered, AllFound, Hits, TraceFrom;
      AppendEvents(csr, pat, t, n, TraceAll(csr, pat, t, n - 1), TraceFrom(csr, pat, t, n - 1));
    }
  }

  /** The matches of one more start node follow those of the earlier ones. */
  lemma AppendEvents(csr: Csr, pat: Pattern, t: I64, n: nat, a: seq<Event>, b: seq<Event>)
    requires Wf(csr) && WellFormed(pat) && n > 0 && AllFound(a) && AllFound(b) && HitsAscend(Hits(a)) && Ordered(b)
    requires forall h :: h in Hits(a) <==> IsMatch(csr, pat, t, h) && h.nodes[0] < n - 1
    requires forall h :: Found(h) in b <==> IsMatch(csr, pat, t, h) && h.nodes[0] == n - 1
    ensures AllFound(a + b) && HitsAscend(Hits(a + b))
    ensures forall h :: h in Hits(a + b) <==> IsMatch(csr, pat, t, h) && h.nodes[0] < n
  {
    hide WellFormed, IsMatch, HitsAscend, LexLess;
    assert Hits(a + b) == Hits(a) + Hits(b);
    HitsOfFound(b);
    AppendStart(csr, pat, t, n, Hits(a), Hits(b));
  }

  lemma HitsOfFound(evs: seq<Event>)
    requires AllFound(evs)
    ensures forall h :: h in Hits(evs) <==> Found(h) in evs
  {
    forall h ensures h in Hits(evs) <==> Found(h) in evs {
      if h in Hits(evs) {
        var i :| 0 <= i < |evs| && Hits(evs)[i] == h;
        assert evs[i] == Found(h);
      }
      if Found(h) in evs {
        var i :| 0 <= i < |evs| && evs[i] == Found(h);
        assert Hits(evs)[i] == h;
      }
    }
  }

  lemma AppendStart(csr: Csr, pat: Pattern, t: I64, n: nat, a: seq<Hit>, b: seq<Hit>)
    requires Wf(csr) && WellFormed(pat) && n > 0 && HitsAscend(a)
    requires forall h :: h in a <==> IsMatch(csr, pat, t, h) && h.nodes[0] < n - 1
    requires forall h :: h in b <==> IsMatch(csr, pat, t, h) && h.nodes[0] == n - 1
    requires forall i, j :: 0 <= i < j < |b| ==> LexLess(b[i].pos, b[j].pos)
    ensures HitsAscend(a + b)
    ensures forall h :: h in a + b <==> IsMatch(csr, pat, t, h) && h.nodes[0] < n
  {
    hide LexLess;
    var c := a + b;
    forall i | 0 <= i < |c| ensures IsMatch(csr, pat, t, c[i]) && (if i < |a| then c[i].nodes[0] < n - 1 else c[i].nodes[0] == n - 1) {
      assert i < |a| ==> c[i] in a;
      assert i >= |a| ==> c[i] in b;
    }
    hide IsMatch;
    forall i, j | 0 <= i < j < |c| ensures HitLess(c[i], c[j]) {
      if i >= |a| {
        assert c[i] == b[i - |a|] && c[j] == b[j - |a|];
      }
    }
  }
}
