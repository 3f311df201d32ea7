/** The backtracking matcher: `dfs` over a mutable binding state, `find_from` and `find`. */
module Matcher {
  import opened Basics
  import opened Edges
  import opened TemporalCsr
  import opened Patterns
  import opened MatchTrace
  import opened MatchMeaning

  /** The mutable state of the search: node bindings per variable, edge attributes per pattern edge. */
  class DfsState {
    var nodes: seq<U64>
    var validFrom: seq<I64>
    var validTo: seq<I64>
    var edgeType: seq<U16>

    constructor (pat: Pattern)
      ensures nodes == seq(pat.numVars, _ => UNBOUND)
      ensures |validFrom| == |validTo| == |edgeType| == |pat.edges|
    {
      nodes := seq(pat.numVars, _ => UNBOUND);
      validFrom := seq(|pat.edges|, _ => 0);
      validTo := seq(|pat.edges|, _ => 0);
      edgeType := seq(|pat.edges|, _ => 0);
    }

    /** The attributes of the edges chosen so far are recorded. */
    ghost predicate Records(csr: Csr, pat: Pattern, chosen: seq<nat>)
      reads this
      requires Wf(csr)
    {
      && |validFrom| == |validTo| == |edgeType| == |pat.edges|
      && |chosen| <= |pat.edges|
      && forall i :: 0 <= i < |chosen| ==>
           && chosen[i] < |csr.dst|
           && validFrom[i] == csr.validFrom[chosen[i]]
           && validTo[i] == csr.validTo[chosen[i]]
           && edgeType[i] == csr.edgeType[chosen[i]]
    }

    function ToMatch(pat: Pattern): (m: Match)
      reads this
      requires InBounds(pat) && |nodes| == pat.numVars
      requires |validFrom| == |validTo| == |edgeType| == |pat.edges|
    {
      Match(nodes,
            seq(|pat.edges|, i requires 0 <= i < |pat.edges| reads this
                             requires |nodes| == pat.numVars
                             requires |validFrom| == |validTo| == |edgeType| == |pat.edges| =>
                  Edge(nodes[pat.edges[i].src], nodes[pat.edges[i].dst], edgeType[i], validFrom[i], validTo[i])))
    }

    predicate EventOrdersSatisfied(pat: Pattern)
      reads this
      requires InBounds(pat) && |validFrom| == |pat.edges|
    {
      forall o | o in pat.eventOrders ::
        o.before < |validFrom| && o.after < |validFrom| && validFrom[o.before] < validFrom[o.after]
    }
  }

  /** The growing `matches` vector. */
  class MatchList {
    var items: seq<Match>

    constructor ()
      ensures items == []
    {
      items := [];
    }
  }

  ghost function Outcome(r: Result<()>): (f: Option<U64>)
  {
    if r.Err? && r.error.NodeOutOfRange? then Some(r.error.node) else None
  }

  /** Recording a choice: the attribute slots of edge `ei` take the values of position `p`. */
  method Record(csr: Csr, ei: nat, nb: Neighbor, state: DfsState)
    requires ei < |state.validFrom| == |state.validTo| == |state.edgeType|
    modifies state`validFrom, state`validTo, state`edgeType
    ensures state.validFrom == old(state.validFrom)[ei := nb.validFrom]
    ensures state.validTo == old(state.validTo)[ei := nb.validTo]
    ensures state.edgeType == old(state.edgeType)[ei := nb.edgeType]
  {
    state.validFrom := state.validFrom[ei := nb.validFrom];
    state.validTo := state.validTo[ei := nb.validTo];
    state.edgeType := state.edgeType[ei := nb.edgeType];
  }

  /** Depth-first search from pattern edge `ei`. It appends exactly what consuming the events of its subtree
      under the limit yields, and on success leaves the node bindings as they were. */
  method Dfs(csr: Csr, pat: Pattern, t: I64, ei: nat, state: DfsState, out: MatchList, limit: nat,
             ghost chosen: seq<nat>) returns (r: Result<()>)
    requires Shape(csr, pat, state.nodes, chosen) && |chosen| == ei
    requires state.Records(csr, pat, chosen)
    modifies state, out
    ensures Reportable(csr, pat, Trace(csr, pat, t, old(state.nodes), chosen))
    ensures Progress(out.items, Outcome(r))
            == Consume(csr, pat, old(out.items), Trace(csr, pat, t, old(state.nodes), chosen), limit)
    ensures r.Err? ==> r.error.NodeOutOfRange?
    ensures r.Ok? ==> state.nodes == old(state.nodes)
    ensures r.Ok? ==> state.Records(csr, pat, chosen)
    decreases |pat.edges| - ei, 1
  {
    TraceReportable(csr, pat, t, state.nodes, chosen);
    ghost var evs := Trace(csr, pat, t, state.nodes, chosen);
    if |out.items| >= limit {
      return Ok(());
    }
    if ei == |pat.edges| {
      if state.EventOrdersSatisfied(pat) {
        var m := state.ToMatch(pat);
        assert m == Patterns.ToMatch(csr, pat, Hit(state.nodes, chosen));
        out.items := out.items + [m];
      }
      return Ok(());
    }

    var e := pat.edges[ei];
    var fromNode := state.nodes[e.src];
    if fromNode == UNBOUND {
      return Ok(());
    }
    ghost var positions := NeighborPositions(csr, fromNode, t);
    var neighbors := Neighbors(csr, fromNode, t);
    if neighbors.Err? {
      return Err(neighbors.error);
    }
    ghost var ps := positions.value;
    ghost var nodes0, items0 := state.nodes, out.items;
    for k := 0 to |neighbors.value|
      invariant state.nodes == nodes0
      invariant state.Records(csr, pat, chosen)
      invariant Reportable(csr, pat, TraceOver(csr, pat, t, nodes0, chosen, ps[..k]))
      invariant Progress(out.items, None) == Consume(csr, pat, items0, TraceOver(csr, pat, t, nodes0, chosen, ps[..k]), limit)
    {
      hide TraceOver, Trace, Consume, Branch;
      OverStep(csr, pat, t, nodes0, chosen, ps, k, items0, limit);
      r := TryNeighbor(csr, pat, t, ei, neighbors.value[k], state, out, limit, chosen, ps[k]);
      if r.Err? {
        FaultStays(csr, pat, t, nodes0, chosen, ps, k + 1, items0, limit);
        return;
      }
    }
    assert ps[..|ps|] == ps;
    r := Ok(());
  }

  /** The loop body of `dfs`: try one active neighbour for pattern edge `ei`. */
  method TryNeighbor(csr: Csr, pat: Pattern, t: I64, ei: nat, nb: Neighbor, state: DfsState, out: MatchList,
                     limit: nat, ghost chosen: seq<nat>, ghost p: nat) returns (r: Result<()>)
    requires Shape(csr, pat, state.nodes, chosen) && |chosen| == ei < |pat.edges|
    requires state.Records(csr, pat, chosen)
    requires p < |csr.dst| && nb == NeighborAt(csr, p)
    modifies state, out
    ensures Reportable(csr, pat, Branch(csr, pat, t, old(state.nodes), chosen, p))
    ensures Progress(out.items, Outcome(r))
            == Consume(csr, pat, old(out.items), Branch(csr, pat, t, old(state.nodes), chosen, p), limit)
    ensures r.Err? ==> r.error.NodeOutOfRange?
    ensures r.Ok? ==> state.nodes == old(state.nodes)
    ensures r.Ok? ==> state.Records(csr, pat, chosen)
    decreases |pat.edges| - ei, 0
  {
    BranchReportable(csr, pat, t, state.nodes, chosen, p);
    hide Trace;
    var e := pat.edges[ei];
    r := Ok(());
    if e.edgeType.Some? && nb.edgeType != e.edgeType.value {
      return;
    }
    if state.nodes[e.dst] != UNBOUND {
      if nb.dst != state.nodes[e.dst] {
        return;
      }
      Record(csr, ei, nb, state);
      r := Dfs(csr, pat, t, ei + 1, state, out, limit, chosen + [p]);
      RecordsPrefix(csr, pat, state, chosen, p);
    } else {
      if nb.dst in state.nodes {
        return;
      }
      state.nodes := state.nodes[e.dst := nb.dst];
      Record(csr, ei, nb, state);
      r := Dfs(csr, pat, t, ei + 1, state, out, limit, chosen + [p]);
      RecordsPrefix(csr, pat, state, chosen, p);
      if r.Err? {
        return;
      }
      state.nodes := state.nodes[e.dst := UNBOUND];
    }
  }

  lemma RecordsPrefix(csr: Csr, pat: Pattern, state: DfsState, chosen: seq<nat>, p: nat)
    requires Wf(csr)
    ensures state.Records(csr, pat, chosen + [p]) ==> state.Records(csr, pat, chosen)
  {
    assert forall i :: 0 <= i < |chosen| ==> chosen[i] == (chosen + [p])[i];
  }

  /** Consuming one more branch continues where the earlier branches stopped. */
  lemma OverStep(csr: Csr, pat: Pattern, t: I64, nodes: seq<U64>, chosen: seq<nat>, ps: seq<nat>, k: nat,
                 items: seq<Match>, limit: nat)
    requires Shape(csr, pat, nodes, chosen) && |chosen| < |pat.edges| && k < |ps|
    requires forall i :: 0 <= i < |ps| ==> ps[i] < |csr.dst|
    ensures Reportable(csr, pat, TraceOver(csr, pat, t, nodes, chosen, ps[..k]))
    ensures Reportable(csr, pat, Branch(csr, pat, t, nodes, chosen, ps[k]))
    ensures Reportable(csr, pat, TraceOver(csr, pat, t, nodes, chosen, ps[..k + 1]))
    ensures var first := Consume(csr, pat, items, TraceOver(csr, pat, t, nodes, chosen, ps[..k]), limit);
            Consume(csr, pat, items, TraceOver(csr, pat, t, nodes, chosen, ps[..k + 1]), limit)
            == if first.fault.Some? then first
               else Consume(csr, pat, first.matches, Branch(csr, pat, t, nodes, chosen, ps[k]), limit)
  {
    hide Trace, Branch, Consume;
    OverReportable(csr, pat, t, nodes, chosen, ps[..k]);
    BranchReportable(csr, pat, t, nodes, chosen, ps[k]);
    assert ps[..k + 1][..k] == ps[..k];
    ConsumeConcat(csr, pat, items, TraceOver(csr, pat, t, nodes, chosen, ps[..k]),
              Branch(csr, pat, t, nodes, chosen, ps[k]), limit);
  }

  /** Nothing after a fault is looked at. */
  lemma {:induction false} FaultStays(csr: Csr, pat: Pattern, t: I64, nodes: seq<U64>, chosen: seq<nat>, ps: seq<nat>,
                                      k: nat, items: seq<Match>, limit: nat)
    requires Shape(csr, pat, nodes, chosen) && |chosen| < |pat.edges| && k <= |ps|
    requires forall i :: 0 <= i < |ps| ==> ps[i] < |csr.dst|
    requires Reportable(csr, pat, TraceOver(csr, pat, t, nodes, chosen, ps[..k]))
    requires Consume(csr, pat, items, TraceOver(csr, pat, t, nodes, chosen, ps[..k]), limit).fault.Some?
    ensures Reportable(csr, pat, TraceOver(csr, pat, t, nodes, chosen, ps))
    ensures Consume(csr, pat, items, TraceOver(csr, pat, t, nodes, chosen, ps), limit)
            == Consume(csr, pat, items, TraceOver(csr, pat, t, nodes, chosen, ps[..k]), limit)
    decreases |ps| - k
  {
    hide Trace, Branch, Consume, TraceOver;
    if k == |ps| {
      assert ps[..k] == ps;
    } else {
      OverStep(csr, pat, t, nodes, chosen, ps, k, items, limit);
      FaultStays(csr, pat, t, nodes, chosen, ps, k + 1, items, limit);
    }
  }

  /** What a search returns once its events have been consumed. */
  function Answer(p: Progress): (r: Result<seq<Match>>)
  {
    if p.fault.Some? then Err(NodeOutOfRange(p.fault.value)) else Ok(p.matches)
  }

  /** The event list enumerates, without faults, each match whose start node lies in `lo..hi` exactly once,
      in ascending order of start node and edge positions. */
  ghost predicate Enumerates(csr: Csr, pat: Pattern, t: I64, evs: seq<Event>, lo: nat, hi: nat)
    requires Wf(csr) && InBounds(pat)
  {
    && AllFound(evs)
    && HitsAscend(Hits(evs)) && NoDup(Hits(evs))
    && forall h :: h in Hits(evs) <==> IsMatch(csr, pat, t, h) && lo <= h.nodes[0] < hi
  }

  /** The first `limit` matches of a fault-free event list. */
  ghost function FirstMatches(csr: Csr, pat: Pattern, evs: seq<Event>, limit: nat): (ms: seq<Match>)
    requires Wf(csr) && InBounds(pat) && Reportable(csr, pat, evs) && AllFound(evs)
  {
    MatchesOf(csr, pat, evs)[..Min(|evs|, limit)]
  }

  /** `r` is the first `limit` matches of an enumeration of exactly the matches with start node in `lo..hi`. */
  ghost predicate FirstOfAll(csr: Csr, pat: Pattern, t: I64, evs: seq<Event>, lo: nat, hi: nat, limit: nat,
                             r: Result<seq<Match>>)
    requires Wf(csr) && InBounds(pat) && Reportable(csr, pat, evs)
  {
    Enumerates(csr, pat, t, evs, lo, hi) && r == Ok(FirstMatches(csr, pat, evs, limit))
  }

  /** A fault-free search under a limit answers with the first `limit` matches of its enumeration. */
  lemma AnswersFirst(csr: Csr, pat: Pattern, t: I64, evs: seq<Event>, lo: nat, hi: nat, limit: nat)
    requires Wf(csr) && InBounds(pat) && Reportable(csr, pat, evs) && Enumerates(csr, pat, t, evs, lo, hi)
    ensures FirstOfAll(csr, pat, t, evs, lo, hi, limit, Answer(Consume(csr, pat, [], evs, limit)))
  {
    ConsumeTakesFirst(csr, pat, [], evs, limit);
    hide Consume;
    assert [] + FirstMatches(csr, pat, evs, limit) == FirstMatches(csr, pat, evs, limit);
  }

  /** `find_from`: up to `limit` matches with variable 0 bound to `start`. For a well-formed pattern over an index
      whose edges all end at existing nodes, they are the first `limit` of an enumeration of exactly the matches
      that start there. */
  method FindFrom(csr: Csr, pat: Pattern, start: U64, t: I64, limit: nat) returns (r: Result<seq<Match>>)
    requires Wf(csr) && InBounds(pat)
    ensures Reportable(csr, pat, TraceFrom(csr, pat, t, start))
    ensures r == Answer(Consume(csr, pat, [], TraceFrom(csr, pat, t, start), limit))
    ensures WellFormed(pat) && DstInRange(csr) && start < csr.nodeCount && start != UNBOUND ==>
              FirstOfAll(csr, pat, t, TraceFrom(csr, pat, t, start), start, start + 1, limit, r)
  {
    hide FirstOfAll, WellFormed, DstInRange, Trace;
    FromFirst(csr, pat, t, start, limit);
    if limit == 0 || pat.numVars == 0 {
      return Ok([]);
    }
    var state := new DfsState(pat);
    state.nodes := state.nodes[0 := start];
    var out := new MatchList();
    var done := Dfs(csr, pat, t, 0, state, out, limit, []);
    if done.Err? {
      return Err(done.error);
    }
    r := Ok(out.items);
  }

  lemma FromFirst(csr: Csr, pat: Pattern, t: I64, start: U64, limit: nat)
    requires Wf(csr) && InBounds(pat)
    ensures Reportable(csr, pat, TraceFrom(csr, pat, t, start))
    ensures var evs := TraceFrom(csr, pat, t, start);
            WellFormed(pat) && DstInRange(csr) && start < csr.nodeCount && start != UNBOUND ==>
              FirstOfAll(csr, pat, t, evs, start, start + 1, limit, Answer(Consume(csr, pat, [], evs, limit)))
  {
    hide FirstOfAll, Consume, WellFormed, DstInRange, Trace;
    if pat.numVars > 0 {
      TraceReportable(csr, pat, t, seq(pat.numVars, _ => UNBOUND)[0 := start], []);
    }
    if WellFormed(pat) && DstInRange(csr) && start < csr.nodeCount && start != UNBOUND {
      FromEnumerates(csr, pat, t, start);
      AnswersFirst(csr, pat, t, TraceFrom(csr, pat, t, start), start, start + 1, limit);
    }
  }

  /** Anchored at `start`, the search enumerates exactly the matches that start there. */
  lemma FromEnumerates(csr: Csr, pat: Pattern, t: I64, start: U64)
    requires Wf(csr) && WellFormed(pat) && DstInRange(csr) && start < csr.nodeCount && start != UNBOUND
    ensures Enumerates(csr, pat, t, TraceFrom(csr, pat, t, start), start, start + 1)
  {
    var evs := TraceFrom(csr, pat, t, start);
    FromMeaning(csr, pat, t, start);
    HitsOfFound(evs);
    hide TraceFrom, WellFormed, DstInRange, LexLess;
    OneStartAscends(csr, pat, t, start, Hits(evs));
    hide IsMatch;
    AscendingIsOnce(Hits(evs));
  }

  lemma OneStartAscends(csr: Csr, pat: Pattern, t: I64, start: U64, hits: seq<Hit>)
    requires Wf(csr) && InBounds(pat)
    requires forall h :: h in hits <==> IsMatch(csr, pat, t, h) && h.nodes[0] == start
    requires forall i, j :: 0 <= i < j < |hits| ==> LexLess(hits[i].pos, hits[j].pos)
    ensures HitsAscend(hits)
  {
    hide LexLess;
    forall i | 0 <= i < |hits| ensures hits[i].nodes != [] && hits[i].nodes[0] == start {
      assert hits[i] in hits;
    }
  }

  /** `find`: up to `limit` matches over all start nodes. For a well-formed pattern over an index whose edges
      all end at existing nodes, the result is the first `limit` of an enumeration that holds every match
      exactly once, in ascending order of start node and edge positions. */
  method Find(csr: Csr, pat: Pattern, t: I64, limit: nat) returns (r: Result<seq<Match>>)
    requires Wf(csr) && InBounds(pat) && csr.nodeCount <= U64_MAX
    ensures Reportable(csr, pat, TraceAll(csr, pat, t, csr.nodeCount))
    ensures r == Answer(Consume(csr, pat, [], TraceAll(csr, pat, t, csr.nodeCount), limit))
    ensures WellFormed(pat) && DstInRange(csr) ==>
              FirstOfAll(csr, pat, t, TraceAll(csr, pat, t, csr.nodeCount), 0, csr.nodeCount, limit, r)
  {
    hide TraceFrom, TraceAll, Consume, FirstOfAll, WellFormed, DstInRange, Reportable, InBounds, Wf;
    TraceAllReportable(csr, pat, t, csr.nodeCount);
    AllFirst(csr, pat, t, limit);
    var matches: seq<Match> := [];
    var start := 0;
    EmptyStart(csr, pat, t, limit);
    while start < csr.nodeCount
      invariant 0 <= start <= csr.nodeCount && |matches| <= limit
      invariant Reportable(csr, pat, TraceAll(csr, pat, t, start))
      invariant Progress(matches, None) == Consume(csr, pat, [], TraceAll(csr, pat, t, start), limit)
    {
      if |matches| >= limit {
        break;
      }
      TraceAllReportable(csr, pat, t, start);
      ghost var part := Consume(csr, pat, [], TraceFrom(csr, pat, t, start), limit - |matches|);
      var got := FindFrom(csr, pat, start, t, limit - |matches|);
      OneMoreStart(csr, pat, t, start, limit, matches, part);
      if got.Err? {
        RestIgnored(csr, pat, t, start + 1, csr.nodeCount, limit);
        return Err(got.error);
      }
      matches := matches + got.value;
      start := start + 1;
    }
    RestIgnored(csr, pat, t, start, csr.nodeCount, limit);
    r := Ok(matches);
  }

  lemma EmptyStart(csr: Csr, pat: Pattern, t: I64, limit: nat)
    requires Wf(csr) && InBounds(pat) && csr.nodeCount <= U64_MAX
    ensures Reportable(csr, pat, TraceAll(csr, pat, t, 0))
    ensures Consume(csr, pat, [], TraceAll(csr, pat, t, 0), limit) == Progress([], None)
  {
  }

  lemma AllFirst(csr: Csr, pat: Pattern, t: I64, limit: nat)
    requires Wf(csr) && InBounds(pat) && csr.nodeCount <= U64_MAX
    requires Reportable(csr, pat, TraceAll(csr, pat, t, csr.nodeCount))
    ensures var evs := TraceAll(csr, pat, t, csr.nodeCount);
            WellFormed(pat) && DstInRange(csr) ==>
              FirstOfAll(csr, pat, t, evs, 0, csr.nodeCount, limit, Answer(Consume(csr, pat, [], evs, limit)))
  {
    if WellFormed(pat) && DstInRange(csr) {
      AllEnumerates(csr, pat, t);
      AnswersFirst(csr, pat, t, TraceAll(csr, pat, t, csr.nodeCount), 0, csr.nodeCount, limit);
    }
  }

  /** Over all start nodes, the search enumerates exactly the matches. */
  lemma AllEnumerates(csr: Csr, pat: Pattern, t: I64)
    requires Wf(csr) && WellFormed(pat) && DstInRange(csr) && csr.nodeCount <= U64_MAX
    ensures Enumerates(csr, pat, t, TraceAll(csr, pat, t, csr.nodeCount), 0, csr.nodeCount)
  {
    AllMeaning(csr, pat, t, csr.nodeCount);
    hide TraceAll, WellFormed, DstInRange, IsMatch, HitsAscend, AllFound;
    AscendingIsOnce(Hits(TraceAll(csr, pat, t, csr.nodeCount)));
  }

  lemma {:induction false} WithinLimit(csr: Csr, pat: Pattern, done: seq<Match>, evs: seq<Event>, limit: nat)
    requires Wf(csr) && InBounds(pat) && Reportable(csr, pat, evs) && |done| <= limit
    ensures |Consume(csr, pat, done, evs, limit).matches| <= limit
    decreases |evs|
  {
    if |done| < limit && evs != [] && evs[0].Found? {
      WithinLimit(csr, pat, done + [ToMatch(csr, pat, evs[0].hit)], evs[1..], limit);
    }
  }

  /** The search from one more start node, under the remaining room, continues the whole search. */
  lemma OneMoreStart(csr: Csr, pat: Pattern, t: I64, start: nat, limit: nat, matches: seq<Match>, part: Progress)
    requires Wf(csr) && InBounds(pat) && start < csr.nodeCount <= U64_MAX && |matches| <= limit
    requires Reportable(csr, pat, TraceAll(csr, pat, t, start))
    requires Progress(matches, None) == Consume(csr, pat, [], TraceAll(csr, pat, t, start), limit)
    requires Reportable(csr, pat, TraceFrom(csr, pat, t, start))
    requires part == Consume(csr, pat, [], TraceFrom(csr, pat, t, start), limit - |matches|)
    ensures Reportable(csr, pat, TraceAll(csr, pat, t, start + 1))
    ensures Consume(csr, pat, [], TraceAll(csr, pat, t, start + 1), limit) == Progress(matches + part.matches, part.fault)
    ensures |matches + part.matches| <= limit
  {
    hide TraceFrom, Consume;
    var evs := TraceFrom(csr, pat, t, start);
    ConsumeShift(csr, pat, matches, [], evs, limit);
    assert matches + [] == matches;
    ConsumeConcat(csr, pat, [], TraceAll(csr, pat, t, start), evs, limit);
    WithinLimit(csr, pat, [], evs, limit - |matches|);
  }

  /** Once the limit is reached or a fault is met, later start nodes change nothing. */
  lemma {:induction false} RestIgnored(csr: Csr, pat: Pattern, t: I64, m: nat, n: nat, limit: nat)
    requires Wf(csr) && InBounds(pat) && m <= n <= csr.nodeCount <= U64_MAX
    requires Reportable(csr, pat, TraceAll(csr, pat, t, m))
    requires var p := Consume(csr, pat, [], TraceAll(csr, pat, t, m), limit);
             p.fault.Some? || |p.matches| >= limit || m == n
    ensures Reportable(csr, pat, TraceAll(csr, pat, t, n))
    ensures Consume(csr, pat, [], TraceAll(csr, pat, t, n), limit) == Consume(csr, pat, [], TraceAll(csr, pat, t, m), limit)
    decreases n - m
  {
    if m < n {
      RestIgnored(csr, pat, t, m, n - 1, limit);
      TraceAllReportable(csr, pat, t, n);
      ConsumeConcat(csr, pat, [], TraceAll(csr, pat, t, n - 1), TraceFrom(csr, pat, t, n - 1), limit);
    }
  }
}
