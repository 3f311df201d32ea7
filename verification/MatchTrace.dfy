/** The search tree of the matcher as the list of events a depth-first walk meets, and what a limit makes of it. */
module MatchTrace {
  import opened Basics
  import opened TemporalCsr
  import opened Patterns

  /** A leaf of the search tree: a complete match, or a bound node the index has no run for. */
  datatype Event = Found(hit: Hit) | Fault(node: U64)

  ghost predicate Shape(csr: Csr, pat: Pattern, nodes: seq<U64>, chosen: seq<nat>) {
    && Wf(csr) && InBounds(pat)
    && |nodes| == pat.numVars && |chosen| <= |pat.edges|
    && forall i :: 0 <= i < |chosen| ==> chosen[i] < |csr.dst|
  }

  /** All events below the node of the tree where `chosen` has been matched and `nodes` are the bindings. */
  ghost function Trace(csr: Csr, pat: Pattern, t: I64, nodes: seq<U64>, chosen: seq<nat>): (evs: seq<Event>)
    requires Shape(csr, pat, nodes, chosen)
    decreases |pat.edges| - |chosen|, 2, 0
  {
    if |chosen| == |pat.edges| then
      if OrdersHold(csr, pat, chosen) then [Found(Hit(nodes, chosen))] else []
    else
      var from := nodes[pat.edges[|chosen|].src];
      if from == UNBOUND then []
      else
        match NeighborPositions(csr, from, t)
        case Err(_) => [Fault(from)]
        case Ok(ps) => TraceOver(csr, pat, t, nodes, chosen, ps)
  }

  /** The events below each candidate edge, in order. */
  ghost function TraceOver(csr: Csr, pat: Pattern, t: I64, nodes: seq<U64>, chosen: seq<nat>, ps: seq<nat>): (evs: seq<Event>)
    requires Shape(csr, pat, nodes, chosen) && |chosen| < |pat.edges|
    requires forall i :: 0 <= i < |ps| ==> ps[i] < |csr.dst|
    decreases |pat.edges| - |chosen|, 1, |ps|
  {
    if ps == [] then []
    else TraceOver(csr, pat, t, nodes, chosen, ps[..|ps| - 1]) + Branch(csr, pat, t, nodes, chosen, ps[|ps| - 1])
  }

  /** The events below one candidate edge. */
  ghost function Branch(csr: Csr, pat: Pattern, t: I64, nodes: seq<U64>, chosen: seq<nat>, p: nat): (evs: seq<Event>)
    requires Shape(csr, pat, nodes, chosen) && |chosen| < |pat.edges| && p < |csr.dst|
    decreases |pat.edges| - |chosen|, 0, 0
  {
    var e := pat.edges[|chosen|];
    if !TypeFits(e, csr.edgeType[p]) then []
    else if nodes[e.dst] != UNBOUND then
      if csr.dst[p] != nodes[e.dst] then [] else Trace(csr, pat, t, nodes, chosen + [p])
    else if csr.dst[p] in nodes then []
    else Trace(csr, pat, t, nodes[e.dst := csr.dst[p]], chosen + [p])
  }

  /** The events of the search anchored at `start`. */
  ghost function TraceFrom(csr: Csr, pat: Pattern, t: I64, start: U64): (evs: seq<Event>)
    requires Wf(csr) && InBounds(pat)
  {
    if pat.numVars == 0 then []
    else Trace(csr, pat, t, seq(pat.numVars, _ => UNBOUND)[0 := start], [])
  }

  /** The events of the searches anchored at the nodes `0..n`, one after the other. */
  ghost function TraceAll(csr: Csr, pat: Pattern, t: I64, n: nat): (evs: seq<Event>)
    requires Wf(csr) && InBounds(pat) && n <= csr.nodeCount <= U64_MAX
  {
    if n == 0 then [] else TraceAll(csr, pat, t, n - 1) + TraceFrom(csr, pat, t, n - 1)
  }

  // ---------- consuming events under a limit ----------

  /** Every hit can be reported. */
  ghost predicate Reportable(csr: Csr, pat: Pattern, evs: seq<Event>)
    requires Wf(csr) && InBounds(pat)
  {
    forall i :: 0 <= i < |evs| && evs[i].Found? ==> Shape(csr, pat, evs[i].hit.nodes, evs[i].hit.pos)
                                                     && |evs[i].hit.pos| == |pat.edges|
  }

  datatype Progress = Progress(matches: seq<Match>, fault: Option<U64>)

  /** Take events until the limit is reached or a fault is met. */
  ghost function Consume(csr: Csr, pat: Pattern, done: seq<Match>, evs: seq<Event>, limit: nat): (r: Progress)
    requires Wf(csr) && InBounds(pat) && Reportable(csr, pat, evs)
    decreases |evs|
  {
    if |done| >= limit || evs == [] then Progress(done, None)
    else
      match evs[0]
      case Found(h) => Consume(csr, pat, done + [ToMatch(csr, pat, h)], evs[1..], limit)
      case Fault(n) => Progress(done, Some(n))
  }

  lemma {:induction false} TraceReportable(csr: Csr, pat: Pattern, t: I64, nodes: seq<U64>, chosen: seq<nat>)
    requires Shape(csr, pat, nodes, chosen)
    ensures Reportable(csr, pat, Trace(csr, pat, t, nodes, chosen))
    decreases |pat.edges| - |chosen|, 2, 0
  {
    if |chosen| < |pat.edges| {
      var from := nodes[pat.edges[|chosen|].src];
      if from != UNBOUND && from < csr.nodeCount {
        OverReportable(csr, pat, t, nodes, chosen, NeighborPositions(csr, from, t).value);
      }
    }
  }

  lemma {:induction false} OverReportable(csr: Csr, pat: Pattern, t: I64, nodes: seq<U64>, chosen: seq<nat>, ps: seq<nat>)
    requires Shape(csr, pat, nodes, chosen) && |chosen| < |pat.edges|
    requires forall i :: 0 <= i < |ps| ==> ps[i] < |csr.dst|
    ensures Reportable(csr, pat, TraceOver(csr, pat, t, nodes, chosen, ps))
    decreases |pat.edges| - |chosen|, 1, |ps|
  {
    if ps != [] {
      OverReportable(csr, pat, t, nodes, chosen, ps[..|ps| - 1]);
      BranchReportable(csr, pat, t, nodes, chosen, ps[|ps| - 1]);
    }
  }

  lemma {:induction false} BranchReportable(csr: Csr, pat: Pattern, t: I64, nodes: seq<U64>, chosen: seq<nat>, p: nat)
    requires Shape(csr, pat, nodes, chosen) && |chosen| < |pat.edges| && p < |csr.dst|
    ensures Reportable(csr, pat, Branch(csr, pat, t, nodes, chosen, p))
    decreases |pat.edges| - |chosen|, 0, 0
  {
    var e := pat.edges[|chosen|];
    TraceReportable(csr, pat, t, nodes, chosen + [p]);
    TraceReportable(csr, pat, t, nodes[e.dst := csr.dst[p]], chosen + [p]);
  }

  lemma {:induction false} TraceAllReportable(csr: Csr, pat: Pattern, t: I64, n: nat)
    requires Wf(csr) && InBounds(pat) && n <= csr.nodeCount <= U64_MAX
    ensures Reportable(csr, pat, TraceAll(csr, pat, t, n))
    ensures forall start :: Reportable(csr, pat, TraceFrom(csr, pat, t, start))
  {
    forall start ensures Reportable(csr, pat, TraceFrom(csr, pat, t, start)) {
      if pat.numVars > 0 {
        TraceReportable(csr, pat, t, seq(pat.numVars, _ => UNBOUND)[0 := start], []);
      }
    }
    if n > 0 {
      TraceAllReportable(csr, pat, t, n - 1);
    }
  }

  /** Consuming a concatenation is consuming its parts in turn, stopping at a fault. */
  lemma {:induction false} ConsumeConcat(csr: Csr, pat: Pattern, done: seq<Match>, a: seq<Event>, b: seq<Event>, limit: nat)
    requires Wf(csr) && InBounds(pat) && Reportable(csr, pat, a) && Reportable(csr, pat, b)
    ensures Reportable(csr, pat, a + b)
    ensures var first := Consume(csr, pat, done, a, limit);
            Consume(csr, pat, done, a + b, limit)
            == if first.fault.Some? then first else Consume(csr, pat, first.matches, b, limit)
    decreases |a|
  {
    if a == [] {
      assert a + b == b;
    } else if |done| < limit && a[0].Found? {
      assert (a + b)[1..] == a[1..] + b;
      ConsumeConcat(csr, pat, done + [ToMatch(csr, pat, a[0].hit)], a[1..], b, limit);
    }
  }

  /** A search with the remaining room continues the matches already found. */
  lemma {:induction false} ConsumeShift(csr: Csr, pat: Pattern, base: seq<Match>, done: seq<Match>, evs: seq<Event>, limit: nat)
    requires Wf(csr) && InBounds(pat) && Reportable(csr, pat, evs) && |base| <= limit
    ensures var r := Consume(csr, pat, done, evs, limit - |base|);
            Consume(csr, pat, base + done, evs, limit) == Progress(base + r.matches, r.fault)
    decreases |evs|
  {
    if |done| < limit - |base| && evs != [] && evs[0].Found? {
      var m := ToMatch(csr, pat, evs[0].hit);
      assert base + done + [m] == base + (done + [m]);
      ConsumeShift(csr, pat, base, done + [m], evs[1..], limit);
    }
  }

  ghost function MatchesOf(csr: Csr, pat: Pattern, evs: seq<Event>): (ms: seq<Match>)
    requires Wf(csr) && InBounds(pat) && Reportable(csr, pat, evs)
    requires forall i :: 0 <= i < |evs| ==> evs[i].Found?
    ensures |ms| == |evs|
  {
    seq(|evs|, i requires 0 <= i < |evs| => ToMatch(csr, pat, evs[i].hit))
  }

  /** Without faults, a limited search returns exactly the first `limit` matches of the enumeration. */
  lemma {:induction false} ConsumeTakesFirst(csr: Csr, pat: Pattern, done: seq<Match>, evs: seq<Event>, limit: nat)
    requires Wf(csr) && InBounds(pat) && Reportable(csr, pat, evs) && |done| <= limit
    requires forall i :: 0 <= i < |evs| ==> evs[i].Found?
    ensures Consume(csr, pat, done, evs, limit)
            == Progress(done + MatchesOf(csr, pat, evs)[..Min(|evs|, limit - |done|)], None)
    decreases |evs|
  {
    if |done| < limit && evs != [] {
      var m := ToMatch(csr, pat, evs[0].hit);
      ConsumeTakesFirst(csr, pat, done + [m], evs[1..], limit);
      assert MatchesOf(csr, pat, evs) == [m] + MatchesOf(csr, pat, evs[1..]);
    } else {
      assert done + MatchesOf(csr, pat, evs)[..0] == done;
    }
  }
}
