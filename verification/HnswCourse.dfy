/** The searches and insertions of `HnswIndex` are determined: best-first expansion and greedy descent leave no choice. */
module HnswCourse {
  import opened Basics
  import opened Nearest
  import opened Vectors
  import opened HnswGraph

  // ---------- one step of a beam search ----------

  lemma CourseStarts(nodes: seq<Node>, query: Vector, eps: seq<Scored>, ef: nat, l: nat, mask: Option<seq<bool>>,
                     seen: set<nat>)
    requires seen == set e | e in eps :: e.pos
    ensures Course(nodes, query, eps, ef, l, mask, seen, {})
  {
    assert SetOf<nat>([]) == {};
    assert IsCourse(nodes, query, eps, ef, l, mask, seen, {}, []);
  }

  lemma CourseGrows(nodes: seq<Node>, query: Vector, eps: seq<Scored>, ef: nat, l: nat, mask: Option<seq<bool>>,
                    seen: set<nat>, expanded: set<nat>, c: nat)
    requires Course(nodes, query, eps, ef, l, mask, seen, expanded) && OnLayer(nodes, c, l)
    requires NearestOf(nodes, query, seen - expanded, c) && !Settled(nodes, query, ef, mask, seen, c)
    ensures Course(nodes, query, eps, ef, l, mask, seen + SetOf(Nbrs(nodes, c, l)), expanded + {c})
  {
    hide BestNext, NearestOf, Settled;
    var order :| IsCourse(nodes, query, eps, ef, l, mask, seen, expanded, order);
    IsNext(nodes, query, eps, ef, l, mask, order, c);
    FirstGrows(nodes, query, eps, ef, l, mask, order, c);
    var longer := order + [c];
    assert longer[..|order|] == order;
    SetOfConcat(order, [c]);
    assert SetOf([c]) == {c};
    hide BestFirst;
    assert IsCourse(nodes, query, eps, ef, l, mask, seen + SetOf(Nbrs(nodes, c, l)), expanded + {c}, longer);
  }

  lemma IsNext(nodes: seq<Node>, query: Vector, eps: seq<Scored>, ef: nat, l: nat, mask: Option<seq<bool>>,
               order: seq<nat>, c: nat)
    requires NearestOf(nodes, query, Reached(nodes, l, eps, order) - SetOf(order), c)
    requires !Settled(nodes, query, ef, mask, Reached(nodes, l, eps, order), c)
    ensures BestNext(nodes, query, eps, ef, l, mask, order, c)
  {
    hide NearestOf, Settled, Reached;
  }

  lemma FirstGrows(nodes: seq<Node>, query: Vector, eps: seq<Scored>, ef: nat, l: nat, mask: Option<seq<bool>>,
                   order: seq<nat>, c: nat)
    requires BestFirst(nodes, query, eps, ef, l, mask, order) && BestNext(nodes, query, eps, ef, l, mask, order, c)
    ensures BestFirst(nodes, query, eps, ef, l, mask, order + [c])
  {
    hide BestNext;
    var longer := order + [c];
    forall k | 0 <= k < |longer| ensures BestNext(nodes, query, eps, ef, l, mask, longer[..k], longer[k]) {
      assert longer[..k] == order[..k];
    }
  }

  /** The first candidate is the nearest node not yet expanded. */
  lemma FirstIsNearest(nodes: seq<Node>, query: Vector, P: set<nat>, candidates: seq<Scored>)
    requires Ascending(candidates) && Enumerates(candidates, ScoredSet(nodes, query, P)) && candidates != []
    requires forall p :: p in P ==> p < |nodes|
    ensures NearestOf(nodes, query, P, candidates[0].pos)
  {
    var c := candidates[0];
    assert c in candidates;
    forall p | p in P && p != c.pos ensures Less(At(nodes, query, c.pos), At(nodes, query, p)) {
      assert At(nodes, query, p) in ScoredSet(nodes, query, P);
      var k :| 0 <= k < |candidates| && candidates[k] == At(nodes, query, p);
    }
  }

  lemma OneNearest(nodes: seq<Node>, query: Vector, P: set<nat>, c: nat, d: nat)
    requires NearestOf(nodes, query, P, c) && NearestOf(nodes, query, P, d)
    ensures c == d
  {
  }

  /** The test of the early exit: the results are full and all nearer exactly when the candidate is settled. */
  lemma ExitIsSettled(nodes: seq<Node>, query: Vector, ef: nat, mask: Option<seq<bool>>, seen: set<nat>,
                      results: seq<Scored>, c: nat)
    requires TopOf(results, ScoredSet(nodes, query, Passing(mask, seen)), ef) && ef >= 1 && c < |nodes|
    requires forall p :: p in seen ==> p < |nodes|
    ensures Settled(nodes, query, ef, mask, seen, c) <==>
              |results| >= ef && SquaredL2(query, nodes[c].vector) > results[|results| - 1].dist
  {
    var d := SquaredL2(query, nodes[c].vector);
    var near := CloserThan(nodes, query, Passing(mask, seen), d);
    ResultPositions(nodes, query, mask, seen, results, ef);
    var found := Positions(results);
    CardOfNoDup(found);
    if |results| >= ef && d > results[|results| - 1].dist {
      FullAndNearer(nodes, query, mask, seen, results, ef, d);
      CardOfSubset(SetOf(found), near);
    } else if |results| < ef {
      FewAllowed(nodes, query, mask, seen, results, ef);
      CardOfSubset(near, SetOf(found));
    } else {
      var last := results[|results| - 1];
      NearerAreEarlier(nodes, query, mask, seen, results, ef, d);
      assert found[|results| - 1] == last.pos;
      CardOfSubset(near, SetOf(found) - {last.pos});
    }
  }

  /** One iteration that does not exit. */
  lemma GoesOn(nodes: seq<Node>, query: Vector, eps: seq<Scored>, ef: nat, l: nat, mask: Option<seq<bool>>,
               pending: seq<Scored>, results: seq<Scored>, seen: set<nat>, expanded: set<nat>)
    requires Course(nodes, query, eps, ef, l, mask, seen, expanded)
    requires Ascending(pending) && Enumerates(pending, ScoredSet(nodes, query, seen - expanded)) && pending != []
    requires TopOf(results, ScoredSet(nodes, query, Passing(mask, seen)), ef) && ef >= 1
    requires forall p :: p in seen ==> OnLayer(nodes, p, l)
    requires !(|results| >= ef && pending[0].dist > results[|results| - 1].dist)
    ensures OnLayer(nodes, pending[0].pos, l)
    ensures Course(nodes, query, eps, ef, l, mask, seen + SetOf(Nbrs(nodes, pending[0].pos, l)), expanded + {pending[0].pos})
  {
    var c := pending[0];
    assert c in pending;
    hide Course;
    FirstIsNearest(nodes, query, seen - expanded, pending);
    ExitIsSettled(nodes, query, ef, mask, seen, results, c.pos);
    hide TopOf, Enumerates, Ascending, ScoredSet, Settled, NearestOf;
    CourseGrows(nodes, query, eps, ef, l, mask, seen, expanded, c.pos);
  }

  /** The early exit. */
  lemma StopsHere(nodes: seq<Node>, query: Vector, ef: nat, mask: Option<seq<bool>>,
                  pending: seq<Scored>, results: seq<Scored>, seen: set<nat>, expanded: set<nat>)
    requires Ascending(pending) && Enumerates(pending, ScoredSet(nodes, query, seen - expanded)) && pending != []
    requires TopOf(results, ScoredSet(nodes, query, Passing(mask, seen)), ef) && ef >= 1
    requires forall p :: p in seen ==> p < |nodes|
    requires |results| >= ef && pending[0].dist > results[|results| - 1].dist
    ensures Stops(nodes, query, ef, mask, seen, expanded)
  {
    var c := pending[0];
    assert c in pending;
    FirstIsNearest(nodes, query, seen - expanded, pending);
    ExitIsSettled(nodes, query, ef, mask, seen, results, c.pos);
    hide TopOf, Enumerates, Ascending, ScoredSet, Settled;
    forall d | NearestOf(nodes, query, seen - expanded, d) ensures Settled(nodes, query, ef, mask, seen, d) {
      OneNearest(nodes, query, seen - expanded, c.pos, d);
    }
  }

  lemma ResultPositions(nodes: seq<Node>, query: Vector, mask: Option<seq<bool>>, seen: set<nat>, results: seq<Scored>,
                        ef: nat)
    requires TopOf(results, ScoredSet(nodes, query, Passing(mask, seen)), ef)
    ensures NoDup(Positions(results))
    ensures forall i :: 0 <= i < |results| ==>
              && results[i] in results && results[i].pos in Passing(mask, seen)
              && results[i].pos < |nodes| && results[i] == At(nodes, query, results[i].pos)
  {
    PositionsNoDup(nodes, query, results);
    forall i | 0 <= i < |results|
      ensures results[i] in results && results[i].pos in Passing(mask, seen)
      ensures results[i].pos < |nodes| && results[i] == At(nodes, query, results[i].pos)
    {
      assert results[i] in results;
    }
  }

  lemma FullAndNearer(nodes: seq<Node>, query: Vector, mask: Option<seq<bool>>, seen: set<nat>, results: seq<Scored>,
                      ef: nat, d: real)
    requires TopOf(results, ScoredSet(nodes, query, Passing(mask, seen)), ef)
    requires results != [] && d > results[|results| - 1].dist
    ensures SetOf(Positions(results)) <= CloserThan(nodes, query, Passing(mask, seen), d)
  {
    ResultPositions(nodes, query, mask, seen, results, ef);
    forall p | p in SetOf(Positions(results)) ensures p in CloserThan(nodes, query, Passing(mask, seen), d) {
      var i :| 0 <= i < |results| && Positions(results)[i] == p;
      assert i < |results| - 1 ==> Less(results[i], results[|results| - 1]);
    }
  }

  /** With room to spare, every allowed visited node is a result. */
  lemma FewAllowed(nodes: seq<Node>, query: Vector, mask: Option<seq<bool>>, seen: set<nat>, results: seq<Scored>,
                   ef: nat)
    requires TopOf(results, ScoredSet(nodes, query, Passing(mask, seen)), ef) && |results| < ef
    requires forall p :: p in seen ==> p < |nodes|
    ensures Passing(mask, seen) <= SetOf(Positions(results))
  {
    forall p | p in Passing(mask, seen) ensures p in SetOf(Positions(results)) {
      assert At(nodes, query, p) in ScoredSet(nodes, query, Passing(mask, seen));
      var i :| 0 <= i < |results| && results[i] == At(nodes, query, p);
      assert Positions(results)[i] == p;
    }
  }

  /** Nodes nearer than a candidate that is no farther than the last result come before that result. */
  lemma NearerAreEarlier(nodes: seq<Node>, query: Vector, mask: Option<seq<bool>>, seen: set<nat>, results: seq<Scored>,
                         ef: nat, d: real)
    requires TopOf(results, ScoredSet(nodes, query, Passing(mask, seen)), ef)
    requires results != [] && d <= results[|results| - 1].dist
    ensures CloserThan(nodes, query, Passing(mask, seen), d)
            <= SetOf(Positions(results)) - {results[|results| - 1].pos}
  {
    ResultPositions(nodes, query, mask, seen, results, ef);
    var last := results[|results| - 1];
    forall p | p in CloserThan(nodes, query, Passing(mask, seen), d)
      ensures p in SetOf(Positions(results)) && p != last.pos
    {
      var x := At(nodes, query, p);
      assert x in ScoredSet(nodes, query, Passing(mask, seen)) && !Less(last, x);
      var i :| 0 <= i < |results| && results[i] == x;
      assert Positions(results)[i] == p;
    }
  }

  // ---------- determinism ----------

  lemma OneNext(nodes: seq<Node>, query: Vector, eps: seq<Scored>, ef: nat, l: nat, mask: Option<seq<bool>>,
                done: seq<nat>, c: nat, d: nat)
    requires BestNext(nodes, query, eps, ef, l, mask, done, c) && BestNext(nodes, query, eps, ef, l, mask, done, d)
    ensures c == d
  {
    hide Reached, Settled, NearestOf;
    OneNearest(nodes, query, Reached(nodes, l, eps, done) - SetOf(done), c, d);
  }

  /** Two best-first courses agree as far as the shorter goes. */
  lemma {:induction false} SameOrder(nodes: seq<Node>, query: Vector, eps: seq<Scored>, ef: nat, l: nat,
                                     mask: Option<seq<bool>>, a: seq<nat>, b: seq<nat>, n: nat)
    requires BestFirst(nodes, query, eps, ef, l, mask, a) && BestFirst(nodes, query, eps, ef, l, mask, b)
    requires n <= |a| && n <= |b|
    ensures a[..n] == b[..n]
  {
    hide BestFirst, BestNext;
    if n > 0 {
      var k := n - 1;
      SameOrder(nodes, query, eps, ef, l, mask, a, b, k);
      NextAt(nodes, query, eps, ef, l, mask, a, k);
      NextAt(nodes, query, eps, ef, l, mask, b, k);
      OneNext(nodes, query, eps, ef, l, mask, a[..k], a[k], b[k]);
      assert a[..n] == a[..k] + [a[k]] && b[..n] == b[..k] + [b[k]];
    }
  }

  lemma NextAt(nodes: seq<Node>, query: Vector, eps: seq<Scored>, ef: nat, l: nat, mask: Option<seq<bool>>,
               order: seq<nat>, k: nat)
    requires BestFirst(nodes, query, eps, ef, l, mask, order) && k < |order|
    ensures BestNext(nodes, query, eps, ef, l, mask, order[..k], order[k])
  {
    hide BestNext;
  }

  /** A course that has stopped is no proper beginning of another. */
  lemma StoppedIsWhole(nodes: seq<Node>, query: Vector, eps: seq<Scored>, ef: nat, l: nat, mask: Option<seq<bool>>,
                       visited: set<nat>, expanded: set<nat>, a: seq<nat>, b: seq<nat>)
    requires IsCourse(nodes, query, eps, ef, l, mask, visited, expanded, a)
    requires Stops(nodes, query, ef, mask, visited, expanded)
    requires BestFirst(nodes, query, eps, ef, l, mask, b) && |a| <= |b|
    ensures a == b
  {
    hide BestFirst, BestNext, Stops;
    SameOrder(nodes, query, eps, ef, l, mask, a, b, |a|);
    assert a[..|a|] == a;
    if |a| < |b| {
      NextAt(nodes, query, eps, ef, l, mask, b, |a|);
      NoNext(nodes, query, eps, ef, l, mask, visited, expanded, a, b[|a|]);
      assert false;
    } else {
      assert b[..|b|] == b;
    }
  }

  lemma NoNext(nodes: seq<Node>, query: Vector, eps: seq<Scored>, ef: nat, l: nat, mask: Option<seq<bool>>,
               visited: set<nat>, expanded: set<nat>, order: seq<nat>, c: nat)
    requires IsCourse(nodes, query, eps, ef, l, mask, visited, expanded, order)
    requires Stops(nodes, query, ef, mask, visited, expanded)
    ensures !BestNext(nodes, query, eps, ef, l, mask, order, c)
  {
    hide BestFirst, Reached, NearestOf, Settled;
  }

  /** The outcome of a beam search is determined: visited nodes, expanded nodes and results. */
  lemma BeamIsDetermined(nodes: seq<Node>, query: Vector, eps: seq<Scored>, ef: nat, l: nat, mask: Option<seq<bool>>,
                         r1: seq<Scored>, v1: set<nat>, e1: set<nat>, r2: seq<Scored>, v2: set<nat>, e2: set<nat>)
    requires BeamResult(nodes, query, eps, ef, l, mask, r1, v1, e1)
    requires BeamResult(nodes, query, eps, ef, l, mask, r2, v2, e2)
    ensures r1 == r2 && v1 == v2 && e1 == e2
  {
    var a :| IsCourse(nodes, query, eps, ef, l, mask, v1, e1, a);
    var b :| IsCourse(nodes, query, eps, ef, l, mask, v2, e2, b);
    if |a| <= |b| {
      StoppedIsWhole(nodes, query, eps, ef, l, mask, v1, e1, a, b);
    } else {
      StoppedIsWhole(nodes, query, eps, ef, l, mask, v2, e2, b, a);
    }
    assert v1 == v2 && e1 == e2;
    OneTop(r1, r2, ScoredSet(nodes, query, Passing(mask, v1)), ef);
  }

  /** The best `ef` of a set are unique. */
  lemma OneTop(r1: seq<Scored>, r2: seq<Scored>, S: set<Scored>, ef: nat)
    requires TopOf(r1, S, ef) && TopOf(r2, S, ef)
    ensures r1 == r2
  {
    var all := ListOf(S);
    TopIsPrefix(r1, S, ef, all);
    TopIsPrefix(r2, S, ef, all);
  }

  lemma {:induction false} ListOf(S: set<Scored>) returns (s: seq<Scored>)
    ensures Enumerates(s, S)
    decreases |S|
  {
    if S == {} {
      s := [];
    } else {
      var x :| x in S;
      s := ListOf(S - {x});
      s := s + [x];
    }
  }

  lemma OneStep(nodes: seq<Node>, query: Vector, l: nat, cur: nat, a: nat, b: nat)
    requires GreedyStep(nodes, query, l, cur, a) && GreedyStep(nodes, query, l, cur, b)
    ensures a == b
  {
    var list := Nbrs(nodes, cur, l);
    var i :| 0 <= i < |list| && FirstNearest(nodes, query, list, i) && list[i] == a;
    var j :| 0 <= j < |list| && FirstNearest(nodes, query, list, j) && list[j] == b;
    assert list[i] in list && list[j] in list;
  }

  lemma {:induction false} SameWalk(nodes: seq<Node>, query: Vector, l: nat, a: seq<nat>, b: seq<nat>, n: nat)
    requires IsGreedyWalk(nodes, query, l, a) && IsGreedyWalk(nodes, query, l, b) && a[0] == b[0]
    requires 0 < n <= |a| && n <= |b|
    ensures a[n - 1] == b[n - 1]
  {
    hide GreedyStep;
    if n > 1 {
      SameWalk(nodes, query, l, a, b, n - 1);
      assert GreedyStep(nodes, query, l, a[n - 2], a[n - 1]) && GreedyStep(nodes, query, l, b[n - 2], b[n - 1]);
      OneStep(nodes, query, l, a[n - 2], a[n - 1], b[n - 1]);
    }
  }

  /** A walk that ends at a local minimum cannot go on. */
  lemma WalkEnds(nodes: seq<Node>, query: Vector, l: nat, a: seq<nat>, b: seq<nat>, end: Scored)
    requires IsGreedyWalk(nodes, query, l, a) && IsGreedyWalk(nodes, query, l, b) && a[0] == b[0] && |a| <= |b|
    requires a[|a| - 1] == end.pos && OnLayer(nodes, end.pos, l) && end == At(nodes, query, end.pos)
    requires forall j :: j in Nbrs(nodes, end.pos, l) ==> j < |nodes| && !(SquaredL2(query, nodes[j].vector) < end.dist)
    ensures a[|a| - 1] == b[|b| - 1]
  {
    hide GreedyStep;
    SameWalk(nodes, query, l, a, b, |a|);
    if |a| < |b| {
      var next := b[|a|];
      StepAt(nodes, query, l, b, |a|);
      NoStepFrom(nodes, query, l, end, next);
      assert false;
    }
  }

  lemma StepAt(nodes: seq<Node>, query: Vector, l: nat, walk: seq<nat>, k: nat)
    requires IsGreedyWalk(nodes, query, l, walk) && 0 < k < |walk|
    ensures GreedyStep(nodes, query, l, walk[k - 1], walk[k])
  {
    hide GreedyStep;
  }

  lemma NoStepFrom(nodes: seq<Node>, query: Vector, l: nat, end: Scored, next: nat)
    requires OnLayer(nodes, end.pos, l) && end == At(nodes, query, end.pos)
    requires forall j :: j in Nbrs(nodes, end.pos, l) ==> j < |nodes| && !(SquaredL2(query, nodes[j].vector) < end.dist)
    ensures !GreedyStep(nodes, query, l, end.pos, next)
  {
  }

  /** The outcome of a greedy descent is determined. */
  lemma DescentIsDetermined(nodes: seq<Node>, query: Vector, start: Scored, a: Scored, b: Scored, l: nat)
    requires LocalMinimum(nodes, query, start, a, l) && LocalMinimum(nodes, query, start, b, l)
    ensures a == b
  {
    hide GreedyStep;
    var u :| IsGreedyWalk(nodes, query, l, u) && u[0] == start.pos && u[|u| - 1] == a.pos;
    var v :| IsGreedyWalk(nodes, query, l, v) && v[0] == start.pos && v[|v| - 1] == b.pos;
    if |u| <= |v| {
      WalkEnds(nodes, query, l, u, v, a);
    } else {
      WalkEnds(nodes, query, l, v, u, b);
    }
  }

  lemma {:induction false} PathIsDetermined(nodes: seq<Node>, query: Vector, top: nat, p: seq<Scored>, q: seq<Scored>, n: nat)
    requires Descent(nodes, query, p, top) && Descent(nodes, query, q, top) && p[0] == q[0]
    requires 0 < n <= |p| && n <= |q|
    ensures p[n - 1] == q[n - 1]
  {
    hide LocalMinimum;
    if n > 1 {
      PathIsDetermined(nodes, query, top, p, q, n - 1);
      var k := n - 2;
      assert LocalMinimum(nodes, query, p[k], p[k + 1], top - k) && LocalMinimum(nodes, query, q[k], q[k + 1], top - k);
      DescentIsDetermined(nodes, query, p[k], p[k + 1], q[k + 1], top - k);
    }
  }

  /** Wiring given neighbours into a graph leaves one graph. */
  lemma WiredIsDetermined(before: seq<Node>, a: seq<Node>, b: seq<Node>, x: nat, l: nat, selected: seq<nat>, maxDeg: nat)
    requires Wired(before, a, x, l, selected, maxDeg) && Wired(before, b, x, l, selected, maxDeg)
    ensures a == b
  {
    hide Pruned;
    forall i | 0 <= i < |before| ensures a[i] == b[i] {
      forall k | 0 <= k < |before[i].layers| ensures a[i].layers[k] == b[i].layers[k] {
        assert OnLayer(before, i, k);
        assert Nbrs(a, i, k) == Nbrs(b, i, k);
      }
      assert a[i].layers == b[i].layers;
    }
  }

  lemma WiringIsDetermined(v: Wiring, w: Wiring, x: nat, l: nat, efConstruction: nat, maxDeg: nat)
    requires WiredNearest(v, x, l, efConstruction, maxDeg) && WiredNearest(w, x, l, efConstruction, maxDeg)
    requires v.before == w.before && v.start == w.start
    ensures v == w
  {
    hide BeamResult, Wired;
    BeamIsDetermined(v.before, v.before[x].vector, [v.start], efConstruction, l, None,
                     v.candidates, v.visited, v.expanded, w.candidates, w.visited, w.expanded);
    WiredIsDetermined(v.before, v.after, w.after, x, l, Positions(Truncate(v.candidates, maxDeg)), maxDeg);
  }

  lemma {:induction false} ChainIsDetermined(vs: seq<Wiring>, ws: seq<Wiring>, x: nat, top: nat, m: nat, m0: nat,
                                             efConstruction: nat, n: nat)
    requires WiringChain(vs, x, top, m, m0, efConstruction) && WiringChain(ws, x, top, m, m0, efConstruction)
    requires 0 < n <= |vs| && n <= |ws| && vs[0].before == ws[0].before && vs[0].start == ws[0].start
    ensures vs[n - 1] == ws[n - 1]
  {
    hide WiredNearest;
    if n > 1 {
      ChainIsDetermined(vs, ws, x, top, m, m0, efConstruction, n - 1);
      assert Follows(vs[n - 2], vs[n - 1]) && Follows(ws[n - 2], ws[n - 1]);
    }
    WiringIsDetermined(vs[n - 1], ws[n - 1], x, top - (n - 1), efConstruction, if n - 1 == top then m0 else m);
  }

  /** What an insertion leaves behind is determined by the graph before it, the entry, and the new node's level. */
  lemma InsertionIsDetermined(start: seq<Node>, a: seq<Node>, b: seq<Node>, x: nat, entry: nat, maxLevel: nat, level: nat,
                              p: seq<Scored>, q: seq<Scored>, vs: seq<Wiring>, ws: seq<Wiring>,
                              m: nat, m0: nat, efConstruction: nat)
    requires Inserted(start, a, x, entry, maxLevel, level, p, vs, m, m0, efConstruction)
    requires Inserted(start, b, x, entry, maxLevel, level, q, ws, m, m0, efConstruction)
    ensures a == b
  {
    hide WiringChain, Descent;
    var top := Min(level, maxLevel);
    PathIsDetermined(start, start[x].vector, maxLevel, p, q, |p|);
    ChainIsDetermined(vs, ws, x, top, m, m0, efConstruction, top + 1);
  }
}
