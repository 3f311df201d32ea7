/** The multi-layer neighbour graph of `HnswIndex` as a value, and the facts its methods rely on. */
module HnswGraph {
  import opened Basics
  import opened Nearest
  import opened Vectors

  /** `layers[l]` lists the neighbour positions of the node at layer `l`. */
  datatype Node = Node(id: U64, vector: Vector, layers: seq<seq<nat>>)

  predicate OnLayer(nodes: seq<Node>, i: nat, l: nat) {
    i < |nodes| && l < |nodes[i].layers|
  }

  function Nbrs(nodes: seq<Node>, i: nat, l: nat): (s: seq<nat>)
    requires OnLayer(nodes, i, l)
  {
    nodes[i].layers[l]
  }

  function At(nodes: seq<Node>, query: Vector, p: nat): (s: Scored)
    requires p < |nodes|
  {
    Scored(SquaredL2(query, nodes[p].vector), p)
  }

  function MaxDeg(l: nat, m: nat, m0: nat): (d: nat)
  {
    if l == 0 then m0 else m
  }

  // ---------- the representation invariant ----------

  /** Every neighbour exists on the layer, is not the node itself, is listed once, and the degree is bounded. */
  ghost predicate ListOk(nodes: seq<Node>, i: nat, l: nat, maxDeg: nat)
    requires OnLayer(nodes, i, l)
  {
    && NoDup(Nbrs(nodes, i, l))
    && |Nbrs(nodes, i, l)| <= maxDeg
    && forall j :: j in Nbrs(nodes, i, l) ==> OnLayer(nodes, j, l) && j != i
  }

  ghost predicate WellFormed(nodes: seq<Node>, m: nat, m0: nat) {
    forall i: nat, l: nat :: OnLayer(nodes, i, l) ==> ListOk(nodes, i, l, MaxDeg(l, m, m0))
  }

  /** No layer-`l` list mentions `x`. */
  ghost predicate Unmentioned(nodes: seq<Node>, x: nat, l: nat) {
    forall i: nat :: OnLayer(nodes, i, l) ==> x !in Nbrs(nodes, i, l)
  }

  /** Layer 0 restricted to the first `n` nodes is a complete graph. */
  ghost predicate Complete(nodes: seq<Node>, n: nat) {
    forall i: nat, j: nat :: i < n && j < n && i != j ==> Linked(nodes, i, j)
  }

  /** Node `i` lists node `j` at layer 0. */
  ghost predicate Linked(nodes: seq<Node>, i: nat, j: nat) {
    OnLayer(nodes, i, 0) && j in Nbrs(nodes, i, 0)
  }

  // ---------- search ----------

  predicate Allowed(mask: Option<seq<bool>>, p: nat)
    requires mask.Some? ==> p < |mask.value|
  {
    mask.None? || mask.value[p]
  }

  ghost function Passing(mask: Option<seq<bool>>, P: set<nat>): (S: set<nat>)
  {
    set p | p in P && (mask.Some? ==> p < |mask.value|) && Allowed(mask, p)
  }

  ghost function ScoredSet(nodes: seq<Node>, query: Vector, P: set<nat>): (S: set<Scored>)
  {
    set p | p in P && p < |nodes| :: At(nodes, query, p)
  }

  ghost predicate ClosedSet(nodes: seq<Node>, l: nat, C: set<nat>) {
    forall i, j :: i in C && OnLayer(nodes, i, l) && j in Nbrs(nodes, i, l) ==> j in C
  }

  /** Every node expanded so far has all its neighbours among the visited ones. */
  ghost predicate Explored(nodes: seq<Node>, l: nat, expanded: set<nat>, visited: set<nat>) {
    forall i, j :: i in expanded && OnLayer(nodes, i, l) && j in Nbrs(nodes, i, l) ==> j in visited
  }

  /** `visited` lies inside every layer-closed set that contains the entry points, so all of it is reachable. */
  ghost predicate OnlyReachable(nodes: seq<Node>, l: nat, eps: seq<Scored>, visited: set<nat>) {
    forall C :: ClosedSet(nodes, l, C) && (forall e :: e in eps ==> e.pos in C) ==> visited <= C
  }

  /** Entry points carry their true distance and are distinct nodes of the layer. */
  ghost predicate EntryPoints(nodes: seq<Node>, query: Vector, l: nat, eps: seq<Scored>) {
    && NoDup(eps)
    && forall e :: e in eps ==> OnLayer(nodes, e.pos, l) && e == At(nodes, query, e.pos)
  }

  // ---------- the course of a search ----------

  /** The entry points and the neighbours of the nodes expanded so far. */
  ghost function Reached(nodes: seq<Node>, l: nat, eps: seq<Scored>, order: seq<nat>): (P: set<nat>)
  {
    if order == [] then set e | e in eps :: e.pos
    else
      var c := order[|order| - 1];
      Reached(nodes, l, eps, order[..|order| - 1]) + if OnLayer(nodes, c, l) then SetOf(Nbrs(nodes, c, l)) else {}
  }

  /** `c` is the nearest node of `P`. */
  ghost predicate NearestOf(nodes: seq<Node>, query: Vector, P: set<nat>, c: nat) {
    && c in P && c < |nodes|
    && forall p :: p in P && p != c ==> p < |nodes| && Less(At(nodes, query, c), At(nodes, query, p))
  }

  ghost function CloserThan(nodes: seq<Node>, query: Vector, P: set<nat>, d: real): (S: set<nat>)
  {
    set p | p in P && p < |nodes| && SquaredL2(query, nodes[p].vector) < d
  }

  /** At least `ef` allowed visited nodes are strictly nearer than `c`. */
  ghost predicate Settled(nodes: seq<Node>, query: Vector, ef: nat, mask: Option<seq<bool>>, seen: set<nat>, c: nat) {
    c < |nodes| && |CloserThan(nodes, query, Passing(mask, seen), SquaredL2(query, nodes[c].vector))| >= ef
  }

  /** After expanding the nodes of `done`, `c` is the nearest unexpanded node visited by then, and not settled. */
  ghost predicate BestNext(nodes: seq<Node>, query: Vector, eps: seq<Scored>, ef: nat, l: nat,
                           mask: Option<seq<bool>>, done: seq<nat>, c: nat)
  {
    var seen := Reached(nodes, l, eps, done);
    && NearestOf(nodes, query, seen - SetOf(done), c)
    && !Settled(nodes, query, ef, mask, seen, c)
  }

  /** Nodes were expanded best first. */
  ghost predicate BestFirst(nodes: seq<Node>, query: Vector, eps: seq<Scored>, ef: nat, l: nat,
                            mask: Option<seq<bool>>, order: seq<nat>)
  {
    forall k :: 0 <= k < |order| ==> BestNext(nodes, query, eps, ef, l, mask, order[..k], order[k])
  }

  /** The visited and expanded nodes of a best-first search under way. */
  ghost predicate Course(nodes: seq<Node>, query: Vector, eps: seq<Scored>, ef: nat, l: nat,
                         mask: Option<seq<bool>>, visited: set<nat>, expanded: set<nat>)
  {
    exists order :: IsCourse(nodes, query, eps, ef, l, mask, visited, expanded, order)
  }

  ghost predicate IsCourse(nodes: seq<Node>, query: Vector, eps: seq<Scored>, ef: nat, l: nat,
                           mask: Option<seq<bool>>, visited: set<nat>, expanded: set<nat>, order: seq<nat>)
  {
    && BestFirst(nodes, query, eps, ef, l, mask, order)
    && visited == Reached(nodes, l, eps, order) && expanded == SetOf(order)
  }

  /** The search goes no further: the nearest unexpanded node, if there is one, is settled. */
  ghost predicate Stops(nodes: seq<Node>, query: Vector, ef: nat, mask: Option<seq<bool>>,
                        visited: set<nat>, expanded: set<nat>)
  {
    forall c :: NearestOf(nodes, query, visited - expanded, c) ==> Settled(nodes, query, ef, mask, visited, c)
  }

  /** What a beam search leaves behind, on natural exhaustion and on early exit alike. */
  ghost predicate BeamResult(nodes: seq<Node>, query: Vector, eps: seq<Scored>, ef: nat, l: nat,
                             mask: Option<seq<bool>>, results: seq<Scored>,
                             visited: set<nat>, expanded: set<nat>)
  {
    && TopOf(results, ScoredSet(nodes, query, Passing(mask, visited)), ef)
    && (forall p :: p in visited ==> OnLayer(nodes, p, l))
    && (forall e :: e in eps ==> e.pos in visited)
    && expanded <= visited
    && Explored(nodes, l, expanded, visited)
    && OnlyReachable(nodes, l, eps, visited)
    && (eps != [] ==> |SortAsc(eps)| == |eps| && SortAsc(eps)[0].pos in expanded)
    && (forall p :: p in visited - expanded ==>
          |results| == ef && forall x :: x in results ==> x.dist < SquaredL2(query, nodes[p].vector))
    && Course(nodes, query, eps, ef, l, mask, visited, expanded)
    && Stops(nodes, query, ef, mask, visited, expanded)
  }

  function Positions(s: seq<Scored>): (r: seq<nat>)
    ensures |r| == |s|
    ensures forall k :: 0 <= k < |s| ==> r[k] == s[k].pos
  {
    seq(|s|, k requires 0 <= k < |s| => s[k].pos)
  }

  lemma PositionsNoDup(nodes: seq<Node>, query: Vector, s: seq<Scored>)
    requires NoDup(s) && forall x :: x in s ==> x.pos < |nodes| && x == At(nodes, query, x.pos)
    ensures NoDup(Positions(s))
  {
    forall i, j | 0 <= i < j < |s| ensures s[i].pos != s[j].pos {
      assert s[i] in s && s[j] in s;
    }
  }

  /** `next` is the first of the nearest neighbours of `cur`, and strictly nearer than `cur`. */
  ghost predicate GreedyStep(nodes: seq<Node>, query: Vector, l: nat, cur: nat, next: nat) {
    && OnLayer(nodes, cur, l)
    && (forall j :: j in Nbrs(nodes, cur, l) ==> j < |nodes|)
    && exists k :: && 0 <= k < |Nbrs(nodes, cur, l)| && FirstNearest(nodes, query, Nbrs(nodes, cur, l), k)
                   && Nbrs(nodes, cur, l)[k] == next
                   && SquaredL2(query, nodes[next].vector) < SquaredL2(query, nodes[cur].vector)
  }

  ghost predicate FirstNearest(nodes: seq<Node>, query: Vector, list: seq<nat>, k: nat)
    requires forall j :: j in list ==> j < |nodes|
  {
    k < |list| && list[k] in list && forall h :: 0 <= h < |list| && list[h] in list ==>
      var d, dh := SquaredL2(query, nodes[list[k]].vector), SquaredL2(query, nodes[list[h]].vector);
      if h < k then d < dh else d <= dh
  }

  /** From `start`, greedy steps lead to `end`. */
  ghost predicate GreedyWalk(nodes: seq<Node>, query: Vector, l: nat, start: nat, end: nat) {
    exists walk :: IsGreedyWalk(nodes, query, l, walk) && walk[0] == start && walk[|walk| - 1] == end
  }

  ghost predicate IsGreedyWalk(nodes: seq<Node>, query: Vector, l: nat, walk: seq<nat>) {
    walk != [] && forall j, k :: 0 <= j && k == j + 1 < |walk| ==> GreedyStep(nodes, query, l, walk[j], walk[k])
  }

  /** The outcome of one greedy descent at layer `l`: a node with no strictly closer neighbour, reached only
      from the start. */
  ghost predicate LocalMinimum(nodes: seq<Node>, query: Vector, start: Scored, end: Scored, l: nat) {
    && OnLayer(nodes, end.pos, l) && end == At(nodes, query, end.pos)
    && (end == start || end.dist < start.dist)
    && GreedyWalk(nodes, query, l, start.pos, end.pos)
    && (forall C :: ClosedSet(nodes, l, C) && start.pos in C ==> end.pos in C)
    && forall j :: j in Nbrs(nodes, end.pos, l) ==> j < |nodes| && !(SquaredL2(query, nodes[j].vector) < end.dist)
  }

  /** Greedy descents through the layers `top`, `top - 1`, ..., one per step of `path`. */
  ghost predicate Descent(nodes: seq<Node>, query: Vector, path: seq<Scored>, top: nat) {
    && 0 < |path| <= top + 1
    && forall k :: 0 <= k < |path| - 1 ==> LocalMinimum(nodes, query, path[k], path[k + 1], top - k)
  }

  /** If the beam is at least as wide as the set of reachable allowed nodes, the search returns all of them, in order. */
  lemma WideBeamFindsAll(nodes: seq<Node>, query: Vector, eps: seq<Scored>, ef: nat, l: nat,
                         mask: Option<seq<bool>>, results: seq<Scored>, visited: set<nat>, expanded: set<nat>,
                         reach: set<nat>)
    requires BeamResult(nodes, query, eps, ef, l, mask, results, visited, expanded)
    requires ClosedSet(nodes, l, reach) && forall e :: e in eps ==> e.pos in reach
    requires OnlyReachable(nodes, l, eps, reach)
    requires |Passing(mask, reach)| <= ef
    ensures Ascending(results) && |results| <= ef
    ensures forall x :: x in results <==> x in ScoredSet(nodes, query, Passing(mask, reach))
  {
    assert visited <= reach;
    var P := Passing(mask, reach);
    if |results| < ef {
      assert visited == expanded;
      assert ClosedSet(nodes, l, visited);
      assert visited == reach;
    } else {
      // the beam is full, so it already holds every allowed node within reach
      var found := Positions(results);
      PositionsNoDup(nodes, query, results);
      CardOfNoDup(found);
      forall p | p in found ensures p in P {
        var k :| 0 <= k < |found| && found[k] == p;
        assert results[k] in results;
      }
      CardOfSubset(SetOf(found), P);
      assert SetOf(found) == P;
      forall y | y in ScoredSet(nodes, query, P) ensures y in results {
        assert y.pos in SetOf(found);
        var k :| 0 <= k < |found| && found[k] == y.pos;
        assert results[k] in results;
      }
    }
  }

  // ---------- updating one adjacency list ----------

  function SetList(nodes: seq<Node>, i: nat, l: nat, list: seq<nat>): (r: seq<Node>)
    requires OnLayer(nodes, i, l)
    ensures SameShape(nodes, r)
    ensures Nbrs(r, i, l) == list
    ensures forall j: nat, k: nat :: OnLayer(nodes, j, k) && (j != i || k != l) ==> Nbrs(r, j, k) == Nbrs(nodes, j, k)
  {
    nodes[i := nodes[i].(layers := nodes[i].layers[l := list])]
  }

  /** Same nodes with the same vectors and levels; only adjacency lists may differ. */
  ghost predicate SameShape(a: seq<Node>, b: seq<Node>) {
    && |a| == |b|
    && forall i :: 0 <= i < |a| ==>
         a[i].id == b[i].id && a[i].vector == b[i].vector && |a[i].layers| == |b[i].layers|
  }

  function ScoreAll(nodes: seq<Node>, query: Vector, list: seq<nat>): (s: seq<Scored>)
    requires forall j :: j in list ==> j < |nodes|
    ensures |s| == |list|
    ensures forall k :: 0 <= k < |list| ==> list[k] in list && s[k] == At(nodes, query, list[k])
  {
    seq(|list|, k requires 0 <= k < |list| => assert list[k] in list; At(nodes, query, list[k]))
  }

  /** What `prune` leaves of a list: all of it if short enough, else the `maxDeg` nearest to the node. */
  function Pruned(nodes: seq<Node>, i: nat, list: seq<nat>, maxDeg: nat): (r: seq<nat>)
    requires i < |nodes| && forall j :: j in list ==> j < |nodes|
  {
    if |list| <= maxDeg then list
    else Positions(Truncate(SortAsc(ScoreAll(nodes, nodes[i].vector, list)), maxDeg))
  }

  lemma ScoredEnumerates(nodes: seq<Node>, query: Vector, list: seq<nat>)
    requires NoDup(list) && forall j :: j in list ==> j < |nodes|
    ensures Enumerates(ScoreAll(nodes, query, list), SetOf(ScoreAll(nodes, query, list)))
  {
    var scored := ScoreAll(nodes, query, list);
    forall i, j | 0 <= i < j < |scored| ensures scored[i] != scored[j] {
      assert scored[i].pos == list[i] && scored[j].pos == list[j];
    }
  }

  lemma SortedScores(nodes: seq<Node>, query: Vector, list: seq<nat>)
    requires NoDup(list) && forall j :: j in list ==> j < |nodes|
    ensures var m := SortAsc(ScoreAll(nodes, query, list));
            && Ascending(m) && NoDup(m) && |m| == |list|
            && (forall x :: x in m ==> x.pos in list && x == At(nodes, query, x.pos))
            && (forall j :: j in list ==> At(nodes, query, j) in m)
  {
    var scored := ScoreAll(nodes, query, list);
    ScoredEnumerates(nodes, query, list);
    SortAscEnumerates(scored, SetOf(scored));
    var m := SortAsc(scored);
    forall x | x in m ensures x.pos in list && x == At(nodes, query, x.pos) {
      assert x in SetOf(scored);
      var k :| 0 <= k < |scored| && scored[k] == x;
    }
    forall j | j in list ensures At(nodes, query, j) in m {
      var h :| 0 <= h < |list| && list[h] == j;
      assert scored[h] in SetOf(scored);
    }
  }

  /** Pruning keeps a duplicate-free part of the list, and whatever it drops is farther than all it keeps. */
  lemma PrunedKeepsNearest(nodes: seq<Node>, i: nat, list: seq<nat>, maxDeg: nat)
    requires i < |nodes| && NoDup(list) && forall j :: j in list ==> j < |nodes|
    ensures var r := Pruned(nodes, i, list, maxDeg);
            && NoDup(r) && |r| == Min(|list|, maxDeg)
            && (forall j :: j in r ==> j in list)
            && forall j, k :: j in r && k in list && k !in r ==>
                 Less(At(nodes, nodes[i].vector, j), At(nodes, nodes[i].vector, k))
  {
    if |list| > maxDeg {
      var q := nodes[i].vector;
      var m := SortAsc(ScoreAll(nodes, q, list));
      SortedScores(nodes, q, list);
      var kept := m[..maxDeg];
      var r := Positions(kept);
      assert Pruned(nodes, i, list, maxDeg) == r;
      hide Pruned, SortAsc, ScoreAll;
      assert forall x :: x in kept ==> x in m;
      PositionsNoDup(nodes, q, kept);
      forall j | j in r ensures j in list && At(nodes, q, j) in kept {
        var a :| 0 <= a < |r| && r[a] == j;
        assert kept[a] in m;
      }
      forall j, k | j in r && k in list && k !in r ensures Less(At(nodes, q, j), At(nodes, q, k)) {
        forall b | 0 <= b < |kept| ensures kept[b] != At(nodes, q, k) {
          assert r[b] in r;
        }
        CutIsLess(m, maxDeg, At(nodes, q, j), At(nodes, q, k));
      }
    }
  }

  lemma CutIsLess(m: seq<Scored>, n: nat, x: Scored, y: Scored)
    requires Ascending(m) && n <= |m| && x in m[..n] && y in m && y !in m[..n]
    ensures Less(x, y)
  {
    var a :| 0 <= a < n && m[..n][a] == x;
    var b :| 0 <= b < |m| && m[b] == y;
    forall c | 0 <= c < n ensures m[c] != y {
      assert m[..n][c] == m[c];
    }
  }

  lemma PrunedSameShape(a: seq<Node>, b: seq<Node>, i: nat, list: seq<nat>, maxDeg: nat)
    requires SameShape(a, b) && i < |a| && forall j :: j in list ==> j < |a|
    ensures Pruned(a, i, list, maxDeg) == Pruned(b, i, list, maxDeg)
  {
    assert ScoreAll(a, a[i].vector, list) == ScoreAll(b, b[i].vector, list);
  }

  // ---------- wiring a new node into one layer ----------

  /** `after` is `before` with `x` linked both ways to each node of `selected` at layer `l`, each back-linked
      node pruned to `maxDeg`; nothing else changed. */
  ghost predicate Wired(before: seq<Node>, after: seq<Node>, x: nat, l: nat, selected: seq<nat>, maxDeg: nat) {
    && SameShape(before, after)
    && OnLayer(before, x, l) && Nbrs(after, x, l) == selected
    && (forall i: nat, k: nat :: OnLayer(before, i, k) && k != l ==> Nbrs(after, i, k) == Nbrs(before, i, k))
    && (forall i: nat :: OnLayer(before, i, l) && i != x && i !in selected ==>
          Nbrs(after, i, l) == Nbrs(before, i, l))
    && (forall i: nat :: OnLayer(before, i, l) && i != x && i in selected ==>
          (forall j :: j in Nbrs(before, i, l) ==> j < |before|) &&
          Nbrs(after, i, l) == Pruned(before, i, Nbrs(before, i, l) + [x], maxDeg))
  }

  lemma WiredNone(nodes: seq<Node>, x: nat, l: nat, maxDeg: nat)
    requires OnLayer(nodes, x, l) && Nbrs(nodes, x, l) == []
    ensures Wired(nodes, nodes, x, l, [], maxDeg)
  {
  }

  /** One more selected neighbour. */
  lemma WiredStep(before: seq<Node>, mid: seq<Node>, x: nat, l: nat, selected: seq<nat>, nb: nat, maxDeg: nat)
    requires Wired(before, mid, x, l, selected, maxDeg)
    requires OnLayer(before, nb, l) && nb != x && nb !in selected
    requires forall j :: j in Nbrs(before, nb, l) ==> j < |before|
    ensures OnLayer(mid, x, l) && OnLayer(mid, nb, l)
    ensures var list := Nbrs(mid, nb, l) + [x];
            var linked := SetList(SetList(mid, x, l, selected + [nb]), nb, l, list);
            && (forall j :: j in list ==> j < |linked|)
            && Wired(before, SetList(linked, nb, l, Pruned(linked, nb, list, maxDeg)), x, l, selected + [nb], maxDeg)
  {
    var list := Nbrs(mid, nb, l) + [x];
    var linked := SetList(SetList(mid, x, l, selected + [nb]), nb, l, list);
    assert Nbrs(mid, nb, l) == Nbrs(before, nb, l);
    PrunedSameShape(before, linked, nb, list, maxDeg);
  }

  /** Wiring the chosen neighbours keeps the representation invariant. */
  lemma WiredWellFormed(before: seq<Node>, after: seq<Node>, x: nat, l: nat, selected: seq<nat>, m: nat, m0: nat)
    requires Wired(before, after, x, l, selected, MaxDeg(l, m, m0))
    requires WellFormed(before, m, m0) && Unmentioned(before, x, l)
    requires NoDup(selected) && |selected| <= MaxDeg(l, m, m0)
    requires forall j :: j in selected ==> OnLayer(before, j, l) && j != x
    ensures WellFormed(after, m, m0)
  {
    forall i: nat, k: nat | OnLayer(after, i, k) ensures ListOk(after, i, k, MaxDeg(k, m, m0)) {
      assert OnLayer(before, i, k);
      assert ListOk(before, i, k, MaxDeg(k, m, m0));
      if k == l && i != x && i in selected {
        var list := Nbrs(before, i, l) + [x];
        PrunedKeepsNearest(before, i, list, MaxDeg(l, m, m0));
      }
    }
  }

  /** If every older node is selected and no list overflows, layer 0 stays complete. */
  lemma WiredComplete(before: seq<Node>, after: seq<Node>, x: nat, selected: seq<nat>, m0: nat)
    requires Wired(before, after, x, 0, selected, m0) && Complete(before, x) && x < |before|
    requires forall j: nat :: j < x ==> j in selected
    requires forall j: nat :: j < x ==> OnLayer(before, j, 0) && |Nbrs(before, j, 0)| < m0
    ensures Complete(after, x + 1)
  {
    forall i: nat, j: nat | i < x + 1 && j < x + 1 && i != j
      ensures Linked(after, i, j)
    {
      if i < x {
        var list := Nbrs(before, i, 0) + [x];
        assert OnLayer(before, i, 0) && i in selected;
        assert OnLayer(after, i, 0) && Nbrs(after, i, 0) == Pruned(before, i, list, m0) == list;
        assert list[|list| - 1] == x;
        if j < x {
          assert Linked(before, i, j);
        }
      }
    }
  }

  /** A node's neighbour list among the first `n` nodes has room for fewer than `n`. */
  lemma ListShorterThan(list: seq<nat>, i: nat, n: nat)
    requires NoDup(list) && i < n && forall j :: j in list ==> j < n && j != i
    ensures |list| < n
  {
    CardOfNoDup(list);
    CardOfSubset(SetOf(list), Below(n) - {i});
  }

  /** One layer of an insertion: where the beam search began, what it found, and the graph around it. */
  datatype Wiring = Wiring(start: Scored, candidates: seq<Scored>, visited: set<nat>, expanded: set<nat>,
                           before: seq<Node>, after: seq<Node>)

  /** The new node `x` was linked to the nearest candidates of a beam search at layer `l`. */
  ghost predicate WiredNearest(w: Wiring, x: nat, l: nat, efConstruction: nat, maxDeg: nat) {
    && x < |w.before|
    && BeamResult(w.before, w.before[x].vector, [w.start], efConstruction, l, None,
                  w.candidates, w.visited, w.expanded)
    && Wired(w.before, w.after, x, l, Positions(Truncate(w.candidates, maxDeg)), maxDeg)
  }

  /** The layers `top`, `top - 1`, ... wired one after the other, each search starting at the best candidate
      of the layer above. */
  ghost predicate WiringChain(ws: seq<Wiring>, x: nat, top: nat, m: nat, m0: nat, efConstruction: nat) {
    && |ws| <= top + 1
    && (forall k :: 0 <= k < |ws| ==>
          WiredNearest(ws[k], x, top - k, efConstruction, if k == top then m0 else m))
    && (forall j, k :: 0 <= j && k == j + 1 < |ws| ==> Follows(ws[j], ws[k]))
  }

  /** The next layer's search begins in the graph the last one left, at its best candidate. */
  ghost predicate Follows(upper: Wiring, lower: Wiring) {
    && lower.before == upper.after
    && upper.candidates != [] && lower.start == upper.candidates[0]
  }

  /** The whole insertion of node `x`: greedy descents from the entry down to its own top layer, then one
      wiring per layer. */
  ghost predicate Inserted(start: seq<Node>, after: seq<Node>, x: nat, entry: nat, maxLevel: nat, level: nat,
                           path: seq<Scored>, ws: seq<Wiring>, m: nat, m0: nat, efConstruction: nat)
  {
    var top := Min(level, maxLevel);
    && x < |start| && entry < |start|
    && path != [] && path[0] == At(start, start[x].vector, entry)
    && |path| == 1 + maxLevel - top
    && Descent(start, start[x].vector, path, maxLevel)
    && |ws| == top + 1 && WiringChain(ws, x, top, m, m0, efConstruction)
    && ws[0].before == start && ws[0].start == path[|path| - 1]
    && ws[top].after == after
  }

  /** Inserting into a complete bottom layer that still has room keeps it complete. */
  lemma WiringKeepsComplete(w: Wiring, x: nat, efConstruction: nat, m: nat, m0: nat)
    requires WiredNearest(w, x, 0, efConstruction, m0)
    requires WellFormed(w.before, m, m0) && Unmentioned(w.before, x, 0) && |w.before| == x + 1
    requires Complete(w.before, x) && (forall i: nat :: i <= x ==> OnLayer(w.before, i, 0))
    requires w.start.pos < x && x <= m0 && x <= efConstruction
    ensures Complete(w.after, x + 1)
  {
    OlderVisited(w, x, efConstruction, m, m0);
    RoomForOne(w.before, x, m, m0);
    assert TopOf(w.candidates, ScoredSet(w.before, w.before[x].vector, Passing(None, w.visited)), efConstruction);
    hide BeamResult, TopOf, Complete, Wired, WellFormed, Unmentioned;
    AllSelected(w.before, w.before[x].vector, w.candidates, w.visited, x, efConstruction, m0);
    WiredComplete(w.before, w.after, x, Positions(Truncate(w.candidates, m0)), m0);
  }

  /** In a complete layer the search visits every older node and nothing else. */
  lemma OlderVisited(w: Wiring, x: nat, efConstruction: nat, m: nat, m0: nat)
    requires WiredNearest(w, x, 0, efConstruction, m0)
    requires WellFormed(w.before, m, m0) && Unmentioned(w.before, x, 0) && |w.before| == x + 1
    requires Complete(w.before, x) && w.start.pos < x
    ensures w.visited == Below(x)
  {
    hide Course, Stops, Wired, TopOf;
    var nodes := w.before;
    assert ClosedSet(nodes, 0, Below(x)) by {
      forall i, j | i in Below(x) && OnLayer(nodes, i, 0) && j in Nbrs(nodes, i, 0) ensures j in Below(x) {
        assert ListOk(nodes, i, 0, MaxDeg(0, m, m0));
      }
    }
    assert w.visited <= Below(x);
    assert SortAsc([w.start]) == [w.start] by {
      assert [w.start][1..] == [];
    }
    assert w.start in [w.start];
    forall j: nat | j < x ensures j in w.visited {
      if j != w.start.pos {
        assert Linked(nodes, w.start.pos, j);
      }
    }
  }

  lemma RoomForOne(nodes: seq<Node>, x: nat, m: nat, m0: nat)
    requires WellFormed(nodes, m, m0) && Unmentioned(nodes, x, 0) && |nodes| == x + 1 && x <= m0
    requires forall i: nat :: i <= x ==> OnLayer(nodes, i, 0)
    ensures forall j: nat :: j < x ==> OnLayer(nodes, j, 0) && |Nbrs(nodes, j, 0)| < m0
  {
    forall j: nat | j < x ensures OnLayer(nodes, j, 0) && |Nbrs(nodes, j, 0)| < m0 {
      assert ListOk(nodes, j, 0, MaxDeg(0, m, m0));
      ListShorterThan(Nbrs(nodes, j, 0), j, x);
    }
  }

  lemma AllSelected(nodes: seq<Node>, query: Vector, candidates: seq<Scored>, visited: set<nat>, x: nat,
                    efConstruction: nat, m0: nat)
    requires x < |nodes| && visited == Below(x) && x <= efConstruction && x <= m0
    requires TopOf(candidates, ScoredSet(nodes, query, Passing(None, visited)), efConstruction)
    ensures forall j: nat :: j < x ==> j in Positions(Truncate(candidates, m0))
  {
    PositionsNoDup(nodes, query, candidates);
    var found := Positions(candidates);
    CardOfNoDup(found);
    forall p | p in found ensures p in Below(x) {
      var k :| 0 <= k < |found| && found[k] == p;
      assert candidates[k] in candidates;
    }
    CardOfSubset(SetOf(found), Below(x));
    assert Truncate(candidates, m0) == candidates;
    forall j: nat | j < x ensures j in found {
      var y := At(nodes, query, j);
      assert Passing(None, visited) == visited;
      assert y in ScoredSet(nodes, query, visited);
      if y in candidates {
        var k :| 0 <= k < |candidates| && candidates[k] == y;
        assert found[k] == j;
      } else {
        assert |found| == efConstruction;
        assert SetOf(found) == Below(x);
      }
    }
  }
}
