/** `HnswIndex`: insertion, pruning, greedy descent and beam search over a mutable node list. */
module HnswIndex {
  import opened Basics
  import opened Nearest
  import opened Vectors
  import opened HnswGraph
  import opened HnswCourse

  /** `candidates.retain(|i| i != x)`. */
  function Without(s: seq<Scored>, x: nat): (r: seq<Scored>)
    ensures (forall y :: y in s ==> y.pos != x) ==> r == s
  {
    if s == [] then []
    else
      assert s[0] in s;
      assert forall y :: y in s[1..] ==> y in s;
      (if s[0].pos == x then [] else [s[0]]) + Without(s[1..], x)
  }

  class HnswIndex {
    var nodes: seq<Node>
    var entry: nat
    var dim: nat
    const m: nat
    const m0: nat
    const efConstruction: nat
    const efSearch: nat
    var maxLevel: nat

    ghost predicate Valid()
      reads this
    {
      && m >= 1 && m0 >= 1 && efConstruction >= 1 && efSearch >= 1
      && WellFormed(nodes, m, m0)
      && (forall i :: 0 <= i < |nodes| ==> |nodes[i].vector| == dim || nodes[i].vector == [])
      && (forall i :: 0 <= i < |nodes| ==> 1 <= |nodes[i].layers| <= maxLevel + 1)
      && (nodes == [] ==> dim == 0)
      && (nodes != [] ==> entry < |nodes| && |nodes[entry].layers| == maxLevel + 1)
    }

    constructor (m: nat, efConstruction: nat, efSearch: nat)
      ensures Valid() && nodes == [] && dim == 0
      ensures this.m == Max(m, 1) && this.m0 == Max(2 * m, 1)
      ensures this.efConstruction == Max(efConstruction, 1) && this.efSearch == Max(efSearch, 1)
    {
      this.nodes := [];
      this.entry := 0;
      this.dim := 0;
      this.m := Max(m, 1);
      this.m0 := Max(m * 2, 1);
      this.efConstruction := Max(efConstruction, 1);
      this.efSearch := Max(efSearch, 1);
      this.maxLevel := 0;
    }

    /** Greedy (ef = 1) descent at `layer` from `start`: terminates because each move is strictly closer. */
    method GreedyDescend(query: Vector, start: nat, layer: nat) returns (best: Scored)
      requires WellFormed(nodes, m, m0)
      requires OnLayer(nodes, start, layer)
      ensures LocalMinimum(nodes, query, At(nodes, query, start), best, layer)
    {
      var cur := At(nodes, query, start);
      ghost var walk := [start];
      while true
        invariant OnLayer(nodes, cur.pos, layer) && cur == At(nodes, query, cur.pos)
        invariant cur == At(nodes, query, start) || cur.dist < At(nodes, query, start).dist
        invariant forall C :: ClosedSet(nodes, layer, C) && start in C ==> cur.pos in C
        invariant IsGreedyWalk(nodes, query, layer, walk) && walk[0] == start && walk[|walk| - 1] == cur.pos
        decreases Closer(query, cur.dist)
      {
        best := cur;
        ghost var at: int := -1;
        var nbrs := Nbrs(nodes, cur.pos, layer);
        assert ListOk(nodes, cur.pos, layer, MaxDeg(layer, m, m0));
        for k := 0 to |nbrs|
          invariant OnLayer(nodes, best.pos, layer) && best == At(nodes, query, best.pos)
          invariant best == cur || (best.dist < cur.dist && best.pos in nbrs)
          invariant best == cur <==> at == -1
          invariant at != -1 ==> 0 <= at < k && nbrs[at] == best.pos
          invariant forall h :: 0 <= h < at ==> nbrs[h] < |nodes| && best.dist < SquaredL2(query, nodes[nbrs[h]].vector)
          invariant forall h :: 0 <= h < k ==> nbrs[h] < |nodes| && !(SquaredL2(query, nodes[nbrs[h]].vector) < best.dist)
        {
          var nb := nbrs[k];
          assert nb in Nbrs(nodes, cur.pos, layer);
          var d := SquaredL2(query, nodes[nb].vector);
          if d < best.dist {
            best := Scored(d, nb);
            at := k;
          }
        }
        if best.pos == cur.pos {
          return;
        }
        assert best.pos in Closer(query, cur.dist) && best.pos !in Closer(query, best.dist);
        assert FirstNearest(nodes, query, nbrs, at);
        assert GreedyStep(nodes, query, layer, cur.pos, best.pos);
        WalkGrows(nodes, query, layer, walk, best.pos);
        walk := walk + [best.pos];
        cur := best;
      }
    }

    ghost function Closer(query: Vector, d: real): (s: set<nat>)
      reads this
    {
      set p: nat | p < |nodes| && SquaredL2(query, nodes[p].vector) < d
    }

    /** Greedy descents from the entry node through the layers `maxLevel`, ..., `level + 1`. */
    method DescendTo(query: Vector, level: nat) returns (cur: Scored, ghost path: seq<Scored>)
      requires WellFormed(nodes, m, m0)
      requires entry < |nodes| && |nodes[entry].layers| == maxLevel + 1
      ensures OnLayer(nodes, cur.pos, Min(level, maxLevel)) && cur == At(nodes, query, cur.pos)
      ensures path != [] && path[0] == At(nodes, query, entry) && path[|path| - 1] == cur
      ensures |path| == 1 + maxLevel - Min(level, maxLevel) && Descent(nodes, query, path, maxLevel)
    {
      hide WellFormed, LocalMinimum;
      cur := At(nodes, query, entry);
      path := [cur];
      var l := maxLevel;
      while l > level
        invariant Min(level, maxLevel) <= l <= maxLevel
        invariant OnLayer(nodes, cur.pos, l) && cur == At(nodes, query, cur.pos)
        invariant path != [] && path[0] == At(nodes, query, entry) && path[|path| - 1] == cur
        invariant |path| == 1 + maxLevel - l && Descent(nodes, query, path, maxLevel)
      {
        var next := GreedyDescend(query, cur.pos, l);
        DescentGrows(nodes, query, path, maxLevel, next);
        cur := next;
        path := path + [cur];
        l := l - 1;
      }
    }

    /** The inner loop of `search_layer`: visit each neighbour not seen before. */
    method Expand(query: Vector, nbrs: seq<nat>, mask: Option<seq<bool>>, seen0: set<nat>,
                  candidates0: seq<Scored>, results0: seq<Scored>)
      returns (seen: set<nat>, candidates: seq<Scored>, results: seq<Scored>)
      requires forall j :: j in nbrs ==> j < |nodes|
      requires mask.Some? ==> |mask.value| == |nodes|
      ensures seen == seen0 + SetOf(nbrs)
      ensures candidates0 <= candidates && results0 <= results
      ensures Enumerates(candidates[|candidates0|..], ScoredSet(nodes, query, seen - seen0))
      ensures Enumerates(results[|results0|..], ScoredSet(nodes, query, Passing(mask, seen - seen0)))
    {
      seen, candidates, results := seen0, candidates0, results0;
      ghost var c, r := [], [];
      for k := 0 to |nbrs|
        invariant seen == seen0 + SetOf(nbrs[..k])
        invariant candidates == candidates0 + c && results == results0 + r
        invariant Enumerates(c, ScoredSet(nodes, query, Passing(None, seen - seen0)))
        invariant Enumerates(r, ScoredSet(nodes, query, Passing(mask, seen - seen0)))
      {
        var nb := nbrs[k];
        assert nb in nbrs;
        assert SetOf(nbrs[..k + 1]) == SetOf(nbrs[..k]) + {nb};
        if nb !in seen {
          Visit(nodes, query, None, seen - seen0, c, nb);
          Visit(nodes, query, mask, seen - seen0, r, nb);
          assert seen + {nb} - seen0 == seen - seen0 + {nb};
          seen := seen + {nb};
          var d := SquaredL2(query, nodes[nb].vector);
          candidates := candidates + [Scored(d, nb)];
          c := c + [Scored(d, nb)];
          if Allowed(mask, nb) {
            results := results + [Scored(d, nb)];
            r := r + [Scored(d, nb)];
          }
        }
      }
      assert nbrs[..|nbrs|] == nbrs;
      assert Passing(None, seen - seen0) == seen - seen0;
      assert candidates[|candidates0|..] == c && results[|results0|..] == r;
    }

    /** The entry points become the first visited nodes, candidates and results. */
    method Seed(query: Vector, eps: seq<Scored>, layer: nat, mask: Option<seq<bool>>)
      returns (seen: set<nat>, candidates: seq<Scored>, results: seq<Scored>)
      requires EntryPoints(nodes, query, layer, eps)
      requires mask.Some? ==> |mask.value| == |nodes|
      ensures seen == set e | e in eps :: e.pos
      ensures candidates == eps
      ensures |results| <= |eps| && forall x :: x in results ==> x in eps
      ensures Enumerates(results, ScoredSet(nodes, query, Passing(mask, seen)))
    {
      seen, candidates, results := {}, [], [];
      for k := 0 to |eps|
        invariant seen == set e | e in eps[..k] :: e.pos
        invariant candidates == eps[..k]
        invariant Enumerates(results, ScoredSet(nodes, query, Passing(mask, seen)))
        invariant |results| <= k
        invariant forall x :: x in results ==> x in eps
      {
        var e := eps[k];
        assert e in eps && e !in eps[..k];
        assert eps[..k + 1] == eps[..k] + [e];
        assert e.pos !in seen by {
          if x :| x in eps[..k] && x.pos == e.pos {
            assert x in eps;
          }
        }
        Visit(nodes, query, mask, seen, results, e.pos);
        seen := seen + {e.pos};
        candidates := candidates + [e];
        if Allowed(mask, e.pos) {
          results := results + [e];
        }
      }
      assert eps[..|eps|] == eps;
    }

    /** Beam search at `layer`. */
    method SearchLayer(query: Vector, eps: seq<Scored>, ef: nat, layer: nat, mask: Option<seq<bool>>)
      returns (results: seq<Scored>, ghost visited: set<nat>, ghost expanded: set<nat>)
      requires WellFormed(nodes, m, m0)
      requires EntryPoints(nodes, query, layer, eps) && |eps| <= ef && 1 <= ef
      requires mask.Some? ==> |mask.value| == |nodes|
      ensures BeamResult(nodes, query, eps, ef, layer, mask, results, visited, expanded)
      ensures Ascending(results) && |results| <= ef && TrueHits(nodes, query, layer, mask, results)
    {
      hide TrueHits, Course, BeamState, BeamResult;
      var seen, candidates;
      seen, candidates, results := Seed(query, eps, layer, mask);
      StartOfSearch(nodes, query, layer, eps, ef, mask, seen, results);
      candidates := SortAsc(candidates);
      results := SortAsc(results);
      expanded := {};
      while |candidates| > 0
        invariant BeamState(nodes, query, eps, ef, layer, mask, candidates, results, seen, expanded)
        decreases Below(|nodes|) - expanded
      {
        var c := candidates[0];
        FirstCandidate(nodes, query, eps, ef, layer, mask, candidates, results, seen, expanded);
        ghost var pending := candidates;
        candidates := candidates[1..];
        if |results| >= ef && c.dist > results[|results| - 1].dist {
          visited := seen;
          StopEarly(nodes, query, eps, ef, layer, mask, pending, results, seen, expanded);
          BeamHitsAreTrue(nodes, query, eps, ef, layer, mask, results, visited, expanded);
          return;
        }
        var nbrs := Nbrs(nodes, c.pos, layer);
        assert ListOk(nodes, c.pos, layer, MaxDeg(layer, m, m0));
        ghost var seen0, candidates0, results0 := seen, candidates, results;
        seen, candidates, results := Expand(query, nbrs, mask, seen, candidates, results);
        AfterExpand(nodes, query, eps, ef, layer, mask, pending, candidates, results0, results,
                    seen0, seen, expanded);
        expanded := expanded + {c.pos};
        candidates := SortAsc(candidates);
        results := SortAsc(results);
        if |results| > ef {
          results := results[..ef];
        }
      }
      visited := seen;
      SearchDone(nodes, query, eps, ef, layer, mask, results, visited, expanded);
      BeamHitsAreTrue(nodes, query, eps, ef, layer, mask, results, visited, expanded);
    }

    /** Bound one adjacency list: beyond `maxDeg` entries, those farthest from `node` go. */
    method Prune(node: nat, layer: nat, maxDeg: nat)
      requires OnLayer(nodes, node, layer)
      requires forall j :: j in Nbrs(nodes, node, layer) ==> j < |nodes|
      modifies this`nodes
      ensures nodes == SetList(old(nodes), node, layer,
                               Pruned(old(nodes), node, Nbrs(old(nodes), node, layer), maxDeg))
    {
      var neighbors := Nbrs(nodes, node, layer);
      if |neighbors| <= maxDeg {
        assert nodes[node].layers[layer := neighbors] == nodes[node].layers;
        assert SetList(nodes, node, layer, neighbors) == nodes;
        return;
      }
      var target := nodes[node].vector;
      var scored := ScoreAll(nodes, target, neighbors);
      scored := SortAsc(scored);
      scored := Truncate(scored, maxDeg);
      nodes := SetList(nodes, node, layer, Positions(scored));
    }

    /** Link node `x` to the best candidates of layer `l`, both ways, pruning each back-linked node. */
    method WireLayer(x: nat, l: nat, cur: Scored) returns (candidates: seq<Scored>, ghost w: Wiring)
      requires m >= 1 && m0 >= 1 && efConstruction >= 1
      requires WellFormed(nodes, m, m0)
      requires OnLayer(nodes, x, l) && Nbrs(nodes, x, l) == [] && Unmentioned(nodes, x, l)
      requires OnLayer(nodes, cur.pos, l) && cur.pos != x && cur == At(nodes, nodes[x].vector, cur.pos)
      modifies this`nodes
      ensures WellFormed(nodes, m, m0)
      ensures w.start == cur && w.before == old(nodes) && w.after == nodes && w.candidates == candidates
      ensures WiredNearest(w, x, l, efConstruction, if l == 0 then m0 else m)
      ensures SameShape(old(nodes), nodes)
      ensures forall i: nat, k: nat :: OnLayer(old(nodes), i, k) && k != l ==> Nbrs(nodes, i, k) == Nbrs(old(nodes), i, k)
      ensures candidates != [] && OnLayer(nodes, candidates[0].pos, l) && candidates[0].pos != x
      ensures candidates[0] == At(nodes, nodes[x].vector, candidates[0].pos)
    {
      ghost var before := nodes;
      var q := nodes[x].vector;
      ghost var visited, expanded;
      candidates, visited, expanded := SearchLayer(q, [cur], efConstruction, l, None);
      CandidatesAreOlder(before, q, cur, efConstruction, l, candidates, visited, expanded, x, m, m0);
      candidates := Without(candidates, x);
      var maxDeg := MaxDeg(l, m, m0);
      var selected := Positions(Truncate(candidates, maxDeg));
      SelectedAreOlder(before, q, candidates, l, x, maxDeg);
      forall j, i | j in selected && i in Nbrs(nodes, j, l) ensures i < |nodes| {
        assert ListOk(nodes, j, l, maxDeg);
      }
      LinkAll(x, l, selected, maxDeg);
      WiredWellFormed(before, nodes, x, l, selected, m, m0);
      w := Wiring(cur, candidates, visited, expanded, before, nodes);
    }

    /** Link `x` with each selected neighbour, both ways. */
    method LinkAll(x: nat, l: nat, selected: seq<nat>, maxDeg: nat)
      requires OnLayer(nodes, x, l) && Nbrs(nodes, x, l) == []
      requires NoDup(selected) && forall j :: j in selected ==> OnLayer(nodes, j, l) && j != x
      requires forall j, i :: j in selected && i in Nbrs(nodes, j, l) ==> i < |nodes|
      modifies this`nodes
      ensures Wired(old(nodes), nodes, x, l, selected, maxDeg)
    {
      hide Wired, Pruned, SameShape;
      ghost var before := nodes;
      WiredNone(before, x, l, maxDeg);
      for k := 0 to |selected|
        invariant Wired(before, nodes, x, l, selected[..k], maxDeg)
        invariant OnLayer(nodes, x, l) && Nbrs(nodes, x, l) == selected[..k]
      {
        var nb := selected[k];
        assert nb in selected && nb !in selected[..k];
        WiredStep(before, nodes, x, l, selected[..k], nb, maxDeg);
        assert selected[..k + 1] == selected[..k] + [nb];
        nodes := SetList(nodes, x, l, Nbrs(nodes, x, l) + [nb]);
        nodes := SetList(nodes, nb, l, Nbrs(nodes, nb, l) + [x]);
        Prune(nb, l, maxDeg);
      }
      assert selected[..|selected|] == selected;
    }

    /** Wire node `x` into the layers `top`, ..., 0, each search starting at the best candidate of the layer above. */
    method WireAll(x: nat, top: nat, start: Scored) returns (ghost ws: seq<Wiring>)
      requires m >= 1 && m0 >= 1 && efConstruction >= 1
      requires WellFormed(nodes, m, m0) && |nodes| == x + 1 && OnLayer(nodes, x, top)
      requires forall l: nat :: Unmentioned(nodes, x, l)
      requires forall l: nat :: l <= top ==> Nbrs(nodes, x, l) == []
      requires OnLayer(nodes, start.pos, top) && start.pos != x
      requires start == At(nodes, nodes[x].vector, start.pos)
      modifies this`nodes
      ensures WellFormed(nodes, m, m0) && SameShape(old(nodes), nodes)
      ensures |ws| == top + 1 && WiringChain(ws, x, top, m, m0, efConstruction)
      ensures ws[0].before == old(nodes) && ws[0].start == start && ws[top].after == nodes
      ensures Complete(old(nodes), x) && (forall i: nat :: i <= x ==> OnLayer(old(nodes), i, 0)) ==>
                x <= m0 && x <= efConstruction ==> Complete(nodes, x + 1)
    {
      hide WiredNearest, WellFormed, Unmentioned, Complete;
      ws := [];
      var cur := start;
      ghost var before0 := nodes;
      ghost var room := Complete(nodes, x) && (forall i: nat :: i <= x ==> OnLayer(nodes, i, 0))
                        && x <= m0 && x <= efConstruction;
      var l := top + 1;
      while l > 0
        invariant l <= top + 1
        invariant WellFormed(nodes, m, m0) && SameShape(before0, nodes)
        invariant forall i: nat, k: nat :: k < l && OnLayer(before0, i, k) ==> Nbrs(nodes, i, k) == Nbrs(before0, i, k)
        invariant l > 0 ==> OnLayer(nodes, cur.pos, l - 1) && cur.pos != x && cur == At(nodes, nodes[x].vector, cur.pos)
        invariant |ws| == top + 1 - l && WiringChain(ws, x, top, m, m0, efConstruction)
        invariant ws == [] ==> nodes == before0 && cur == start
        invariant ws != [] ==> ws[0].before == before0 && ws[0].start == start && ws[|ws| - 1].after == nodes
        invariant ws != [] ==> ws[|ws| - 1].candidates != [] && cur == ws[|ws| - 1].candidates[0]
        invariant l == 0 && room ==> Complete(nodes, x + 1)
      {
        l := l - 1;
        LowerLayersFresh(before0, nodes, x, l);
        ghost var w;
        var candidates;
        candidates, w := WireLayer(x, l, cur);
        if l == 0 && room {
          BottomStillComplete(before0, w.before, x);
          WiringKeepsComplete(w, x, efConstruction, m, m0);
        }
        cur := candidates[0];
        ChainGrows(ws, w, x, top, m, m0, efConstruction);
        ws := ws + [w];
      }
    }

    /** Link the node just pushed: descend from the entry to its top layer, then wire it into every layer below. */
    method LinkLast(level: nat) returns (ghost path: seq<Scored>, ghost wirings: seq<Wiring>)
      requires m >= 1 && m0 >= 1 && efConstruction >= 1 && |nodes| > 1 && WellFormed(nodes, m, m0)
      requires var x := |nodes| - 1;
               && entry < x && |nodes[entry].layers| == maxLevel + 1 && |nodes[x].layers| == level + 1
               && (forall l: nat :: l <= level ==> Nbrs(nodes, x, l) == [])
               && (forall l: nat :: Unmentioned(nodes, x, l))
               && (forall i: nat :: i <= x ==> OnLayer(nodes, i, 0))
      modifies this`nodes
      ensures WellFormed(nodes, m, m0) && SameShape(old(nodes), nodes)
      ensures Inserted(old(nodes), nodes, |nodes| - 1, entry, maxLevel, level, path, wirings, m, m0, efConstruction)
      ensures Complete(old(nodes), |nodes| - 1) && |nodes| - 1 <= m0 && |nodes| - 1 <= efConstruction ==>
                Complete(nodes, |nodes|)
    {
      hide WiringChain, Descent, Complete, WellFormed, Unmentioned, Inserted;
      var x := |nodes| - 1;
      ghost var start := nodes;
      var cur;
      cur, path := DescendTo(nodes[x].vector, level);
      DescentAvoids(nodes, nodes[x].vector, path, maxLevel, x, |path| - 1, m, m0);
      wirings := WireAll(x, Min(level, maxLevel), cur);
      InsertedFrom(start, nodes, x, entry, maxLevel, level, path, wirings, m, m0, efConstruction);
    }

    /** Insert one node at the given level, wiring it into every layer it shares with the index. */
    method Insert(id: U64, vector: Vector, level: nat)
      returns (r: Result<()>, ghost path: seq<Scored>, ghost wirings: seq<Wiring>)
      requires Valid()
      modifies this
      ensures Valid()
      ensures forall i: nat, l: nat :: OnLayer(nodes, i, l) ==> |Nbrs(nodes, i, l)| <= if l == 0 then m0 else m
      ensures r.Err? <==> old(dim) != 0 && |vector| != old(dim)
      ensures r.Err? ==> unchanged(this)
      ensures r.Ok? ==> dim == |vector| && |nodes| == |old(nodes)| + 1
      ensures r.Ok? ==> maxLevel == (if old(nodes) == [] then level else Max(old(maxLevel), level))
      ensures r.Ok? ==> entry == (if old(nodes) == [] || level > old(maxLevel) then |old(nodes)| else old(entry))
      ensures r.Ok? ==> SameShape(nodes, old(nodes) + [NewNode(id, vector, level)])
      ensures r.Ok? && old(nodes) == [] ==> nodes == [NewNode(id, vector, level)]
      ensures r.Ok? && old(nodes) != [] ==>
                Inserted(old(nodes) + [NewNode(id, vector, level)], nodes, |old(nodes)|, old(entry), old(maxLevel),
                         level, path, wirings, m, m0, efConstruction)
      ensures r.Ok? && Complete(old(nodes), |old(nodes)|) && |old(nodes)| <= m0 && |old(nodes)| <= efConstruction ==>
                Complete(nodes, |nodes|)
    {
      hide WiringChain, Descent, Complete, WellFormed, Unmentioned, Inserted, SameShape;
      path, wirings := [], [];
      if dim == 0 {
        dim := |vector|;
      } else if |vector| != dim {
        DegreesBounded(nodes, m, m0);
        return Err(InvalidArgument), path, wirings;
      }
      r := Ok(());
      ghost var older := nodes;
      var x := |nodes|;
      nodes := nodes + [NewNode(id, vector, level)];
      ghost var start := nodes;
      PushWellFormed(older, id, vector, level, m, m0);
      if Complete(older, x) {
        PushKeepsComplete(older, id, vector, level, x);
      }
      if x == 0 {
        entry := 0;
        maxLevel := level;
        DegreesBounded(nodes, m, m0);
        assert Complete(nodes, 1) by {
          SingleComplete(nodes);
        }
        assert SameShape(nodes, nodes) by {
          SameShapeAsItself(nodes);
        }
        return;
      }

      path, wirings := LinkLast(level);
      KeepsShape(start, nodes, dim, Max(maxLevel, level) + 1);
      DegreesBounded(nodes, m, m0);
      if level > maxLevel {
        maxLevel := level;
        entry := x;
      }
    }

    /** Descend to layer 0 and beam-search it; `hits` are the answers as scored positions. */
    method Search(query: Vector, k: nat, mask: Option<seq<bool>>) returns (found: seq<(real, U64)>, ghost hits: seq<Scored>)
      requires Valid()
      requires mask.Some? ==> |mask.value| == |nodes|
      ensures |found| == |hits| <= k && Ascending(hits) && TrueHits(nodes, query, 0, mask, hits)
      ensures forall i :: 0 <= i < |hits| ==> found[i] == (hits[i].dist, nodes[hits[i].pos].id)
      ensures nodes == [] ==> found == []
      ensures nodes != [] ==> BeamAnswer(nodes, query, entry, maxLevel, Max(efSearch, k), mask, k, hits)
      ensures Complete(nodes, |nodes|) ==> hits == NearestAllowed(nodes, query, mask, k)
      ensures StronglyConnected(nodes) && |Passing(mask, Below(|nodes|))| <= Max(efSearch, k) ==>
                hits == NearestAllowed(nodes, query, mask, k)
    {
      hide Complete, StronglyConnected, BeamResult, BeamAnswer, Descent, WellFormed, NearestAllowed, TrueHits, SortAsc,
           Passing, Below, Ascending, LocalMinimum, SquaredL2;
      hits := [];
      if nodes == [] {
        NothingAllowed(nodes, query, mask, k);
        return [], hits;
      }
      var ef := Max(efSearch, k);
      ghost var path, visited, expanded;
      var cur, results;
      cur, path := DescendTo(query, 0);
      results, visited, expanded := SearchLayer(query, [cur], ef, 0, mask);
      ghost var beam := results;
      AscendingIsFixed(results);
      BeamIsExact(nodes, query, cur, ef, mask, results, visited, expanded, k, m, m0);
      results := SortAsc(results);
      assert results == beam;
      results := Truncate(results, k);
      hits := results;
      AnswerOf(nodes, query, entry, maxLevel, ef, mask, k, path, beam, visited, expanded);
      TrueHitsPrefix(nodes, query, 0, mask, beam, hits);
      HitsExist(nodes, query, mask, hits);
      found := seq(|results|, i requires 0 <= i < |results| && results[i].pos < |nodes| reads this =>
                                (results[i].dist, nodes[results[i].pos].id));
    }

    /** `search_knn`: the ids of what `search` finds; the exact `k` nearest allowed nodes whenever layer 0 is
        complete, or strongly connected with a beam that can hold every allowed node. */
    method SearchKnn(query: Vector, k: nat, mask: Option<seq<bool>>)
      returns (r: Result<seq<nat>>, ghost hits: seq<Scored>)
      requires Valid()
      ensures r.Err? <==> |query| != dim || (mask.Some? && |mask.value| != |nodes|)
      ensures r.Err? ==> r.error == InvalidArgument
      ensures r.Ok? ==> |r.value| == |hits| <= k && Ascending(hits) && TrueHits(nodes, query, 0, mask, hits)
      ensures r.Ok? ==> forall i :: 0 <= i < |hits| ==>
                && r.value[i] == nodes[hits[i].pos].id
                && hits[i].dist == Distance(query, nodes[hits[i].pos].vector)
                && (mask.Some? ==> mask.value[hits[i].pos])
      ensures r.Ok? ==> forall i, j :: 0 <= i < j < |hits| ==>
                hits[i].dist < hits[j].dist || (hits[i].dist == hits[j].dist && hits[i].pos < hits[j].pos)
      ensures r.Ok? && nodes != [] && k > 0 ==>
                BeamAnswer(nodes, query, entry, maxLevel, Max(efSearch, k), mask, k, hits)
      ensures r.Ok? && Complete(nodes, |nodes|) ==> hits == NearestAllowed(nodes, query, mask, k)
      ensures r.Ok? && StronglyConnected(nodes) && |Passing(mask, Below(|nodes|))| <= Max(efSearch, k) ==>
                hits == NearestAllowed(nodes, query, mask, k)
    {
      hide BeamAnswer, Complete, StronglyConnected, WellFormed;
      hits := [];
      if |query| != dim {
        return Err(InvalidArgument), hits;
      }
      if mask.Some? && |mask.value| != |nodes| {
        return Err(InvalidArgument), hits;
      }
      if k == 0 {
        return Ok([]), hits;
      }
      var found;
      found, hits := Search(query, k, mask);
      SpelledOut(nodes, query, mask, hits);
      r := Ok(seq(|found|, i requires 0 <= i < |found| => found[i].1));
    }
  }

  /** Each hit is an allowed node of the layer at its true distance. */
  ghost predicate TrueHits(nodes: seq<Node>, query: Vector, l: nat, mask: Option<seq<bool>>, hits: seq<Scored>)
    requires mask.Some? ==> |mask.value| == |nodes|
  {
    forall i :: 0 <= i < |hits| ==>
      && OnLayer(nodes, hits[i].pos, l)
      && hits[i] == At(nodes, query, hits[i].pos)
      && Allowed(mask, hits[i].pos)
  }

  /** Over coordinates: hits carry the sum over all common coordinates, pass the mask, and come by distance and
      then position. */
  lemma SpelledOut(nodes: seq<Node>, query: Vector, mask: Option<seq<bool>>, hits: seq<Scored>)
    requires (mask.Some? ==> |mask.value| == |nodes|) && TrueHits(nodes, query, 0, mask, hits) && Ascending(hits)
    ensures forall i :: 0 <= i < |hits| ==>
              && hits[i].dist == Distance(query, nodes[hits[i].pos].vector)
              && (mask.Some? ==> mask.value[hits[i].pos])
    ensures forall i, j :: 0 <= i < j < |hits| ==>
              hits[i].dist < hits[j].dist || (hits[i].dist == hits[j].dist && hits[i].pos < hits[j].pos)
  {
    forall i | 0 <= i < |hits|
      ensures hits[i].dist == Distance(query, nodes[hits[i].pos].vector) && (mask.Some? ==> mask.value[hits[i].pos])
    {
      SquaredL2IsSum(query, nodes[hits[i].pos].vector);
    }
  }

  lemma HitsExist(nodes: seq<Node>, query: Vector, mask: Option<seq<bool>>, hits: seq<Scored>)
    requires (mask.Some? ==> |mask.value| == |nodes|) && TrueHits(nodes, query, 0, mask, hits)
    ensures forall i :: 0 <= i < |hits| ==> hits[i].pos < |nodes|
  {
  }

  /** An empty index has no answer to give. */
  lemma NothingAllowed(nodes: seq<Node>, query: Vector, mask: Option<seq<bool>>, k: nat)
    requires nodes == [] && (mask.Some? ==> |mask.value| == |nodes|)
    ensures NearestAllowed(nodes, query, mask, k) == [] && TrueHits(nodes, query, 0, mask, []) && Ascending([])
  {
    assert AllowedScores(nodes, query, mask, 0) == [];
  }

  lemma TrueHitsPrefix(nodes: seq<Node>, query: Vector, l: nat, mask: Option<seq<bool>>, all: seq<Scored>,
                       hits: seq<Scored>)
    requires (mask.Some? ==> |mask.value| == |nodes|) && TrueHits(nodes, query, l, mask, all)
    requires hits <= all && Ascending(all)
    ensures TrueHits(nodes, query, l, mask, hits) && Ascending(hits)
  {
  }

  lemma BeamHitsAreTrue(nodes: seq<Node>, query: Vector, eps: seq<Scored>, ef: nat, l: nat, mask: Option<seq<bool>>,
                        results: seq<Scored>, visited: set<nat>, expanded: set<nat>)
    requires mask.Some? ==> |mask.value| == |nodes|
    requires BeamResult(nodes, query, eps, ef, l, mask, results, visited, expanded)
    ensures Ascending(results) && |results| <= ef && TrueHits(nodes, query, l, mask, results)
  {
    assert forall i :: 0 <= i < |results| ==> results[i] in results;
  }

  /** How a search answers: greedy descents from the entry node to layer 0, then the first `k` results of a beam
      search of width `ef` started where the descent ended. */
  ghost predicate BeamAnswer(nodes: seq<Node>, query: Vector, entry: nat, maxLevel: nat, ef: nat,
                             mask: Option<seq<bool>>, k: nat, hits: seq<Scored>)
  {
    entry < |nodes|
    && exists path, results, visited, expanded ::
         && Descent(nodes, query, path, maxLevel)
         && |path| == 1 + maxLevel && path[0] == At(nodes, query, entry)
         && BeamResult(nodes, query, [path[maxLevel]], ef, 0, mask, results, visited, expanded)
         && hits == Truncate(results, k)
  }

  /** There is only one such answer. */
  lemma AnswerIsDetermined(nodes: seq<Node>, query: Vector, entry: nat, maxLevel: nat, ef: nat, mask: Option<seq<bool>>,
                           k: nat, a: seq<Scored>, b: seq<Scored>)
    requires BeamAnswer(nodes, query, entry, maxLevel, ef, mask, k, a)
    requires BeamAnswer(nodes, query, entry, maxLevel, ef, mask, k, b)
    ensures a == b
  {
    hide BeamResult;
    var p, r1, v1, e1 :| && Descent(nodes, query, p, maxLevel) && |p| == 1 + maxLevel && p[0] == At(nodes, query, entry)
                         && BeamResult(nodes, query, [p[maxLevel]], ef, 0, mask, r1, v1, e1) && a == Truncate(r1, k);
    var q, r2, v2, e2 :| && Descent(nodes, query, q, maxLevel) && |q| == 1 + maxLevel && q[0] == At(nodes, query, entry)
                         && BeamResult(nodes, query, [q[maxLevel]], ef, 0, mask, r2, v2, e2) && b == Truncate(r2, k);
    PathIsDetermined(nodes, query, maxLevel, p, q, 1 + maxLevel);
    BeamIsDetermined(nodes, query, [p[maxLevel]], ef, 0, mask, r1, v1, e1, r2, v2, e2);
  }

  lemma AnswerOf(nodes: seq<Node>, query: Vector, entry: nat, maxLevel: nat, ef: nat, mask: Option<seq<bool>>, k: nat,
                 path: seq<Scored>, results: seq<Scored>, visited: set<nat>, expanded: set<nat>)
    requires entry < |nodes| && Descent(nodes, query, path, maxLevel)
    requires |path| == 1 + maxLevel && path[0] == At(nodes, query, entry)
    requires BeamResult(nodes, query, [path[maxLevel]], ef, 0, mask, results, visited, expanded)
    ensures BeamAnswer(nodes, query, entry, maxLevel, ef, mask, k, Truncate(results, k))
  {
  }

  lemma DescentGrows(nodes: seq<Node>, query: Vector, path: seq<Scored>, top: nat, next: Scored)
    requires Descent(nodes, query, path, top) && |path| <= top
    requires LocalMinimum(nodes, query, path[|path| - 1], next, top + 1 - |path|)
    ensures Descent(nodes, query, path + [next], top)
    ensures OnLayer(nodes, next.pos, top + 1 - |path|) && next == At(nodes, query, next.pos)
  {
    assert OnLayer(nodes, next.pos, top + 1 - |path|) && next == At(nodes, query, next.pos);
    hide LocalMinimum;
    var longer := path + [next];
    forall k | 0 <= k < |longer| - 1 ensures LocalMinimum(nodes, query, longer[k], longer[k + 1], top - k) {
      assert longer[k] == path[k] && (k < |path| - 1 ==> longer[k + 1] == path[k + 1]);
    }
  }

  lemma WalkGrows(nodes: seq<Node>, query: Vector, l: nat, walk: seq<nat>, next: nat)
    requires IsGreedyWalk(nodes, query, l, walk) && GreedyStep(nodes, query, l, walk[|walk| - 1], next)
    ensures IsGreedyWalk(nodes, query, l, walk + [next])
  {
    hide GreedyStep;
    var longer := walk + [next];
    forall j, k | 0 <= j && k == j + 1 < |longer| ensures GreedyStep(nodes, query, l, longer[j], longer[k]) {
      assert longer[j] == walk[j] && (k < |walk| ==> longer[k] == walk[k]);
    }
  }

  /** A descent that starts at another node never reaches a node no list mentions. */
  lemma {:induction false} DescentAvoids(nodes: seq<Node>, query: Vector, path: seq<Scored>, top: nat, x: nat,
                                         n: nat, m: nat, m0: nat)
    requires Descent(nodes, query, path, top) && n < |path| && path[0].pos < |nodes| && path[0].pos != x
    requires WellFormed(nodes, m, m0) && forall l: nat :: Unmentioned(nodes, x, l)
    ensures path[n].pos < |nodes| && path[n].pos != x
  {
    if n > 0 {
      DescentAvoids(nodes, query, path, top, x, n - 1, m, m0);
      var l := top - (n - 1);
      assert LocalMinimum(nodes, query, path[n - 1], path[n - 1 + 1], l);
      hide WellFormed, Unmentioned, Descent, ClosedSet, LocalMinimum;
      OthersClosed(nodes, x, l, m, m0);
      MinimumAvoids(nodes, query, path[n - 1], path[n], l, x);
    }
  }

  lemma MinimumAvoids(nodes: seq<Node>, query: Vector, start: Scored, end: Scored, l: nat, x: nat)
    requires LocalMinimum(nodes, query, start, end, l) && ClosedSet(nodes, l, Below(|nodes|) - {x})
    requires start.pos < |nodes| && start.pos != x
    ensures end.pos < |nodes| && end.pos != x
  {
    hide ClosedSet;
    assert start.pos in Below(|nodes|) - {x};
  }

  lemma OthersClosed(nodes: seq<Node>, x: nat, l: nat, m: nat, m0: nat)
    requires WellFormed(nodes, m, m0) && Unmentioned(nodes, x, l)
    ensures ClosedSet(nodes, l, Below(|nodes|) - {x})
  {
    var older := Below(|nodes|) - {x};
    forall i, j | i in older && OnLayer(nodes, i, l) && j in Nbrs(nodes, i, l) ensures j in older {
      assert ListOk(nodes, i, l, MaxDeg(l, m, m0));
    }
  }

  lemma NothingYet(ids: seq<U64>, vectors: seq<Vector>, levels: seq<nat>)
    ensures Complete([], 0) && Holds([], ids, vectors, levels, 0) && DimsAgree(vectors, 0)
  {
  }

  lemma SameShapeAsItself(nodes: seq<Node>)
    ensures SameShape(nodes, nodes)
  {
  }

  lemma SingleComplete(nodes: seq<Node>)
    ensures Complete(nodes, 1)
  {
  }

  lemma LowerLayersFresh(before: seq<Node>, nodes: seq<Node>, x: nat, l: nat)
    requires SameShape(before, nodes) && OnLayer(before, x, l)
    requires forall i: nat :: OnLayer(before, i, l) ==> Nbrs(nodes, i, l) == Nbrs(before, i, l)
    requires Unmentioned(before, x, l) && Nbrs(before, x, l) == []
    ensures OnLayer(nodes, x, l) && Unmentioned(nodes, x, l) && Nbrs(nodes, x, l) == []
  {
    forall i: nat | OnLayer(nodes, i, l) ensures x !in Nbrs(nodes, i, l) {
      assert OnLayer(before, i, l);
    }
  }

  lemma BottomStillComplete(before: seq<Node>, nodes: seq<Node>, x: nat)
    requires SameShape(before, nodes) && Complete(before, x)
    requires forall i: nat :: OnLayer(before, i, 0) ==> Nbrs(nodes, i, 0) == Nbrs(before, i, 0)
    requires forall i: nat :: i <= x ==> OnLayer(before, i, 0)
    ensures Complete(nodes, x) && forall i: nat :: i <= x ==> OnLayer(nodes, i, 0)
  {
    forall i: nat | i <= x ensures OnLayer(nodes, i, 0) {
      assert OnLayer(before, i, 0);
    }
    forall i: nat, j: nat | i < x && j < x && i != j ensures Linked(nodes, i, j) {
      assert Linked(before, i, j);
    }
  }

  lemma InsertedFrom(start: seq<Node>, after: seq<Node>, x: nat, entry: nat, maxLevel: nat, level: nat,
                     path: seq<Scored>, ws: seq<Wiring>, m: nat, m0: nat, efConstruction: nat)
    requires x < |start| && entry < |start| && path != [] && path[0] == At(start, start[x].vector, entry)
    requires |path| == 1 + maxLevel - Min(level, maxLevel) && Descent(start, start[x].vector, path, maxLevel)
    requires |ws| == Min(level, maxLevel) + 1 && WiringChain(ws, x, Min(level, maxLevel), m, m0, efConstruction)
    requires ws[0].before == start && ws[0].start == path[|path| - 1] && ws[|ws| - 1].after == after
    ensures Inserted(start, after, x, entry, maxLevel, level, path, ws, m, m0, efConstruction)
  {
    hide WiringChain, Descent;
  }

  lemma DegreesBounded(nodes: seq<Node>, m: nat, m0: nat)
    requires WellFormed(nodes, m, m0)
    ensures forall i: nat, l: nat :: OnLayer(nodes, i, l) ==> |Nbrs(nodes, i, l)| <= if l == 0 then m0 else m
  {
    forall i: nat, l: nat | OnLayer(nodes, i, l) ensures |Nbrs(nodes, i, l)| <= if l == 0 then m0 else m {
      assert ListOk(nodes, i, l, MaxDeg(l, m, m0));
    }
  }

  lemma KeepsShape(start: seq<Node>, after: seq<Node>, dim: nat, height: nat)
    requires SameShape(start, after)
    requires forall i :: 0 <= i < |start| ==> |start[i].vector| == dim || start[i].vector == []
    requires forall i :: 0 <= i < |start| ==> 1 <= |start[i].layers| <= height
    ensures |after| == |start| && SameShape(after, start)
    ensures forall i :: 0 <= i < |after| ==> |after[i].layers| == |start[i].layers|
    ensures forall i :: 0 <= i < |after| ==> |after[i].vector| == dim || after[i].vector == []
    ensures forall i :: 0 <= i < |after| ==> 1 <= |after[i].layers| <= height
  {
  }

  lemma ChainGrows(ws: seq<Wiring>, w: Wiring, x: nat, top: nat, m: nat, m0: nat, efConstruction: nat)
    requires WiringChain(ws, x, top, m, m0, efConstruction) && |ws| <= top
    requires WiredNearest(w, x, top - |ws|, efConstruction, if |ws| == top then m0 else m)
    requires ws != [] ==> Follows(ws[|ws| - 1], w)
    ensures WiringChain(ws + [w], x, top, m, m0, efConstruction)
  {
    hide WiredNearest, Follows;
    var longer := ws + [w];
    forall k | 0 <= k < |longer| ensures WiredNearest(longer[k], x, top - k, efConstruction, if k == top then m0 else m) {
      assert longer[k] == if k < |ws| then ws[k] else w;
    }
    forall j, k | 0 <= j && k == j + 1 < |longer| ensures Follows(longer[j], longer[k]) {
      assert longer[j] == ws[j] && (k < |ws| ==> longer[k] == ws[k]);
    }
  }

  function NewNode(id: U64, vector: Vector, level: nat): (n: Node)
    ensures |n.layers| == level + 1 && forall l :: 0 <= l <= level ==> n.layers[l] == []
  {
    Node(id, vector, seq(level + 1, _ => []))
  }

  /** A freshly pushed node has empty lists and no list mentions it. */
  lemma PushWellFormed(nodes: seq<Node>, id: U64, vector: Vector, level: nat, m: nat, m0: nat)
    requires WellFormed(nodes, m, m0)
    ensures var pushed := nodes + [NewNode(id, vector, level)];
            && WellFormed(pushed, m, m0)
            && (forall l: nat :: Unmentioned(pushed, |nodes|, l))
  {
    var pushed := nodes + [NewNode(id, vector, level)];
    forall i: nat, l: nat | OnLayer(pushed, i, l)
      ensures ListOk(pushed, i, l, MaxDeg(l, m, m0)) && |nodes| !in Nbrs(pushed, i, l)
    {
      if i < |nodes| {
        assert OnLayer(nodes, i, l) && ListOk(nodes, i, l, MaxDeg(l, m, m0));
        assert Nbrs(pushed, i, l) == Nbrs(nodes, i, l);
        forall j | j in Nbrs(nodes, i, l) ensures OnLayer(pushed, j, l) && j != |nodes| {
          assert OnLayer(nodes, j, l);
        }
      }
    }
  }

  lemma PushKeepsComplete(nodes: seq<Node>, id: U64, vector: Vector, level: nat, n: nat)
    requires n <= |nodes| && Complete(nodes, n)
    ensures Complete(nodes + [NewNode(id, vector, level)], n)
  {
    forall i: nat, j: nat | i < n && j < n && i != j ensures Linked(nodes + [NewNode(id, vector, level)], i, j) {
      assert Linked(nodes, i, j);
    }
  }

  /** Build an index by inserting each vector in order, at the given levels. */
  method Build(ids: seq<U64>, vectors: seq<Vector>, levels: seq<nat>,
               m: nat, efConstruction: nat, efSearch: nat) returns (r: Result<()>, index: HnswIndex)
    requires |levels| == |vectors|
    ensures index.Valid() && index.m == Max(m, 1) && index.m0 == Max(2 * m, 1)
    ensures index.efConstruction == Max(efConstruction, 1) && index.efSearch == Max(efSearch, 1)
    ensures r.Err? <==> |ids| != |vectors| || !DimsAgree(vectors, |vectors|)
    ensures r.Ok? ==> |index.nodes| == |ids| && index.dim == DimAfter(vectors, |vectors|)
    ensures r.Ok? ==> Holds(index.nodes, ids, vectors, levels, |ids|)
    ensures r.Ok? && |ids| <= Max(2 * m, 1) + 1 && |ids| <= Max(efConstruction, 1) + 1 ==> Complete(index.nodes, |ids|)
  {
    hide WellFormed, Complete, Inserted, Holds, SameShape, DimsAgree;
    index := new HnswIndex(m, efConstruction, efSearch);
    if |ids| != |vectors| {
      return Err(InvalidArgument), index;
    }
    NothingYet(ids, vectors, levels);
    for k := 0 to |ids|
      invariant index.Valid() && fresh(index) && |index.nodes| == k
      invariant index.m == Max(m, 1) && index.m0 == Max(2 * m, 1)
      invariant index.efConstruction == Max(efConstruction, 1) && index.efSearch == Max(efSearch, 1)
      invariant index.dim == DimAfter(vectors, k)
      invariant DimsAgree(vectors, k)
      invariant Holds(index.nodes, ids, vectors, levels, k)
      invariant k <= Max(2 * m, 1) + 1 && k <= Max(efConstruction, 1) + 1 ==> Complete(index.nodes, k)
    {
      ghost var path, wirings;
      ghost var before := index.nodes;
      r, path, wirings := index.Insert(ids[k], vectors[k], levels[k]);
      if r.Err? {
        DimClash(vectors, k);
        return;
      }
      DimsMore(vectors, k);
      HoldsMore(before, index.nodes, ids, vectors, levels, k);
    }
    r := Ok(());
  }

  /** The first `n` nodes carry the given ids, vectors and levels, in order. */
  ghost predicate Holds(nodes: seq<Node>, ids: seq<U64>, vectors: seq<Vector>, levels: seq<nat>, n: nat) {
    && |nodes| == n && n <= |ids| && n <= |vectors| && n <= |levels|
    && forall i :: 0 <= i < n ==>
         nodes[i].id == ids[i] && nodes[i].vector == vectors[i] && |nodes[i].layers| == levels[i] + 1
  }

  lemma HoldsMore(before: seq<Node>, after: seq<Node>, ids: seq<U64>, vectors: seq<Vector>, levels: seq<nat>, n: nat)
    requires n < |ids| && n < |vectors| && n < |levels| && Holds(before, ids, vectors, levels, n)
    requires SameShape(after, before + [NewNode(ids[n], vectors[n], levels[n])])
    ensures Holds(after, ids, vectors, levels, n + 1)
  {
  }

  /** The dimension of the index after the first `n` insertions: that of the first non-empty vector. */
  function DimAfter(vectors: seq<Vector>, n: nat): (d: nat)
    requires n <= |vectors|
  {
    if n == 0 then 0
    else if DimAfter(vectors, n - 1) == 0 then |vectors[n - 1]|
    else DimAfter(vectors, n - 1)
  }

  /** Each of the first `n` vectors has the dimension the index had when it was inserted. */
  ghost predicate DimsAgree(vectors: seq<Vector>, n: nat)
    requires n <= |vectors|
  {
    forall i :: 0 <= i < n ==> DimAfter(vectors, i) == 0 || |vectors[i]| == DimAfter(vectors, i)
  }

  lemma DimsMore(vectors: seq<Vector>, k: nat)
    requires k < |vectors| && DimsAgree(vectors, k)
    requires DimAfter(vectors, k) == 0 || |vectors[k]| == DimAfter(vectors, k)
    ensures DimsAgree(vectors, k + 1)
    ensures DimAfter(vectors, k + 1) == |vectors[k]|
  {
  }

  lemma DimClash(vectors: seq<Vector>, k: nat)
    requires k < |vectors| && DimAfter(vectors, k) != 0 && |vectors[k]| != DimAfter(vectors, k)
    ensures !DimsAgree(vectors, |vectors|)
  {
  }

  /** From every node, layer 0 leads to every other. */
  ghost predicate StronglyConnected(nodes: seq<Node>) {
    forall C :: ClosedSet(nodes, 0, C) && (exists p :: p in C && p < |nodes|) ==> Below(|nodes|) <= C
  }

  /** All allowed nodes, scored, in position order. */
  ghost function AllowedScores(nodes: seq<Node>, query: Vector, mask: Option<seq<bool>>, n: nat): (s: seq<Scored>)
    requires n <= |nodes| && (mask.Some? ==> n <= |mask.value|)
  {
    if n == 0 then []
    else AllowedScores(nodes, query, mask, n - 1) + if Allowed(mask, n - 1) then [At(nodes, query, n - 1)] else []
  }

  /** The exact answer: the `k` nearest allowed nodes, by distance and then position. */
  ghost function NearestAllowed(nodes: seq<Node>, query: Vector, mask: Option<seq<bool>>, k: nat): (s: seq<Scored>)
    requires mask.Some? ==> |mask.value| == |nodes|
  {
    Truncate(SortAsc(AllowedScores(nodes, query, mask, |nodes|)), k)
  }

  /** What exactness means, over coordinates: the hits are allowed nodes in order of distance and then position, and
      any other allowed node comes after all of `k` of them. */
  lemma NearestAllowedIs(nodes: seq<Node>, query: Vector, mask: Option<seq<bool>>, k: nat)
    requires mask.Some? ==> |mask.value| == |nodes|
    ensures var hits := NearestAllowed(nodes, query, mask, k);
            && |hits| <= k
            && (forall i :: 0 <= i < |hits| ==>
                  && hits[i].pos < |nodes|
                  && hits[i].dist == Distance(query, nodes[hits[i].pos].vector)
                  && (mask.Some? ==> mask.value[hits[i].pos]))
            && (forall i, j :: 0 <= i < j < |hits| ==>
                  hits[i].dist < hits[j].dist || (hits[i].dist == hits[j].dist && hits[i].pos < hits[j].pos))
            && (forall p: nat :: p < |nodes| && (mask.Some? ==> mask.value[p]) && p !in Positions(hits) ==>
                  |hits| == k && forall i :: 0 <= i < |hits| ==>
                    var d := Distance(query, nodes[p].vector);
                    hits[i].dist < d || (hits[i].dist == d && hits[i].pos < p))
  {
    var sorted := SortAsc(AllowedScores(nodes, query, mask, |nodes|));
    SortedAllowed(nodes, query, mask);
    var hits := Truncate(sorted, k);
    hide SortAsc, AllowedScores, SquaredL2, Distance, At;
    assert forall i :: 0 <= i < |hits| ==> hits[i] == sorted[i];
    forall p: nat | p < |nodes| && (mask.Some? ==> mask.value[p]) && p !in Positions(hits)
      ensures |hits| == k && forall i :: 0 <= i < |hits| ==> Less(hits[i], Scored(Distance(query, nodes[p].vector), p))
    {
      var j := PlaceOf(sorted, hits, p);
      SquaredL2IsSum(query, nodes[p].vector);
    }
  }

  /** A position that was cut off stands behind all that were kept. */
  lemma PlaceOf(sorted: seq<Scored>, hits: seq<Scored>, p: nat) returns (j: nat)
    requires p in Positions(sorted) && p !in Positions(hits) && hits <= sorted
    ensures |hits| <= j < |sorted| && sorted[j].pos == p
  {
    j :| 0 <= j < |sorted| && Positions(sorted)[j] == p;
    if j < |hits| {
      InPositions(hits, j);
      assert false;
    }
  }

  lemma InPositions(s: seq<Scored>, j: nat)
    requires j < |s|
    ensures s[j].pos in Positions(s)
  {
    assert Positions(s)[j] == s[j].pos;
  }

  /** The allowed nodes, sorted. */
  lemma SortedAllowed(nodes: seq<Node>, query: Vector, mask: Option<seq<bool>>)
    requires mask.Some? ==> |mask.value| == |nodes|
    ensures var sorted := SortAsc(AllowedScores(nodes, query, mask, |nodes|));
            && Ascending(sorted)
            && (forall i :: 0 <= i < |sorted| ==>
                  && sorted[i].pos < |nodes|
                  && sorted[i].dist == Distance(query, nodes[sorted[i].pos].vector)
                  && (mask.Some? ==> mask.value[sorted[i].pos]))
            && (forall p: nat :: p < |nodes| && (mask.Some? ==> mask.value[p]) ==> p in Positions(sorted))
  {
    var n := |nodes|;
    var all := AllowedScores(nodes, query, mask, n);
    var S := ScoredSet(nodes, query, Passing(mask, Below(n)));
    AllowedScoresEnumerate(nodes, query, mask, n);
    SortAscEnumerates(all, S);
    var sorted := SortAsc(all);
    hide SortAsc, AllowedScores, SquaredL2, Distance;
    forall i | 0 <= i < |sorted|
      ensures sorted[i].pos < n && sorted[i].dist == Distance(query, nodes[sorted[i].pos].vector)
      ensures mask.Some? ==> mask.value[sorted[i].pos]
    {
      assert sorted[i] in S;
      SquaredL2IsSum(query, nodes[sorted[i].pos].vector);
    }
    forall p: nat | p < n && (mask.Some? ==> mask.value[p]) ensures p in Positions(sorted) {
      assert At(nodes, query, p) in S;
      var j :| 0 <= j < |sorted| && sorted[j] == At(nodes, query, p);
      InPositions(sorted, j);
    }
  }

  lemma {:induction false} AllowedScoresEnumerate(nodes: seq<Node>, query: Vector, mask: Option<seq<bool>>, n: nat)
    requires n <= |nodes| && (mask.Some? ==> n <= |mask.value|)
    ensures Enumerates(AllowedScores(nodes, query, mask, n), ScoredSet(nodes, query, Passing(mask, Below(n))))
  {
    if n > 0 {
      AllowedScoresEnumerate(nodes, query, mask, n - 1);
      var r := AllowedScores(nodes, query, mask, n - 1);
      Visit(nodes, query, mask, Below(n - 1), r, n - 1);
      assert Below(n) == Below(n - 1) + {n - 1} && r + [] == r;
      hide Enumerates, ScoredSet, Passing, Below, Allowed;
    }
  }

  lemma {:induction false} AscendingIsFixed(s: seq<Scored>)
    requires Ascending(s)
    ensures SortAsc(s) == s
  {
    if s != [] {
      AscendingIsFixed(s[1..]);
      assert s[1..] == [] || Less(s[0], s[1..][0]);
    }
  }

  /** On a complete bottom layer, or on a strongly connected one with a wide enough beam, the beam holds the
      exact answer. */
  lemma BeamIsExact(nodes: seq<Node>, query: Vector, cur: Scored, ef: nat, mask: Option<seq<bool>>,
                    results: seq<Scored>, visited: set<nat>, expanded: set<nat>, k: nat, m: nat, m0: nat)
    requires BeamResult(nodes, query, [cur], ef, 0, mask, results, visited, expanded) && WellFormed(nodes, m, m0)
    requires cur.pos < |nodes| && k <= ef && (mask.Some? ==> |mask.value| == |nodes|)
    ensures Complete(nodes, |nodes|) || (StronglyConnected(nodes) && |Passing(mask, Below(|nodes|))| <= ef) ==>
              Truncate(results, k) == NearestAllowed(nodes, query, mask, k)
  {
    hide BeamResult, Complete, StronglyConnected, WellFormed, AllowedScores, ScoredSet, Passing, TopOf, Enumerates, SortAsc;
    var n := |nodes|;
    var all := AllowedScores(nodes, query, mask, n);
    AllowedScoresEnumerate(nodes, query, mask, n);
    var S := ScoredSet(nodes, query, Passing(mask, Below(n)));
    if Complete(nodes, n) {
      CompleteFindsAll(nodes, query, cur, ef, mask, results, visited, expanded);
      TopIsPrefix(results, S, ef, all);
    } else if StronglyConnected(nodes) && |Passing(mask, Below(n))| <= ef {
      WideEnough(nodes, query, cur, ef, mask, results, visited, expanded, m, m0);
      TopIsPrefix(results, S, ef, all);
    }
  }

  lemma CompleteFindsAll(nodes: seq<Node>, query: Vector, cur: Scored, ef: nat, mask: Option<seq<bool>>,
                         results: seq<Scored>, visited: set<nat>, expanded: set<nat>)
    requires BeamResult(nodes, query, [cur], ef, 0, mask, results, visited, expanded)
    requires cur.pos < |nodes| && Complete(nodes, |nodes|)
    ensures TopOf(results, ScoredSet(nodes, query, Passing(mask, Below(|nodes|))), ef)
  {
    var n := |nodes|;
    assert cur in [cur];
    assert SortAsc([cur]) == [cur] by {
      assert [cur][1..] == [];
    }
    forall j: nat | j < n ensures j in visited {
      if j != cur.pos {
        assert Linked(nodes, cur.pos, j);
      }
    }
    assert visited == Below(n);
  }

  lemma BottomClosed(nodes: seq<Node>, m: nat, m0: nat)
    requires WellFormed(nodes, m, m0)
    ensures ClosedSet(nodes, 0, Below(|nodes|))
  {
    forall i, j | i in Below(|nodes|) && OnLayer(nodes, i, 0) && j in Nbrs(nodes, i, 0) ensures j in Below(|nodes|) {
      assert ListOk(nodes, i, 0, MaxDeg(0, m, m0));
    }
  }

  lemma WideEnough(nodes: seq<Node>, query: Vector, cur: Scored, ef: nat, mask: Option<seq<bool>>,
                   results: seq<Scored>, visited: set<nat>, expanded: set<nat>, m: nat, m0: nat)
    requires WellFormed(nodes, m, m0)
    requires BeamResult(nodes, query, [cur], ef, 0, mask, results, visited, expanded) && cur.pos < |nodes|
    requires StronglyConnected(nodes) && |Passing(mask, Below(|nodes|))| <= ef
    ensures TopOf(results, ScoredSet(nodes, query, Passing(mask, Below(|nodes|))), ef)
  {
    AllReachable(nodes, cur);
    BottomClosed(nodes, m, m0);
    assert cur.pos in Below(|nodes|);
    hide BeamResult, StronglyConnected, WellFormed, OnlyReachable, ClosedSet, TopOf, Ascending, ScoredSet, Passing, Below;
    WideBeamFindsAll(nodes, query, [cur], ef, 0, mask, results, visited, expanded, Below(|nodes|));
    AllIsTop(results, ScoredSet(nodes, query, Passing(mask, Below(|nodes|))), ef);
  }

  lemma AllIsTop(r: seq<Scored>, S: set<Scored>, ef: nat)
    requires Ascending(r) && |r| <= ef && forall x :: x in r <==> x in S
    ensures TopOf(r, S, ef)
  {
  }

  lemma AllReachable(nodes: seq<Node>, cur: Scored)
    requires StronglyConnected(nodes) && cur.pos < |nodes|
    ensures OnlyReachable(nodes, 0, [cur], Below(|nodes|))
  {
    forall C | ClosedSet(nodes, 0, C) && (forall e :: e in [cur] ==> e.pos in C) ensures Below(|nodes|) <= C {
      assert cur in [cur];
    }
  }

  /** The new node cannot leak into its own candidates: no list of the layer mentions it yet. */
  lemma CandidatesAreOlder(nodes: seq<Node>, query: Vector, cur: Scored, ef: nat, l: nat, candidates: seq<Scored>,
                           visited: set<nat>, expanded: set<nat>, x: nat, m: nat, m0: nat)
    requires BeamResult(nodes, query, [cur], ef, l, None, candidates, visited, expanded) && ef >= 1
    requires WellFormed(nodes, m, m0) && Unmentioned(nodes, x, l)
    requires OnLayer(nodes, cur.pos, l) && cur.pos != x && cur == At(nodes, query, cur.pos)
    ensures x !in visited && cur.pos in visited
    ensures forall c :: c in candidates ==> c.pos != x && OnLayer(nodes, c.pos, l) && c == At(nodes, query, c.pos)
    ensures candidates != [] && NoDup(candidates)
  {
    var older := Below(|nodes|) - {x};
    OthersClosed(nodes, x, l, m, m0);
    assert visited <= older;
    assert cur in [cur];
    assert At(nodes, query, cur.pos) in ScoredSet(nodes, query, Passing(None, visited));
  }

  lemma SelectedAreOlder(nodes: seq<Node>, query: Vector, candidates: seq<Scored>, l: nat, x: nat, maxDeg: nat)
    requires NoDup(candidates)
    requires forall c :: c in candidates ==> c.pos != x && OnLayer(nodes, c.pos, l) && c == At(nodes, query, c.pos)
    ensures var s := Positions(Truncate(candidates, maxDeg));
            && NoDup(s) && |s| <= maxDeg
            && forall j :: j in s ==> OnLayer(nodes, j, l) && j != x
  {
    var t := Truncate(candidates, maxDeg);
    assert forall c :: c in t ==> c in candidates;
    PositionsNoDup(nodes, query, t);
    forall j | j in Positions(t) ensures OnLayer(nodes, j, l) && j != x {
      var k :| 0 <= k < |t| && Positions(t)[k] == j;
      assert t[k] in candidates;
    }
  }

  /** The invariant of the main loop: the results are exactly the best `ef` allowed nodes visited so far, and
      the candidates are exactly the visited nodes not yet expanded. */
  ghost predicate BeamState(nodes: seq<Node>, query: Vector, eps: seq<Scored>, ef: nat, l: nat,
                            mask: Option<seq<bool>>, candidates: seq<Scored>, results: seq<Scored>,
                            seen: set<nat>, expanded: set<nat>)
  {
    && (forall p :: p in seen ==> OnLayer(nodes, p, l))
    && (forall e :: e in eps ==> e.pos in seen)
    && expanded <= seen
    && Explored(nodes, l, expanded, seen)
    && OnlyReachable(nodes, l, eps, seen)
    && Ascending(candidates) && Enumerates(candidates, ScoredSet(nodes, query, seen - expanded))
    && TopOf(results, ScoredSet(nodes, query, Passing(mask, seen)), ef)
    && Course(nodes, query, eps, ef, l, mask, seen, expanded)
    && (expanded == {} ==> candidates == SortAsc(eps) && forall x :: x in results ==> x in eps)
    && |SortAsc(eps)| == |eps|
    && (expanded != {} && eps != [] ==> SortAsc(eps)[0].pos in expanded)
  }

  /** Visiting one more node extends the list of allowed visited nodes by it when the mask lets it through. */
  lemma Visit(nodes: seq<Node>, query: Vector, mask: Option<seq<bool>>, P: set<nat>, r: seq<Scored>, p: nat)
    requires p !in P && p < |nodes| && (mask.Some? ==> p < |mask.value|)
    requires Enumerates(r, ScoredSet(nodes, query, Passing(mask, P)))
    ensures Enumerates(if Allowed(mask, p) then r + [At(nodes, query, p)] else r,
                       ScoredSet(nodes, query, Passing(mask, P + {p})))
  {
    var S := ScoredSet(nodes, query, Passing(mask, P));
    if Allowed(mask, p) {
      assert Passing(mask, P + {p}) == Passing(mask, P) + {p};
      AppendEnumerates(r, S, At(nodes, query, p));
      assert ScoredSet(nodes, query, Passing(mask, P) + {p}) == S + {At(nodes, query, p)};
    } else {
      assert Passing(mask, P + {p}) == Passing(mask, P);
    }
  }

  lemma AppendEnumerates(s: seq<Scored>, S: set<Scored>, x: Scored)
    requires Enumerates(s, S) && x !in S
    ensures Enumerates(s + [x], S + {x})
  {
    var u := s + [x];
    forall i, j | 0 <= i < j < |u| ensures u[i] != u[j] {
      assert u[i] == s[i] && s[i] in s;
    }
  }

  lemma StartOfSearch(nodes: seq<Node>, query: Vector, l: nat, eps: seq<Scored>, ef: nat,
                      mask: Option<seq<bool>>, seen: set<nat>, results: seq<Scored>)
    requires EntryPoints(nodes, query, l, eps) && |eps| <= ef
    requires seen == set e | e in eps :: e.pos
    requires Enumerates(results, ScoredSet(nodes, query, Passing(mask, seen))) && |results| <= |eps|
    requires forall x :: x in results ==> x in eps
    ensures BeamState(nodes, query, eps, ef, l, mask, SortAsc(eps), SortAsc(results), seen, {})
  {
    CourseStarts(nodes, query, eps, ef, l, mask, seen);
    hide Course;
    assert Enumerates(eps, ScoredSet(nodes, query, seen));
    assert seen - {} == seen;
    SortAscEnumerates(eps, ScoredSet(nodes, query, seen));
    SortAscEnumerates(results, ScoredSet(nodes, query, Passing(mask, seen)));
    SortAscSorts(results);
  }

  lemma FirstCandidate(nodes: seq<Node>, query: Vector, eps: seq<Scored>, ef: nat, l: nat,
                       mask: Option<seq<bool>>, candidates: seq<Scored>, results: seq<Scored>,
                       seen: set<nat>, expanded: set<nat>)
    requires BeamState(nodes, query, eps, ef, l, mask, candidates, results, seen, expanded) && candidates != []
    ensures var c := candidates[0];
            c.pos in seen && c.pos !in expanded && OnLayer(nodes, c.pos, l) && c == At(nodes, query, c.pos)
  {
    assert candidates[0] in candidates;
  }

  lemma FirstIsLeast(s: seq<Scored>, x: Scored)
    requires Ascending(s) && x in s
    ensures s[0].dist <= x.dist
  {
  }

  /** On early exit, whatever is still unexpanded lies strictly beyond every result. */
  lemma StopEarly(nodes: seq<Node>, query: Vector, eps: seq<Scored>, ef: nat, l: nat,
                  mask: Option<seq<bool>>, pending: seq<Scored>, results: seq<Scored>,
                  seen: set<nat>, expanded: set<nat>)
    requires BeamState(nodes, query, eps, ef, l, mask, pending, results, seen, expanded)
    requires pending != [] && 1 <= ef <= |results| && pending[0].dist > results[|results| - 1].dist
    ensures BeamResult(nodes, query, eps, ef, l, mask, results, seen, expanded)
  {
    hide Course, Stops;
    StopsHere(nodes, query, ef, mask, pending, results, seen, expanded);
    FirstWithin(eps, pending, results);
    PendingAreFarther(nodes, query, pending, results, seen - expanded);
    assert |results| == ef;
    hide TopOf, Enumerates, Ascending, Explored, OnlyReachable, ScoredSet, Passing;
  }

  /** Before anything is expanded, the results are entry points, none nearer than the first candidate. */
  lemma FirstWithin(eps: seq<Scored>, pending: seq<Scored>, results: seq<Scored>)
    requires Ascending(pending) && pending != [] && results != []
    ensures pending == SortAsc(eps) && (forall x :: x in results ==> x in eps) ==>
              pending[0].dist <= results[|results| - 1].dist
  {
    if pending == SortAsc(eps) && forall x :: x in results ==> x in eps {
      SortAscSorts(eps);
      FirstIsLeast(pending, results[|results| - 1]);
    }
  }

  lemma PendingAreFarther(nodes: seq<Node>, query: Vector, pending: seq<Scored>, results: seq<Scored>, P: set<nat>)
    requires Ascending(pending) && Enumerates(pending, ScoredSet(nodes, query, P)) && Ascending(results)
    requires pending != [] && results != [] && pending[0].dist > results[|results| - 1].dist
    ensures forall p, x :: p in P && p < |nodes| && x in results ==> x.dist < SquaredL2(query, nodes[p].vector)
  {
    forall p, x | p in P && p < |nodes| && x in results ensures x.dist < SquaredL2(query, nodes[p].vector) {
      assert At(nodes, query, p) in pending;
      var k :| 0 <= k < |pending| && pending[k] == At(nodes, query, p);
      var h :| 0 <= h < |results| && results[h] == x;
    }
  }

  /** With no candidate left, everything visited has been expanded. */
  lemma SearchDone(nodes: seq<Node>, query: Vector, eps: seq<Scored>, ef: nat, l: nat, mask: Option<seq<bool>>,
                   results: seq<Scored>, seen: set<nat>, expanded: set<nat>)
    requires BeamState(nodes, query, eps, ef, l, mask, [], results, seen, expanded) && ef >= 1
    ensures BeamResult(nodes, query, eps, ef, l, mask, results, seen, expanded)
  {
    hide TopOf, Ascending, Explored, OnlyReachable, Passing, Course;
    if seen - expanded != {} {
      SomeScored(nodes, query, seen - expanded);
      assert false;
    }
  }

  lemma SomeScored(nodes: seq<Node>, query: Vector, P: set<nat>)
    requires P != {} && forall p :: p in P ==> p < |nodes|
    ensures exists s :: s in ScoredSet(nodes, query, P)
  {
    var p :| p in P;
    assert At(nodes, query, p) in ScoredSet(nodes, query, P);
  }

  /** One iteration of the main loop, after the early exit was not taken. */
  lemma AfterExpand(nodes: seq<Node>, query: Vector, eps: seq<Scored>, ef: nat, l: nat,
                    mask: Option<seq<bool>>, pending: seq<Scored>, candidates: seq<Scored>,
                    results0: seq<Scored>, results: seq<Scored>,
                    seen0: set<nat>, seen: set<nat>, expanded: set<nat>)
    requires BeamState(nodes, query, eps, ef, l, mask, pending, results0, seen0, expanded)
    requires pending != [] && OnLayer(nodes, pending[0].pos, l) && ef >= 1
    requires !(|results0| >= ef && pending[0].dist > results0[|results0| - 1].dist)
    requires var nbrs := Nbrs(nodes, pending[0].pos, l);
             (forall j :: j in nbrs ==> OnLayer(nodes, j, l)) && seen == seen0 + SetOf(nbrs)
    requires pending[1..] <= candidates && results0 <= results
    requires Enumerates(candidates[|pending| - 1..], ScoredSet(nodes, query, seen - seen0))
    requires Enumerates(results[|results0|..], ScoredSet(nodes, query, Passing(mask, seen - seen0)))
    ensures BeamState(nodes, query, eps, ef, l, mask, SortAsc(candidates), Truncate(SortAsc(results), ef),
                      seen, expanded + {pending[0].pos})
  {
    hide Course;
    var c, rest := pending[0], pending[1..];
    assert c in pending;
    GoesOn(nodes, query, eps, ef, l, mask, pending, results0, seen0, expanded);
    NewCandidates(nodes, query, c, rest, candidates[|rest|..], seen0, seen, expanded);
    assert [c] + rest == pending;
    assert candidates == rest + candidates[|rest|..];
    assert results == results0 + results[|results0|..];
    NewResults(nodes, query, mask, ef, results0, results[|results0|..], seen0, seen);
    ExploredMore(nodes, l, eps, c.pos, seen0, seen, expanded);
    hide TopOf, Enumerates, Ascending, Explored, OnlyReachable, ScoredSet, Passing;
  }

  /** Merging in the fresh results and cutting back leaves the best `ef` of all visited. */
  lemma NewResults(nodes: seq<Node>, query: Vector, mask: Option<seq<bool>>, ef: nat, results0: seq<Scored>,
                   added: seq<Scored>, seen0: set<nat>, seen: set<nat>)
    requires seen0 <= seen
    requires TopOf(results0, ScoredSet(nodes, query, Passing(mask, seen0)), ef)
    requires Enumerates(added, ScoredSet(nodes, query, Passing(mask, seen - seen0)))
    ensures TopOf(Truncate(SortAsc(results0 + added), ef), ScoredSet(nodes, query, Passing(mask, seen)), ef)
  {
    var R0, R1 := ScoredSet(nodes, query, Passing(mask, seen0)), ScoredSet(nodes, query, Passing(mask, seen - seen0));
    TopStep(results0, R0, added, R1, ef);
    assert Passing(mask, seen) == Passing(mask, seen0) + Passing(mask, seen - seen0);
    assert ScoredSet(nodes, query, Passing(mask, seen)) == R0 + R1;
  }

  lemma NewCandidates(nodes: seq<Node>, query: Vector, c: Scored, rest: seq<Scored>, added: seq<Scored>,
                      seen0: set<nat>, seen: set<nat>, expanded: set<nat>)
    requires expanded <= seen0 <= seen && c.pos in seen0 && c.pos !in expanded
    requires c.pos < |nodes| && c == At(nodes, query, c.pos)
    requires Enumerates([c] + rest, ScoredSet(nodes, query, seen0 - expanded))
    requires Enumerates(added, ScoredSet(nodes, query, seen - seen0))
    ensures Ascending(SortAsc(rest + added))
    ensures Enumerates(SortAsc(rest + added), ScoredSet(nodes, query, seen - (expanded + {c.pos})))
  {
    var S, A := ScoredSet(nodes, query, seen0 - expanded), ScoredSet(nodes, query, seen - seen0);
    RestEnumerates(c, rest, S);
    ConcatEnumerates(rest, S - {c}, added, A);
    var C := ScoredSet(nodes, query, seen - (expanded + {c.pos}));
    forall x ensures x in C <==> x in S - {c} + A {
    }
    assert C == S - {c} + A;
    SortAscEnumerates(rest + added, C);
  }

  lemma ExploredMore(nodes: seq<Node>, l: nat, eps: seq<Scored>, c: nat,
                     seen0: set<nat>, seen: set<nat>, expanded: set<nat>)
    requires OnLayer(nodes, c, l) && c in seen0 && seen == seen0 + SetOf(Nbrs(nodes, c, l))
    requires Explored(nodes, l, expanded, seen0) && OnlyReachable(nodes, l, eps, seen0)
    ensures Explored(nodes, l, expanded + {c}, seen) && OnlyReachable(nodes, l, eps, seen)
  {
    forall D | ClosedSet(nodes, l, D) && (forall e :: e in eps ==> e.pos in D) ensures seen <= D {
      assert seen0 <= D;
    }
  }

  lemma RestEnumerates(c: Scored, rest: seq<Scored>, S: set<Scored>)
    requires Enumerates([c] + rest, S)
    ensures Enumerates(rest, S - {c})
  {
    var s := [c] + rest;
    assert forall i :: 0 <= i < |rest| ==> rest[i] == s[i + 1];
    forall x ensures x in rest <==> x in S - {c} {
      if x in rest {
        var i :| 0 <= i < |rest| && rest[i] == x;
        assert s[0] != s[i + 1];
      }
    }
  }

  lemma ConcatEnumerates(s: seq<Scored>, S: set<Scored>, t: seq<Scored>, T: set<Scored>)
    requires Enumerates(s, S) && Enumerates(t, T) && S !! T
    ensures Enumerates(s + t, S + T)
  {
    var u := s + t;
    forall i, j | 0 <= i < j < |u| ensures u[i] != u[j] {
      assert i < |s| ==> u[i] in S;
      assert j >= |s| ==> u[j] in T;
    }
  }
}
