/** `TemporalCSR::khop`: one deduplicated, sorted frontier per hop. */
module KHop {
  import opened Basics
  import opened Edges
  import opened TemporalCsr

  /** The endpoints of the edges leaving `u` that are active at `t`; none if `u` is out of range. */
  ghost function OutOf(csr: Csr, u: U64, t: I64): (s: set<U64>)
    requires Wf(csr)
  {
    match Neighbors(csr, u, t)
    case Ok(ns) => set n | n in ns :: n.dst
    case Err(_) => {}
  }

  ghost function Successors(csr: Csr, F: set<U64>, t: I64): (s: set<U64>)
    requires Wf(csr)
  {
    set u, v | u in F && v in OutOf(csr, u, t) :: v
  }

  ghost function Frontier(csr: Csr, seeds: set<U64>, i: nat, t: I64): (s: set<U64>)
    requires Wf(csr)
  {
    if i == 0 then seeds else Successors(csr, Frontier(csr, seeds, i - 1, t), t)
  }

  ghost predicate InRange(csr: Csr, F: set<U64>) {
    forall u :: u in F ==> u < csr.nodeCount
  }

  ghost predicate StrictlyAscending(s: seq<U64>) {
    forall i, j :: 0 <= i < j < |s| ==> s[i] < s[j]
  }

  // ---------- sort and dedup ----------

  function InsertNode(x: U64, s: seq<U64>): (r: seq<U64>)
  {
    if s == [] || x <= s[0] then [x] + s else [s[0]] + InsertNode(x, s[1..])
  }

  function SortNodes(s: seq<U64>): (r: seq<U64>)
  {
    if s == [] then [] else InsertNode(s[0], SortNodes(s[1..]))
  }

  /** `Vec::dedup`: drop each element equal to its predecessor. */
  function Dedup(s: seq<U64>): (r: seq<U64>)
  {
    if |s| <= 1 then s
    else if s[0] == s[1] then Dedup(s[1..])
    else [s[0]] + Dedup(s[1..])
  }

  ghost predicate NonDescending(s: seq<U64>) {
    forall i, j :: 0 <= i < j < |s| ==> s[i] <= s[j]
  }

  lemma {:induction false} InsertNodeMembers(x: U64, s: seq<U64>)
    ensures SetOf(InsertNode(x, s)) == SetOf(s) + {x}
  {
    if s == [] || x <= s[0] {
      SetOfConcat([x], s);
      assert SetOf([x]) == {x};
    } else {
      InsertNodeMembers(x, s[1..]);
      SetOfConcat([s[0]], InsertNode(x, s[1..]));
      SetOfConcat([s[0]], s[1..]);
      assert s == [s[0]] + s[1..];
    }
  }

  lemma {:induction false} InsertNodeKeeps(x: U64, s: seq<U64>)
    requires NonDescending(s)
    ensures NonDescending(InsertNode(x, s))
  {
    if s == [] || x <= s[0] {
    } else {
      InsertNodeKeeps(x, s[1..]);
      InsertNodeMembers(x, s[1..]);
      var r := InsertNode(x, s[1..]);
      forall j | 0 <= j < |r| ensures s[0] <= r[j] {
        assert r[j] in SetOf(r);
      }
    }
  }

  lemma {:induction false} SortNodesSorts(s: seq<U64>)
    ensures NonDescending(SortNodes(s)) && SetOf(SortNodes(s)) == SetOf(s)
  {
    if s != [] {
      SortNodesSorts(s[1..]);
      InsertNodeKeeps(s[0], SortNodes(s[1..]));
      InsertNodeMembers(s[0], SortNodes(s[1..]));
      SetOfConcat([s[0]], s[1..]);
      assert s == [s[0]] + s[1..];
      assert SetOf([s[0]]) == {s[0]};
    }
  }

  lemma {:induction false} DedupMembers(s: seq<U64>)
    ensures SetOf(Dedup(s)) == SetOf(s)
  {
    if |s| > 1 {
      DedupMembers(s[1..]);
      assert s == [s[0]] + s[1..];
      SetOfConcat([s[0]], s[1..]);
      if s[0] == s[1] {
        assert s[1..][0] in SetOf(s[1..]);
        assert SetOf([s[0]]) == {s[0]};
      } else {
        SetOfConcat([s[0]], Dedup(s[1..]));
      }
    }
  }

  /** Deduplicating a sorted list leaves a strictly ascending list of the same nodes. */
  lemma {:induction false} DedupKeeps(s: seq<U64>)
    requires NonDescending(s)
    ensures StrictlyAscending(Dedup(s)) && SetOf(Dedup(s)) == SetOf(s)
  {
    DedupMembers(s);
    if |s| > 1 {
      DedupKeeps(s[1..]);
      if s[0] != s[1] {
        PrependLess(s[0], s[1..], Dedup(s[1..]));
      }
    }
  }

  lemma PrependLess(x: U64, tail: seq<U64>, r: seq<U64>)
    requires tail != [] && x < tail[0] && NonDescending(tail) && StrictlyAscending(r) && SetOf(r) == SetOf(tail)
    ensures StrictlyAscending([x] + r)
  {
    forall j | 0 <= j < |r| ensures x < r[j] {
      assert r[j] in SetOf(tail);
      var k :| 0 <= k < |tail| && tail[k] == r[j];
    }
  }

  // ---------- the traversal ----------

  method PushDsts(next0: seq<U64>, ns: seq<Neighbor>) returns (next: seq<U64>)
    ensures SetOf(next) == SetOf(next0) + set n | n in ns :: n.dst
  {
    next := next0;
    for b := 0 to |ns|
      invariant SetOf(next) == SetOf(next0) + set n | n in ns[..b] :: n.dst
    {
      SetOfConcat(next, [ns[b].dst]);
      assert SetOf([ns[b].dst]) == {ns[b].dst};
      next := next + [ns[b].dst];
      assert ns[..b + 1] == ns[..b] + [ns[b]];
    }
    assert ns[..|ns|] == ns;
  }

  lemma OneMoreSource(csr: Csr, current: seq<U64>, a: nat, t: I64)
    requires Wf(csr) && a < |current|
    ensures Successors(csr, SetOf(current[..a + 1]), t)
            == Successors(csr, SetOf(current[..a]), t) + OutOf(csr, current[a], t)
  {
    hide OutOf;
    assert current[..a + 1] == current[..a] + [current[a]];
    SetOfConcat(current[..a], [current[a]]);
    assert SetOf([current[a]]) == {current[a]};
  }

  /** Collect the neighbours of every node of `current`; fails at the first node out of range. */
  method Hop(csr: Csr, current: seq<U64>, t: I64) returns (r: Result<seq<U64>>)
    requires Wf(csr)
    ensures r.Ok? <==> InRange(csr, SetOf(current))
    ensures r.Ok? ==> SetOf(r.value) == Successors(csr, SetOf(current), t)
    ensures r.Err? ==> exists i :: && 0 <= i < |current| && current[i] >= csr.nodeCount
                                   && r.error == NodeOutOfRange(current[i])
                                   && forall j :: 0 <= j < i ==> current[j] < csr.nodeCount
  {
    var next: seq<U64> := [];
    for a := 0 to |current|
      invariant forall j :: 0 <= j < a ==> current[j] < csr.nodeCount
      invariant SetOf(next) == Successors(csr, SetOf(current[..a]), t)
    {
      var s := current[a];
      assert s in SetOf(current);
      var ns := Neighbors(csr, s, t);
      if ns.Err? {
        return Err(ns.error);
      }
      ghost var before := next;
      next := PushDsts(next, ns.value);
      OneMoreSource(csr, current, a, t);
    }
    assert current[..|current|] == current;
    r := Ok(next);
  }

  /** `v` is the node reported when hop `i` is the first to meet a node out of range: the first such seed in the
      order given, or the least such node of a later frontier. */
  ghost predicate Culprit(csr: Csr, seeds: seq<U64>, i: nat, t: I64, v: U64)
    requires Wf(csr)
  {
    && v >= csr.nodeCount && v in Frontier(csr, SetOf(seeds), i, t)
    && (forall j :: 0 <= j < i ==> InRange(csr, Frontier(csr, SetOf(seeds), j, t)))
    && if i == 0 then exists a :: 0 <= a < |seeds| && seeds[a] == v && forall b :: 0 <= b < a ==> seeds[b] < csr.nodeCount
       else forall u :: u in Frontier(csr, SetOf(seeds), i, t) && u >= csr.nodeCount ==> v <= u
  }

  /** There is at most one. */
  lemma OneCulprit(csr: Csr, seeds: seq<U64>, t: I64, i: nat, v: U64, j: nat, w: U64)
    requires Wf(csr) && Culprit(csr, seeds, i, t, v) && Culprit(csr, seeds, j, t, w)
    ensures i == j && v == w
  {
    hide Frontier;
    if i == j == 0 {
      var a :| 0 <= a < |seeds| && seeds[a] == v && forall k :: 0 <= k < a ==> seeds[k] < csr.nodeCount;
      var b :| 0 <= b < |seeds| && seeds[b] == w && forall k :: 0 <= k < b ==> seeds[k] < csr.nodeCount;
      assert a == b;
    }
  }

  lemma IsCulprit(csr: Csr, seeds: seq<U64>, h: nat, t: I64, current: seq<U64>, i: nat)
    requires Wf(csr) && SetOf(current) == Frontier(csr, SetOf(seeds), h, t)
    requires if h == 0 then current == seeds else StrictlyAscending(current)
    requires forall j :: 0 <= j < h ==> InRange(csr, Frontier(csr, SetOf(seeds), j, t))
    requires i < |current| && current[i] >= csr.nodeCount && forall j :: 0 <= j < i ==> current[j] < csr.nodeCount
    ensures Culprit(csr, seeds, h, t, current[i])
  {
    assert current[i] in SetOf(current);
    if h > 0 {
      forall u | u in SetOf(current) && u >= csr.nodeCount ensures current[i] <= u {
        var k :| 0 <= k < |current| && current[k] == u;
      }
    }
  }

  /** `khop`: succeeds exactly when no expanded frontier leaves the node range, and then hop `i` is the
      strictly ascending list of the nodes `i + 1` active edges away from a seed. */
  method KHop(csr: Csr, seeds: seq<U64>, k: nat, t: I64) returns (r: Result<seq<seq<U64>>>)
    requires Wf(csr)
    ensures r.Ok? <==> forall i :: 0 <= i < k ==> InRange(csr, Frontier(csr, SetOf(seeds), i, t))
    ensures r.Ok? ==> |r.value| == k
    ensures r.Ok? ==> forall i :: 0 <= i < k ==>
              && StrictlyAscending(r.value[i])
              && SetOf(r.value[i]) == Frontier(csr, SetOf(seeds), i + 1, t)
    ensures r.Err? ==> exists i, v :: 0 <= i < k && Culprit(csr, seeds, i, t, v) && r.error == NodeOutOfRange(v)
  {
    var frontiers: seq<seq<U64>> := [];
    var current: seq<U64> := seeds;
    for h := 0 to k
      invariant |frontiers| == h
      invariant SetOf(current) == Frontier(csr, SetOf(seeds), h, t)
      invariant if h == 0 then current == seeds else StrictlyAscending(current)
      invariant forall i :: 0 <= i < h ==> InRange(csr, Frontier(csr, SetOf(seeds), i, t))
      invariant forall i :: 0 <= i < h ==>
                  StrictlyAscending(frontiers[i]) && SetOf(frontiers[i]) == Frontier(csr, SetOf(seeds), i + 1, t)
    {
      var hop := Hop(csr, current, t);
      if hop.Err? {
        ghost var i :| && 0 <= i < |current| && current[i] >= csr.nodeCount && hop.error == NodeOutOfRange(current[i])
                       && forall j :: 0 <= j < i ==> current[j] < csr.nodeCount;
        IsCulprit(csr, seeds, h, t, current, i);
        return Err(hop.error);
      }
      var next := hop.value;
      SortNodesSorts(next);
      next := SortNodes(next);
      DedupKeeps(next);
      next := Dedup(next);
      frontiers := frontiers + [next];
      current := next;
    }
    r := Ok(frontiers);
  }

  // ---------- what a frontier is ----------

  /** A walk over edges active at `t`. */
  ghost predicate Walk(csr: Csr, w: seq<U64>, t: I64)
    requires Wf(csr)
  {
    w != [] && forall i, j :: 0 <= i && j == i + 1 < |w| ==> w[j] in OutOf(csr, w[i], t)
  }

  lemma {:induction false} FrontierHasWalk(csr: Csr, seeds: set<U64>, i: nat, t: I64, v: U64) returns (w: seq<U64>)
    requires Wf(csr) && v in Frontier(csr, seeds, i, t)
    ensures Walk(csr, w, t) && |w| == i + 1 && w[0] in seeds && w[i] == v
  {
    hide OutOf;
    if i == 0 {
      w := [v];
    } else {
      var u :| u in Frontier(csr, seeds, i - 1, t) && v in OutOf(csr, u, t);
      var init := FrontierHasWalk(csr, seeds, i - 1, t, u);
      w := init + [v];
    }
  }

  lemma {:induction false} WalkEndsInFrontier(csr: Csr, seeds: set<U64>, i: nat, t: I64, w: seq<U64>)
    requires Wf(csr) && Walk(csr, w, t) && |w| == i + 1 && w[0] in seeds
    ensures w[i] in Frontier(csr, seeds, i, t)
  {
    hide OutOf;
    if i > 0 {
      WalkEndsInFrontier(csr, seeds, i - 1, t, w[..i]);
      assert w[i] in OutOf(csr, w[i - 1], t);
    }
  }

  /** Frontier `i` is the set of endpoints of length-`i` walks from the seeds. */
  lemma FrontierIsWalkEnds(csr: Csr, seeds: set<U64>, i: nat, t: I64, v: U64)
    requires Wf(csr)
    ensures v in Frontier(csr, seeds, i, t) <==>
              exists w :: Walk(csr, w, t) && |w| == i + 1 && w[0] in seeds && w[i] == v
  {
    if v in Frontier(csr, seeds, i, t) {
      var w := FrontierHasWalk(csr, seeds, i, t, v);
    }
    if w :| Walk(csr, w, t) && |w| == i + 1 && w[0] in seeds && w[i] == v {
      WalkEndsInFrontier(csr, seeds, i, t, w);
    }
  }

  /** One step of a walk is an input edge active at `t`. */
  lemma StepIsEdge(csr: Csr, rows: seq<Edge>, input: seq<Edge>, u: U64, v: U64, t: I64)
    requires Exact(csr, rows) && Wf(csr) && multiset(rows) == multiset(input)
    ensures v in OutOf(csr, u, t) <==>
              u < csr.nodeCount && exists e :: e in input && e.src == u && e.dst == v && e.validFrom <= t < e.validTo
  {
    if u < csr.nodeCount {
      NeighborsExact(csr, rows, u, t);
      var ns := Neighbors(csr, u, t).value;
      var restored := Restore(u, ns);
      if v in OutOf(csr, u, t) {
        var n :| n in ns && n.dst == v;
        var i :| 0 <= i < |ns| && ns[i] == n;
        var e := restored[i];
        assert e in multiset(restored);
        NeighborsCount(csr, rows, input, u, t, e);
        assert e in multiset(input);
      }
      if e :| e in input && e.src == u && e.dst == v && e.validFrom <= t < e.validTo {
        assert e in multiset(input);
        NeighborsCount(csr, rows, input, u, t, e);
        assert e in multiset(restored);
        var i :| 0 <= i < |restored| && restored[i] == e;
        assert ns[i] in ns && ns[i].dst == v;
      }
    }
  }
}
