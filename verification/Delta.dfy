/** The delta buffer, the graph it is folded into, and compaction. */
module Delta {
  import opened Basics
  import opened Edges
  import opened TemporalCsr

  // ---------- specification ----------

  datatype Op = Ins(edge: Edge) | Del(edge: Edge)

  /** The edge set after applying the operations in order. */
  ghost function Replay(S: set<Edge>, ops: seq<Op>): (r: set<Edge>)
  {
    if ops == [] then S
    else
      var T := Replay(S, ops[..|ops| - 1]);
      match ops[|ops| - 1]
      case Ins(e) => T + {e}
      case Del(e) => T - {e}
  }

  /** The snapshot with tombstones removed and pending insertions on top. */
  ghost function Merged(S: set<Edge>, inserts: set<Edge>, deletes: set<Edge>): (r: set<Edge>)
  {
    S - deletes + inserts
  }

  ghost predicate LastIsInsert(ops: seq<Op>, e: Edge) {
    exists i :: 0 <= i < |ops| && ops[i] == Ins(e) && forall j :: i < j < |ops| ==> ops[j].edge != e
  }

  ghost predicate Untouched(ops: seq<Op>, e: Edge) {
    forall i :: 0 <= i < |ops| ==> ops[i].edge != e
  }

  /** Replay is last-operation-wins: an edge is present if its last operation inserts it, or if it has none and
      was in the snapshot. */
  lemma {:induction false} LastOperationWins(S: set<Edge>, ops: seq<Op>, e: Edge)
    ensures e in Replay(S, ops) <==> LastIsInsert(ops, e) || (Untouched(ops, e) && e in S)
  {
    if ops != [] {
      var n := |ops| - 1;
      LastOperationWins(S, ops[..n], e);
      LastInsertStep(ops, n, e);
      UntouchedStep(ops, n, e);
      assert ops[..n + 1] == ops;
    }
  }

  lemma UntouchedStep(ops: seq<Op>, i: nat, e: Edge)
    requires i < |ops|
    ensures Untouched(ops[..i + 1], e) <==> Untouched(ops[..i], e) && ops[i].edge != e
  {
    var init, longer := ops[..i], ops[..i + 1];
    assert longer == init + [ops[i]];
    if Untouched(longer, e) {
      assert longer[i] == ops[i];
      assert forall k :: 0 <= k < i ==> init[k] == longer[k];
    }
  }

  lemma LastInsertStep(ops: seq<Op>, i: nat, e: Edge)
    requires i < |ops|
    ensures LastIsInsert(ops[..i + 1], e) <==> ops[i] == Ins(e) || (ops[i].edge != e && LastIsInsert(ops[..i], e))
  {
    assert ops[..i + 1] == ops[..i] + [ops[i]];
    InsertStays(ops[..i], ops[i], e);
    InsertWasThere(ops[..i], ops[i], e);
  }

  lemma InsertStays(init: seq<Op>, op: Op, e: Edge)
    ensures op == Ins(e) || (op.edge != e && LastIsInsert(init, e)) ==> LastIsInsert(init + [op], e)
  {
    var longer := init + [op];
    assert longer[|init|] == op;
    if op.edge != e && LastIsInsert(init, e) {
      var k :| 0 <= k < |init| && init[k] == Ins(e) && forall j :: k < j < |init| ==> init[j].edge != e;
      assert longer[k] == Ins(e);
      forall j | k < j < |longer| ensures longer[j].edge != e {
        assert j < |init| ==> longer[j] == init[j];
      }
    }
  }

  lemma InsertWasThere(init: seq<Op>, op: Op, e: Edge)
    ensures LastIsInsert(init + [op], e) ==> op == Ins(e) || (op.edge != e && LastIsInsert(init, e))
  {
    var longer := init + [op];
    if LastIsInsert(longer, e) && op != Ins(e) {
      var k :| 0 <= k < |longer| && longer[k] == Ins(e) && forall j :: k < j < |longer| ==> longer[j].edge != e;
      assert longer[|init|] == op && k < |init| && init[k] == Ins(e);
      assert forall j :: k < j < |init| ==> init[j] == longer[j];
    }
  }

  // ---------- the buffer ----------

  /** Pending insertions and exact-match tombstones. */
  class DeltaBuffer {
    var inserts: set<Edge>
    var deletes: set<Edge>

    /** The two sets never overlap. */
    ghost predicate Valid()
      reads this
    {
      inserts !! deletes
    }

    /** This buffer stands for the operations `ops`: on any snapshot it merges as they replay. */
    ghost predicate StandsFor(ops: seq<Op>)
      reads this
    {
      && Valid()
      && (forall S: set<Edge> :: Merged(S, inserts, deletes) == Replay(S, ops))
      && (forall e :: e in inserts <==> LastIsInsert(ops, e))
    }

    constructor ()
      ensures inserts == {} && deletes == {} && Valid()
    {
      inserts, deletes := {}, {};
    }

    method Insert(e: Edge)
      requires Valid()
      modifies this
      ensures Valid() && inserts == old(inserts) + {e} && deletes == old(deletes) - {e}
      ensures forall S: set<Edge> :: Merged(S, inserts, deletes) == Merged(S, old(inserts), old(deletes)) + {e}
    {
      ghost var i0, d0 := inserts, deletes;
      deletes := deletes - {e};
      inserts := inserts + {e};
      forall S: set<Edge> ensures Merged(S, inserts, deletes) == Merged(S, i0, d0) + {e} {
        assert S - (d0 - {e}) + (i0 + {e}) == S - d0 + i0 + {e};
      }
    }

    method Delete(e: Edge)
      requires Valid()
      modifies this
      ensures Valid() && inserts == old(inserts) - {e} && deletes == old(deletes) + {e}
      ensures forall S: set<Edge> :: Merged(S, inserts, deletes) == Merged(S, old(inserts), old(deletes)) - {e}
    {
      ghost var i0, d0 := inserts, deletes;
      inserts := inserts - {e};
      deletes := deletes + {e};
      forall S: set<Edge> ensures Merged(S, inserts, deletes) == Merged(S, i0, d0) - {e} {
        assert S - (d0 + {e}) + (i0 - {e}) == S - d0 + i0 - {e};
      }
    }

    predicate IsEmpty()
      reads this
    {
      inserts == {} && deletes == {}
    }

    /** Forget everything; call only after the delta has been folded in. */
    method Clear()
      modifies this
      ensures inserts == {} && deletes == {} && Valid()
      ensures forall S: set<Edge> :: Merged(S, inserts, deletes) == S
    {
      inserts := {};
      deletes := {};
      forall S: set<Edge> ensures Merged(S, inserts, deletes) == S {
        assert S - {} + {} == S;
      }
    }

    /** Apply the pending deltas to a table: each surviving edge once, in canonical key order. */
    method Apply(edges: seq<Edge>) returns (ordered: seq<Edge>)
      ensures NoDup(ordered) && CanonicalOrder(ordered)
      ensures SetOf(ordered) == Merged(SetOf(edges), inserts, deletes)
    {
      var keep: set<Edge> := {};
      for i := 0 to |edges|
        invariant keep == SetOf(edges[..i]) - deletes
      {
        var e := edges[i];
        SetOfConcat(edges[..i], [e]);
        assert edges[..i + 1] == edges[..i] + [e] && SetOf([e]) == {e};
        if e in deletes {
          continue;
        }
        keep := keep + {e};
      }
      assert edges[..|edges|] == edges;
      ghost var survivors := keep;
      var pending := inserts;
      while pending != {}
        invariant pending <= inserts && keep == survivors + (inserts - pending)
        decreases pending
      {
        var e :| e in pending;
        pending := pending - {e};
        keep := keep + {e};
      }
      var keys := KeysOf(keep);
      ordered := SortUnstableByKey(keys);
      KeySortedIsCanonical(ordered);
      SameElements(ordered, keys);
      PermutationNoDup(keys, ordered);
      assert SetOf(ordered) == SetOf(keys);
      assert keep == Merged(SetOf(edges), inserts, deletes);
    }
  }

  /** `into_keys().collect()`: list a set without repetition. */
  method KeysOf(S: set<Edge>) returns (s: seq<Edge>)
    ensures NoDup(s) && SetOf(s) == S
  {
    s := [];
    var rest := S;
    while rest != {}
      invariant rest <= S && NoDup(s) && SetOf(s) == S - rest
      decreases rest
    {
      var e :| e in rest;
      rest := rest - {e};
      SetOfConcat(s, [e]);
      assert SetOf([e]) == {e};
      assert forall i :: 0 <= i < |s| ==> s[i] in SetOf(s);
      s := s + [e];
    }
  }

  lemma {:induction false} CountAtMostOne(s: seq<Edge>, x: Edge)
    requires NoDup(s)
    ensures multiset(s)[x] <= 1
  {
    if s != [] {
      var init, last := s[..|s| - 1], s[|s| - 1];
      assert s == init + [last];
      assert forall i :: 0 <= i < |init| ==> init[i] == s[i];
      CountAtMostOne(init, x);
      if x == last {
        assert x !in init;
        assert x !in multiset(init);
      }
    }
  }

  lemma PermutationNoDup(s: seq<Edge>, t: seq<Edge>)
    requires NoDup(s) && multiset(s) == multiset(t)
    ensures NoDup(t)
  {
    forall e ensures multiset(t)[e] <= 1 {
      CountAtMostOne(s, e);
    }
    OnceIsNoDup(t);
  }

  // ---------- the graph ----------

  /** A node count, the edge table, and the index built from it. */
  datatype Graph = Graph(nodeCount: nat, edges: seq<Edge>, csr: Csr)

  /** The index was built from the table. */
  ghost predicate GraphOk(g: Graph) {
    exists rows :: IsCsrOf(g.csr, rows) && multiset(rows) == multiset(g.edges) && g.csr.nodeCount == g.nodeCount
  }

  lemma GraphSources(g: Graph)
    requires GraphOk(g)
    ensures forall e :: e in g.edges ==> e.src < g.nodeCount
  {
    var rows :| IsCsrOf(g.csr, rows) && multiset(rows) == multiset(g.edges) && g.csr.nodeCount == g.nodeCount;
    SameElements(rows, g.edges);
  }

  /** `TemporalGraph::new`: fails exactly when some edge leaves a node that does not exist. */
  method NewGraph(nodeCount: nat, edges: seq<Edge>) returns (r: Result<Graph>)
    ensures r.Ok? <==> forall e :: e in edges ==> e.src < nodeCount
    ensures r.Err? ==> r.error.NodeOutOfRange?
    ensures r.Ok? ==> GraphOk(r.value) && r.value.nodeCount == nodeCount && r.value.edges == edges
  {
    var src := seq(|edges|, i requires 0 <= i < |edges| => edges[i].src);
    var dst := seq(|edges|, i requires 0 <= i < |edges| => edges[i].dst);
    var validFrom := seq(|edges|, i requires 0 <= i < |edges| => edges[i].validFrom);
    var validTo := seq(|edges|, i requires 0 <= i < |edges| => edges[i].validTo);
    var edgeType := seq(|edges|, i requires 0 <= i < |edges| => edges[i].edgeType);
    assert ZipRows(src, dst, validFrom, validTo, edgeType) == edges;
    var built;
    ghost var rows;
    built, rows := FromArrays(src, dst, validFrom, validTo, edgeType, nodeCount);
    assert forall i :: 0 <= i < |edges| ==> src[i] == edges[i].src && edges[i] in edges && src[i] in src;
    match built
    case Err(e) =>
      r := Err(e);
    case Ok(csr) =>
      r := Ok(Graph(nodeCount, edges, csr));
  }

  // ---------- compaction ----------

  /** `compact`: fails exactly when a pending insertion leaves a node that does not exist. */
  method Compact(g: Graph, delta: DeltaBuffer) returns (r: Result<Graph>)
    requires GraphOk(g) && delta.Valid()
    ensures r.Err? <==> exists e :: e in delta.inserts && e.src >= g.nodeCount
    ensures r.Err? ==> r.error.NodeOutOfRange?
    ensures r.Ok? ==> && GraphOk(r.value) && r.value.nodeCount == g.nodeCount
                      && NoDup(r.value.edges)
                      && SetOf(r.value.edges) == Merged(SetOf(g.edges), delta.inserts, delta.deletes)
  {
    GraphSources(g);
    var edges := delta.Apply(g.edges);
    assert forall e :: e in edges <==> e in Merged(SetOf(g.edges), delta.inserts, delta.deletes) by {
      assert forall e :: e in edges <==> e in SetOf(edges);
    }
    r := NewGraph(g.nodeCount, edges);
  }

  /** What a compacted graph answers: the neighbours of `s` at `t` are exactly the edges of `S` leaving `s` and
      active at `t`, each once. */
  ghost predicate Answers(g: Graph, S: set<Edge>, s: U64, t: I64) {
    && Wf(g.csr) && Neighbors(g.csr, s, t).Ok?
    && var found := Restore(s, Neighbors(g.csr, s, t).value);
       && NoDup(found)
       && CanonicalOrder(found)
       && forall e :: e in found <==> e in S && e.src == s && e.validFrom <= t < e.validTo
  }

  lemma CompactedAnswers(g: Graph, S: set<Edge>, s: U64, t: I64)
    requires GraphOk(g) && NoDup(g.edges) && SetOf(g.edges) == S && |g.edges| < U32_SIZE && s < g.nodeCount
    ensures Answers(g, S, s, t)
  {
    var rows :| IsCsrOf(g.csr, rows) && multiset(rows) == multiset(g.edges) && g.csr.nodeCount == g.nodeCount;
    assert |rows| == |multiset(rows)| == |g.edges|;
    ExactIffFits(g.csr, rows);
    BuiltIsWf(g.csr, rows);
    NeighborsExact(g.csr, rows, s, t);
    PermutationNoDup(g.edges, rows);
    SameElements(g.edges, rows);
    ActiveFromSorted(rows, s, t);
    KeySortedIsCanonical(ActiveFrom(rows, s, t));
    FilterAnswers(rows, S, s, t);
  }

  lemma FilterAnswers(rows: seq<Edge>, S: set<Edge>, s: U64, t: I64)
    requires NoDup(rows) && forall e :: e in rows <==> e in S
    ensures NoDup(ActiveFrom(rows, s, t))
    ensures forall e :: e in ActiveFrom(rows, s, t) <==> e in S && e.src == s && Active(e, t)
  {
    var found := ActiveFrom(rows, s, t);
    forall e ensures e in found <==> e in S && e.src == s && Active(e, t) {
      ActiveFromCounts(rows, s, t, e);
      assert e in found <==> e in multiset(found);
      assert e in rows <==> e in multiset(rows);
    }
    forall e ensures multiset(found)[e] <= 1 {
      ActiveFromCounts(rows, s, t, e);
      CountAtMostOne(rows, e);
    }
    OnceIsNoDup(found);
  }

  lemma OnceIsNoDup(s: seq<Edge>)
    requires forall e :: multiset(s)[e] <= 1
    ensures NoDup(s)
  {
    forall i, j | 0 <= i < j < |s| ensures s[i] != s[j] {
      var a, c := s[..j], s[j + 1..];
      assert s == a + [s[j]] + c;
      assert a[i] == s[i] && s[i] in multiset(a);
      assert multiset(s)[s[j]] == multiset(a)[s[j]] + 1 + multiset(c)[s[j]];
    }
  }

  /** Queue the operations of a log. */
  method QueueLog(ops: seq<Op>) returns (delta: DeltaBuffer)
    ensures fresh(delta) && delta.StandsFor(ops)
  {
    delta := new DeltaBuffer();
    for i := 0 to |ops|
      invariant fresh(delta) && delta.StandsFor(ops[..i])
    {
      assert ops[..i + 1][..i] == ops[..i];
      forall e ensures LastIsInsert(ops[..i + 1], e) <==> ops[i] == Ins(e) || (ops[i].edge != e && LastIsInsert(ops[..i], e)) {
        LastInsertStep(ops, i, e);
      }
      match ops[i]
      case Ins(e) => delta.Insert(e);
      case Del(e) => delta.Delete(e);
    }
    assert ops[..|ops|] == ops;
  }

  /** Compaction end to end. For any snapshot table and any log of insertions and deletions over it, it fails
      exactly when the table, or an insertion still pending, leaves a node that does not exist; otherwise the
      neighbours of every node at every time are exactly the last-operation-wins edges, without duplicates. */
  method CompactLog(nodeCount: nat, table: seq<Edge>, ops: seq<Op>) returns (r: Result<Graph>)
    ensures r.Err? <==> exists e :: (e in table || LastIsInsert(ops, e)) && e.src >= nodeCount
    ensures r.Err? ==> r.error.NodeOutOfRange?
    ensures r.Ok? ==> NoDup(r.value.edges) && SetOf(r.value.edges) == Replay(SetOf(table), ops)
    ensures r.Ok? && |r.value.edges| < U32_SIZE ==>
              forall s: U64, t: I64 :: s < nodeCount ==> Answers(r.value, Replay(SetOf(table), ops), s, t)
  {
    r := NewGraph(nodeCount, table);
    if r.Err? {
      return;
    }
    var delta := QueueLog(ops);
    r := Compact(r.value, delta);
    if r.Ok? && |r.value.edges| < U32_SIZE {
      forall s: U64, t: I64 | s < nodeCount ensures Answers(r.value, Replay(SetOf(table), ops), s, t) {
        CompactedAnswers(r.value, Replay(SetOf(table), ops), s, t);
      }
    }
  }
}
