/** On small indexes the approximate search is exact: it answers just as the flat scan does. */
module SmallIndex {
  import opened Basics
  import opened Nearest
  import opened Vectors
  import opened HnswGraph
  import opened HnswIndex
  import Flat = FlatIndex

  ghost predicate Increasing(ids: seq<U64>) {
    forall i, j :: 0 <= i < j < |ids| ==> ids[i] < ids[j]
  }

  ghost predicate InRange(ids: seq<U64>, s: seq<Scored>) {
    forall k :: 0 <= k < |s| ==> s[k].pos < |ids|
  }

  /** Replace each position by the external id stored there. */
  ghost function Relabel(ids: seq<U64>, s: seq<Scored>): (r: seq<Scored>)
    requires InRange(ids, s)
  {
    seq(|s|, k requires 0 <= k < |s| => Scored(s[k].dist, ids[s[k].pos]))
  }

  lemma {:induction false} RelabelInsert(ids: seq<U64>, x: Scored, s: seq<Scored>)
    requires Increasing(ids) && x.pos < |ids| && InRange(ids, s)
    ensures InRange(ids, Insert(x, s))
    ensures Relabel(ids, Insert(x, s)) == Insert(Scored(x.dist, ids[x.pos]), Relabel(ids, s))
  {
    var y, r := Scored(x.dist, ids[x.pos]), Relabel(ids, s);
    if s == [] {
    } else if Less(x, s[0]) {
      assert Less(y, r[0]);
    } else {
      RelabelInsert(ids, x, s[1..]);
      assert r[1..] == Relabel(ids, s[1..]);
      assert !Less(y, r[0]);
    }
  }

  /** Sorting by (distance, position) and by (distance, id) agree when ids increase with position. */
  lemma {:induction false} RelabelSort(ids: seq<U64>, s: seq<Scored>)
    requires Increasing(ids) && InRange(ids, s)
    ensures InRange(ids, SortAsc(s))
    ensures Relabel(ids, SortAsc(s)) == SortAsc(Relabel(ids, s))
  {
    if s == [] {
    } else {
      RelabelSort(ids, s[1..]);
      RelabelInsert(ids, s[0], SortAsc(s[1..]));
      assert Relabel(ids, s)[1..] == Relabel(ids, s[1..]);
    }
  }

  /** Both indexes score the same nodes the same way. */
  lemma {:induction false} SameScores(nodes: seq<Node>, ids: seq<U64>, vectors: seq<Vector>, query: Vector,
                                      mask: Option<seq<bool>>, n: nat)
    requires |nodes| == |ids| == |vectors| && n <= |ids| && (mask.Some? ==> n <= |mask.value|)
    requires forall i :: 0 <= i < |ids| ==> nodes[i].vector == vectors[i]
    ensures InRange(ids, AllowedScores(nodes, query, mask, n))
    ensures Flat.Scores(ids, vectors, query, mask, n) == Relabel(ids, AllowedScores(nodes, query, mask, n))
  {
    if n > 0 {
      SameScores(nodes, ids, vectors, query, mask, n - 1);
    }
  }

  /** The ids of the exact hits are the flat answer. */
  lemma ExactHitsAreFlat(nodes: seq<Node>, flat: Flat.Flat, query: Vector, mask: Option<seq<bool>>, k: nat,
                         hits: seq<Scored>)
    requires |nodes| == |flat.ids| == |flat.vectors| && Increasing(flat.ids)
    requires forall i :: 0 <= i < |nodes| ==> nodes[i].vector == flat.vectors[i] && nodes[i].id == flat.ids[i]
    requires mask.Some? ==> |mask.value| == |nodes|
    requires k > 0 && |query| == flat.dim
    requires hits == NearestAllowed(nodes, query, mask, k)
    ensures forall i :: 0 <= i < |hits| ==> hits[i].pos < |nodes|
    ensures Flat.SearchKnn(flat, query, k, mask) == Ok(seq(|hits|, i requires 0 <= i < |hits| => nodes[hits[i].pos].id))
  {
    var all := AllowedScores(nodes, query, mask, |nodes|);
    SameScores(nodes, flat.ids, flat.vectors, query, mask, |nodes|);
    RelabelSort(flat.ids, all);
    var m := SortAsc(all);
    hide SortAsc;
    assert forall i :: 0 <= i < |hits| ==> hits[i] == m[i];
    var r := Truncate(Relabel(flat.ids, m), k);
    assert r == Truncate(SortAsc(Flat.Scores(flat.ids, flat.vectors, query, mask, |nodes|)), k);
    forall i | 0 <= i < |hits| ensures r[i].pos == nodes[hits[i].pos].id {
      assert r[i] == Relabel(flat.ids, m)[i];
    }
    assert Flat.Ids(r) == seq(|hits|, i requires 0 <= i < |hits| => nodes[hits[i].pos].id);
  }

  /** Small-index exactness. For any vectors, levels and insertion order, if the index has at most `m0 + 1`
      nodes and was built with a beam of at least `n - 1`, then for every query, `k` and mask the approximate
      search returns what the exact scan returns, errors included. */
  method SearchBoth(ids: seq<U64>, vectors: seq<Vector>, levels: seq<nat>, m: nat, efConstruction: nat, efSearch: nat,
                    query: Vector, k: nat, mask: Option<seq<bool>>)
    returns (exact: Result<seq<nat>>, approximate: Result<seq<nat>>)
    requires |levels| == |vectors| && Flat.New(ids, vectors).Ok? && Increasing(ids)
    requires |ids| <= Max(2 * m, 1) + 1 && |ids| <= Max(efConstruction, 1) + 1
    ensures exact == Flat.SearchKnn(Flat.New(ids, vectors).value, query, k, mask)
    ensures approximate == exact
  {
    var flat := Flat.New(ids, vectors).value;
    exact := Flat.SearchKnn(flat, query, k, mask);
    SameLengthAgrees(vectors);
    var built, index := Build(ids, vectors, levels, m, efConstruction, efSearch);
    ghost var hits;
    approximate, hits := index.SearchKnn(query, k, mask);
    if approximate.Ok? && k > 0 {
      ExactHitsAreFlat(index.nodes, flat, query, mask, k, hits);
      assert approximate.value == exact.value;
    } else if approximate.Ok? {
      assert approximate.value == [];
    }
  }

  lemma {:induction false} DimAfterFirst(vectors: seq<Vector>, n: nat)
    requires 0 < n <= |vectors| && |vectors[0]| > 0
    ensures DimAfter(vectors, n) == |vectors[0]|
  {
    if n > 1 {
      DimAfterFirst(vectors, n - 1);
    }
  }

  lemma SameLengthAgrees(vectors: seq<Vector>)
    requires vectors != [] && vectors[0] != [] && forall v :: v in vectors ==> |v| == |vectors[0]|
    ensures DimsAgree(vectors, |vectors|) && DimAfter(vectors, |vectors|) == |vectors[0]|
  {
    forall i | 0 <= i < |vectors| ensures DimAfter(vectors, i) == 0 || |vectors[i]| == DimAfter(vectors, i) {
      if i > 0 {
        DimAfterFirst(vectors, i);
        assert vectors[i] in vectors;
      }
    }
    DimAfterFirst(vectors, |vectors|);
  }
}
