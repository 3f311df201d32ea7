/** `FlatIndex`: exact brute-force k-nearest-neighbour search, the reference for `HnswIndex`. */
module FlatIndex {
  import opened Basics
  import opened Nearest
  import opened Vectors

  datatype Flat = Flat(ids: seq<U64>, vectors: seq<Vector>, dim: nat)

  function New(ids: seq<U64>, vectors: seq<Vector>): (r: Result<Flat>)
    ensures r.Ok? <==>
              && |ids| == |vectors| && vectors != [] && vectors[0] != []
              && forall v :: v in vectors ==> |v| == |vectors[0]|
    ensures r.Ok? ==> r.value.ids == ids && r.value.vectors == vectors && r.value.dim == |vectors[0]|
    ensures r.Err? ==> r.error == InvalidArgument
  {
    if |ids| != |vectors| then Err(InvalidArgument)
    else if vectors == [] then Err(InvalidArgument)
    else if vectors[0] == [] then Err(InvalidArgument)
    else if exists v :: v in vectors && |v| != |vectors[0]| then Err(InvalidArgument)
    else Ok(Flat(ids, vectors, |vectors[0]|))
  }

  predicate Admits(mask: Option<seq<bool>>, i: nat)
    requires mask.Some? ==> i < |mask.value|
  {
    mask.None? || mask.value[i]
  }

  /** The first `n` vectors let through by the mask, scored, with their ids. */
  function Scores(ids: seq<U64>, vectors: seq<Vector>, query: Vector, mask: Option<seq<bool>>, n: nat): (s: seq<Scored>)
    requires n <= |ids| == |vectors| && (mask.Some? ==> n <= |mask.value|)
  {
    if n == 0 then []
    else
      Scores(ids, vectors, query, mask, n - 1) +
      if Admits(mask, n - 1) then [Scored(SquaredL2(query, vectors[n - 1]), ids[n - 1])] else []
  }

  function Ids(s: seq<Scored>): (r: seq<nat>)
    ensures |r| == |s|
  {
    seq(|s|, k requires 0 <= k < |s| => s[k].pos)
  }

  function SearchKnn(flat: Flat, query: Vector, k: nat, mask: Option<seq<bool>>): (r: Result<seq<nat>>)
    requires |flat.ids| == |flat.vectors|
    ensures r.Err? <==> |query| != flat.dim || (mask.Some? && |mask.value| != |flat.vectors|)
    ensures r.Err? ==> r.error == InvalidArgument
  {
    if |query| != flat.dim then Err(InvalidArgument)
    else if mask.Some? && |mask.value| != |flat.vectors| then Err(InvalidArgument)
    else if k == 0 then Ok([])
    else Ok(Ids(Truncate(SortAsc(Scores(flat.ids, flat.vectors, query, mask, |flat.vectors|)), k)))
  }

  /** The vectors at the given positions, scored over coordinates, with their ids. */
  ghost function ScoredAt(flat: Flat, query: Vector, at: seq<nat>): (s: seq<Scored>)
    requires |flat.ids| == |flat.vectors| && forall i :: 0 <= i < |at| ==> at[i] < |flat.vectors|
    ensures |s| == |at|
    ensures forall i :: 0 <= i < |at| ==> s[i] == Scored(Distance(query, flat.vectors[at[i]]), flat.ids[at[i]])
  {
    seq(|at|, i requires 0 <= i < |at| => Scored(Distance(query, flat.vectors[at[i]]), flat.ids[at[i]]))
  }

  /** The scores are those of the allowed positions, in order. */
  lemma {:induction false} ScoresAre(flat: Flat, query: Vector, mask: Option<seq<bool>>, n: nat) returns (allowed: seq<nat>)
    requires n <= |flat.ids| == |flat.vectors| && (mask.Some? ==> n <= |mask.value|)
    ensures forall p :: p in allowed <==> 0 <= p < n && (mask.Some? ==> mask.value[p])
    ensures forall i, j :: 0 <= i < j < |allowed| ==> allowed[i] < allowed[j]
    ensures forall i :: 0 <= i < |allowed| ==> allowed[i] < n
    ensures Scores(flat.ids, flat.vectors, query, mask, n) == ScoredAt(flat, query, allowed)
  {
    if n == 0 {
      allowed := [];
    } else {
      allowed := ScoresAre(flat, query, mask, n - 1);
      SquaredL2IsSum(query, flat.vectors[n - 1]);
      hide SquaredL2, Distance;
      if mask.Some? ==> mask.value[n - 1] {
        allowed := allowed + [n - 1];
      }
    }
  }

  /** The answer is a correct k-nearest list over coordinates: the allowed vectors, scored with the sum over all
      common coordinates, split into the answer, by distance and then id, and a rest of which none comes earlier. */
  lemma SearchIsNearest(flat: Flat, query: Vector, k: nat, mask: Option<seq<bool>>)
    returns (allowed: seq<nat>, hits: seq<Scored>, rest: seq<Scored>)
    requires |flat.ids| == |flat.vectors| && SearchKnn(flat, query, k, mask).Ok?
    ensures SearchKnn(flat, query, k, mask).value == Ids(hits)
    ensures forall i, j :: 0 <= i < j < |allowed| ==> allowed[i] < allowed[j]
    ensures forall p :: p in allowed <==> 0 <= p < |flat.vectors| && (mask.Some? ==> mask.value[p])
    ensures forall i :: 0 <= i < |allowed| ==> allowed[i] < |flat.vectors|
    ensures multiset(hits + rest) == multiset(ScoredAt(flat, query, allowed))
    ensures |hits| <= k && (rest != [] ==> |hits| == k)
    ensures forall i, j :: 0 <= i < j < |hits| ==>
              hits[i].dist < hits[j].dist || (hits[i].dist == hits[j].dist && hits[i].pos <= hits[j].pos)
    ensures forall h, t :: h in hits && t in rest ==> h.dist < t.dist || (h.dist == t.dist && h.pos <= t.pos)
  {
    var s := Scores(flat.ids, flat.vectors, query, mask, |flat.vectors|);
    hide SortAsc, Scores, ScoredAt, Distance, WeaklyAscending, Less, Admits;
    allowed := ScoresAre(flat, query, mask, |flat.vectors|);
    SortAscSorts(s);
    hits := Truncate(SortAsc(s), k);
    rest := SplitSorted(SortAsc(s), k);
  }

  /** Cutting a sorted list: no element of the rest precedes one that is kept. */
  lemma SplitSorted(all: seq<Scored>, k: nat) returns (rest: seq<Scored>)
    requires WeaklyAscending(all)
    ensures all == Truncate(all, k) + rest && (rest != [] ==> |Truncate(all, k)| == k)
    ensures var hits := Truncate(all, k);
            forall i, j :: 0 <= i < j < |hits| ==>
              hits[i].dist < hits[j].dist || (hits[i].dist == hits[j].dist && hits[i].pos <= hits[j].pos)
    ensures forall h, t :: h in Truncate(all, k) && t in rest ==>
              h.dist < t.dist || (h.dist == t.dist && h.pos <= t.pos)
  {
    var hits := Truncate(all, k);
    rest := all[|hits|..];
    forall h, t | h in hits && t in rest ensures !Less(t, h) {
      var i :| 0 <= i < |hits| && hits[i] == h;
      var j :| 0 <= j < |rest| && rest[j] == t;
      assert all[i] == h && all[|hits| + j] == t;
    }
  }
}
