/** Temporal edges and the canonical `(src, valid_from, valid_to, dst)` order. */
module Edges {
  import opened Basics

  /** One row of an edge table; the five columns of `EdgeRow` and `DeltaEdge`. */
  datatype Edge = Edge(src: U64, dst: U64, edgeType: U16, validFrom: I64, validTo: I64)

  /** Half-open validity interval. */
  predicate Active(e: Edge, t: I64) {
    e.validFrom <= t < e.validTo
  }

  /** The sort key leaves `edge_type` out, so edges that differ only there tie. */
  predicate KeyLess(a: Edge, b: Edge) {
    if a.src != b.src then a.src < b.src
    else if a.validFrom != b.validFrom then a.validFrom < b.validFrom
    else if a.validTo != b.validTo then a.validTo < b.validTo
    else a.dst < b.dst
  }

  ghost predicate KeySorted(s: seq<Edge>) {
    forall i, j :: 0 <= i < j < |s| ==> !KeyLess(s[j], s[i])
  }

  /** Rows in ascending order of `(src, valid_from, valid_to, dst)`. */
  ghost predicate CanonicalOrder(s: seq<Edge>) {
    forall i, j :: 0 <= i < j < |s| ==>
      || s[i].src < s[j].src
      || (s[i].src == s[j].src && s[i].validFrom < s[j].validFrom)
      || (s[i].src == s[j].src && s[i].validFrom == s[j].validFrom && s[i].validTo < s[j].validTo)
      || (s[i].src == s[j].src && s[i].validFrom == s[j].validFrom && s[i].validTo == s[j].validTo
          && s[i].dst <= s[j].dst)
  }

  /** The key order is that order. */
  lemma KeySortedIsCanonical(s: seq<Edge>)
    ensures KeySorted(s) <==> CanonicalOrder(s)
  {
  }

  function InsertByKey(e: Edge, s: seq<Edge>): (r: seq<Edge>)
  {
    if s == [] || !KeyLess(s[0], e) then [e] + s else [s[0]] + InsertByKey(e, s[1..])
  }

  function SortByKey(s: seq<Edge>): (r: seq<Edge>)
  {
    if s == [] then [] else InsertByKey(s[0], SortByKey(s[1..]))
  }

  lemma {:induction false} InsertByKeyMembers(e: Edge, s: seq<Edge>)
    ensures multiset(InsertByKey(e, s)) == multiset(s) + multiset{e}
  {
    if s != [] && KeyLess(s[0], e) {
      InsertByKeyMembers(e, s[1..]);
      assert s == [s[0]] + s[1..];
    }
  }

  lemma {:induction false} InsertByKeyKeeps(e: Edge, s: seq<Edge>)
    requires KeySorted(s)
    ensures KeySorted(InsertByKey(e, s))
  {
    if s != [] && KeyLess(s[0], e) {
      InsertByKeyKeeps(e, s[1..]);
      InsertByKeyMembers(e, s[1..]);
      var t := InsertByKey(e, s[1..]);
      assert InsertByKey(e, s) == [s[0]] + t;
      hide InsertByKey;
      forall j | 0 <= j < |t| ensures !KeyLess(t[j], s[0]) {
        assert t[j] in multiset(t);
        assert t[j] == e || t[j] in s[1..];
      }
    }
  }

  lemma {:induction false} SortByKeySorts(s: seq<Edge>)
    ensures KeySorted(SortByKey(s)) && multiset(SortByKey(s)) == multiset(s)
  {
    if s != [] {
      SortByKeySorts(s[1..]);
      InsertByKeyKeeps(s[0], SortByKey(s[1..]));
      InsertByKeyMembers(s[0], SortByKey(s[1..]));
      assert s == [s[0]] + s[1..];
    }
  }

  /** `sort_unstable_by_key`: some sorted permutation; how ties fall is left open. */
  method SortUnstableByKey(s: seq<Edge>) returns (r: seq<Edge>)
    ensures KeySorted(r) && multiset(r) == multiset(s) && |r| == |s|
  {
    SortByKeySorts(s);
    r := SortByKey(s);
    assert |r| == |multiset(r)|;
  }

  lemma SameElements<T>(s: seq<T>, t: seq<T>)
    requires multiset(s) == multiset(t)
    ensures forall x :: x in s <==> x in t
  {
    forall x ensures x in s <==> x in t {
      assert x in multiset(s) <==> x in multiset(t);
    }
  }

  /** The sub-list of rows leaving `s` and active at `t`. */
  ghost function ActiveFrom(rows: seq<Edge>, s: U64, t: I64): (r: seq<Edge>)
  {
    if rows == [] then []
    else
      var last := rows[|rows| - 1];
      ActiveFrom(rows[..|rows| - 1], s, t) + if last.src == s && Active(last, t) then [last] else []
  }

  /** Filtering keeps exactly the multiplicities of the rows that pass. */
  lemma {:induction false} ActiveFromCounts(rows: seq<Edge>, s: U64, t: I64, e: Edge)
    ensures multiset(ActiveFrom(rows, s, t))[e] == if e.src == s && Active(e, t) then multiset(rows)[e] else 0
  {
    if rows != [] {
      ActiveFromCounts(rows[..|rows| - 1], s, t, e);
      assert rows == rows[..|rows| - 1] + [rows[|rows| - 1]];
    }
  }

  lemma {:induction false} ActiveFromSplit(a: seq<Edge>, b: seq<Edge>, s: U64, t: I64)
    ensures ActiveFrom(a + b, s, t) == ActiveFrom(a, s, t) + ActiveFrom(b, s, t)
  {
    if b == [] {
      assert a + b == a;
    } else {
      var init := b[..|b| - 1];
      ActiveFromSplit(a, init, s, t);
      assert (a + b)[..|a + b| - 1] == a + init;
    }
  }
}
