/** Scored positions, their total order, and "the `ef` smallest of a set". */
module Nearest {
  import opened Basics

  /** A `(distance, position)` pair; `FlatIndex` uses the external id in place of the position. */
  datatype Scored = Scored(dist: real, pos: nat)

  /** The comparison of `sort_asc`: distance first, then position. */
  predicate Less(a: Scored, b: Scored) {
    a.dist < b.dist || (a.dist == b.dist && a.pos < b.pos)
  }

  function Insert(x: Scored, s: seq<Scored>): (r: seq<Scored>)
  {
    if s == [] || Less(x, s[0]) then [x] + s else [s[0]] + Insert(x, s[1..])
  }

  /** `sort_asc`. */
  function SortAsc(s: seq<Scored>): (r: seq<Scored>)
  {
    if s == [] then [] else Insert(s[0], SortAsc(s[1..]))
  }

  function Truncate<T>(s: seq<T>, n: nat): (r: seq<T>)
    ensures |r| == Min(|s|, n)
    ensures r <= s
  {
    if |s| > n then s[..n] else s
  }

  ghost predicate Ascending(s: seq<Scored>) {
    forall i, j :: 0 <= i < j < |s| ==> Less(s[i], s[j])
  }

  ghost predicate WeaklyAscending(s: seq<Scored>) {
    forall i, j :: 0 <= i < j < |s| ==> !Less(s[j], s[i])
  }

  /** `s` lists the elements of `S`, each once. */
  ghost predicate Enumerates(s: seq<Scored>, S: set<Scored>) {
    && NoDup(s)
    && forall x :: x in s <==> x in S
  }

  /** `r` is the ascending list of the `ef` smallest elements of `S` (all of them when there are fewer). */
  ghost predicate TopOf(r: seq<Scored>, S: set<Scored>, ef: nat) {
    && Ascending(r)
    && |r| <= ef
    && (forall x :: x in r ==> x in S)
    && (forall y :: y in S && y !in r ==> |r| == ef && forall x :: x in r ==> Less(x, y))
  }

  lemma {:induction false} InsertMembers(x: Scored, s: seq<Scored>)
    ensures multiset(Insert(x, s)) == multiset(s) + multiset{x}
    ensures |Insert(x, s)| == |s| + 1
  {
    if s != [] && !Less(x, s[0]) {
      InsertMembers(x, s[1..]);
      assert s == [s[0]] + s[1..];
    }
  }

  lemma {:induction false} InsertKeeps(x: Scored, s: seq<Scored>)
    requires WeaklyAscending(s)
    ensures WeaklyAscending(Insert(x, s))
  {
    if s != [] && !Less(x, s[0]) {
      InsertKeeps(x, s[1..]);
      InsertMembers(x, s[1..]);
      var t := Insert(x, s[1..]);
      assert Insert(x, s) == [s[0]] + t;
      hide Insert;
      forall j | 0 <= j < |t| ensures !Less(t[j], s[0]) {
        assert t[j] in multiset(t);
        assert t[j] == x || t[j] in s[1..];
      }
    }
  }

  /** Sorting permutes, and the result never steps down. */
  lemma {:induction false} SortAscSorts(s: seq<Scored>)
    ensures multiset(SortAsc(s)) == multiset(s)
    ensures |SortAsc(s)| == |s|
    ensures WeaklyAscending(SortAsc(s))
    ensures forall x :: x in SortAsc(s) <==> x in s
  {
    if s == [] {
    } else {
      SortAscSorts(s[1..]);
      InsertKeeps(s[0], SortAsc(s[1..]));
      InsertMembers(s[0], SortAsc(s[1..]));
      assert s == [s[0]] + s[1..];
      SameMembers(s, SortAsc(s));
    }
  }

  lemma SameMembers<T>(s: seq<T>, t: seq<T>)
    requires multiset(s) == multiset(t)
    ensures forall x :: x in t <==> x in s
  {
    forall x ensures x in t <==> x in s {
      assert x in multiset(t) <==> x in multiset(s);
    }
  }

  lemma NoDupAsMultiset(s: seq<Scored>, t: seq<Scored>)
    requires NoDup(s) && multiset(s) == multiset(t) && |s| == |t|
    ensures NoDup(t)
  {
    forall x | x in t ensures x in s {
      assert x in multiset(t);
    }
    forall x | x in s ensures x in t {
      assert x in multiset(s);
    }
    CardOfNoDup(s);
    assert SetOf(s) == SetOf(t);
    if i, j :| 0 <= i < j < |t| && t[i] == t[j] {
      var u := t[..j] + t[j + 1..];
      assert SetOf(t) <= SetOf(u) by {
        forall x | x in SetOf(t) ensures x in SetOf(u) {
          var k :| 0 <= k < |t| && t[k] == x;
          var k' := if k == j then i else k;
          assert t[k'] == x;
          assert u[if k' < j then k' else k' - 1] == x;
        }
      }
      CardOfSeq(u);
      CardOfSubset(SetOf(t), SetOf(u));
    }
  }

  lemma {:induction false} CardOfSeq<T>(s: seq<T>)
    ensures |SetOf(s)| <= |s|
  {
    if s == [] {
    } else {
      var init := s[..|s| - 1];
      CardOfSeq(init);
      assert SetOf(s) == SetOf(init) + {s[|s| - 1]};
    }
  }

  /** On a duplicate-free list the order is strict. */
  lemma SortAscEnumerates(s: seq<Scored>, S: set<Scored>)
    requires Enumerates(s, S)
    ensures Ascending(SortAsc(s)) && Enumerates(SortAsc(s), S) && |SortAsc(s)| == |s|
  {
    SortAscSorts(s);
    NoDupAsMultiset(s, SortAsc(s));
  }

  /** Merging new elements into the best `ef` and cutting back to `ef` keeps exactly the best `ef`. */
  lemma TopStep(r: seq<Scored>, S: set<Scored>, added: seq<Scored>, F: set<Scored>, ef: nat)
    requires TopOf(r, S, ef) && Enumerates(added, F) && S !! F
    ensures TopOf(Truncate(SortAsc(r + added), ef), S + F, ef)
  {
    var both := r + added;
    var B := SetOf(both);
    assert Enumerates(both, B) by {
      forall i, j | 0 <= i < j < |both| ensures both[i] != both[j] {
        assert both[i] in S || both[i] in F;
      }
    }
    SortAscEnumerates(both, B);
    var m := SortAsc(both);
    var t := Truncate(m, ef);
    forall x | x in t ensures x in S + F {
      assert x in m;
    }
    forall y | y in S + F && y !in t
      ensures |t| == ef && forall x :: x in t ==> Less(x, y)
    {
      if y in both {
        var k :| 0 <= k < |m| && m[k] == y;
        assert k >= ef;
      } else {
        // y was cut earlier: all ef elements of r precede it
        assert y in S && y !in r;
        assert |r| == ef;
        forall x | x in t ensures Less(x, y) {
          if !Less(x, y) {
            var k :| 0 <= k < |t| && t[k] == x;
            Crowded(r, m, k, y);
          }
        }
      }
    }
  }

  /** If every element of `r` lies below `m[k]`, then `r` is no longer than `k`. */
  lemma Crowded(r: seq<Scored>, m: seq<Scored>, k: nat, y: Scored)
    requires Ascending(r) && Ascending(m) && k < |m| && !Less(m[k], y)
    requires forall x :: x in r ==> x in m && Less(x, y)
    ensures |r| <= k
  {
    forall x | x in r ensures x in m[..k] {
      var i :| 0 <= i < |m| && m[i] == x;
      assert i < k;
    }
    CardOfNoDup(r);
    CardOfSeq(m[..k]);
    CardOfSubset(SetOf(r), SetOf(m[..k]));
  }

  /** The best `ef` are a prefix of the whole sorted list, so they are unique. */
  lemma TopIsPrefix(r: seq<Scored>, S: set<Scored>, ef: nat, all: seq<Scored>)
    requires TopOf(r, S, ef) && Enumerates(all, S)
    ensures r == Truncate(SortAsc(all), ef)
  {
    SortAscEnumerates(all, S);
    var m := SortAsc(all);
    TopNotLonger(r, m);
    PrefixUpTo(r, S, ef, m, |r|);
    assert m[..|r|] == r;
    if |r| < |m| {
      forall i | 0 <= i < |r| ensures r[i] != m[|r|] {
        assert m[..|r|][i] == m[i];
      }
      assert m[|r|] in m && m[|r|] !in r;
    }
  }

  lemma TopNotLonger(r: seq<Scored>, m: seq<Scored>)
    requires Ascending(r) && forall x :: x in r ==> x in m
    ensures |r| <= |m|
  {
    CardOfNoDup(r);
    CardOfSeq(m);
    CardOfSubset(SetOf(r), SetOf(m));
  }

  lemma {:induction false} PrefixUpTo(r: seq<Scored>, S: set<Scored>, ef: nat, m: seq<Scored>, n: nat)
    requires TopOf(r, S, ef) && Ascending(m) && Enumerates(m, S) && n <= |r| <= |m|
    ensures r[..n] == m[..n]
  {
    if n > 0 {
      PrefixUpTo(r, S, ef, m, n - 1);
      var i := n - 1;
      assert forall h :: 0 <= h < i ==> r[..i][h] == m[..i][h];
      NextNotBelow(r, S, ef, m, i);
      assert r[i] in m;
      var j :| 0 <= j < |m| && m[j] == r[i];
      assert forall h :: 0 <= h < i ==> m[h] == r[h] && Less(r[h], r[i]);
      InOrder(m, i, j);
      assert r[..n] == r[..i] + [r[i]] && m[..n] == m[..i] + [m[i]];
    }
  }

  lemma InOrder(s: seq<Scored>, i: nat, j: nat)
    requires Ascending(s) && i < |s| && j < |s|
    ensures i < j ==> Less(s[i], s[j])
  {
  }

  /** After a common beginning, the next of the best is no later than the next of all. */
  lemma NextNotBelow(r: seq<Scored>, S: set<Scored>, ef: nat, m: seq<Scored>, i: nat)
    requires TopOf(r, S, ef) && Ascending(m) && Enumerates(m, S) && i < |r| <= |m|
    requires forall h :: 0 <= h < i ==> r[h] == m[h]
    ensures !Less(m[i], r[i])
  {
    assert m[i] in m && r[i] in r;
    if m[i] in r {
      var h :| 0 <= h < |r| && r[h] == m[i];
      InOrder(m, h, i);
      InOrder(r, i, h);
    }
  }
}
