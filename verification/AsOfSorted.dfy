/** `asof_join_sorted_inner` and `asof_join_unsorted_inner`: the as-of join without a tolerance. */
module AsOfSorted {
  import opened Basics
  import opened AsOf

  /** The value of the last right row at or before `l`. */
  function ValueAsOf<T>(right: seq<I64>, values: seq<T>, l: I64): (v: Option<T>)
    requires |values| == |right|
  {
    if Upper(right, l) == 0 then None else Some(values[Upper(right, l) - 1])
  }

  /** It is the tolerance join with a tolerance no difference exceeds. */
  lemma ValueIsUnboundedMatch<T(!new)>(right: seq<I64>, values: seq<T>, l: I64, tolerance: I64, miss: T)
    requires Ascending(right) && |values| == |right|
    requires forall k :: 0 <= k < |right| ==> Diff(l, right[k]) <= tolerance
    ensures (ValueAsOf(right, values, l) == None <==> MatchRow(right, l, tolerance) == None)
    ensures ValueAsOf(right, values, l).Some? ==>
              ValueAsOf(right, values, l).value == Pick(values, MatchRow(right, l, tolerance), miss)
  {
  }

  /** The running state of the merge: `j` rows consumed, the last one's value remembered. */
  ghost predicate Merged<T(!new)>(right: seq<I64>, values: seq<T>, j: nat, last: Option<T>, l: int)
    requires |values| == |right|
  {
    && j <= |right|
    && (forall k :: 0 <= k < j ==> right[k] <= l)
    && last == if j == 0 then None else Some(values[j - 1])
  }

  /** Consume the right rows at or before `l`. */
  method Consume<T(!new)>(right: seq<I64>, values: seq<T>, l: I64, j0: nat, last0: Option<T>)
    returns (j: nat, last: Option<T>)
    requires Ascending(right) && |values| == |right| && Merged(right, values, j0, last0, l)
    ensures Merged(right, values, j, last, l) && last == ValueAsOf(right, values, l)
  {
    j, last := j0, last0;
    while j < |right| && right[j] <= l
      invariant Merged(right, values, j, last, l)
    {
      last := Some(values[j]);
      j := j + 1;
    }
    if j > 0 {
      UpperSplits(right, l, j - 1);
    }
    if j < |right| {
      UpperSplits(right, l, j);
    }
  }

  /** Monotonic two-pointer merge over ascending left times. */
  method JoinSorted<T(!new)>(left: seq<I64>, right: seq<I64>, values: seq<T>) returns (out: seq<Option<T>>)
    requires Ascending(left) && Ascending(right) && |values| == |right|
    ensures |out| == |left|
    ensures forall i :: 0 <= i < |left| ==> out[i] == ValueAsOf(right, values, left[i])
  {
    out := [];
    var j, last := 0, None;
    for i := 0 to |left|
      invariant i < |left| ==> Merged(right, values, j, last, left[i])
      invariant |out| == i
      invariant forall k :: 0 <= k < i ==> out[k] == ValueAsOf(right, values, left[k])
    {
      j, last := Consume(right, values, left[i], j, last);
      out := out + [last];
    }
  }

  // ---------- argsort ----------

  ghost predicate SortedBy(keys: seq<I64>, order: seq<nat>) {
    && (forall i :: 0 <= i < |order| ==> order[i] < |keys|)
    && forall i, j :: 0 <= i < j < |order| ==> keys[order[i]] <= keys[order[j]]
  }

  ghost predicate IsArgsort(keys: seq<I64>, order: seq<nat>) {
    && SortedBy(keys, order)
    && NoDup(order)
    && SetOf(order) == Below(|keys|)
  }

  method InsertIndex(keys: seq<I64>, order: seq<nat>, x: nat) returns (r: seq<nat>)
    requires SortedBy(keys, order) && NoDup(order) && x < |keys| && x !in order
    ensures SortedBy(keys, r) && NoDup(r) && SetOf(r) == SetOf(order) + {x}
  {
    var at := 0;
    while at < |order| && keys[order[at]] <= keys[x]
      invariant 0 <= at <= |order|
      invariant forall k :: 0 <= k < at ==> keys[order[k]] <= keys[x]
    {
      at := at + 1;
    }
    r := order[..at] + [x] + order[at..];
    InsertedMembers(order, x, at);
    InsertedSorted(keys, order, x, at);
  }

  lemma InsertedMembers(order: seq<nat>, x: nat, at: nat)
    requires at <= |order|
    ensures SetOf(order[..at] + [x] + order[at..]) == SetOf(order) + {x}
  {
    SetOfConcat(order[..at] + [x], order[at..]);
    SetOfConcat(order[..at], [x]);
    SetOfConcat(order[..at], order[at..]);
    assert order == order[..at] + order[at..] && SetOf([x]) == {x};
  }

  lemma InsertedSorted(keys: seq<I64>, order: seq<nat>, x: nat, at: nat)
    requires SortedBy(keys, order) && NoDup(order) && x < |keys| && x !in order && at <= |order|
    requires forall k :: 0 <= k < at ==> keys[order[k]] <= keys[x]
    requires at < |order| ==> keys[x] <= keys[order[at]]
    ensures SortedBy(keys, order[..at] + [x] + order[at..]) && NoDup(order[..at] + [x] + order[at..])
  {
    var r := order[..at] + [x] + order[at..];
    forall k | at <= k < |order| ensures keys[x] <= keys[order[k]] {
      assert k > at ==> keys[order[at]] <= keys[order[k]];
    }
    forall k | 0 <= k < |r| ensures r[k] == if k < at then order[k] else if k == at then x else order[k - 1] {
    }
    assert forall k :: 0 <= k < |order| ==> order[k] != x;
  }

  /** `sort_unstable_by_key` on the indices: some order with ascending keys. */
  method Argsort(keys: seq<I64>) returns (order: seq<nat>)
    ensures IsArgsort(keys, order)
  {
    order := [];
    for x := 0 to |keys|
      invariant SortedBy(keys, order) && NoDup(order) && SetOf(order) == Below(x)
    {
      assert x !in SetOf(order);
      order := InsertIndex(keys, order, x);
    }
  }

  /** The first `n` positions an argsort visits hold the expected values. */
  ghost predicate Placed<T(!new)>(order: seq<nat>, slots: seq<T>, expected: seq<T>, n: nat) {
    && |slots| == |expected| && n <= |order|
    && forall k :: 0 <= k < n ==> order[k] < |slots| && slots[order[k]] == expected[order[k]]
  }

  lemma PlacedMore<T(!new)>(order: seq<nat>, slots: seq<T>, expected: seq<T>, n: nat)
    requires Placed(order, slots, expected, n) && n < |order| && order[n] < |slots|
    ensures Placed(order, slots[order[n] := expected[order[n]]], expected, n + 1)
  {
  }

  /** In the end that is every position. */
  lemma AllPlaced<T(!new)>(keys: seq<I64>, order: seq<nat>, slots: seq<T>, expected: seq<T>)
    requires IsArgsort(keys, order) && |expected| == |keys| && Placed(order, slots, expected, |order|)
    ensures slots == expected
  {
    forall i | 0 <= i < |keys| ensures slots[i] == expected[i] {
      assert i in SetOf(order);
      var k :| 0 <= k < |order| && order[k] == i;
    }
  }

  lemma SortedSteps(keys: seq<I64>, order: seq<nat>)
    requires IsArgsort(keys, order)
    ensures forall n :: 0 <= n < |order| ==> order[n] < |keys|
    ensures forall n, k :: 0 <= n && k == n + 1 < |order| ==> keys[order[n]] <= keys[order[k]]
  {
  }

  /** Moving on to a later left time, the rows consumed so far still count. */
  lemma MergedLater<T(!new)>(right: seq<I64>, values: seq<T>, j: nat, last: Option<T>, l: int, later: int)
    requires |values| == |right| && Merged(right, values, j, last, l) && l <= later
    ensures Merged(right, values, j, last, later)
  {
  }

  /** Argsort, one monotonic merge, results written back in input order: whatever the order of ties, each left
      position gets the value of the last right row at or before its own time. */
  method JoinUnsorted<T(!new)>(left: seq<I64>, right: seq<I64>, values: seq<T>) returns (out: seq<Option<T>>)
    requires Ascending(right) && |values| == |right|
    ensures |out| == |left|
    ensures forall i :: 0 <= i < |left| ==> out[i] == ValueAsOf(right, values, left[i])
  {
    if |left| == 0 {
      return [];
    }
    var order := Argsort(left);
    var slots := new Option<T>[|left|](_ => None);
    var j, last := 0, None;
    ghost var expected := seq(|left|, i requires 0 <= i < |left| => ValueAsOf(right, values, left[i]));
    assert Placed(order, slots[..], expected, 0);
    assert 0 in SetOf(order) && Merged(right, values, 0, None, left[order[0]]);
    SortedSteps(left, order);
    hide ValueAsOf, Merged, AsOf.Ascending, Upper, IsArgsort, Placed;
    for n := 0 to |order|
      invariant n < |order| ==> Merged(right, values, j, last, left[order[n]])
      invariant Placed(order, slots[..], expected, n)
    {
      var x := order[n];
      PlacedMore(order, slots[..], expected, n);
      j, last := Consume(right, values, left[x], j, last);
      ghost var placed := slots[..][x := expected[x]];
      slots[x] := last;
      assert slots[..] == placed;
      if n + 1 < |order| {
        MergedLater(right, values, j, last, left[x], left[order[n + 1]]);
      }
    }
    AllPlaced(left, order, slots[..], expected);
    out := slots[..];
  }

  /** Hence permuting the left side permutes the result, and on ascending input both joins agree. */
  method JoinPermuted<T(!new)>(left: seq<I64>, permuted: seq<I64>, where: seq<nat>, right: seq<I64>, values: seq<T>)
    returns (out: seq<Option<T>>, outPermuted: seq<Option<T>>)
    requires Ascending(right) && |values| == |right| && |permuted| == |left| == |where|
    requires forall i :: 0 <= i < |left| ==> where[i] < |left| && permuted[i] == left[where[i]]
    ensures |out| == |left| && |outPermuted| == |left|
    ensures forall i :: 0 <= i < |left| ==> outPermuted[i] == out[where[i]]
  {
    out := JoinUnsorted(left, right, values);
    outPermuted := JoinUnsorted(permuted, right, values);
  }

  method JoinBoth<T(!new)>(left: seq<I64>, right: seq<I64>, values: seq<T>)
    returns (sorted: seq<Option<T>>, unsorted: seq<Option<T>>)
    requires Ascending(left) && Ascending(right) && |values| == |right|
    ensures sorted == unsorted
  {
    sorted := JoinSorted(left, right, values);
    unsorted := JoinUnsorted(left, right, values);
  }
}
