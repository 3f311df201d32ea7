/** The CPU as-of joins: parallel chunks in any order, each a two-pointer sweep over its own rows. */
module AsOfJoins {
  import opened Basics
  import opened AsOf

  /** The inputs every form shares: ascending right times, left times ascending inside each chunk, aligned
      payload columns. */
  ghost predicate Inputs<T>(left: seq<I64>, right: seq<I64>, price: seq<T>, spread: seq<T>, chunk: nat) {
    && chunk > 0
    && Ascending(right) && ChunkwiseAscending(left, chunk)
    && |price| == |right| && |spread| == |right|
  }

  /** Rows `start..end` of one chunk. */
  ghost predicate IsChunk(left: seq<I64>, chunk: nat, c: nat, start: nat, end: nat)
    requires chunk > 0
  {
    && start == c * chunk && end == Min(start + chunk, |left|)
    && start < end <= |left|
  }

  /** The rows of chunk `c`. */
  method ChunkRange(left: seq<I64>, chunk: nat, c: nat) returns (start: nat, end: nat)
    requires chunk > 0 && ChunkwiseAscending(left, chunk) && c < ChunkCount(|left|, chunk)
    ensures IsChunk(left, chunk, c, start, end) && start < end <= |left|
    ensures forall i, j :: start <= i < j < end ==> left[i] <= left[j]
    ensures forall k :: 0 <= k < |left| ==> (start <= k < end <==> ChunkOf(k, chunk) == c)
  {
    ChunkStarts(c, |left|, chunk);
    start := c * chunk;
    end := Min(start + chunk, |left|);
    ChunkAscends(left, chunk, c, start, end);
    forall k | 0 <= k < |left| ensures start <= k < end <==> ChunkOf(k, chunk) == c {
      ChunkBounds(k, c, |left|, chunk);
    }
  }

  lemma ChunkAscends(left: seq<I64>, chunk: nat, c: nat, start: nat, end: nat)
    requires chunk > 0 && ChunkwiseAscending(left, chunk) && IsChunk(left, chunk, c, start, end)
    ensures forall i, j :: start <= i < j < end ==> left[i] <= left[j]
  {
    forall i, j | start <= i < j < end ensures left[i] <= left[j] {
      ChunkBounds(i, c, |left|, chunk);
      ChunkBounds(j, c, |left|, chunk);
    }
  }

  /** Rows of finished chunks hold the reference value; the others still hold what they held at the start. */
  ghost predicate Finished<T(!new)>(out: seq<T>, expected: seq<T>, chunk: nat, pending: set<nat>)
    requires chunk > 0
  {
    && |out| == |expected|
    && forall k :: 0 <= k < |out| && ChunkOf(k, chunk) !in pending ==> out[k] == expected[k]
  }

  lemma ChunkFinished<T(!new)>(before: seq<T>, after: seq<T>, expected: seq<T>, left: seq<I64>, chunk: nat,
                         pending: set<nat>, c: nat, start: nat, end: nat)
    requires chunk > 0 && |after| == |before| == |left| && IsChunk(left, chunk, c, start, end)
    requires Finished(before, expected, chunk, pending)
    requires after[..start] == before[..start] && after[start..end] == expected[start..end] && after[end..] == before[end..]
    ensures Finished(after, expected, chunk, pending - {c})
  {
    forall k | 0 <= k < |after| && ChunkOf(k, chunk) !in pending - {c} ensures after[k] == expected[k] {
      ChunkBounds(k, c, |left|, chunk);
      if k < start {
        assert after[..start][k] == before[..start][k];
      } else if k < end {
        assert after[start..end][k - start] == expected[start..end][k - start];
      } else {
        assert after[end..][k - end] == before[end..][k - end];
      }
    }
  }

  lemma AllFinished<T(!new)>(out: seq<T>, expected: seq<T>, chunk: nat)
    requires chunk > 0 && Finished(out, expected, chunk, {})
    ensures out == expected
  {
  }

  // ---------- v1: partition point per chunk ----------

  method SweepFast<T(!new)>(left: seq<I64>, right: seq<I64>, price: seq<T>, spread: seq<T>, tolerance: I64, miss: T,
                            start: nat, end: nat, outPrice: array<T>, outSpread: array<T>)
    requires start < end <= |left| == outPrice.Length == outSpread.Length && outPrice != outSpread
    requires Ascending(right) && |price| == |right| && |spread| == |right|
    requires forall i, j :: start <= i < j < end ==> left[i] <= left[j]
    requires forall k :: start <= k < end ==> outPrice[k] == miss && outSpread[k] == miss
    modifies outPrice, outSpread
    ensures outPrice[..start] == old(outPrice[..start]) && outPrice[end..] == old(outPrice[end..])
    ensures outSpread[..start] == old(outSpread[..start]) && outSpread[end..] == old(outSpread[end..])
    ensures outPrice[start..end] == Picked(OneSided(left, right, tolerance), price, miss)[start..end]
    ensures outSpread[start..end] == Picked(OneSided(left, right, tolerance), spread, miss)[start..end]
  {
    var j := Upper(right, left[start]);
    forall h | 0 <= h < j ensures right[h] <= left[start] {
      UpperSplits(right, left[start], h);
    }
    for i := start to end
      invariant 0 <= j <= |right| && forall h :: 0 <= h < j ==> right[h] <= left[if i < end then i else end - 1]
      invariant forall k :: i <= k < end ==> outPrice[k] == miss && outSpread[k] == miss
      invariant forall k :: start <= k < i ==>
                  && outPrice[k] == Pick(price, OneSidedRow(right, left[k], tolerance), miss)
                  && outSpread[k] == Pick(spread, OneSidedRow(right, left[k], tolerance), miss)
      invariant outPrice[..start] == old(outPrice[..start]) && outPrice[end..] == old(outPrice[end..])
      invariant outSpread[..start] == old(outSpread[..start]) && outSpread[end..] == old(outSpread[end..])
    {
      var l := left[i];
      while j < |right| && right[j] <= l
        invariant 0 <= j <= |right| && forall h :: 0 <= h < j ==> right[h] <= l
      {
        j := j + 1;
      }
      PointerIsUpper(right, l, j);
      OneSidedDecides(right, l, tolerance, j);
      if j > 0 && WrapSub(l, right[j - 1]) <= tolerance {
        outPrice[i] := price[j - 1];
        outSpread[i] := spread[j - 1];
      }
    }
  }

  lemma PointerIsUpper(right: seq<I64>, l: I64, j: nat)
    requires Ascending(right) && j <= |right|
    requires forall h :: 0 <= h < j ==> right[h] <= l
    requires j < |right| ==> right[j] > l
    ensures j == Upper(right, l)
  {
    if j > 0 {
      UpperSplits(right, l, j - 1);
    }
    if j < |right| {
      UpperSplits(right, l, j);
    }
  }

  /** `asof_join_multi_fast` (the source's chunk is 65,536 rows): on all inputs what the program's own reference
      gives, and the as-of join exactly where no wrapped difference passes for a small one. */
  method MultiFast<T(!new)>(left: seq<I64>, right: seq<I64>, price: seq<T>, spread: seq<T>, tolerance: I64, miss: T,
                            chunk: nat) returns (outPrice: array<T>, outSpread: array<T>)
    requires Inputs(left, right, price, spread, chunk)
    ensures outPrice[..] == Picked(OneSided(left, right, tolerance), price, miss)
    ensures outSpread[..] == Picked(OneSided(left, right, tolerance), spread, miss)
    ensures NoOvershoot(left, right, tolerance) ==>
              && outPrice[..] == Joined(left, right, price, tolerance, miss)
              && outSpread[..] == Joined(left, right, spread, tolerance, miss)
  {
    WrapExactly(left, right, tolerance);
    hide NoOvershoot, NoUndershoot, Matches;
    outPrice := new T[|left|](_ => miss);
    outSpread := new T[|left|](_ => miss);
    ghost var P, S := Picked(OneSided(left, right, tolerance), price, miss), Picked(OneSided(left, right, tolerance), spread, miss);
    var pending := Below(ChunkCount(|left|, chunk));
    AllPending(left, chunk);
    hide AsOf.Ascending, ChunkwiseAscending;
    while pending != {}
      invariant pending <= Below(ChunkCount(|left|, chunk))
      invariant fresh(outPrice) && fresh(outSpread) && outPrice != outSpread
      invariant outPrice.Length == |left| && outSpread.Length == |left|
      invariant Finished(outPrice[..], P, chunk, pending) && Finished(outSpread[..], S, chunk, pending)
      invariant forall k :: 0 <= k < |left| && ChunkOf(k, chunk) in pending ==> outPrice[k] == miss && outSpread[k] == miss
      decreases pending
    {
      hide Finished, IsChunk, ChunkOf, ChunkCount, IsBucketIndex, Joined, Picked, OneSided, TwoSided, Below, Fused, MatchIndices;
      var c :| c in pending;
      var start, end := ChunkRange(left, chunk, c);
      ghost var p0, s0 := outPrice[..], outSpread[..];
      SweepFast(left, right, price, spread, tolerance, miss, start, end, outPrice, outSpread);
      ChunkFinished(p0, outPrice[..], P, left, chunk, pending, c, start, end);
      ChunkFinished(s0, outSpread[..], S, left, chunk, pending, c, start, end);
      forall k | 0 <= k < |left| && ChunkOf(k, chunk) in pending - {c}
        ensures outPrice[k] == miss && outSpread[k] == miss
      {
        assert k < start || k >= end;
        assert k < start ==> outPrice[..start][k] == p0[..start][k] && outSpread[..start][k] == s0[..start][k];
        assert k >= end ==> outPrice[end..][k - end] == p0[end..][k - end] && outSpread[end..][k - end] == s0[end..][k - end];
      }
      pending := pending - {c};
    }
    AllFinished(outPrice[..], P, chunk);
    AllFinished(outSpread[..], S, chunk);
  }

  lemma AllPending(left: seq<I64>, chunk: nat)
    requires chunk > 0
    ensures forall k :: 0 <= k < |left| ==> ChunkOf(k, chunk) in Below(ChunkCount(|left|, chunk))
  {
    forall k | 0 <= k < |left| ensures ChunkOf(k, chunk) in Below(ChunkCount(|left|, chunk)) {
      ChunkBounds(k, 0, |left|, chunk);
    }
  }

  // ---------- v3: bucket index per chunk ----------

  method SweepBucketed<T(!new)>(left: seq<I64>, right: seq<I64>, price: seq<T>, spread: seq<T>, tolerance: I64, miss: T,
                                width: I64, offsets: seq<int>, start: nat, end: nat,
                                outPrice: array<T>, outSpread: array<T>)
    requires start < end <= |left| == outPrice.Length == outSpread.Length && outPrice != outSpread
    requires right != [] && Ascending(right) && Indexable(right, width) && |price| == |right| && |spread| == |right|
    requires IsBucketIndex(right, width, offsets)
    requires forall i, j :: start <= i < j < end ==> left[i] <= left[j]
    modifies outPrice, outSpread
    ensures outPrice[..start] == old(outPrice[..start]) && outPrice[end..] == old(outPrice[end..])
    ensures outSpread[..start] == old(outSpread[..start]) && outSpread[end..] == old(outSpread[end..])
    ensures outPrice[start..end] == Picked(TwoSided(left, right, tolerance), price, miss)[start..end]
    ensures outSpread[start..end] == Picked(TwoSided(left, right, tolerance), spread, miss)[start..end]
  {
    var r := StartRow(right, width, offsets, left[start]);
    StartIsBehind(right, width, offsets, left[start], left[start]);
    for i := start to end
      invariant Behind(right, r, left[if i < end then i else end - 1])
      invariant forall k :: start <= k < i ==>
                  && outPrice[k] == Pick(price, TwoSidedRow(right, left[k], tolerance), miss)
                  && outSpread[k] == Pick(spread, TwoSidedRow(right, left[k], tolerance), miss)
      invariant outPrice[..start] == old(outPrice[..start]) && outPrice[end..] == old(outPrice[end..])
      invariant outSpread[..start] == old(outSpread[..start]) && outSpread[end..] == old(outSpread[end..])
    {
      var l := left[i];
      r := AdvanceTo(right, r, l);
      PointerDecides(right, l, tolerance, r);
      var diff := WrapSub(l, right[r]);
      var valid := diff >= 0 && diff <= tolerance;
      outPrice[i] := if valid then price[r] else miss;
      outSpread[i] := if valid then spread[r] else miss;
    }
  }

  /** `asof_join_multi_l2_bucket` (the source's chunk is 8,192 rows). */
  method MultiL2Bucket<T(!new)>(left: seq<I64>, right: seq<I64>, price: seq<T>, spread: seq<T>, tolerance: I64, miss: T,
                                width: I64, chunk: nat) returns (outPrice: array<T>, outSpread: array<T>)
    requires Inputs(left, right, price, spread, chunk) && Indexable(right, width)
    ensures outPrice[..] == Picked(TwoSided(left, right, tolerance), price, miss)
    ensures outSpread[..] == Picked(TwoSided(left, right, tolerance), spread, miss)
    ensures NoUndershoot(left, right, tolerance) ==>
              && outPrice[..] == Joined(left, right, price, tolerance, miss)
              && outSpread[..] == Joined(left, right, spread, tolerance, miss)
  {
    WrapExactly(left, right, tolerance);
    hide NoOvershoot, NoUndershoot, Matches;
    outPrice := new T[|left|](_ => miss);
    outSpread := new T[|left|](_ => miss);
    if |left| == 0 || |right| == 0 {
      return;
    }
    var index := BuildBucketIndex(right, width);
    var offsets := index[..];
    ghost var P, S := Picked(TwoSided(left, right, tolerance), price, miss), Picked(TwoSided(left, right, tolerance), spread, miss);
    var pending := Below(ChunkCount(|left|, chunk));
    AllPending(left, chunk);
    hide AsOf.Ascending, ChunkwiseAscending, IsBucketIndex, Indexable, NumBuckets, TwoSided, Picked;
    while pending != {}
      invariant pending <= Below(ChunkCount(|left|, chunk))
      invariant fresh(outPrice) && fresh(outSpread) && outPrice != outSpread
      invariant outPrice.Length == |left| && outSpread.Length == |left|
      invariant Finished(outPrice[..], P, chunk, pending) && Finished(outSpread[..], S, chunk, pending)
      decreases pending
    {
      hide Finished, IsChunk, ChunkOf, ChunkCount, IsBucketIndex, Joined, Picked, OneSided, TwoSided, Below, Fused, MatchIndices;
      var c :| c in pending;
      var start, end := ChunkRange(left, chunk, c);
      ghost var p0, s0 := outPrice[..], outSpread[..];
      SweepBucketed(left, right, price, spread, tolerance, miss, width, offsets, start, end, outPrice, outSpread);
      ChunkFinished(p0, outPrice[..], P, left, chunk, pending, c, start, end);
      ChunkFinished(s0, outSpread[..], S, left, chunk, pending, c, start, end);
      pending := pending - {c};
    }
    AllFinished(outPrice[..], P, chunk);
    AllFinished(outSpread[..], S, chunk);
  }

  // ---------- v4: matched indices first, payload afterwards ----------

  const I32_ROWS: int := 0x8000_0000

  /** `r as i32`, which keeps the low 32 bits. */
  function CastI32(r: nat): (e: int)
    ensures -I32_ROWS <= e < I32_ROWS && e <= r
    ensures e == r <==> r < I32_ROWS
  {
    var w := r % (2 * I32_ROWS);
    if w < I32_ROWS then w else w - 2 * I32_ROWS
  }

  /** A match index as phase 1 stores it: the row in an `i32`, or -1. */
  function Encode(r: Option<nat>): (e: int)
    ensures r.Some? ==> e <= r.value
  {
    if r.Some? then CastI32(r.value) else -1
  }

  /** The row phase 2 reads for a stored index. */
  function Decode(e: int): (r: Option<nat>)
  {
    if e >= 0 then Some(e) else None
  }

  /** What phase 2 reads back for each left row. */
  function Stored(rows: seq<Option<nat>>): (r: seq<Option<nat>>)
    ensures |r| == |rows| && forall i :: 0 <= i < |rows| ==> r[i] == Decode(Encode(rows[i]))
    ensures forall n: nat :: InTable(rows, n) ==> InTable(r, n)
  {
    seq(|rows|, i requires 0 <= i < |rows| => Decode(Encode(rows[i])))
  }

  /** No right row numbered 2^31 or more lies within the tolerance at or before a left time. */
  ghost predicate Narrow(left: seq<I64>, right: seq<I64>, tolerance: I64) {
    forall i :: 0 <= i < |left| ==> NarrowAt(right, left[i], tolerance)
  }

  ghost predicate NarrowAt(right: seq<I64>, l: I64, tolerance: I64) {
    forall j :: I32_ROWS <= j < |right| ==> !(0 <= Diff(l, right[j]) <= tolerance)
  }

  /** A stored index is read back as the row that was found exactly when the row fits an `i32`, which is when
      nothing that far down the right table is in reach. */
  lemma ReadBack(right: seq<I64>, l: I64, tolerance: I64)
    requires Ascending(right)
    ensures Decode(Encode(MatchRow(right, l, tolerance))) == MatchRow(right, l, tolerance) <==> NarrowAt(right, l, tolerance)
  {
    var m := MatchRow(right, l, tolerance);
    if j :| I32_ROWS <= j < |right| && 0 <= Diff(l, right[j]) <= tolerance {
      UpperSplits(right, l, j);
      assert m.Some? && m.value >= j;
    }
    if m.Some? && m.value >= I32_ROWS {
      UpperSplits(right, l, m.value);
      assert 0 <= Diff(l, right[m.value]) <= tolerance;
    }
  }

  /** The two phases find the matches if and only if no match lies past the `i32` range and no left time
      undershoots. */
  lemma StoredExactly(left: seq<I64>, right: seq<I64>, tolerance: I64)
    requires Ascending(right)
    ensures Stored(TwoSided(left, right, tolerance)) == Matches(left, right, tolerance)
            <==> Narrow(left, right, tolerance) && NoUndershoot(left, right, tolerance)
  {
    var r, m := Stored(TwoSided(left, right, tolerance)), Matches(left, right, tolerance);
    forall i | 0 <= i < |left|
      ensures r[i] == m[i] <==> NarrowAt(right, left[i], tolerance) && !Undershoots(right, left[i], tolerance)
    {
      ReadBack(right, left[i], tolerance);
      OvershootIsWrong(right, left[i], tolerance);
    }
  }

  /** The smallest failure: among 2^31 + 1 equal right times the last row matches, and phase 2 reports a miss. */
  lemma WideTableMisses(right: seq<I64>, payload: seq<nat>)
    requires right == seq(I32_ROWS + 1, _ => 0) && payload == seq(I32_ROWS + 1, i => i + 1)
    ensures Joined([0], right, payload, 0, 0) == [I32_ROWS + 1]
    ensures Picked(Stored(TwoSided([0], right, 0)), payload, 0) == [0]
  {
    UpperSplits(right, 0, I32_ROWS);
    assert MatchRow(right, 0, 0) == Some(I32_ROWS);
  }

  ghost function MatchIndices(left: seq<I64>, right: seq<I64>, tolerance: I64): (out: seq<int>)
    ensures |out| == |left|
    ensures forall i :: 0 <= i < |left| ==> out[i] == Encode(TwoSidedRow(right, left[i], tolerance))
  {
    seq(|left|, i requires 0 <= i < |left| => Encode(TwoSidedRow(right, left[i], tolerance)))
  }

  method SweepIndices(left: seq<I64>, right: seq<I64>, tolerance: I64, width: I64, offsets: seq<int>,
                      start: nat, end: nat, matched: array<int>)
    requires start < end <= |left| == matched.Length
    requires right != [] && Ascending(right) && Indexable(right, width) && IsBucketIndex(right, width, offsets)
    requires forall i, j :: start <= i < j < end ==> left[i] <= left[j]
    requires forall k :: start <= k < end ==> matched[k] == -1
    modifies matched
    ensures matched[..start] == old(matched[..start]) && matched[end..] == old(matched[end..])
    ensures matched[start..end] == MatchIndices(left, right, tolerance)[start..end]
  {
    var r := StartRow(right, width, offsets, left[start]);
    StartIsBehind(right, width, offsets, left[start], left[start]);
    for i := start to end
      invariant Behind(right, r, left[if i < end then i else end - 1])
      invariant forall k :: i <= k < end ==> matched[k] == -1
      invariant forall k :: start <= k < i ==> matched[k] == Encode(TwoSidedRow(right, left[k], tolerance))
      invariant matched[..start] == old(matched[..start]) && matched[end..] == old(matched[end..])
    {
      var l := left[i];
      r := AdvanceTo(right, r, l);
      PointerDecides(right, l, tolerance, r);
      var diff := WrapSub(l, right[r]);
      if diff >= 0 && diff <= tolerance {
        matched[i] := CastI32(r);
      }
    }
  }

  method AllIndices(left: seq<I64>, right: seq<I64>, tolerance: I64, width: I64, chunk: nat) returns (matched: array<int>)
    requires chunk > 0 && right != [] && Ascending(right) && ChunkwiseAscending(left, chunk) && Indexable(right, width)
    ensures fresh(matched) && matched[..] == MatchIndices(left, right, tolerance)
  {
    var index := BuildBucketIndex(right, width);
    var offsets := index[..];
    matched := new int[|left|](_ => -1);
    ghost var M := MatchIndices(left, right, tolerance);
    var pending := Below(ChunkCount(|left|, chunk));
    AllPending(left, chunk);
    hide AsOf.Ascending, ChunkwiseAscending;
    while pending != {}
      invariant pending <= Below(ChunkCount(|left|, chunk))
      invariant fresh(matched) && matched.Length == |left|
      invariant Finished(matched[..], M, chunk, pending)
      invariant forall k :: 0 <= k < |left| && ChunkOf(k, chunk) in pending ==> matched[k] == -1
      decreases pending
    {
      hide Finished, IsChunk, ChunkOf, ChunkCount, IsBucketIndex, Joined, Picked, OneSided, TwoSided, Below, Fused, MatchIndices;
      var c :| c in pending;
      var start, end := ChunkRange(left, chunk, c);
      ghost var m0 := matched[..];
      SweepIndices(left, right, tolerance, width, offsets, start, end, matched);
      ChunkFinished(m0, matched[..], M, left, chunk, pending, c, start, end);
      forall k | 0 <= k < |left| && ChunkOf(k, chunk) in pending - {c} ensures matched[k] == -1 {
        assert k < start ==> matched[..start][k] == m0[..start][k];
        assert k >= end ==> matched[end..][k - end] == m0[end..][k - end];
      }
      pending := pending - {c};
    }
    AllFinished(matched[..], M, chunk);
  }

  /** `asof_join_cpu_ultimate`: phase 1 records match indices, phase 2 gathers the payload. The result is the
      as-of join as long as no match lies past the rows an `i32` can number and no left time undershoots. */
  method CpuUltimate<T(!new)>(left: seq<I64>, right: seq<I64>, price: seq<T>, spread: seq<T>, tolerance: I64, miss: T,
                              width: I64, chunk: nat) returns (outPrice: array<T>, outSpread: array<T>)
    requires Inputs(left, right, price, spread, chunk) && Indexable(right, width)
    ensures outPrice[..] == Picked(Stored(TwoSided(left, right, tolerance)), price, miss)
    ensures outSpread[..] == Picked(Stored(TwoSided(left, right, tolerance)), spread, miss)
    ensures Narrow(left, right, tolerance) && NoUndershoot(left, right, tolerance) ==>
              && outPrice[..] == Joined(left, right, price, tolerance, miss)
              && outSpread[..] == Joined(left, right, spread, tolerance, miss)
  {
    StoredExactly(left, right, tolerance);
    hide Narrow, NoUndershoot, Matches;
    if |left| == 0 || |right| == 0 {
      outPrice := new T[|left|](_ => miss);
      outSpread := new T[|left|](_ => miss);
      return;
    }
    var matched := AllIndices(left, right, tolerance, width, chunk);
    hide Stored, TwoSided, Encode, Decode, MatchIndices;
    outPrice, outSpread := Gather(TwoSided(left, right, tolerance), matched, price, spread, miss);
  }

  /** Phase 2: read each stored index back and pick its payload. */
  method Gather<T(!new)>(ghost rows: seq<Option<nat>>, matched: array<int>, price: seq<T>, spread: seq<T>, miss: T)
    returns (outPrice: array<T>, outSpread: array<T>)
    requires matched.Length == |rows| && forall i :: 0 <= i < |rows| ==> matched[i] == Encode(rows[i])
    requires InTable(rows, |price|) && |spread| == |price|
    ensures outPrice[..] == Picked(Stored(rows), price, miss)
    ensures outSpread[..] == Picked(Stored(rows), spread, miss)
  {
    outPrice := new T[matched.Length](_ => miss);
    outSpread := new T[matched.Length](_ => miss);
    for i := 0 to matched.Length
      invariant forall k :: 0 <= k < |rows| ==> matched[k] == Encode(rows[k])
      invariant forall k :: 0 <= k < i ==>
                  outPrice[k] == Pick(price, Stored(rows)[k], miss) && outSpread[k] == Pick(spread, Stored(rows)[k], miss)
    {
      var r := matched[i];
      outPrice[i] := if r >= 0 then price[r] else miss;
      outSpread[i] := if r >= 0 then spread[r] else miss;
    }
  }

  // ---------- v5: fused feature ----------

  /** The fused output: the feature of the chosen payloads, or the miss value. */
  function Fused<T, U>(rows: seq<Option<nat>>, price: seq<T>, spread: seq<T>, feature: (T, T) -> U, miss: U): (out: seq<U>)
    requires |price| == |spread| && InTable(rows, |price|)
    ensures |out| == |rows|
    ensures forall i :: 0 <= i < |rows| ==>
              out[i] == match rows[i]
                        case Some(r) => feature(price[r], spread[r])
                        case None => miss
  {
    seq(|rows|, i requires 0 <= i < |rows| =>
          match rows[i]
          case Some(r) => feature(price[r], spread[r])
          case None => miss)
  }

  /** Fusing the feature into the sweep gives what computing it from the materialised join gives. */
  lemma FusedIsFeatureOfJoin<T(!new), U>(rows: seq<Option<nat>>, price: seq<T>, spread: seq<T>, feature: (T, T) -> U,
                                         miss: U, noPrice: T, noSpread: T, i: nat)
    requires |price| == |spread| && InTable(rows, |price|) && i < |rows|
    requires feature(noPrice, noSpread) == miss
    ensures Fused(rows, price, spread, feature, miss)[i]
            == feature(Picked(rows, price, noPrice)[i], Picked(rows, spread, noSpread)[i])
  {
  }

  /** The sweep of one chunk, writing only the fused feature. */
  method SweepFused<T(!new), U(!new)>(left: seq<I64>, right: seq<I64>, price: seq<T>, spread: seq<T>, tolerance: I64,
                                      feature: (T, T) -> U, miss: U, width: I64, offsets: seq<int>,
                                      start: nat, end: nat, out: array<U>)
    requires start < end <= |left| == out.Length
    requires right != [] && Ascending(right) && Indexable(right, width) && |price| == |right| && |spread| == |right|
    requires IsBucketIndex(right, width, offsets)
    requires forall i, j :: start <= i < j < end ==> left[i] <= left[j]
    modifies out
    ensures out[..start] == old(out[..start]) && out[end..] == old(out[end..])
    ensures out[start..end] == Fused(TwoSided(left, right, tolerance), price, spread, feature, miss)[start..end]
  {
    var r := StartRow(right, width, offsets, left[start]);
    StartIsBehind(right, width, offsets, left[start], left[start]);
    ghost var F := Fused(TwoSided(left, right, tolerance), price, spread, feature, miss);
    for i := start to end
      invariant Behind(right, r, left[if i < end then i else end - 1])
      invariant forall k :: start <= k < i ==> out[k] == F[k]
      invariant out[..start] == old(out[..start]) && out[end..] == old(out[end..])
    {
      var l := left[i];
      r := AdvanceTo(right, r, l);
      PointerDecides(right, l, tolerance, r);
      var diff := WrapSub(l, right[r]);
      out[i] := if diff >= 0 && diff <= tolerance then feature(price[r], spread[r]) else miss;
    }
  }

  /** `asof_join_fused`. */
  method JoinFused<T(!new), U(!new)>(left: seq<I64>, right: seq<I64>, price: seq<T>, spread: seq<T>, tolerance: I64,
                                     feature: (T, T) -> U, miss: U, width: I64, chunk: nat) returns (out: array<U>)
    requires Inputs(left, right, price, spread, chunk) && Indexable(right, width)
    ensures out[..] == Fused(TwoSided(left, right, tolerance), price, spread, feature, miss)
    ensures NoUndershoot(left, right, tolerance) ==>
              out[..] == Fused(Matches(left, right, tolerance), price, spread, feature, miss)
  {
    WrapExactly(left, right, tolerance);
    hide NoOvershoot, NoUndershoot, Matches;
    out := new U[|left|](_ => miss);
    if |left| == 0 || |right| == 0 {
      return;
    }
    var index := BuildBucketIndex(right, width);
    var offsets := index[..];
    ghost var F := Fused(TwoSided(left, right, tolerance), price, spread, feature, miss);
    var pending := Below(ChunkCount(|left|, chunk));
    AllPending(left, chunk);
    hide AsOf.Ascending, ChunkwiseAscending;
    while pending != {}
      invariant pending <= Below(ChunkCount(|left|, chunk))
      invariant fresh(out) && out.Length == |left|
      invariant Finished(out[..], F, chunk, pending)
      decreases pending
    {
      hide Finished, IsChunk, ChunkOf, ChunkCount, IsBucketIndex, Joined, Picked, OneSided, TwoSided, Below, Fused, MatchIndices;
      var c :| c in pending;
      var start, end := ChunkRange(left, chunk, c);
      ghost var f0 := out[..];
      SweepFused(left, right, price, spread, tolerance, feature, miss, width, offsets, start, end, out);
      ChunkFinished(f0, out[..], F, left, chunk, pending, c, start, end);
      pending := pending - {c};
    }
    AllFinished(out[..], F, chunk);
  }
}
