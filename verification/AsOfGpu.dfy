/** The CUDA as-of kernels, one thread at a time, and the launch grid that runs the merge kernel. */
module AsOfGpu {
  import opened Basics
  import opened AsOf
  import opened AsOfJoins

  /** Lengths and counts the kernels hold in a C `int`. */
  ghost predicate FitsI32(n: int) {
    -0x8000_0000 <= n < 0x8000_0000
  }

  /** The differences the binary-search kernel takes do not overflow. */
  ghost predicate PredecessorsFit(left: seq<I64>, right: seq<I64>) {
    forall i :: 0 <= i < |left| && Upper(right, left[i]) > 0 ==> FitsI64(Diff(left[i], right[Upper(right, left[i]) - 1]))
  }

  /** The differences the merge kernel takes do not overflow: each left time against the row under the pointer, and
      the first left time of a chunk against the first right time, unless it lies before it. */
  ghost predicate PointersFit(left: seq<I64>, right: seq<I64>, chunk: nat)
    requires right != [] && chunk > 0
  {
    && (forall i :: 0 <= i < |left| ==> FitsI64(Diff(left[i], right[Max(Upper(right, left[i]) - 1, 0)])))
    && (forall c: nat :: c * chunk < |left| && left[c * chunk] >= right[0] ==> FitsI64(Diff(left[c * chunk], right[0])))
  }

  // ---------- one binary search per row ----------

  /** The last right row at or before `l`, or -1. */
  method SearchLast(right: seq<I64>, l: I64) returns (r: int)
    requires Ascending(right) && FitsI32(|right|)
    ensures r == Upper(right, l) - 1
  {
    var low, high := 0, |right| - 1;
    r := -1;
    while low <= high
      invariant 0 <= low <= high + 1 <= |right| && r == low - 1
      invariant forall k :: 0 <= k < low ==> right[k] <= l
      invariant forall k :: high < k < |right| ==> right[k] > l
      decreases high - low
    {
      var mid := low + (high - low) / 2;
      if right[mid] <= l {
        r := mid;
        low := mid + 1;
      } else {
        high := mid - 1;
      }
    }
    PointerIsUpper(right, l, low);
  }

  /** `asof_join_cuda_kernel` for the thread with global index `idx`. */
  method SearchThread<T(!new)>(left: seq<I64>, right: seq<I64>, price: seq<T>, spread: seq<T>, tolerance: I64, miss: T,
                               idx: nat, outPrice: array<T>, outSpread: array<T>)
    requires outPrice.Length == outSpread.Length == |left| && outPrice != outSpread
    requires Ascending(right) && PredecessorsFit(left, right) && FitsI32(|left|) && FitsI32(|right|)
    requires |price| == |right| && |spread| == |right|
    modifies outPrice, outSpread
    ensures idx >= |left| ==> outPrice[..] == old(outPrice[..]) && outSpread[..] == old(outSpread[..])
    ensures idx < |left| ==>
              && outPrice[..] == old(outPrice[..])[idx := Joined(left, right, price, tolerance, miss)[idx]]
              && outSpread[..] == old(outSpread[..])[idx := Joined(left, right, spread, tolerance, miss)[idx]]
  {
    if idx >= |left| {
      return;
    }
    var l := left[idx];
    var r := SearchLast(right, l);
    if r >= 0 {
      var diff := Sub(l, right[r]);
      UpperSplits(right, l, r);
      if diff >= 0 && diff <= tolerance {
        outPrice[idx] := price[r];
        outSpread[idx] := spread[r];
        return;
      }
    }
    outPrice[idx] := miss;
    outSpread[idx] := miss;
  }

  /** Any launch with at least one thread per left row, run in any order, produces the reference join. */
  method LaunchSearch<T(!new)>(left: seq<I64>, right: seq<I64>, price: seq<T>, spread: seq<T>, tolerance: I64, miss: T,
                               threads: nat) returns (outPrice: array<T>, outSpread: array<T>)
    requires Ascending(right) && PredecessorsFit(left, right) && FitsI32(|left|) && FitsI32(|right|)
    requires |price| == |right| && |spread| == |right| && threads >= |left|
    ensures outPrice[..] == Joined(left, right, price, tolerance, miss)
    ensures outSpread[..] == Joined(left, right, spread, tolerance, miss)
  {
    outPrice := new T[|left|](_ => miss);
    outSpread := new T[|left|](_ => miss);
    ghost var P, S := Joined(left, right, price, tolerance, miss), Joined(left, right, spread, tolerance, miss);
    var pending := Below(threads);
    while pending != {}
      invariant pending <= Below(threads)
      invariant fresh(outPrice) && fresh(outSpread) && outPrice != outSpread
      invariant outPrice.Length == |left| && outSpread.Length == |left|
      invariant forall k :: 0 <= k < |left| && k !in pending ==> outPrice[k] == P[k] && outSpread[k] == S[k]
      decreases pending
    {
      var idx :| idx in pending;
      ghost var p0, s0 := outPrice[..], outSpread[..];
      SearchThread(left, right, price, spread, tolerance, miss, idx, outPrice, outSpread);
      pending := pending - {idx};
      forall k | 0 <= k < |left| && k !in pending ensures outPrice[k] == P[k] && outSpread[k] == S[k] {
        if k != idx {
          assert outPrice[..][k] == p0[k] && outSpread[..][k] == s0[k];
        } else {
          assert outPrice[..][k] == P[k] && outSpread[..][k] == S[k];
        }
      }
    }
  }

  // ---------- chunked merge ----------

  const THREADS_PER_BLOCK: nat := 256

  /** The grid size of `tc1_cuda_query`, in `u32` arithmetic. */
  function Blocks(leftLen: nat, chunk: nat): (b: U32)
    requires FitsI32(leftLen) && 0 < chunk && FitsI32(chunk)
  {
    var sum: U32 := leftLen + chunk - 1;
    assert sum / chunk <= sum by {
      DivMul(sum, chunk, sum / chunk);
      MulMonotone(1, chunk, sum / chunk);
    }
    assert sum / chunk <= leftLen by {
      FewChunks(leftLen, chunk);
    }
    var totalChunks: U32 := sum / chunk;
    var padded: U32 := totalChunks + THREADS_PER_BLOCK - 1;
    padded / THREADS_PER_BLOCK
  }

  lemma FewChunks(len: nat, chunk: nat)
    requires chunk > 0
    ensures ChunkCount(len, chunk) <= len
  {
    if ChunkCount(len, chunk) > len {
      DivMul(len + chunk - 1, chunk, len + 1);
      assert (len + 1) * chunk == len * chunk + chunk;
      MulMonotone(1, chunk, len);
      assert false;
    }
  }

  /** The grid has a thread for every chunk, so every left row is swept by exactly one of its threads. */
  lemma GridCovers(leftLen: nat, chunk: nat, i: nat, tid: nat)
    requires FitsI32(leftLen) && 0 < chunk && FitsI32(chunk) && i < leftLen
    ensures ChunkOf(i, chunk) < Blocks(leftLen, chunk) * THREADS_PER_BLOCK
    ensures tid * chunk <= i < tid * chunk + chunk <==> tid == ChunkOf(i, chunk)
  {
    ChunkBounds(i, tid, leftLen, chunk);
    var total := ChunkCount(leftLen, chunk);
    assert (total + 255) / 256 * 256 >= total;
  }

  /** The host's `i32` bucket index; `None` where building it panics. */
  method BuildIndexI32(right: seq<I64>, width: I64) returns (r: Option<seq<int>>)
    requires right != [] && Ascending(right) && Indexable(right, width)
    ensures r.Some? && IsBucketIndex(right, width, r.value) <==> HostIndexFits(right, width)
  {
    var minTs := right[0];
    ghost var n := NumBuckets(right, width);
    var numBuckets := CastI32(Sub(right[|right| - 1], minTs) / width + 1);
    if numBuckets + 1 < 0 || numBuckets + 1 >= I32_ROWS {
      return None;  // the wrapped length is no vector's
    }
    var offsets := new int[numBuckets + 1](_ => 0);
    var cur := 0;
    ghost var small := numBuckets == n;
    hide IsFirstAtOrAfter, BucketStart;
    for i := 0 to |right|
      invariant 0 <= cur <= offsets.Length
      invariant small ==> cur == if i == 0 then 0 else Diff(right[i - 1], minTs) / width + 1
      invariant small && |right| < I32_ROWS ==>
                  forall c :: 0 <= c < cur ==> IsFirstAtOrAfter(right, offsets[c], BucketStart(right, width, c))
    {
      BucketsAscend(right, width, i);
      ghost var exact := Diff(right[i], minTs) / width;
      var b := CastI32(Sub(right[i], minTs) / width);
      while cur <= b
        invariant 0 <= cur <= offsets.Length
        invariant small ==> cur <= b + 1 && b == exact
        invariant small && i > 0 ==> Diff(right[i - 1], minTs) / width < cur
        invariant small && |right| < I32_ROWS ==>
                    forall c :: 0 <= c < cur ==> IsFirstAtOrAfter(right, offsets[c], BucketStart(right, width, c))
      {
        if cur >= offsets.Length {
          return None;  // index out of bounds
        }
        if small {
          FirstOfBucket(right, width, i, cur);
        }
        offsets[cur] := CastI32(i);
        cur := cur + 1;
      }
    }
    for b := cur to numBuckets + 1
      invariant small && |right| < I32_ROWS ==>
                  forall c :: 0 <= c < b ==> IsFirstAtOrAfter(right, offsets[c], BucketStart(right, width, c))
      invariant b == numBuckets + 1 && small ==> offsets[numBuckets] == CastI32(|right|)
    {
      if small {
        PastTheEnd(right, width, b);
      }
      offsets[b] := CastI32(|right|);
    }
    r := Some(offsets[..]);
    if small {
      PastTheEnd(right, width, n);
      OneFirst(right, offsets[n], |right|, BucketStart(right, width, n));
    }
  }

  lemma OneFirst(right: seq<I64>, a: int, b: int, t: int)
    ensures IsFirstAtOrAfter(right, a, t) && IsFirstAtOrAfter(right, b, t) ==> a == b
  {
    if IsFirstAtOrAfter(right, a, t) && IsFirstAtOrAfter(right, b, t) {
      if a < |right| {
        assert t <= right[a];
      }
      if b < |right| {
        assert t <= right[b];
      }
    }
  }

  /** The host's bucket index and the row numbers in it fit an `i32`. */
  ghost predicate HostIndexFits(right: seq<I64>, width: I64)
    requires right != [] && Ascending(right) && width > 0
  {
    NumBuckets(right, width) + 1 < I32_ROWS && |right| < I32_ROWS
  }

  /** Where a thread starts on the right. */
  function KernelStart(right: seq<I64>, width: I64, offsets: seq<int>, l: I64): (r: nat)
    requires right != [] && Ascending(right) && width > 0 && IsBucketIndex(right, width, offsets)
    requires l >= right[0] ==> FitsI64(Diff(l, right[0]))
  {
    var b := if l < right[0] then 0 else Min(Sub(l, right[0]) / width, NumBuckets(right, width));
    Before(offsets[b])
  }

  lemma KernelStartIsBehind(right: seq<I64>, width: I64, offsets: seq<int>, l: I64)
    requires right != [] && Ascending(right) && Indexable(right, width) && IsBucketIndex(right, width, offsets)
    requires l >= right[0] ==> FitsI64(Diff(l, right[0]))
    ensures Behind(right, KernelStart(right, width, offsets, l), l)
  {
    if l < right[0] {
      BucketIsBehind(right, width, offsets, l, 0);
    } else {
      LookupIsBehind(right, width, offsets, l, l);
      hide NumBuckets, Behind, Before;
    }
  }

  /** The rows `start..end` of one thread. Signed overflow would be undefined here, so none may occur. */
  method MergeSweep<T(!new), U(!new)>(left: seq<I64>, right: seq<I64>, price: seq<T>, spread: seq<T>, tolerance: I64,
                                      feature: (T, T) -> U, miss: U, width: I64, offsets: seq<int>,
                                      start: nat, end: nat, out: array<U>)
    requires start < end <= |left| == out.Length
    requires right != [] && Ascending(right) && |price| == |right| && |spread| == |right|
    requires Indexable(right, width) && IsBucketIndex(right, width, offsets)
    requires forall i, j :: start <= i < j < end ==> left[i] <= left[j]
    requires left[start] >= right[0] ==> FitsI64(Diff(left[start], right[0]))
    requires forall i :: start <= i < end ==> FitsI64(Diff(left[i], right[Max(Upper(right, left[i]) - 1, 0)]))
    modifies out
    ensures out[..start] == old(out[..start]) && out[end..] == old(out[end..])
    ensures out[start..end] == Fused(Matches(left, right, tolerance), price, spread, feature, miss)[start..end]
  {
    var r := KernelStart(right, width, offsets, left[start]);
    KernelStartIsBehind(right, width, offsets, left[start]);
    hide IsBucketIndex, Indexable, NumBuckets, KernelStart, Fused, Matches, MatchRow, Upper;
    ghost var F := Fused(Matches(left, right, tolerance), price, spread, feature, miss);
    for i := start to end
      invariant Behind(right, r, left[if i < end then i else end - 1])
      invariant forall k :: start <= k < i ==> out[k] == F[k]
      invariant out[..start] == old(out[..start]) && out[end..] == old(out[end..])
    {
      var l := left[i];
      r := AdvanceTo(right, r, l);
      PointerMatches(right, l, tolerance, r);
      var diff := Sub(l, right[r]);
      out[i] := if diff >= 0 && diff <= tolerance then feature(price[r], spread[r]) else miss;
    }
  }

  /** Without overflow, the range check at the advanced pointer decides the match. */
  lemma PointerMatches(right: seq<I64>, l: I64, tolerance: I64, r: nat)
    requires Ascending(right) && right != [] && r == Max(Upper(right, l) - 1, 0)
    requires FitsI64(Diff(l, right[r]))
    ensures MatchRow(right, l, tolerance) == if 0 <= Sub(l, right[r]) <= tolerance then Some(r) else None
  {
    UpperSplits(right, l, r);
  }

  /** No smaller grid would do: without its last block of 256 threads, the last left row would have none. */
  lemma GridIsLeast(leftLen: nat, chunk: nat)
    requires FitsI32(leftLen) && 0 < chunk && FitsI32(chunk)
    ensures leftLen == 0 ==> Blocks(leftLen, chunk) == 0
    ensures leftLen > 0 ==> Blocks(leftLen, chunk) > 0
                            && ChunkOf(leftLen - 1, chunk) >= (Blocks(leftLen, chunk) - 1) * 256
  {
    var total := ChunkCount(leftLen, chunk);
    if leftLen == 0 {
      DivMul(chunk - 1, chunk, 1);
    } else {
      ChunkBounds(leftLen - 1, 0, leftLen, chunk);
      LastChunk(leftLen, chunk);
      assert total > 0 && ((total + 255) / 256 - 1) * 256 <= total - 1;
    }
  }

  lemma LastChunk(len: nat, chunk: nat)
    requires chunk > 0 && len > 0
    ensures ChunkOf(len - 1, chunk) == ChunkCount(len, chunk) - 1
  {
    var c := ChunkCount(len, chunk) - 1;
    ChunkBounds(len - 1, 0, len, chunk);
    ChunkStarts(c, len, chunk);
    DivMul(len - 1, chunk, c);
  }

  /** `asof_merge_fused_kernel` for thread `tid`: sweep its own `chunk` rows, or nothing past the end. */
  method MergeThread<T(!new), U(!new)>(left: seq<I64>, right: seq<I64>, price: seq<T>, spread: seq<T>, tolerance: I64,
                                       feature: (T, T) -> U, miss: U, width: I64, offsets: seq<int>, chunk: nat,
                                       tid: nat, out: array<U>)
    requires Inputs(left, right, price, spread, chunk) && right != [] && out.Length == |left|
    requires Indexable(right, width) && IsBucketIndex(right, width, offsets) && PointersFit(left, right, chunk)
    modifies out
    ensures forall k :: 0 <= k < |left| ==>
              out[k] == if ChunkOf(k, chunk) == tid
                        then Fused(Matches(left, right, tolerance), price, spread, feature, miss)[k] else old(out[k])
  {
    ghost var F := Fused(Matches(left, right, tolerance), price, spread, feature, miss);
    var start := tid * chunk;
    if start >= |left| {
      forall k | 0 <= k < |left| ensures ChunkOf(k, chunk) != tid {
        ChunkBounds(k, tid, |left|, chunk);
      }
      return;
    }
    var end := Min(start + chunk, |left|);
    ChunkAscends(left, chunk, tid, start, end);
    ghost var before := out[..];
    MergeSweep(left, right, price, spread, tolerance, feature, miss, width, offsets, start, end, out);
    forall k | 0 <= k < |left| ensures out[k] == if ChunkOf(k, chunk) == tid then F[k] else before[k] {
      ChunkBounds(k, tid, |left|, chunk);
      if k < start {
        assert out[..start][k] == before[..start][k];
      } else if k < end {
        assert out[start..end][k - start] == F[start..end][k - start];
      } else {
        assert out[end..][k - end] == before[end..][k - end];
      }
    }
  }

  /** The merge kernel over the launch grid, threads in any order, gives the fused as-of join. The bucket index
      comes from the host, which must be able to number buckets and rows in an `i32`. */
  method LaunchMerge<T(!new), U(!new)>(left: seq<I64>, right: seq<I64>, price: seq<T>, spread: seq<T>, tolerance: I64,
                                       feature: (T, T) -> U, miss: U, width: I64, chunk: nat) returns (out: array<U>)
    requires Inputs(left, right, price, spread, chunk) && right != [] && Indexable(right, width)
    requires FitsI32(|left|) && FitsI32(chunk) && HostIndexFits(right, width) && PointersFit(left, right, chunk)
    ensures out[..] == Fused(Matches(left, right, tolerance), price, spread, feature, miss)
  {
    var index := BuildIndexI32(right, width);
    var offsets := index.value;
    out := new U[|left|](_ => miss);
    ghost var F := Fused(Matches(left, right, tolerance), price, spread, feature, miss);
    var threads := Blocks(|left|, chunk) * THREADS_PER_BLOCK;
    var pending := Below(threads);
    forall k | 0 <= k < |left| ensures ChunkOf(k, chunk) in pending {
      GridCovers(|left|, chunk, k, 0);
    }
    hide ChunkOf, Blocks, Fused, Matches, Inputs, IsBucketIndex, Indexable, PointersFit, NumBuckets, Below;
    while pending != {}
      invariant fresh(out) && out.Length == |left|
      invariant forall k :: 0 <= k < |left| && ChunkOf(k, chunk) !in pending ==> out[k] == F[k]
      decreases pending
    {
      var tid :| tid in pending;
      MergeThread(left, right, price, spread, tolerance, feature, miss, width, offsets, chunk, tid, out);
      pending := pending - {tid};
    }
  }
}
