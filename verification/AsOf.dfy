/** The as-of join, defined row by row, and the facts every fast form rests on. */
module AsOf {
  import opened Basics

  /** Timestamps in non-decreasing order. */
  ghost predicate Ascending(ts: seq<I64>) {
    forall i, j :: 0 <= i < j < |ts| ==> ts[i] <= ts[j]
  }

  /** `partition_point(|ts| ts <= l)`: how many leading timestamps are at or before `l`. */
  function Upper(ts: seq<I64>, l: int): (n: nat)
    ensures n <= |ts|
  {
    if ts == [] then 0
    else if ts[|ts| - 1] <= l then |ts|
    else Upper(ts[..|ts| - 1], l)
  }

  lemma {:induction false} UpperSplits(ts: seq<I64>, l: int, k: nat)
    requires Ascending(ts) && k < |ts|
    ensures k < Upper(ts, l) <==> ts[k] <= l
  {
    if ts[|ts| - 1] > l && k < |ts| - 1 {
      UpperSplits(ts[..|ts| - 1], l, k);
    } else if ts[|ts| - 1] > l {
      assert Upper(ts[..|ts| - 1], l) <= |ts| - 1;
    }
  }

  /** The mathematical difference; `WrapSub` below is the machine subtraction. */
  function Diff(a: int, b: int): (d: int)
  {
    a - b
  }

  /** The row matched by left time `l`: the last right row at or before it, if it is recent enough. */
  function MatchRow(right: seq<I64>, l: I64, tolerance: I64): (r: Option<nat>)
    ensures r.Some? ==> r.value < |right|
  {
    var j := Upper(right, l);
    if j > 0 && Diff(l, right[j - 1]) <= tolerance then Some(j - 1) else None
  }

  /** What a match means, without reference to how it is searched for. */
  lemma MatchRowIs(right: seq<I64>, l: I64, tolerance: I64)
    requires Ascending(right)
    ensures MatchRow(right, l, tolerance).Some? <==>
              exists r :: 0 <= r < |right| && 0 <= Diff(l, right[r]) <= tolerance
    ensures MatchRow(right, l, tolerance).Some? ==>
              var r := MatchRow(right, l, tolerance).value;
              right[r] <= l && (forall k :: r < k < |right| ==> l < right[k])
  {
    var j := Upper(right, l);
    forall k | 0 <= k < |right| ensures k < j <==> right[k] <= l {
      UpperSplits(right, l, k);
    }
  }

  function Pick<T>(payload: seq<T>, r: Option<nat>, miss: T): (v: T)
    requires r.Some? ==> r.value < |payload|
  {
    if r.Some? then payload[r.value] else miss
  }

  // ---------- rows and results ----------

  /** The chosen right rows lie inside a table of `n` rows. */
  ghost predicate InTable(rows: seq<Option<nat>>, n: nat) {
    forall i :: 0 <= i < |rows| && rows[i].Some? ==> rows[i].value < n
  }

  /** Each left row picks the payload of its right row, or the miss value. */
  function Picked<T>(rows: seq<Option<nat>>, payload: seq<T>, miss: T): (out: seq<T>)
    requires InTable(rows, |payload|)
    ensures |out| == |rows| && forall i :: 0 <= i < |rows| ==> out[i] == Pick(payload, rows[i], miss)
  {
    seq(|rows|, i requires 0 <= i < |rows| => Pick(payload, rows[i], miss))
  }

  /** On a column without repeated values, the result tells which rows were chosen. */
  lemma PickedInjective<T>(a: seq<Option<nat>>, b: seq<Option<nat>>, payload: seq<T>, miss: T)
    requires InTable(a, |payload|) && InTable(b, |payload|) && |a| == |b|
    requires NoDup(payload) && miss !in payload
    ensures Picked(a, payload, miss) == Picked(b, payload, miss) <==> a == b
  {
    if Picked(a, payload, miss) == Picked(b, payload, miss) {
      forall i | 0 <= i < |a| ensures a[i] == b[i] {
        assert Pick(payload, a[i], miss) == Picked(a, payload, miss)[i] == Pick(payload, b[i], miss);
        assert a[i].Some? ==> payload[a[i].value] in payload;
        assert b[i].Some? ==> payload[b[i].value] in payload;
      }
    }
  }

  /** The match of each left row. */
  function Matches(left: seq<I64>, right: seq<I64>, tolerance: I64): (rows: seq<Option<nat>>)
    ensures |rows| == |left| && InTable(rows, |right|)
    ensures forall i :: 0 <= i < |left| ==> rows[i] == MatchRow(right, left[i], tolerance)
  {
    seq(|left|, i requires 0 <= i < |left| => MatchRow(right, left[i], tolerance))
  }

  /** The as-of join: each left row picks its match's payload, or the miss value. */
  function Joined<T>(left: seq<I64>, right: seq<I64>, payload: seq<T>, tolerance: I64, miss: T): (out: seq<T>)
    requires |payload| == |right|
  {
    Picked(Matches(left, right, tolerance), payload, miss)
  }

  // ---------- machine arithmetic ----------

  const I64_HALF: int := 0x8000_0000_0000_0000

  ghost predicate FitsI64(x: int) {
    -I64_HALF <= x < I64_HALF
  }

  /** 64-bit subtraction, which wraps around. */
  function WrapSub(a: I64, b: I64): (d: I64)
  {
    var x := Diff(a, b);
    if x >= I64_HALF then x - 2 * I64_HALF else if x < -I64_HALF then x + 2 * I64_HALF else x
  }

  /** Subtraction where an overflow must not happen. */
  function Sub(a: I64, b: I64): (d: I64)
    requires FitsI64(Diff(a, b))
  {
    a - b
  }

  /** The last row at or before `l` is so far back that the wrapped difference passes for a small one. */
  predicate Overshoots(right: seq<I64>, l: I64, tolerance: I64) {
    var j := Upper(right, l);
    j > 0 && I64_HALF <= Diff(l, right[j - 1]) <= 2 * I64_HALF + tolerance
  }

  /** `l` is so far before the first row that the wrapped difference lands inside the tolerance. */
  predicate Undershoots(right: seq<I64>, l: I64, tolerance: I64) {
    right != [] && Diff(right[0], l) >= 2 * I64_HALF - tolerance
  }

  /** The row found by testing only `l - right[r] <= tolerance` at the last row at or before `l`. */
  function OneSidedRow(right: seq<I64>, l: I64, tolerance: I64): (r: Option<nat>)
    ensures r.Some? ==> r.value < |right|
  {
    if Overshoots(right, l, tolerance) then Some(Upper(right, l) - 1) else MatchRow(right, l, tolerance)
  }

  /** The row found by testing `0 <= l - right[r] <= tolerance` at that row, or at row 0 if there is none. */
  function TwoSidedRow(right: seq<I64>, l: I64, tolerance: I64): (r: Option<nat>)
    ensures r.Some? ==> r.value < |right|
  {
    if Undershoots(right, l, tolerance) then Some(0) else MatchRow(right, l, tolerance)
  }

  function OneSided(left: seq<I64>, right: seq<I64>, tolerance: I64): (rows: seq<Option<nat>>)
    ensures |rows| == |left| && InTable(rows, |right|)
    ensures forall i :: 0 <= i < |left| ==> rows[i] == OneSidedRow(right, left[i], tolerance)
  {
    seq(|left|, i requires 0 <= i < |left| => OneSidedRow(right, left[i], tolerance))
  }

  function TwoSided(left: seq<I64>, right: seq<I64>, tolerance: I64): (rows: seq<Option<nat>>)
    ensures |rows| == |left| && InTable(rows, |right|)
    ensures forall i :: 0 <= i < |left| ==> rows[i] == TwoSidedRow(right, left[i], tolerance)
  {
    seq(|left|, i requires 0 <= i < |left| => TwoSidedRow(right, left[i], tolerance))
  }

  ghost predicate NoOvershoot(left: seq<I64>, right: seq<I64>, tolerance: I64) {
    forall i :: 0 <= i < |left| ==> !Overshoots(right, left[i], tolerance)
  }

  ghost predicate NoUndershoot(left: seq<I64>, right: seq<I64>, tolerance: I64) {
    forall i :: 0 <= i < |left| ==> !Undershoots(right, left[i], tolerance)
  }

  lemma OvershootIsWrong(right: seq<I64>, l: I64, tolerance: I64)
    requires Ascending(right)
    ensures Overshoots(right, l, tolerance) <==> OneSidedRow(right, l, tolerance) != MatchRow(right, l, tolerance)
    ensures Undershoots(right, l, tolerance) <==> TwoSidedRow(right, l, tolerance) != MatchRow(right, l, tolerance)
    ensures Undershoots(right, l, tolerance) ==> Upper(right, l) == 0
  {
    if Upper(right, l) > 0 {
      UpperSplits(right, l, 0);
    }
  }

  /** Wrap-around exactly: the one-sided test finds the matches if and only if no left time overshoots, the
      two-sided test if and only if none undershoots, and the two agree if and only if neither happens. */
  lemma WrapExactly(left: seq<I64>, right: seq<I64>, tolerance: I64)
    requires Ascending(right)
    ensures OneSided(left, right, tolerance) == Matches(left, right, tolerance) <==> NoOvershoot(left, right, tolerance)
    ensures TwoSided(left, right, tolerance) == Matches(left, right, tolerance) <==> NoUndershoot(left, right, tolerance)
    ensures OneSided(left, right, tolerance) == TwoSided(left, right, tolerance)
            <==> NoOvershoot(left, right, tolerance) && NoUndershoot(left, right, tolerance)
  {
    var o, t, m := OneSided(left, right, tolerance), TwoSided(left, right, tolerance), Matches(left, right, tolerance);
    forall i | 0 <= i < |left|
      ensures o[i] == m[i] <==> !Overshoots(right, left[i], tolerance)
      ensures t[i] == m[i] <==> !Undershoots(right, left[i], tolerance)
      ensures o[i] == t[i] <==> o[i] == m[i] && t[i] == m[i]
    {
      OvershootIsWrong(right, left[i], tolerance);
    }
  }

  /** Both happen at the ends of the range: a row 2^63 back passes the one-sided test, and a row at the far end
      passes the two-sided one with a tolerance of 1, though neither left time has a match. */
  lemma WrapMisjudges(low: I64, high: I64)
    requires low == -0x8000_0000_0000_0000 && high == 0x7FFF_FFFF_FFFF_FFFF
    ensures MatchRow([low], 0, 0) == None && OneSidedRow([low], 0, 0) == Some(0)
    ensures MatchRow([high], low, 1) == None && TwoSidedRow([high], low, 1) == Some(0)
  {
    assert Upper([high], low) == 0 by {
      assert [high][..0] == [];
    }
  }

  // ---------- the reference ----------

  /** `asof_join_multi_ref` for one row and one column. */
  function RefValue<T>(right: seq<I64>, payload: seq<T>, l: I64, tolerance: I64, miss: T): (v: T)
    requires |payload| == |right|
  {
    var j := Upper(right, l);
    if j > 0 && WrapSub(l, right[j - 1]) <= tolerance then payload[j - 1] else miss
  }

  /** The program's own reference takes the one-sided rows. */
  lemma RefIsOneSided<T>(left: seq<I64>, right: seq<I64>, payload: seq<T>, tolerance: I64, miss: T, i: nat)
    requires Ascending(right) && |payload| == |right| && i < |left|
    ensures RefValue(right, payload, left[i], tolerance, miss) == Picked(OneSided(left, right, tolerance), payload, miss)[i]
  {
    OneSidedDecides(right, left[i], tolerance, Upper(right, left[i]));
  }

  lemma {:induction false} DivMul(x: nat, w: nat, b: nat)
    requires w > 0
    ensures b <= x / w <==> b * w <= x
    ensures x / w * w <= x < (x / w + 1) * w
  {
    var q := x / w;
    assert q * w + x % w == x && 0 <= x % w < w;
    if b <= q {
      MulMonotone(b, q, w);
    } else {
      MulMonotone(q + 1, b, w);
    }
  }

  lemma MulMonotone(a: nat, b: nat, w: nat)
    requires a <= b
    ensures a * w <= b * w
  {
    assert b * w == a * w + (b - a) * w;
    assert (b - a) * w >= 0;
  }

  // ---------- the two-pointer step ----------

  /** The right pointer never passes the row that `l` would match. */
  ghost predicate Behind(right: seq<I64>, r: nat, l: int) {
    r < |right| && (r == 0 || right[r] <= l)
  }

  /** Advance the right pointer while the next right row is still at or before `l`. */
  method AdvanceTo(right: seq<I64>, r0: nat, l: I64) returns (r: nat)
    requires Ascending(right) && Behind(right, r0, l)
    ensures Behind(right, r, l) && r0 <= r && r == Max(Upper(right, l) - 1, 0)
  {
    r := r0;
    while r + 1 < |right| && right[r + 1] <= l
      invariant Behind(right, r, l) && r0 <= r
    {
      r := r + 1;
    }
    UpperSplits(right, l, r);
    if r + 1 < |right| {
      UpperSplits(right, l, r + 1);
    }
  }

  /** Past the last row at or before `l`, the upper bound alone decides the one-sided row. */
  lemma OneSidedDecides(right: seq<I64>, l: I64, tolerance: I64, j: nat)
    requires Ascending(right) && j == Upper(right, l)
    ensures OneSidedRow(right, l, tolerance)
            == if j > 0 && WrapSub(l, right[j - 1]) <= tolerance then Some(j - 1) else None
  {
    if j > 0 {
      UpperSplits(right, l, j - 1);
    }
  }

  /** At the advanced pointer the range check decides the two-sided row. */
  lemma PointerDecides(right: seq<I64>, l: I64, tolerance: I64, r: nat)
    requires Ascending(right) && right != [] && r == Max(Upper(right, l) - 1, 0)
    ensures r < |right|
    ensures TwoSidedRow(right, l, tolerance) == if 0 <= WrapSub(l, right[r]) <= tolerance then Some(r) else None
  {
    UpperSplits(right, l, r);
    UpperSplits(right, l, 0);
  }

  // ---------- chunks ----------

  /** The chunk a left row belongs to. */
  function ChunkOf(i: nat, chunk: nat): (c: nat)
    requires chunk > 0
  {
    i / chunk
  }

  /** Left times ascend inside each chunk. */
  ghost predicate ChunkwiseAscending(left: seq<I64>, chunk: nat)
    requires chunk > 0
  {
    forall i, j :: 0 <= i < j < |left| && ChunkOf(i, chunk) == ChunkOf(j, chunk) ==> left[i] <= left[j]
  }

  /** Number of chunks of `len` rows. */
  function ChunkCount(len: nat, chunk: nat): (n: nat)
    requires chunk > 0
  {
    (len + chunk - 1) / chunk
  }

  /** Chunk `c` covers exactly the rows `c * chunk .. min((c + 1) * chunk, len)`, and every row is in one chunk. */
  lemma ChunkBounds(i: nat, c: nat, len: nat, chunk: nat)
    requires chunk > 0 && i < len
    ensures ChunkOf(i, chunk) == c <==> c * chunk <= i < c * chunk + chunk
    ensures ChunkOf(i, chunk) < ChunkCount(len, chunk)
  {
    DivMul(i, chunk, c);
    DivMul(i, chunk, c + 1);
    assert (c + 1) * chunk == c * chunk + chunk;
    var d := ChunkOf(i, chunk);
    assert (d + 1) * chunk == d * chunk + chunk;
    DivMul(len + chunk - 1, chunk, d + 1);
  }

  lemma ChunkStarts(c: nat, len: nat, chunk: nat)
    requires chunk > 0 && c < ChunkCount(len, chunk)
    ensures c * chunk < len
  {
    DivMul(len + chunk - 1, chunk, c + 1);
    assert (c + 1) * chunk == c * chunk + chunk;
  }

  // ---------- the bucket index ----------

  /** The first right row at or after `t`, or the right length. */
  ghost predicate IsFirstAtOrAfter(right: seq<I64>, n: int, t: int) {
    && 0 <= n <= |right|
    && (forall k :: 0 <= k < n ==> right[k] < t)
    && (forall k :: n <= k < |right| ==> t <= right[k])
  }

  function NumBuckets(right: seq<I64>, width: I64): (n: nat)
    requires right != [] && Ascending(right) && width > 0
  {
    Diff(right[|right| - 1], right[0]) / width + 1
  }

  /** The start of bucket `b`. */
  function BucketStart(right: seq<I64>, width: I64, b: nat): (t: int)
    requires right != []
  {
    right[0] + b * width
  }

  /** The bucket index can be built: the times span fewer than 2^63 units, and its length is a 64-bit number. */
  ghost predicate Indexable(right: seq<I64>, width: I64)
    requires Ascending(right)
  {
    && width > 0
    && (right != [] ==> FitsI64(Diff(right[|right| - 1], right[0])) && FitsI64(NumBuckets(right, width)))
  }

  ghost predicate IsBucketIndex(right: seq<I64>, width: I64, offsets: seq<int>)
    requires right != [] && Ascending(right) && width > 0
  {
    && |offsets| == NumBuckets(right, width) + 1
    && forall b :: 0 <= b < |offsets| ==> IsFirstAtOrAfter(right, offsets[b], BucketStart(right, width, b))
  }

  /** Fill the bucket index in one forward pass; sparse buckets forward-fill. */
  method BuildBucketIndex(right: seq<I64>, width: I64) returns (offsets: array<nat>)
    requires right != [] && Ascending(right) && Indexable(right, width)
    ensures fresh(offsets) && IsBucketIndex(right, width, offsets[..])
  {
    var minTs := right[0];
    var n := Sub(right[|right| - 1], minTs) / width + 1;
    offsets := new nat[n + 1](_ => 0);
    var cur := 0;
    for i := 0 to |right|
      invariant cur == if i == 0 then 0 else Diff(right[i - 1], minTs) / width + 1
      invariant cur <= n
      invariant forall b :: 0 <= b < cur ==> IsFirstAtOrAfter(right, offsets[b], BucketStart(right, width, b))
    {
      var b := Sub(right[i], minTs) / width;
      BucketsAscend(right, width, i);
      while cur <= b
        invariant cur <= b + 1
        invariant i > 0 ==> Diff(right[i - 1], minTs) / width < cur
        invariant i == 0 || cur >= Diff(right[i - 1], minTs) / width + 1
        invariant forall c :: 0 <= c < cur ==> IsFirstAtOrAfter(right, offsets[c], BucketStart(right, width, c))
      {
        FirstOfBucket(right, width, i, cur);
        offsets[cur] := i;
        cur := cur + 1;
      }
    }
    for b := cur to n + 1
      invariant forall c :: 0 <= c < b ==> IsFirstAtOrAfter(right, offsets[c], BucketStart(right, width, c))
    {
      PastTheEnd(right, width, b);
      offsets[b] := |right|;
    }
  }

  lemma BucketsAscend(right: seq<I64>, width: I64, i: nat)
    requires right != [] && Ascending(right) && width > 0 && i < |right|
    ensures 0 <= Diff(right[i], right[0]) / width < NumBuckets(right, width)
    ensures i > 0 ==> Diff(right[i - 1], right[0]) / width <= Diff(right[i], right[0]) / width
  {
    var x, last := Diff(right[i], right[0]), Diff(right[|right| - 1], right[0]);
    DivMul(x, width, 0);
    DivMul(last, width, x / width);
    if i > 0 {
      var y := Diff(right[i - 1], right[0]);
      DivMul(y, width, 0);
      DivMul(x, width, y / width);
    }
  }

  lemma FirstOfBucket(right: seq<I64>, width: I64, i: nat, b: nat)
    requires right != [] && Ascending(right) && width > 0 && i < |right|
    requires b <= Diff(right[i], right[0]) / width
    requires i > 0 ==> Diff(right[i - 1], right[0]) / width < b
    ensures IsFirstAtOrAfter(right, i, BucketStart(right, width, b))
  {
    DivMul(Diff(right[i], right[0]), width, b);
    if i > 0 {
      DivMul(Diff(right[i - 1], right[0]), width, b);
    }
  }

  lemma PastTheEnd(right: seq<I64>, width: I64, b: nat)
    requires right != [] && Ascending(right) && width > 0
    requires b > Diff(right[|right| - 1], right[0]) / width
    ensures IsFirstAtOrAfter(right, |right|, BucketStart(right, width, b))
  {
    DivMul(Diff(right[|right| - 1], right[0]), width, b);
  }

  /** Division rounding toward zero. */
  function TruncDiv(x: int, w: nat): (q: int)
    requires w > 0
  {
    if x >= 0 then x / w else -(-x / w)
  }

  /** `q as usize`. */
  function AsUsize(q: int): (n: nat)
    requires FitsI64(q)
  {
    if q >= 0 then q else q + 2 * I64_HALF
  }

  lemma QuotientSmaller(x: nat, w: nat)
    requires w > 0
    ensures 0 <= x / w <= x
  {
    var q := x / w;
    DivMul(x, w, q);
    MulMonotone(1, w, q);
    assert w * q == q * w;
  }

  lemma QuotientFits(x: I64, w: nat)
    requires w > 0
    ensures FitsI64(TruncDiv(x, w))
  {
    var y: int := x;
    QuotientSmaller(if y >= 0 then y else -y, w);
  }

  /** The row before row `n`, or row 0. */
  function Before(n: int): (r: nat)
  {
    if n > 0 then n - 1 else 0
  }

  /** Where a chunk starts on the right: one row before its bucket, never past the match of its first row. */
  function StartRow(right: seq<I64>, width: I64, offsets: seq<int>, l: I64): (r: nat)
    requires right != [] && Ascending(right) && width > 0 && IsBucketIndex(right, width, offsets)
  {
    QuotientFits(WrapSub(l, right[0]), width);
    var b := if l < right[0] then 0 else Min(AsUsize(TruncDiv(WrapSub(l, right[0]), width)), NumBuckets(right, width));
    Before(offsets[b])
  }

  /** The row before a bucket that begins at or before `l` is not past the match of `l`. */
  lemma BucketIsBehind(right: seq<I64>, width: I64, offsets: seq<int>, l: int, b: nat)
    requires right != [] && Ascending(right) && Indexable(right, width) && IsBucketIndex(right, width, offsets)
    requires b < |offsets| && (b == 0 || BucketStart(right, width, b) <= l)
    ensures Behind(right, Before(offsets[b]), l)
  {
    hide NumBuckets;
    assert IsFirstAtOrAfter(right, offsets[b], BucketStart(right, width, b));
    if b == 0 {
      assert BucketStart(right, width, b) == right[0];
    }
  }

  /** Without wrap-around, the bucket a left time falls in begins at or before it. */
  lemma LookupIsBehind(right: seq<I64>, width: I64, offsets: seq<int>, l: int, later: int)
    requires right != [] && Ascending(right) && Indexable(right, width) && IsBucketIndex(right, width, offsets)
    requires right[0] <= l <= later
    ensures Diff(l, right[0]) / width >= 0
    ensures Behind(right, Before(offsets[Min(Diff(l, right[0]) / width, NumBuckets(right, width))]), later)
  {
    var x := Diff(l, right[0]);
    DivMul(x, width, 0);
    var b := Min(x / width, NumBuckets(right, width));
    DivMul(x, width, b);
    BucketIsBehind(right, width, offsets, later, b);
  }

  /** Also when the difference to the first right row wraps around. */
  lemma StartIsBehind(right: seq<I64>, width: I64, offsets: seq<int>, l: I64, later: I64)
    requires right != [] && Ascending(right) && Indexable(right, width) && IsBucketIndex(right, width, offsets)
    requires l <= later
    ensures Behind(right, StartRow(right, width, offsets, l), later)
  {
    var x := Diff(l, right[0]);
    if 0 <= x < I64_HALF {
      LookupIsBehind(right, width, offsets, l, later);
    } else if x < 0 || TruncDiv(WrapSub(l, right[0]), width) == 0 {
      BucketIsBehind(right, width, offsets, later, 0);
    }
  }
}
