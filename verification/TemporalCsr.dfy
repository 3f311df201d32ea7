/** `TemporalCSR`: the counting/prefix-sum build that drops the source column, and time-sliced neighbours. */
module TemporalCsr {
  import opened Basics
  import opened Edges

  datatype Csr = Csr(nodeCount: nat, offsets: seq<U32>, dst: seq<U64>,
                     validFrom: seq<I64>, validTo: seq<I64>, edgeType: seq<U16>)

  datatype Neighbor = Neighbor(dst: U64, edgeType: U16, validFrom: I64, validTo: I64)

  const U32_SIZE: nat := 0x1_0000_0000

  /** `+=` on `u32` in a build without overflow checks. */
  function WrappingAdd(a: U32, b: U32): (r: U32)
  {
    (a + b) % U32_SIZE
  }

  // ---------- specification of the build ----------

  function CountOf(rows: seq<Edge>, s: nat): (n: nat)
    ensures n <= |rows|
  {
    if rows == [] then 0
    else CountOf(rows[..|rows| - 1], s) + if rows[|rows| - 1].src == s then 1 else 0
  }

  function CountBelow(rows: seq<Edge>, s: nat): (n: nat)
    ensures n <= |rows|
  {
    if rows == [] then 0
    else CountBelow(rows[..|rows| - 1], s) + if rows[|rows| - 1].src < s then 1 else 0
  }

  lemma {:induction false} CountBelowStep(rows: seq<Edge>, s: nat)
    ensures CountBelow(rows, s + 1) == CountBelow(rows, s) + CountOf(rows, s)
    ensures s == 0 ==> CountBelow(rows, s) == 0
    ensures CountBelow(rows, s) <= CountBelow(rows, s + 1)
  {
    if rows != [] {
      CountBelowStep(rows[..|rows| - 1], s);
    }
  }

  lemma {:induction false} CountBelowAll(rows: seq<Edge>, n: nat)
    requires forall r :: r in rows ==> r.src < n
    ensures CountBelow(rows, n) == |rows|
  {
    if rows != [] {
      assert rows[|rows| - 1] in rows;
      assert forall r :: r in rows[..|rows| - 1] ==> r in rows;
      CountBelowAll(rows[..|rows| - 1], n);
    }
  }

  lemma CountOfStep(rows: seq<Edge>, k: nat, s: nat)
    requires k < |rows|
    ensures CountOf(rows[..k + 1], s) == CountOf(rows[..k], s) + if rows[k].src == s then 1 else 0
  {
    assert rows[..k + 1][..k] == rows[..k];
  }

  lemma WrapsOnce(a: nat, b: nat)
    ensures WrappingAdd(a % U32_SIZE, b % U32_SIZE) == (a + b) % U32_SIZE
  {
  }

  /** In key order, the rows with a source below `s` come first. */
  lemma {:induction false} CountBelowIsPartition(rows: seq<Edge>, s: nat, p: nat)
    requires KeySorted(rows) && p < |rows|
    ensures p < CountBelow(rows, s) <==> rows[p].src < s
  {
    var init, last := rows[..|rows| - 1], rows[|rows| - 1];
    if last.src < s {
      forall r | r in rows ensures r.src < s {
        var i :| 0 <= i < |rows| && rows[i] == r;
        assert i < |rows| - 1 ==> !KeyLess(last, rows[i]);
      }
      CountBelowAll(rows, s);
    } else if p < |rows| - 1 {
      CountBelowIsPartition(init, s, p);
    }
  }

  /** The parallel edge columns are those of `rows`, without the source. */
  ghost predicate SameColumns(csr: Csr, rows: seq<Edge>) {
    && |csr.dst| == |csr.validFrom| == |csr.validTo| == |csr.edgeType| == |rows|
    && forall p :: 0 <= p < |rows| ==>
         rows[p] == Edge(rows[p].src, csr.dst[p], csr.edgeType[p], csr.validFrom[p], csr.validTo[p])
  }

  /** The index holds the columns of `rows` with the source dropped, and offsets counted in `u32`. */
  ghost predicate IsCsrOf(csr: Csr, rows: seq<Edge>) {
    && KeySorted(rows)
    && (forall r :: r in rows ==> r.src < csr.nodeCount)
    && SameColumns(csr, rows)
    && |csr.offsets| == csr.nodeCount + 1
    && (forall i :: 0 <= i <= csr.nodeCount ==> csr.offsets[i] == CountBelow(rows, i) % U32_SIZE)
  }

  /** The offsets delimit the runs without wrap-around. */
  ghost predicate Exact(csr: Csr, rows: seq<Edge>) {
    && IsCsrOf(csr, rows)
    && forall i :: 0 <= i <= csr.nodeCount ==> csr.offsets[i] == CountBelow(rows, i)
  }

  /** The `u32` offsets are exact precisely when the edge count fits in 32 bits. */
  lemma ExactIffFits(csr: Csr, rows: seq<Edge>)
    requires IsCsrOf(csr, rows)
    ensures Exact(csr, rows) <==> |rows| < U32_SIZE
  {
    CountBelowAll(rows, csr.nodeCount);
    if |rows| < U32_SIZE {
      forall i | 0 <= i <= csr.nodeCount ensures csr.offsets[i] == CountBelow(rows, i) {
        assert CountBelow(rows, i) <= |rows|;
      }
    } else {
      assert csr.offsets[csr.nodeCount] < U32_SIZE;
    }
  }

  // ---------- the build ----------

  function ZipRows(src: seq<U64>, dst: seq<U64>, validFrom: seq<I64>, validTo: seq<I64>, edgeType: seq<U16>): (r: seq<Edge>)
    requires |src| == |dst| == |validFrom| == |validTo| == |edgeType|
  {
    seq(|src|, i requires 0 <= i < |src| => Edge(src[i], dst[i], edgeType[i], validFrom[i], validTo[i]))
  }

  /** Count the edges of each source one slot to the right. */
  method CountSources(rows: seq<Edge>, nodeCount: nat) returns (offsets: array<U32>)
    requires forall r :: r in rows ==> r.src < nodeCount
    ensures fresh(offsets) && offsets.Length == nodeCount + 1 && offsets[0] == 0
    ensures forall j :: 1 <= j <= nodeCount ==> offsets[j] == CountOf(rows, j - 1) % U32_SIZE
  {
    offsets := new U32[nodeCount + 1](_ => 0);
    for k := 0 to |rows|
      invariant offsets[0] == 0
      invariant forall j :: 1 <= j <= nodeCount ==> offsets[j] == CountOf(rows[..k], j - 1) % U32_SIZE
    {
      hide CountOf, WrappingAdd;
      var s: nat := rows[k].src;
      assert rows[k] in rows;
      WrapsOnce(CountOf(rows[..k], s), 1);
      ghost var before := offsets[..];
      offsets[s + 1] := WrappingAdd(offsets[s + 1], 1);
      forall j | 1 <= j <= nodeCount ensures offsets[j] == CountOf(rows[..k + 1], j - 1) % U32_SIZE {
        CountOfStep(rows, k, j - 1);
        assert j != s + 1 ==> offsets[j] == before[j];
      }
    }
    assert rows[..|rows|] == rows;
  }

  /** Turn the counts into running sums. */
  method CountOffsets(rows: seq<Edge>, nodeCount: nat) returns (offsets: array<U32>)
    requires forall r :: r in rows ==> r.src < nodeCount
    ensures fresh(offsets) && offsets.Length == nodeCount + 1
    ensures forall i :: 0 <= i <= nodeCount ==> offsets[i] == CountBelow(rows, i) % U32_SIZE
  {
    hide CountOf, CountBelow, WrappingAdd;
    offsets := CountSources(rows, nodeCount);
    CountBelowStep(rows, 0);
    for i := 0 to nodeCount
      invariant forall j :: 0 <= j <= i ==> offsets[j] == CountBelow(rows, j) % U32_SIZE
      invariant forall j :: i < j <= nodeCount ==> offsets[j] == CountOf(rows, j - 1) % U32_SIZE
    {
      CountBelowStep(rows, i);
      WrapsOnce(CountOf(rows, i), CountBelow(rows, i));
      offsets[i + 1] := WrappingAdd(offsets[i + 1], offsets[i]);
    }
  }

  /** `from_arrays`. The ghost result is the sorted row list behind the index. */
  method FromArrays(src: seq<U64>, dst: seq<U64>, validFrom: seq<I64>, validTo: seq<I64>, edgeType: seq<U16>,
                    nodeCount: nat)
    returns (r: Result<Csr>, ghost rows: seq<Edge>)
    ensures !(|src| == |dst| == |validFrom| == |validTo| == |edgeType|) <==> r == Err(InvalidArgument)
    ensures |src| == |dst| == |validFrom| == |validTo| == |edgeType| ==>
              && (r.Ok? <==> forall s :: s in src ==> s < nodeCount)
              && (r.Err? ==> exists i :: && 0 <= i < |src| && src[i] >= nodeCount && r.error == NodeOutOfRange(src[i])
                                         && forall j :: 0 <= j < i ==> src[j] < nodeCount)
              && (r.Ok? ==> && IsCsrOf(r.value, rows) && r.value.nodeCount == nodeCount
                            && CanonicalOrder(rows)
                            && multiset(rows) == multiset(ZipRows(src, dst, validFrom, validTo, edgeType)))
  {
    rows := [];
    if |dst| != |src| || |validFrom| != |src| || |validTo| != |src| || |edgeType| != |src| {
      return Err(InvalidArgument), rows;
    }
    for i := 0 to |src|
      invariant forall j :: 0 <= j < i ==> src[j] < nodeCount
    {
      if src[i] >= nodeCount {
        assert src[i] in src;
        return Err(NodeOutOfRange(src[i])), rows;
      }
    }
    var zipped := ZipRows(src, dst, validFrom, validTo, edgeType);
    var sorted := SortUnstableByKey(zipped);
    rows := sorted;
    SameElements(sorted, zipped);
    forall r | r in sorted ensures r.src < nodeCount {
      assert r in zipped;
    }
    KeySortedIsCanonical(sorted);
    var offsets := CountOffsets(sorted, nodeCount);
    var d, f, t, y := [], [], [], [];
    for k := 0 to |sorted|
      invariant |d| == |f| == |t| == |y| == k
      invariant forall p :: 0 <= p < k ==> d[p] == sorted[p].dst && f[p] == sorted[p].validFrom
                                           && t[p] == sorted[p].validTo && y[p] == sorted[p].edgeType
    {
      d, f, t, y := d + [sorted[k].dst], f + [sorted[k].validFrom], t + [sorted[k].validTo], y + [sorted[k].edgeType];
    }
    r := Ok(Csr(nodeCount, offsets[..], d, f, t, y));
  }

  // ---------- lookups ----------

  /** Columns have one length and every offset is a position in them. */
  ghost predicate Wf(csr: Csr) {
    && |csr.offsets| == csr.nodeCount + 1
    && |csr.dst| == |csr.validFrom| == |csr.validTo| == |csr.edgeType|
    && forall i :: 0 <= i <= csr.nodeCount ==> csr.offsets[i] <= |csr.dst|
  }

  lemma BuiltIsWf(csr: Csr, rows: seq<Edge>)
    requires IsCsrOf(csr, rows)
    ensures Wf(csr)
  {
    forall i | 0 <= i <= csr.nodeCount ensures csr.offsets[i] <= |rows| {
      assert CountBelow(rows, i) <= |rows|;
    }
  }

  function EdgeRange(csr: Csr, src: U64): (r: Result<(nat, nat)>)
    requires |csr.offsets| == csr.nodeCount + 1
  {
    if src >= csr.nodeCount then Err(NodeOutOfRange(src))
    else Ok((csr.offsets[src], csr.offsets[src + 1]))
  }

  predicate ActiveAt(csr: Csr, p: nat, t: I64)
    requires Wf(csr) && p < |csr.dst|
  {
    csr.validFrom[p] <= t && t < csr.validTo[p]
  }

  /** The positions of `lo..hi` active at `t`, ascending. */
  function ActivePositions(csr: Csr, lo: nat, hi: nat, t: I64): (ps: seq<nat>)
    requires Wf(csr) && hi <= |csr.dst|
    ensures forall i :: 0 <= i < |ps| ==> lo <= ps[i] < hi
    decreases hi
  {
    if lo >= hi then []
    else
      var init := ActivePositions(csr, lo, hi - 1, t);
      init + if ActiveAt(csr, hi - 1, t) then [hi - 1] else []
  }

  /** Exactly the active positions of the range, in strictly ascending order. */
  lemma {:induction false} ActivePositionsAre(csr: Csr, lo: nat, hi: nat, t: I64)
    requires Wf(csr) && hi <= |csr.dst|
    ensures var ps := ActivePositions(csr, lo, hi, t);
            && (forall p :: p in ps <==> lo <= p < hi && ActiveAt(csr, p, t))
            && (forall i, j :: 0 <= i < j < |ps| ==> ps[i] < ps[j])
    decreases hi
  {
    if lo < hi {
      ActivePositionsAre(csr, lo, hi - 1, t);
    }
  }

  function NeighborAt(csr: Csr, p: nat): (n: Neighbor)
    requires Wf(csr) && p < |csr.dst|
  {
    Neighbor(csr.dst[p], csr.edgeType[p], csr.validFrom[p], csr.validTo[p])
  }

  /** The active positions in the run of `src`. */
  function NeighborPositions(csr: Csr, src: U64, t: I64): (r: Result<seq<nat>>)
    requires Wf(csr)
    ensures r.Ok? <==> src < csr.nodeCount
    ensures r.Err? ==> r.error == NodeOutOfRange(src)
    ensures r.Ok? ==> forall i :: 0 <= i < |r.value| ==> r.value[i] < |csr.dst|
  {
    match EdgeRange(csr, src)
    case Err(e) => Err(e)
    case Ok((lo, hi)) =>
      Ok(ActivePositions(csr, lo, hi, t))
  }

  /** They are exactly the positions of that run active at `t`, in ascending order. */
  lemma NeighborPositionsAre(csr: Csr, src: U64, t: I64)
    requires Wf(csr)
    ensures NeighborPositions(csr, src, t) == Err(NodeOutOfRange(src)) <==> src >= csr.nodeCount
    ensures src < csr.nodeCount ==>
              var ps := NeighborPositions(csr, src, t).value;
              && (forall p :: p in ps <==> csr.offsets[src] <= p < csr.offsets[src + 1] && ActiveAt(csr, p, t))
              && (forall i, j :: 0 <= i < j < |ps| ==> ps[i] < ps[j])
  {
    if src < csr.nodeCount {
      ActivePositionsAre(csr, csr.offsets[src], csr.offsets[src + 1], t);
    }
  }

  function AtPositions(csr: Csr, ps: seq<nat>): (r: seq<Neighbor>)
    requires Wf(csr) && forall i :: 0 <= i < |ps| ==> ps[i] < |csr.dst|
  {
    seq(|ps|, i requires 0 <= i < |ps| => NeighborAt(csr, ps[i]))
  }

  /** `neighbors`. */
  function Neighbors(csr: Csr, src: U64, t: I64): (r: Result<seq<Neighbor>>)
    requires Wf(csr)
  {
    match NeighborPositions(csr, src, t)
    case Err(e) => Err(e)
    case Ok(ps) => Ok(AtPositions(csr, ps))
  }

  // ---------- what the lookups mean ----------

  /** Give a neighbour its dropped source back. */
  function WithSource(s: U64, n: Neighbor): (e: Edge)
  {
    Edge(s, n.dst, n.edgeType, n.validFrom, n.validTo)
  }

  function Restore(s: U64, ns: seq<Neighbor>): (r: seq<Edge>)
  {
    seq(|ns|, i requires 0 <= i < |ns| => WithSource(s, ns[i]))
  }

  /** The run of a source is exactly the positions of the rows leaving it. */
  lemma RunIsSource(csr: Csr, rows: seq<Edge>, s: U64, p: nat)
    requires Exact(csr, rows) && s < csr.nodeCount && p < |rows|
    ensures csr.offsets[s] <= p < csr.offsets[s + 1] <==> rows[p].src == s
  {
    CountBelowIsPartition(rows, s, p);
    CountBelowIsPartition(rows, s + 1, p);
  }

  lemma {:induction false} NoneActiveFrom(rows: seq<Edge>, s: U64, t: I64)
    requires forall r :: r in rows ==> r.src != s
    ensures ActiveFrom(rows, s, t) == []
  {
    if rows != [] {
      assert rows[|rows| - 1] in rows;
      assert forall r :: r in rows[..|rows| - 1] ==> r in rows;
      NoneActiveFrom(rows[..|rows| - 1], s, t);
    }
  }

  lemma RestoreAppend(csr: Csr, s: U64, ps: seq<nat>, p: nat)
    requires Wf(csr) && p < |csr.dst| && forall i :: 0 <= i < |ps| ==> ps[i] < |csr.dst|
    ensures Restore(s, AtPositions(csr, ps + [p])) == Restore(s, AtPositions(csr, ps)) + [WithSource(s, NeighborAt(csr, p))]
  {
  }

  lemma {:induction false} ScanIsFilter(csr: Csr, rows: seq<Edge>, s: U64, t: I64, lo: nat, hi: nat)
    requires SameColumns(csr, rows) && Wf(csr) && lo <= hi <= |rows|
    requires forall p :: lo <= p < hi ==> rows[p].src == s
    ensures Restore(s, AtPositions(csr, ActivePositions(csr, lo, hi, t))) == ActiveFrom(rows[lo..hi], s, t)
  {
    if lo < hi {
      hide ActiveFrom, Restore, AtPositions, SameColumns;
      ScanIsFilter(csr, rows, s, t, lo, hi - 1);
      LastOfSegment(csr, rows, s, t, lo, hi);
      if ActiveAt(csr, hi - 1, t) {
        RestoreAppend(csr, s, ActivePositions(csr, lo, hi - 1, t), hi - 1);
      }
    }
  }

  lemma LastOfSegment(csr: Csr, rows: seq<Edge>, s: U64, t: I64, lo: nat, hi: nat)
    requires SameColumns(csr, rows) && Wf(csr) && lo < hi <= |rows| && rows[hi - 1].src == s
    ensures ActiveFrom(rows[lo..hi], s, t)
            == ActiveFrom(rows[lo..hi - 1], s, t)
               + if ActiveAt(csr, hi - 1, t) then [WithSource(s, NeighborAt(csr, hi - 1))] else []
  {
    var run := rows[lo..hi];
    assert run[..|run| - 1] == rows[lo..hi - 1];
  }

  /** Neighbours, with their source restored, are the rows of the source active at `t`, in key order and with
      their multiplicities. */
  lemma NeighborsExact(csr: Csr, rows: seq<Edge>, s: U64, t: I64)
    requires Exact(csr, rows) && Wf(csr) && s < csr.nodeCount
    ensures Neighbors(csr, s, t).Ok?
    ensures Restore(s, Neighbors(csr, s, t).value) == ActiveFrom(rows, s, t)
  {
    var lo, hi := CountBelow(rows, s), CountBelow(rows, s + 1);
    CountBelowStep(rows, s);
    forall p | 0 <= p < |rows| ensures lo <= p < hi <==> rows[p].src == s {
      RunIsSource(csr, rows, s, p);
    }
    ScanIsFilter(csr, rows, s, t, lo, hi);
    FilterSegment(rows, s, t, lo, hi);
  }

  lemma FilterSegment(rows: seq<Edge>, s: U64, t: I64, lo: nat, hi: nat)
    requires lo <= hi <= |rows|
    requires forall p :: 0 <= p < |rows| ==> (lo <= p < hi <==> rows[p].src == s)
    ensures ActiveFrom(rows, s, t) == ActiveFrom(rows[lo..hi], s, t)
  {
    var a, b, c := rows[..lo], rows[lo..hi], rows[hi..];
    assert rows == a + (b + c);
    ActiveFromSplit(a, b + c, s, t);
    ActiveFromSplit(b, c, s, t);
    NoneActiveFrom(a, s, t);
    NoneActiveFrom(c, s, t);
  }

  /** The same against the unsorted input: for every edge, how often `neighbors` reports it. */
  lemma NeighborsCount(csr: Csr, rows: seq<Edge>, input: seq<Edge>, s: U64, t: I64, e: Edge)
    requires Exact(csr, rows) && Wf(csr) && s < csr.nodeCount && multiset(rows) == multiset(input)
    ensures Neighbors(csr, s, t).Ok?
    ensures multiset(Restore(s, Neighbors(csr, s, t).value))[e]
            == if e.src == s && e.validFrom <= t < e.validTo then multiset(input)[e] else 0
  {
    NeighborsExact(csr, rows, s, t);
    ActiveFromCounts(rows, s, t, e);
  }

  lemma {:induction false} ActiveFromSorted(rows: seq<Edge>, s: U64, t: I64)
    requires KeySorted(rows)
    ensures KeySorted(ActiveFrom(rows, s, t))
    ensures forall e :: e in ActiveFrom(rows, s, t) ==> e in rows
  {
    if rows != [] {
      var init, last := rows[..|rows| - 1], rows[|rows| - 1];
      ActiveFromSorted(init, s, t);
      var f := ActiveFrom(init, s, t);
      forall i | 0 <= i < |f| ensures !KeyLess(last, f[i]) {
        assert f[i] in init;
      }
    }
  }

  /** Neighbours come in ascending order of `(valid_from, valid_to, dst)`. */
  lemma NeighborsOrdered(csr: Csr, rows: seq<Edge>, s: U64, t: I64)
    requires Exact(csr, rows) && Wf(csr) && s < csr.nodeCount
    ensures Neighbors(csr, s, t).Ok?
    ensures var ns := Neighbors(csr, s, t).value;
            forall i, j :: 0 <= i < j < |ns| ==>
              || ns[i].validFrom < ns[j].validFrom
              || (ns[i].validFrom == ns[j].validFrom && ns[i].validTo < ns[j].validTo)
              || (ns[i].validFrom == ns[j].validFrom && ns[i].validTo == ns[j].validTo && ns[i].dst <= ns[j].dst)
  {
    NeighborsExact(csr, rows, s, t);
    ActiveFromSorted(rows, s, t);
    KeySortedIsCanonical(ActiveFrom(rows, s, t));
    hide Exact, Neighbors, ActiveFrom, KeySorted;
    var ns := Neighbors(csr, s, t).value;
    assert forall i :: 0 <= i < |ns| ==> Restore(s, ns)[i] == WithSource(s, ns[i]);
  }

  // ---------- nothing is lost ----------

  /** The edges of the first `n` runs, each with its run number as source. */
  function Runs(csr: Csr, n: nat): (r: seq<Edge>)
    requires Wf(csr) && n <= csr.nodeCount
    requires forall i :: 0 <= i < csr.nodeCount ==> csr.offsets[i] <= csr.offsets[i + 1]
    requires csr.nodeCount <= U64_MAX
  {
    if n == 0 then []
    else
      var lo, hi := csr.offsets[n - 1], csr.offsets[n];
      Runs(csr, n - 1) + Run(csr, n - 1, lo, hi)
  }

  function Run(csr: Csr, s: U64, lo: nat, hi: nat): (r: seq<Edge>)
    requires Wf(csr) && lo <= hi <= |csr.dst|
  {
    seq(hi - lo, k requires 0 <= k < hi - lo => WithSource(s, NeighborAt(csr, lo + k)))
  }

  lemma RunIsSegment(csr: Csr, rows: seq<Edge>, s: U64)
    requires Exact(csr, rows) && Wf(csr) && s < csr.nodeCount && csr.offsets[s] <= csr.offsets[s + 1]
    ensures Run(csr, s, csr.offsets[s], csr.offsets[s + 1]) == rows[csr.offsets[s]..csr.offsets[s + 1]]
  {
    var lo, hi := csr.offsets[s], csr.offsets[s + 1];
    forall k | 0 <= k < hi - lo ensures Run(csr, s, lo, hi)[k] == rows[lo..hi][k] {
      RunIsSource(csr, rows, s, lo + k);
    }
  }

  lemma OffsetsAscend(csr: Csr, rows: seq<Edge>)
    requires Exact(csr, rows)
    ensures forall i :: 0 <= i < csr.nodeCount ==> csr.offsets[i] <= csr.offsets[i + 1]
  {
    forall i | 0 <= i < csr.nodeCount ensures csr.offsets[i] <= csr.offsets[i + 1] {
      CountBelowStep(rows, i);
    }
  }

  lemma {:induction false} RunsAreRows(csr: Csr, rows: seq<Edge>, n: nat)
    requires Exact(csr, rows) && Wf(csr) && n <= csr.nodeCount <= U64_MAX
    ensures forall i :: 0 <= i < csr.nodeCount ==> csr.offsets[i] <= csr.offsets[i + 1]
    ensures Runs(csr, n) == rows[..CountBelow(rows, n)]
  {
    OffsetsAscend(csr, rows);
    if n == 0 {
      CountBelowStep(rows, 0);
    } else {
      RunsAreRows(csr, rows, n - 1);
      RunIsSegment(csr, rows, n - 1);
      var lo, hi := csr.offsets[n - 1], csr.offsets[n];
      assert lo == CountBelow(rows, n - 1) && hi == CountBelow(rows, n);
      hide Exact, IsCsrOf, CountBelow, Run, Wf;
      assert rows[..hi] == rows[..lo] + rows[lo..hi];
    }
  }

  /** The runs tile the edge arrays, and restoring the source from the run number gives back the input. */
  lemma Lossless(csr: Csr, rows: seq<Edge>, input: seq<Edge>)
    requires Exact(csr, rows) && Wf(csr) && csr.nodeCount <= U64_MAX && multiset(rows) == multiset(input)
    ensures csr.offsets[0] == 0 && csr.offsets[csr.nodeCount] == |csr.dst|
    ensures forall i :: 0 <= i < csr.nodeCount ==> csr.offsets[i] <= csr.offsets[i + 1]
    ensures multiset(Runs(csr, csr.nodeCount)) == multiset(input)
  {
    RunsAreRows(csr, rows, csr.nodeCount);
    CountBelowAll(rows, csr.nodeCount);
    CountBelowStep(rows, 0);
    assert rows[..|rows|] == rows;
  }

  /** With exactly 2^32 edges out of one node, the offset wraps to 0 and every edge disappears from lookups. */
  lemma WrapLosesEverything(csr: Csr, rows: seq<Edge>, e: Edge, t: I64)
    requires IsCsrOf(csr, rows) && Wf(csr) && csr.nodeCount == 1
    requires rows == seq(U32_SIZE, _ => e) && e.src == 0 && e.validFrom <= t < e.validTo
    ensures Neighbors(csr, 0, t) == Ok([])
  {
    CountBelowAll(rows, 1);
    CountBelowStep(rows, 0);
    assert csr.offsets[1] == 0;
    assert NeighborPositions(csr, 0, t) == Ok([]);
    assert Neighbors(csr, 0, t).value == [];
  }
}
