/** Zone maps over temporal edge columns, and the bit-packed "active at T" masks with and without pruning. */
module ZoneMaps {
  import opened Basics

  /** Bounds of the run `offset .. offset + len`. */
  datatype ZoneMap = ZoneMap(offset: nat, len: nat, minFrom: I64, maxTo: I64)

  const I64_MAX: I64 := 0x7FFF_FFFF_FFFF_FFFF
  const I64_MIN: I64 := -0x8000_0000_0000_0000

  /** No edge of the zone can be active at `t`. */
  predicate Excludes(z: ZoneMap, t: I64) {
    t < z.minFrom || t >= z.maxTo
  }

  predicate ActiveAt(validFrom: seq<I64>, validTo: seq<I64>, t: I64, i: nat)
    requires |validFrom| == |validTo| && i < |validFrom|
  {
    validFrom[i] <= t && t < validTo[i]
  }

  /** What exclusion means: every edge of the zone starts after `t`, or every edge ends at or before `t`. */
  lemma ExcludesMeans(z: ZoneMap, validFrom: seq<I64>, validTo: seq<I64>, t: I64)
    requires |validFrom| == |validTo| && BoundsOf(z, validFrom, validTo)
    ensures Excludes(z, t) <==>
              || (forall i :: z.offset <= i < z.offset + z.len ==> validFrom[i] > t)
              || (forall i :: z.offset <= i < z.offset + z.len ==> validTo[i] <= t)
  {
  }

  // ---------- building zones ----------

  /** The zone's bounds are the least start and the greatest end of its edges. */
  ghost predicate BoundsOf(z: ZoneMap, validFrom: seq<I64>, validTo: seq<I64>)
    requires |validFrom| == |validTo|
  {
    && 0 < z.len && z.offset + z.len <= |validFrom|
    && (forall i :: z.offset <= i < z.offset + z.len ==> z.minFrom <= validFrom[i] && validTo[i] <= z.maxTo)
    && (exists i :: z.offset <= i < z.offset + z.len && validFrom[i] == z.minFrom)
    && (exists i :: z.offset <= i < z.offset + z.len && validTo[i] == z.maxTo)
  }

  /** One past the last edge of the zones. */
  function EndOf(zones: seq<ZoneMap>): (n: nat)
  {
    if zones == [] then 0 else zones[|zones| - 1].offset + zones[|zones| - 1].len
  }

  /** The zones tile `0..n` in order, all but the last with exactly `chunkSize` edges. */
  ghost predicate Tiles(zones: seq<ZoneMap>, n: nat, chunkSize: nat) {
    && (zones != [] ==> zones[0].offset == 0)
    && (forall j, k :: 0 <= j && k == j + 1 < |zones| ==>
          zones[k].offset == zones[j].offset + zones[j].len && zones[j].len == chunkSize)
    && (zones != [] ==> 0 < zones[|zones| - 1].len <= chunkSize)
    && EndOf(zones) == n
  }

  lemma NoZones(chunkSize: nat)
    ensures Tiles([], 0, chunkSize)
  {
  }

  lemma AppendZone(zones: seq<ZoneMap>, z: ZoneMap, chunkSize: nat)
    requires Tiles(zones, z.offset, chunkSize) && 0 < z.len <= chunkSize
    requires zones != [] ==> zones[|zones| - 1].len == chunkSize
    ensures Tiles(zones + [z], z.offset + z.len, chunkSize)
  {
    var longer := zones + [z];
    var last := |zones|;
    assert |longer| == last + 1 && longer[last] == z && longer != [];
    assert EndOf(longer) == longer[last].offset + longer[last].len;
    assert EndOf(zones) == z.offset;
    forall j, k | 0 <= j && k == j + 1 < |longer|
      ensures longer[k].offset == longer[j].offset + longer[j].len && longer[j].len == chunkSize
    {
      assert longer[j] == zones[j];
      if k < |zones| {
        assert longer[k] == zones[k];
      }
    }
    if zones != [] {
      assert longer[0] == zones[0];
    }
  }

  method MinOf(values: seq<I64>, lo: nat, hi: nat) returns (m: I64)
    requires lo < hi <= |values|
    ensures forall i :: lo <= i < hi ==> m <= values[i]
    ensures exists i :: lo <= i < hi && values[i] == m
  {
    m := I64_MAX;
    for k := lo to hi
      invariant forall i :: lo <= i < k ==> m <= values[i]
      invariant (k == lo && m == I64_MAX) || exists i :: lo <= i < k && values[i] == m
    {
      if values[k] <= m {
        m := values[k];
      }
    }
  }

  method MaxOf(values: seq<I64>, lo: nat, hi: nat) returns (m: I64)
    requires lo < hi <= |values|
    ensures forall i :: lo <= i < hi ==> values[i] <= m
    ensures exists i :: lo <= i < hi && values[i] == m
  {
    m := I64_MIN;
    for k := lo to hi
      invariant forall i :: lo <= i < k ==> values[i] <= m
      invariant (k == lo && m == I64_MIN) || exists i :: lo <= i < k && values[i] == m
    {
      if values[k] >= m {
        m := values[k];
      }
    }
  }

  /** `build_zone_maps`: one zone per chunk, tiling the edges, with exact bounds. */
  method BuildZoneMaps(validFrom: seq<I64>, validTo: seq<I64>, chunkSize: nat) returns (zones: seq<ZoneMap>)
    requires |validFrom| == |validTo| && chunkSize > 0
    ensures Tiles(zones, |validFrom|, chunkSize)
    ensures forall k :: 0 <= k < |zones| ==> BoundsOf(zones[k], validFrom, validTo)
  {
    var n := |validFrom|;
    zones := [];
    var offset := 0;
    NoZones(chunkSize);
    hide Tiles;
    while offset < n
      invariant 0 <= offset <= n
      invariant Tiles(zones, offset, chunkSize)
      invariant offset < n && zones != [] ==> zones[|zones| - 1].len == chunkSize
      invariant forall k :: 0 <= k < |zones| ==> BoundsOf(zones[k], validFrom, validTo)
    {
      var len := Min(chunkSize, n - offset);
      var minFrom := MinOf(validFrom, offset, offset + len);
      var maxTo := MaxOf(validTo, offset, offset + len);
      var z := ZoneMap(offset, len, minFrom, maxTo);
      AppendZone(zones, z, chunkSize);
      zones := zones + [z];
      offset := offset + len;
    }
  }

  /** Every edge lies in some zone. */
  lemma {:induction false} InSomeZone(zones: seq<ZoneMap>, n: nat, chunkSize: nat, k: nat, i: nat)
    requires Tiles(zones, n, chunkSize) && k < |zones| && i < zones[k].offset + zones[k].len
    ensures exists h :: 0 <= h <= k && zones[h].offset <= i < zones[h].offset + zones[h].len
  {
    if i < zones[k].offset {
      assert k > 0;
      InSomeZone(zones, n, chunkSize, k - 1, i);
    }
  }

  lemma TilesCover(zones: seq<ZoneMap>, n: nat, chunkSize: nat, i: nat)
    requires Tiles(zones, n, chunkSize) && i < n
    ensures exists h :: 0 <= h < |zones| && zones[h].offset <= i < zones[h].offset + zones[h].len
  {
    assert EndOf(zones) == n;
    var last := |zones| - 1;
    assert zones[last].offset + zones[last].len == n;
    InSomeZone(zones, n, chunkSize, last, i);
  }

  // ---------- bits ----------

  /** `1u8 << k`. */
  function Bit(k: nat): (b: bv8)
    requires k < 8
  {
    match k
    case 0 => 1 << 0
    case 1 => 1 << 1
    case 2 => 1 << 2
    case 3 => 1 << 3
    case 4 => 1 << 4
    case 5 => 1 << 5
    case 6 => 1 << 6
    case _ => 1 << 7
  }

  predicate HasBit(b: bv8, k: nat)
    requires k < 8
  {
    b & Bit(k) != 0
  }

  /** Or-ing in one bit sets that bit and no other. */
  lemma SetsOneBit(b: bv8, k: nat, j: nat)
    requires k < 8 && j < 8
    ensures HasBit(b | Bit(k), j) <==> j == k || HasBit(b, j)
  {
    hide Bit;
    OrBit(b, Bit(k), Bit(j));
    DistinctBits(k, j);
  }

  lemma OrBit(b: bv8, x: bv8, y: bv8)
    ensures (b | x) & y != 0 <==> b & y != 0 || x & y != 0
  {
  }

  lemma DistinctBits(k: nat, j: nat)
    requires k < 8 && j < 8
    ensures Bit(k) & Bit(j) != 0 <==> k == j
  {
  }

  /** A byte is determined by its eight bits. */
  lemma SameBits(a: bv8, b: bv8)
    requires forall k :: 0 <= k < 8 ==> (HasBit(a, k) <==> HasBit(b, k))
    ensures a == b
  {
    assert HasBit(a, 0) <==> HasBit(b, 0);
    assert HasBit(a, 1) <==> HasBit(b, 1);
    assert HasBit(a, 2) <==> HasBit(b, 2);
    assert HasBit(a, 3) <==> HasBit(b, 3);
    assert HasBit(a, 4) <==> HasBit(b, 4);
    assert HasBit(a, 5) <==> HasBit(b, 5);
    assert HasBit(a, 6) <==> HasBit(b, 6);
    assert HasBit(a, 7) <==> HasBit(b, 7);
    BytesFromBits(a, b);
  }

  lemma BytesFromBits(a: bv8, b: bv8)
    requires (a & 1 != 0) == (b & 1 != 0) && (a & 2 != 0) == (b & 2 != 0)
    requires (a & 4 != 0) == (b & 4 != 0) && (a & 8 != 0) == (b & 8 != 0)
    requires (a & 16 != 0) == (b & 16 != 0) && (a & 32 != 0) == (b & 32 != 0)
    requires (a & 64 != 0) == (b & 64 != 0) && (a & 128 != 0) == (b & 128 != 0)
    ensures a == b
  {
  }

  // ---------- masks ----------

  function ByteLen(n: nat): (m: nat)
    ensures 8 * m >= n && 8 * m < n + 8
  {
    n / 8 + if n % 8 != 0 then 1 else 0
  }

  /** Bit `p` of a packed buffer, padding included. */
  predicate BitAt(bytes: seq<bv8>, p: nat)
    requires p < 8 * |bytes|
  {
    HasBit(bytes[p / 8], p % 8)
  }

  /** Set bit `i`, leaving every other bit as it was. */
  method SetBit(bits: array<bv8>, i: nat)
    requires i < 8 * bits.Length
    modifies bits
    ensures forall p :: 0 <= p < 8 * bits.Length ==> (BitAt(bits[..], p) <==> p == i || BitAt(old(bits[..]), p))
  {
    ghost var before := bits[..];
    bits[i / 8] := bits[i / 8] | Bit(i % 8);
    forall p | 0 <= p < 8 * bits.Length ensures BitAt(bits[..], p) <==> p == i || BitAt(before, p) {
      if p / 8 == i / 8 {
        SetsOneBit(before[i / 8], i % 8, p % 8);
      }
    }
  }

  /** Bit `p` should be set: `p` is a real edge, active at `t`. */
  ghost predicate Wanted(validFrom: seq<I64>, validTo: seq<I64>, t: I64, p: nat)
    requires |validFrom| == |validTo|
  {
    p < |validFrom| && validFrom[p] <= t < validTo[p]
  }

  ghost function Pow2(k: nat): (p: nat)
    ensures p > 0
  {
    if k == 0 then 1 else 2 * Pow2(k - 1)
  }

  /** Bit `p` counts from the least significant bit of byte `p / 8`. */
  lemma BitIsArithmetic(b: bv8, k: nat)
    requires k < 8
    ensures HasBit(b, k) <==> (b as int) / Pow2(k) % 2 == 1
  {
    assert Pow2(0) == 1 && Pow2(1) == 2 && Pow2(2) == 4 && Pow2(3) == 8;
    assert Pow2(4) == 16 && Pow2(5) == 32 && Pow2(6) == 64 && Pow2(7) == 128;
    Bit0(b);
    Bit1(b);
    Bit2(b);
    Bit3(b);
    Bit4(b);
    Bit5(b);
    Bit6(b);
    Bit7(b);
  }

  lemma Bit0(b: bv8)
    ensures b & 1 != 0 <==> (b as int) % 2 == 1
  {
  }

  lemma Bit1(b: bv8)
    ensures b & 2 != 0 <==> (b as int) / 2 % 2 == 1
  {
  }

  lemma Bit2(b: bv8)
    ensures b & 4 != 0 <==> (b as int) / 4 % 2 == 1
  {
  }

  lemma Bit3(b: bv8)
    ensures b & 8 != 0 <==> (b as int) / 8 % 2 == 1
  {
  }

  lemma Bit4(b: bv8)
    ensures b & 16 != 0 <==> (b as int) / 16 % 2 == 1
  {
  }

  lemma Bit5(b: bv8)
    ensures b & 32 != 0 <==> (b as int) / 32 % 2 == 1
  {
  }

  lemma Bit6(b: bv8)
    ensures b & 64 != 0 <==> (b as int) / 64 % 2 == 1
  {
  }

  lemma Bit7(b: bv8)
    ensures b & 128 != 0 <==> (b as int) / 128 % 2 == 1
  {
  }

  lemma BitsAreArithmetic(bytes: seq<bv8>)
    ensures forall p :: 0 <= p < 8 * |bytes| ==> (BitAt(bytes, p) <==> (bytes[p / 8] as int) / Pow2(p % 8) % 2 == 1)
  {
    forall p | 0 <= p < 8 * |bytes| ensures BitAt(bytes, p) <==> (bytes[p / 8] as int) / Pow2(p % 8) % 2 == 1 {
      BitIsArithmetic(bytes[p / 8], p % 8);
    }
  }

  method ZeroBytes(n: nat) returns (bits: array<bv8>)
    ensures fresh(bits) && bits.Length == n
    ensures forall p :: 0 <= p < 8 * n ==> !BitAt(bits[..], p)
  {
    bits := new bv8[n](_ => 0);
    assert forall k :: 0 <= k < n ==> bits[..][k] == 0;
    ZeroHasNoBits();
  }

  lemma ZeroHasNoBits()
    ensures forall k :: 0 <= k < 8 ==> !HasBit(0, k)
  {
  }

  /** `temporal_mask_full`: exactly the bits of the active edges, padding zero. */
  method MaskFull(validFrom: seq<I64>, validTo: seq<I64>, t: I64) returns (bytes: seq<bv8>)
    requires |validFrom| == |validTo|
    ensures |bytes| == ByteLen(|validFrom|)
    ensures forall p :: 0 <= p < 8 * |bytes| ==> (BitAt(bytes, p) <==> Wanted(validFrom, validTo, t, p))
    ensures forall p :: 0 <= p < 8 * |bytes| ==>
              ((bytes[p / 8] as int) / Pow2(p % 8) % 2 == 1 <==> p < |validFrom| && validFrom[p] <= t < validTo[p])
  {
    var n := |validFrom|;
    var bits := ZeroBytes(ByteLen(n));
    for i := 0 to n
      invariant forall p :: 0 <= p < 8 * bits.Length ==> (BitAt(bits[..], p) <==> p < i && Wanted(validFrom, validTo, t, p))
    {
      if ActiveAt(validFrom, validTo, t, i) {
        SetBit(bits, i);
      }
    }
    bytes := bits[..];
    BitsAreArithmetic(bytes);
  }

  /** An edge the pruned scan looks at. */
  ghost predicate Scanned(zones: seq<ZoneMap>, k: nat, t: I64, p: int)
    requires k <= |zones|
  {
    exists h :: 0 <= h < k && zones[h].minFrom <= t < zones[h].maxTo && zones[h].offset <= p < zones[h].offset + zones[h].len
  }

  /** `temporal_mask_pruned`, for any zones: exactly the active edges in zones that do not exclude `t`. */
  method MaskPruned(validFrom: seq<I64>, validTo: seq<I64>, t: I64, zones: seq<ZoneMap>) returns (bytes: seq<bv8>)
    requires |validFrom| == |validTo|
    requires forall k :: 0 <= k < |zones| ==> zones[k].offset + zones[k].len <= |validFrom|
    ensures |bytes| == ByteLen(|validFrom|)
    ensures forall p :: 0 <= p < 8 * |bytes| ==>
              (BitAt(bytes, p) <==> Wanted(validFrom, validTo, t, p) && Scanned(zones, |zones|, t, p))
    ensures forall p :: 0 <= p < 8 * |bytes| ==>
              ((bytes[p / 8] as int) / Pow2(p % 8) % 2 == 1 <==>
                 && p < |validFrom| && validFrom[p] <= t < validTo[p]
                 && exists h :: 0 <= h < |zones| && zones[h].minFrom <= t < zones[h].maxTo
                                && zones[h].offset <= p < zones[h].offset + zones[h].len)
  {
    var n := |validFrom|;
    var bits := ZeroBytes(ByteLen(n));
    for k := 0 to |zones|
      invariant forall p :: 0 <= p < 8 * bits.Length ==>
                  (BitAt(bits[..], p) <==> Wanted(validFrom, validTo, t, p) && Scanned(zones, k, t, p))
    {
      var z := zones[k];
      ghost var before := bits[..];
      ScannedStep(zones, k, t);
      if Excludes(z, t) {
        continue;
      }
      for i := z.offset to z.offset + z.len
        invariant forall p :: 0 <= p < 8 * bits.Length ==>
                    (BitAt(bits[..], p) <==> BitAt(before, p) || (z.offset <= p < i && Wanted(validFrom, validTo, t, p)))
      {
        if ActiveAt(validFrom, validTo, t, i) {
          SetBit(bits, i);
        }
      }
    }
    bytes := bits[..];
    BitsAreArithmetic(bytes);
  }

  lemma ScannedStep(zones: seq<ZoneMap>, k: nat, t: I64)
    requires k < |zones|
    ensures forall p :: Scanned(zones, k + 1, t, p) <==>
              Scanned(zones, k, t, p) || (zones[k].minFrom <= t < zones[k].maxTo && zones[k].offset <= p < zones[k].offset + zones[k].len)
  {
    forall p ensures Scanned(zones, k + 1, t, p) <==>
              Scanned(zones, k, t, p) || (zones[k].minFrom <= t < zones[k].maxTo && zones[k].offset <= p < zones[k].offset + zones[k].len)
    {
      if Scanned(zones, k + 1, t, p) {
        var h :| 0 <= h < k + 1 && zones[h].minFrom <= t < zones[h].maxTo && zones[h].offset <= p < zones[h].offset + zones[h].len;
        assert h == k || Scanned(zones, k, t, p);
      }
    }
  }

  /** Zones built over the columns never prune an active edge. */
  lemma PruningIsSafe(validFrom: seq<I64>, validTo: seq<I64>, t: I64, zones: seq<ZoneMap>, chunkSize: nat, p: nat)
    requires |validFrom| == |validTo| && Tiles(zones, |validFrom|, chunkSize)
    requires forall k :: 0 <= k < |zones| ==> BoundsOf(zones[k], validFrom, validTo)
    requires Wanted(validFrom, validTo, t, p)
    ensures Scanned(zones, |zones|, t, p)
  {
    TilesCover(zones, |validFrom|, chunkSize, p);
    var h :| 0 <= h < |zones| && zones[h].offset <= p < zones[h].offset + zones[h].len;
    assert BoundsOf(zones[h], validFrom, validTo);
    assert zones[h].minFrom <= t < zones[h].maxTo;
  }

  lemma SameBytes(a: seq<bv8>, b: seq<bv8>)
    requires |a| == |b|
    requires forall p :: 0 <= p < 8 * |a| ==> (BitAt(a, p) <==> BitAt(b, p))
    ensures a == b
  {
    forall i | 0 <= i < |a| ensures a[i] == b[i] {
      forall k | 0 <= k < 8 ensures HasBit(a[i], k) <==> HasBit(b[i], k) {
        assert (8 * i + k) / 8 == i && (8 * i + k) % 8 == k;
        assert BitAt(a, 8 * i + k) <==> BitAt(b, 8 * i + k);
      }
      SameBits(a[i], b[i]);
    }
  }

  /** Pruning preserves meaning bit for bit, for arbitrary intervals, even inverted ones, and any chunk size. */
  method MaskBoth(validFrom: seq<I64>, validTo: seq<I64>, t: I64, chunkSize: nat)
    returns (pruned: seq<bv8>, full: seq<bv8>)
    requires |validFrom| == |validTo| && chunkSize > 0
    ensures pruned == full && |full| == ByteLen(|validFrom|)
    ensures forall p :: 0 <= p < 8 * |full| ==>
              ((full[p / 8] as int) / Pow2(p % 8) % 2 == 1 <==> p < |validFrom| && validFrom[p] <= t < validTo[p])
  {
    var zones := BuildZoneMaps(validFrom, validTo, chunkSize);
    assert forall k :: 0 <= k < |zones| ==> BoundsOf(zones[k], validFrom, validTo);
    pruned := MaskPruned(validFrom, validTo, t, zones);
    full := MaskFull(validFrom, validTo, t);
    forall p | 0 <= p < 8 * |full| ensures BitAt(pruned, p) <==> BitAt(full, p) {
      if Wanted(validFrom, validTo, t, p) {
        PruningIsSafe(validFrom, validTo, t, zones, chunkSize, p);
      }
    }
    SameBytes(pruned, full);
  }
}
