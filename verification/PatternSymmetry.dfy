/** Symmetries of the built-in patterns: rings are reported from one start only, diamonds in mirrored pairs. */
module PatternSymmetry {
  import opened Basics
  import opened Edges
  import opened TemporalCsr
  import opened Patterns
  import opened MatchTrace
  import opened MatchMeaning
  import opened Matcher

  // ---------- rings ----------

  function Rotate<T>(s: seq<T>, r: nat): (t: seq<T>)
    requires r <= |s|
  {
    s[r..] + s[..r]
  }

  /** Along a ring match the event times strictly increase. */
  lemma {:induction false} RingTimesIncrease(csr: Csr, len: nat, t: I64, h: Hit, i: nat, j: nat)
    requires Wf(csr) && len >= 2 && InBounds(Ring(len)) && IsMatch(csr, Ring(len), t, h) && i < j < len
    ensures csr.validFrom[h.pos[i]] < csr.validFrom[h.pos[j]]
    decreases j
  {
    var o := Ring(len).eventOrders[j - 1];
    assert o in Ring(len).eventOrders && o == EventOrder(j - 1, j);
    if i < j - 1 {
      RingTimesIncrease(csr, len, t, h, i, j - 1);
    }
  }

  /** No ring match is a proper rotation of another: each temporal cycle is reported from one start only. */
  lemma RingMatchesAreNotRotations(csr: Csr, len: nat, t: I64, a: Hit, b: Hit, r: nat)
    requires Wf(csr) && len >= 2 && InBounds(Ring(len)) && 0 < r < len
    requires IsMatch(csr, Ring(len), t, a) && IsMatch(csr, Ring(len), t, b)
    ensures ToMatch(csr, Ring(len), b).edges != Rotate(ToMatch(csr, Ring(len), a).edges, r)
  {
    RingEdgesIncrease(csr, len, t, a);
    RingEdgesIncrease(csr, len, t, b);
    IncreasingIsNoRotation(ToMatch(csr, Ring(len), a).edges, ToMatch(csr, Ring(len), b).edges, r);
  }

  ghost predicate TimesIncrease(s: seq<Edge>) {
    forall i, j :: 0 <= i < j < |s| ==> s[i].validFrom < s[j].validFrom
  }

  lemma RingEdgesIncrease(csr: Csr, len: nat, t: I64, h: Hit)
    requires Wf(csr) && len >= 2 && InBounds(Ring(len)) && IsMatch(csr, Ring(len), t, h)
    ensures TimesIncrease(ToMatch(csr, Ring(len), h).edges)
  {
    var s := ToMatch(csr, Ring(len), h).edges;
    forall i, j | 0 <= i < j < |s| ensures s[i].validFrom < s[j].validFrom {
      RingTimesIncrease(csr, len, t, h, i, j);
    }
  }

  lemma IncreasingIsNoRotation(a: seq<Edge>, b: seq<Edge>, r: nat)
    requires |a| == |b| && 0 < r < |a| && TimesIncrease(a) && TimesIncrease(b)
    ensures b != Rotate(a, r)
  {
    var n, c := |a|, Rotate(a, r);
    assert c[n - r - 1] == a[n - 1] && c[n - r] == a[0];
  }

  // ---------- diamonds ----------

  /** Exchange the two arms. */
  function SwapArms(h: Hit): (r: Hit)
    requires |h.nodes| == 4 && |h.pos| == 4
  {
    Hit([h.nodes[0], h.nodes[2], h.nodes[1], h.nodes[3]], [h.pos[1], h.pos[0], h.pos[3], h.pos[2]])
  }

  /** Swapping the arms of a diamond match gives another, different diamond match, and swapping twice gives it back. */
  lemma SwapIsMatch(csr: Csr, t: I64, h: Hit)
    requires Wf(csr) && InBounds(Diamond()) && IsMatch(csr, Diamond(), t, h)
    ensures IsMatch(csr, Diamond(), t, SwapArms(h))
    ensures SwapArms(h) != h && SwapArms(SwapArms(h)) == h
  {
    var d, s := Diamond(), SwapArms(h);
    assert h.nodes[1] != h.nodes[2];
    SwapFits(csr, t, h);
    SwapOrders(csr, h.pos, s.pos);
    SwapInjective(h.nodes, s.nodes);
    assert h == Hit([h.nodes[0], h.nodes[1], h.nodes[2], h.nodes[3]], [h.pos[0], h.pos[1], h.pos[2], h.pos[3]]);
  }

  lemma SwapInjective(n: seq<U64>, m: seq<U64>)
    requires |n| == 4 && NoDup(n) && UNBOUND !in n && m == [n[0], n[2], n[1], n[3]]
    ensures NoDup(m) && UNBOUND !in m
  {
    assert n[0] in n && n[1] in n && n[2] in n && n[3] in n;
  }

  lemma SwapFits(csr: Csr, t: I64, h: Hit)
    requires Wf(csr) && InBounds(Diamond()) && |h.nodes| == 4 && |h.pos| == 4
    requires forall i :: 0 <= i < 4 ==> h.pos[i] < |csr.dst| && EdgeFits(csr, Diamond(), t, h.nodes, i, h.pos[i])
    ensures var s := SwapArms(h);
            forall i :: 0 <= i < 4 ==> s.pos[i] < |csr.dst| && EdgeFits(csr, Diamond(), t, s.nodes, i, s.pos[i])
  {
    var d, s := Diamond(), SwapArms(h);
    assert EdgeFits(csr, d, t, h.nodes, 0, h.pos[0]) && EdgeFits(csr, d, t, h.nodes, 1, h.pos[1]);
    assert EdgeFits(csr, d, t, h.nodes, 2, h.pos[2]) && EdgeFits(csr, d, t, h.nodes, 3, h.pos[3]);
    assert EdgeFits(csr, d, t, s.nodes, 0, s.pos[0]) && EdgeFits(csr, d, t, s.nodes, 1, s.pos[1]);
    assert EdgeFits(csr, d, t, s.nodes, 2, s.pos[2]) && EdgeFits(csr, d, t, s.nodes, 3, s.pos[3]);
  }

  lemma SwapOrders(csr: Csr, p: seq<nat>, q: seq<nat>)
    requires Wf(csr) && InBounds(Diamond()) && |p| == |q| == 4
    requires forall i :: 0 <= i < 4 ==> p[i] < |csr.dst| && q[i] < |csr.dst|
    requires q == [p[1], p[0], p[3], p[2]] && OrdersHold(csr, Diamond(), p)
    ensures OrdersHold(csr, Diamond(), q)
  {
    var orders := Diamond().eventOrders;
    assert orders[0] in orders && orders[1] in orders;
  }

  /** Swapping takes `h` to another element of `S`, and back. */
  ghost predicate Mirrored(S: set<Hit>, h: Hit) {
    && |h.nodes| == 4 && |h.pos| == 4
    && SwapArms(h) in S && SwapArms(h) != h && SwapArms(SwapArms(h)) == h
  }

  ghost predicate Paired(S: set<Hit>) {
    forall h {:trigger Mirrored(S, h)} :: h in S ==> Mirrored(S, h)
  }

  lemma WithoutPair(S: set<Hit>, h: Hit)
    requires Paired(S) && h in S
    ensures Mirrored(S, h)
    ensures Paired(S - {h, SwapArms(h)}) && |S - {h, SwapArms(h)}| == |S| - 2
  {
    assert Mirrored(S, h);
    var pair := {h, SwapArms(h)};
    var rest := S - pair;
    assert S == rest + pair && |pair| == 2;
    forall g | g in rest ensures Mirrored(rest, g) {
      assert Mirrored(S, g);
    }
  }

  /** So it has an even number of elements. */
  lemma {:induction false} PairsAreEven(S: set<Hit>)
    requires Paired(S)
    ensures |S| % 2 == 0
    decreases |S|
  {
    if S != {} {
      var h :| h in S;
      WithoutPair(S, h);
      var rest := S - {h, SwapArms(h)};
      hide Mirrored;
      PairsAreEven(rest);
    }
  }

  /** The unlimited enumeration of diamonds is closed under swapping the arms, without fixed points: its size is even. */
  lemma DiamondsComeInPairs(csr: Csr, t: I64, hits: seq<Hit>)
    requires Wf(csr) && InBounds(Diamond()) && NoDup(hits)
    requires forall h :: h in hits <==> IsMatch(csr, Diamond(), t, h)
    ensures forall h {:trigger Mirrored(SetOf(hits), h)} :: h in hits ==> Mirrored(SetOf(hits), h)
    ensures |hits| % 2 == 0
  {
    var S := SetOf(hits);
    forall h | h in hits ensures Mirrored(S, h) {
      SwapIsMatch(csr, t, h);
    }
    CardOfNoDup(hits);
    PairsAreEven(S);
  }

  /** Exchange the two arms of a reported match. */
  function SwapMatch(m: Match): (r: Match)
    requires |m.nodes| == 4 && |m.edges| == 4
  {
    Match([m.nodes[0], m.nodes[2], m.nodes[1], m.nodes[3]], [m.edges[1], m.edges[0], m.edges[3], m.edges[2]])
  }

  lemma SwapReported(csr: Csr, t: I64, h: Hit)
    requires Wf(csr) && InBounds(Diamond()) && IsMatch(csr, Diamond(), t, h) && IsMatch(csr, Diamond(), t, SwapArms(h))
    ensures var m := ToMatch(csr, Diamond(), h);
            && |m.nodes| == 4 && |m.edges| == 4
            && ToMatch(csr, Diamond(), SwapArms(h)) == SwapMatch(m) && SwapMatch(m) != m
  {
    assert h.nodes[1] != h.nodes[2];
    hide EdgeFits;
    assert ToMatch(csr, Diamond(), h).nodes[1] != SwapMatch(ToMatch(csr, Diamond(), h)).nodes[1];
  }

  /** Every match of a complete list has its mirror image in the list. */
  ghost predicate ClosedUnderSwap(ms: seq<Match>) {
    forall m :: m in ms ==> |m.nodes| == 4 && |m.edges| == 4 && SwapMatch(m) in ms && SwapMatch(m) != m
  }

  lemma SwapClosed(csr: Csr, t: I64, hits: seq<Hit>, ms: seq<Match>)
    requires Wf(csr) && InBounds(Diamond()) && |ms| == |hits|
    requires forall h :: h in hits <==> IsMatch(csr, Diamond(), t, h)
    requires forall i :: 0 <= i < |hits| ==>
               IsMatch(csr, Diamond(), t, hits[i]) && ms[i] == ToMatch(csr, Diamond(), hits[i])
    ensures ClosedUnderSwap(ms)
  {
    forall m | m in ms
      ensures |m.nodes| == 4 && |m.edges| == 4 && SwapMatch(m) in ms && SwapMatch(m) != m
    {
      var i :| 0 <= i < |ms| && ms[i] == m;
      var h := hits[i];
      SwapIsMatch(csr, t, h);
      SwapReported(csr, t, h);
      hide IsMatch;
      var j :| 0 <= j < |hits| && hits[j] == SwapArms(h);
      assert ms[j] == SwapMatch(m);
    }
  }

  /** `find` on the diamond pattern without an effective limit reports matches in mirrored pairs. */
  method FindDiamonds(csr: Csr, t: I64, limit: nat) returns (r: Result<seq<Match>>)
    requires Wf(csr) && DstInRange(csr) && csr.nodeCount <= U64_MAX
    ensures r.Ok? && |r.value| <= limit
    ensures |r.value| < limit ==> |r.value| % 2 == 0 && ClosedUnderSwap(r.value)
  {
    DiamondWellFormed();
    r := Find(csr, Diamond(), t, limit);
    ghost var hits := Hits(TraceAll(csr, Diamond(), t, csr.nodeCount));
    DiamondsComeInPairs(csr, t, hits);
    if |r.value| < limit {
      assert forall i :: 0 <= i < |hits| ==> hits[i] in hits;
      SwapClosed(csr, t, hits, r.value);
    }
  }

  /** `find` on a ring pattern: no two reported matches are proper rotations of each other. */
  method FindRings(csr: Csr, len: nat, t: I64, limit: nat) returns (r: Result<seq<Match>>)
    requires Wf(csr) && DstInRange(csr) && csr.nodeCount <= U64_MAX && len >= 2
    ensures r.Ok?
    ensures forall i, j, k :: 0 <= i < |r.value| && 0 <= j < |r.value| && 0 < k < len ==>
              |r.value[i].edges| == len && r.value[j].edges != Rotate(r.value[i].edges, k)
  {
    RingWellFormed(len);
    r := Find(csr, Ring(len), t, limit);
    ghost var hits := Hits(TraceAll(csr, Ring(len), t, csr.nodeCount));
    assert forall i :: 0 <= i < |hits| ==> hits[i] in hits;
    hide IsMatch, Ring, TraceAll;
    NoTwoRotations(csr, len, t, hits, r.value);
  }

  lemma NoTwoRotations(csr: Csr, len: nat, t: I64, hits: seq<Hit>, ms: seq<Match>)
    requires Wf(csr) && len >= 2 && InBounds(Ring(len)) && |ms| <= |hits|
    requires forall i :: 0 <= i < |ms| ==>
               IsMatch(csr, Ring(len), t, hits[i]) && ms[i] == ToMatch(csr, Ring(len), hits[i])
    ensures forall i, j, k :: 0 <= i < |ms| && 0 <= j < |ms| && 0 < k < len ==>
              |ms[i].edges| == len && ms[j].edges != Rotate(ms[i].edges, k)
  {
    forall i, j, k | 0 <= i < |ms| && 0 <= j < |ms| && 0 < k < len
      ensures |ms[i].edges| == len && ms[j].edges != Rotate(ms[i].edges, k)
    {
      RingMatchesAreNotRotations(csr, len, t, hits[i], hits[j], k);
    }
  }
}
