/** What each operation of the store does when it runs undisturbed: the background compactor's round and every client
    call complete, and have the effect their sequential counterparts promise. */
module LsmCalls {
  import opened Basics
  import opened Edges
  import opened Delta
  import opened LsmMachine
  import opened LsmSafety
  import opened LsmProgress

  function Times(a: Action, n: nat): (actions: seq<Action>)
    ensures |actions| == n && forall k :: 0 <= k < n ==> actions[k] == a
  {
    seq(n, _ => a)
  }

  lemma Again(s: State, call: seq<Action>, a: Action, n: nat, t: State, u: State)
    requires Reaches(s, call + Times(a, n), t) && Do(t, a) == Some(u)
    ensures Reaches(s, call + Times(a, n + 1), u)
  {
    hide Reaches, Do;
    ReachesSnoc(s, call + Times(a, n), t, a, u);
    assert call + Times(a, n) + [a] == call + Times(a, n + 1);
  }

  lemma Called(s: State, call: Action, a: Action, t: State)
    requires Do(s, call) == Some(t)
    ensures Reaches(s, [call] + Times(a, 0), t)
  {
    hide Do;
    NoSteps(s);
    ReachesSnoc(s, [], s, call, t);
    assert [] + [call] == [call] + Times(a, 0);
  }

  ghost predicate LocksFree(s: State) {
    s.snapLock == Free && s.deltaLock == Free
  }

  /** Every edge of the store leaves an existing node. */
  ghost predicate AllInRange(s: State) {
    forall e :: e in Logical(s) ==> e.src < s.nodeCount
  }

  /** What a compaction makes of the store: everything is in the snapshot and nothing pending, if that is possible at
      all; otherwise snapshot and delta are as they were. */
  ghost predicate Compacted(s: State, t: State) {
    && t.log == s.log && t.nodeCount == s.nodeCount && t.initial == s.initial
    && (AllInRange(s) ==> t.snap.edges == Logical(s) && t.delta == Buffer({}, {}) && t.base == |t.log|)
    && (!AllInRange(s) ==> t.snap == s.snap && t.delta == s.delta)
  }

  /** The store after the steps of one compaction. */
  function AfterCompaction(s: State): (t: State)
  {
    if Empty(s.delta) then s.(base := |s.log|)
    else if CannotFold(s.snap, s.delta) then s
    else s.(snap := Fold(s.snap, s.delta), base := |s.log|, delta := Buffer({}, {}))
  }

  lemma CompactionCompacts(s: State)
    requires DataAgrees(s)
    ensures Compacted(s, AfterCompaction(s))
    ensures AllInRange(s) <==> Empty(s.delta) || !CannotFold(s.snap, s.delta)
  {
    CannotFoldIff(s);
    EmptyCanFold(s);
    FoldTwice(s.snap, s.delta);
    if Empty(s.delta) {
      assert s.snap.edges - {} + {} == s.snap.edges;
    }
    hide Replay, CannotFold, Merged;
  }

  // ---------- the background compactor ----------

  /** `spawn_background` starts the loop, unless it is already running. */
  lemma SpawnStarts(s: State)
    requires s.control == Resting
    ensures Do(s, Spawn) == Some(if s.handle then s else s.(worker := LoopHead, handle := true))
  {
  }

  /** Left to itself, the background thread takes both locks, compacts and comes round again. */
  lemma BackgroundCompacts(s: State) returns (n: nat, t: State)
    requires Inv(s) && s.worker == LoopHead && !s.stop && LocksFree(s)
    ensures Reaches(s, Times(AdvanceWorker, n), t)
    ensures t.worker == LoopHead && LocksFree(t) && t.threads == s.threads && t.stop == s.stop
    ensures Compacted(s, t)
  {
    var a := AdvanceWorker;
    hide Reaches, Inv, Compacted, DataAgrees, CannotFold, Fold, Empty;
    InvHasData(s);
    NoSteps(s);
    assert [] + Times(a, 0) == [];
    var s1 := s.(worker := Sleeping);
    Again(s, [], a, 0, s, s1);
    var s2 := s.(worker := Recheck);
    Again(s, [], a, 1, s1, s2);
    var s3 := s.(worker := Folding(WantSnapshot));
    Again(s, [], a, 2, s2, s3);
    var s4 := s.(worker := Folding(WantDelta), snapLock := Background);
    Again(s, [], a, 3, s3, s4);
    var s5 := s.(worker := Folding(Deciding), snapLock := Background, deltaLock := Background);
    Again(s, [], a, 4, s4, s5);
    n := WorkerDecides(s, s5);
    t := AfterCompaction(s);
    CompactionCompacts(s);
    assert [] + Times(a, n) == Times(a, n);
  }

  lemma InvHasData(s: State)
    requires Inv(s)
    ensures DataAgrees(s)
  {
  }

  lemma WorkerDecides(s: State, s5: State) returns (n: nat)
    requires s.worker == LoopHead && LocksFree(s)
    requires s5 == s.(worker := Folding(Deciding), snapLock := Background, deltaLock := Background)
    requires Reaches(s, [] + Times(AdvanceWorker, 5), s5)
    ensures Reaches(s, [] + Times(AdvanceWorker, n), AfterCompaction(s))
  {
    hide Reaches, CannotFold, Fold, Empty;
    var a := AdvanceWorker;
    if Empty(s.delta) {
      var s6 := s5.(base := |s.log|, worker := Folding(Unlocking(true)));
      Again(s, [], a, 5, s5, s6);
      WorkerUnlocks(s, 6, s6, true);
      n := 8;
    } else if CannotFold(s.snap, s.delta) {
      var s6 := s5.(worker := Folding(Unlocking(false)));
      Again(s, [], a, 5, s5, s6);
      WorkerUnlocks(s, 6, s6, false);
      n := 8;
    } else {
      var s6 := s5.(snap := Fold(s.snap, s.delta), base := |s.log|, worker := Folding(Swapped));
      Again(s, [], a, 5, s5, s6);
      var s7 := s6.(delta := Buffer({}, {}), worker := Folding(Unlocking(true)));
      Again(s, [], a, 6, s6, s7);
      WorkerUnlocks(s, 7, s7, true);
      n := 9;
    }
  }

  lemma WorkerUnlocks(s: State, n: nat, u: State, ok: bool)
    requires Reaches(s, [] + Times(AdvanceWorker, n), u)
    requires u.worker == Folding(Unlocking(ok)) && u.snapLock == u.deltaLock == Background
    ensures Reaches(s, [] + Times(AdvanceWorker, n + 2), u.(worker := LoopHead, snapLock := Free, deltaLock := Free))
  {
    hide Reaches;
    var v := u.(worker := Folding(UnlockingSnapshot(ok)), deltaLock := Free);
    Again(s, [], AdvanceWorker, n, u, v);
    Again(s, [], AdvanceWorker, n + 1, v, u.(worker := LoopHead, snapLock := Free, deltaLock := Free));
  }

  // ---------- client calls ----------

  /** Client `i` moves on inside its call, taking or dropping locks. */
  lemma Moves(s: State, call: seq<Action>, i: nat, n: nat, t: State, u: State)
    requires i < |s.threads| && |t.threads| == |u.threads| == |s.threads|
    requires t.threads == s.threads[i := t.threads[i]] && u.threads == s.threads[i := u.threads[i]]
    requires Reaches(s, call + Times(Advance(i), n), t)
    requires AdvanceThread(t, i) == Some(u.(threads := t.threads[i := u.threads[i]]))
    ensures Reaches(s, call + Times(Advance(i), n + 1), u)
  {
    hide Reaches, AdvanceThread;
    assert t.threads[i := u.threads[i]] == u.threads;
    Again(s, call, Advance(i), n, t, u);
  }

  /** A write called with the delta lock free takes effect once, as the next entry of the log. */
  lemma WriteTakesEffect(s: State, i: nat, op: Op) returns (t: State)
    requires Inv(s) && i < |s.threads| && s.threads[i] == Idle && s.deltaLock == Free
    ensures Reaches(s, [CallWrite(i, op)] + Times(Advance(i), 3), t)
    ensures t == s.(delta := Queue(s.delta, op), log := s.log + [op])
    ensures Logical(t) == Replay(Logical(s), [op])
  {
    var call, a := CallWrite(i, op), Advance(i);
    hide Reaches, Inv, Queue, Logical, Replay;
    var s0 := Put(s, i, Writing(op));
    Called(s, call, a, s0);
    var s1 := Put(s, i, WriteLocked(op)).(deltaLock := Client(i));
    Moves(s, [call], i, 0, s0, s1);
    var s2 := Put(s, i, WriteApplied).(deltaLock := Client(i), delta := Queue(s.delta, op), log := s.log + [op]);
    Moves(s, [call], i, 1, s1, s2);
    t := s.(delta := Queue(s.delta, op), log := s.log + [op]);
    assert s.threads[i := Idle] == s.threads;
    Moves(s, [call], i, 2, s2, t);
    WriteIsReplay(s, t, op);
  }

  lemma WriteIsReplay(s: State, t: State, op: Op)
    requires t.snap == s.snap && t.delta == Queue(s.delta, op)
    ensures Logical(t) == Replay(Logical(s), [op])
  {
    QueueMerges(s.snap.edges, s.delta, op);
    assert [op][..0] == [];
  }

  /** A read called with both locks free returns the logical edge set and leaves the store as it was. */
  lemma ReadReturnsLogical(s: State, i: nat) returns (t: State)
    requires Inv(s) && i < |s.threads| && s.threads[i] == Idle && LocksFree(s)
    ensures Reaches(s, [CallRead(i)] + Times(Advance(i), 5), t)
    ensures t == Put(s, i, ReadReturned(|s.log|, |s.log|, Logical(s))) && Do(t, Collect(i)) == Some(s)
  {
    var found := Fold(s.snap, s.delta).edges;
    LogicalIsFold(s);
    hide Reaches, Inv, Fold, Logical;
    var s2 := ReadLocks(s, i);
    var n := |s.log|;
    var s3 := Put(s, i, ReadComputed(n, n, found)).(snapLock := Client(i), deltaLock := Client(i));
    Moves(s, [CallRead(i)], i, 2, s2, s3);
    t := ReadUnlocks(s, i, s3, found);
    assert s.threads[i := t.threads[i]][i := Idle] == s.threads;
  }

  lemma ReadLocks(s: State, i: nat) returns (t: State)
    requires i < |s.threads| && s.threads[i] == Idle && LocksFree(s)
    ensures Reaches(s, [CallRead(i)] + Times(Advance(i), 2), t)
    ensures t == Put(s, i, ReadLocked(|s.log|, |s.log|)).(snapLock := Client(i), deltaLock := Client(i))
  {
    hide Reaches;
    var call, n := CallRead(i), |s.log|;
    var s0 := Put(s, i, ReadWantSnapshot(n));
    Called(s, call, Advance(i), s0);
    var s1 := Put(s, i, ReadWantDelta(n)).(snapLock := Client(i));
    Moves(s, [call], i, 0, s0, s1);
    t := Put(s, i, ReadLocked(n, n)).(snapLock := Client(i), deltaLock := Client(i));
    Moves(s, [call], i, 1, s1, t);
  }

  lemma ReadUnlocks(s: State, i: nat, u: State, found: set<Edge>) returns (t: State)
    requires i < |s.threads| && LocksFree(s) && Reaches(s, [CallRead(i)] + Times(Advance(i), 3), u)
    requires u == Put(s, i, ReadComputed(|s.log|, |s.log|, found)).(snapLock := Client(i), deltaLock := Client(i))
    ensures Reaches(s, [CallRead(i)] + Times(Advance(i), 5), t)
    ensures t == Put(s, i, ReadReturned(|s.log|, |s.log|, found))
  {
    hide Reaches;
    var call, n := CallRead(i), |s.log|;
    var v := Put(s, i, ReadUnlocking(n, n, found)).(snapLock := Client(i));
    Moves(s, [call], i, 3, u, v);
    t := Put(s, i, ReadReturned(n, n, found));
    Moves(s, [call], i, 4, v, t);
  }

  lemma LogicalIsFold(s: State)
    ensures Logical(s) == Fold(s.snap, s.delta).edges
  {
  }

  /** An explicit compaction called with both locks free returns whether the store could be folded, and compacts it. */
  lemma CompactNowCompacts(s: State, i: nat) returns (n: nat, t: State)
    requires Inv(s) && i < |s.threads| && s.threads[i] == Idle && LocksFree(s)
    ensures Reaches(s, [CallCompact(i)] + Times(Advance(i), n), t)
    ensures i < |t.threads| && t.threads[i].CompactReturned? && t.threads[i].ok == AllInRange(s)
    ensures LocksFree(t) && t.threads == s.threads[i := t.threads[i]] && t.worker == s.worker
    ensures Compacted(s, t) && Do(t, Collect(i)) == Some(t.(threads := s.threads))
  {
    var c := Compaction(|s.log|, |s.log|, false);
    hide Reaches, Inv, Compacted, DataAgrees, CannotFold, Fold, Empty;
    InvHasData(s);
    var s2 := CompactionLocks(s, i, c);
    CompactionCompacts(s);
    n, t := ClientDecides(s, i, c, s2);
    SameCompaction(s, AfterCompaction(s), t);
    assert t.threads[i := Idle] == s.threads;
  }

  lemma CompactionLocks(s: State, i: nat, c: Compaction) returns (t: State)
    requires i < |s.threads| && s.threads[i] == Idle && LocksFree(s) && c == Compaction(|s.log|, |s.log|, false)
    ensures Reaches(s, [CallCompact(i)] + Times(Advance(i), 2), t)
    ensures t == Put(s, i, Compacting(c, Deciding)).(snapLock := Client(i), deltaLock := Client(i))
  {
    hide Reaches;
    var call := CallCompact(i);
    var s0 := Put(s, i, Compacting(c, WantSnapshot));
    Called(s, call, Advance(i), s0);
    var s1 := Put(s, i, Compacting(c, WantDelta)).(snapLock := Client(i));
    Moves(s, [call], i, 0, s0, s1);
    t := Put(s, i, Compacting(c, Deciding)).(snapLock := Client(i), deltaLock := Client(i));
    Moves(s, [call], i, 1, s1, t);
  }

  lemma SameCompaction(s: State, t: State, t': State)
    requires Compacted(s, t) && t'.(threads := t.threads) == t
    ensures Compacted(s, t')
  {
  }

  lemma ClientDecides(s: State, i: nat, c: Compaction, s2: State) returns (n: nat, t: State)
    requires LocksFree(s) && i < |s.threads|
    requires s2 == Put(s, i, Compacting(c, Deciding)).(snapLock := Client(i), deltaLock := Client(i))
    requires Reaches(s, [CallCompact(i)] + Times(Advance(i), 2), s2)
    ensures Reaches(s, [CallCompact(i)] + Times(Advance(i), n), t)
    ensures |t.threads| == |s.threads| && t == AfterCompaction(s).(threads := s.threads[i := t.threads[i]])
    ensures t.threads[i].CompactReturned?
    ensures t.threads[i].ok == (Empty(s.delta) || !CannotFold(s.snap, s.delta))
  {
    hide Reaches, CannotFold, Fold, Empty, Record;
    var call := CallCompact(i);
    var s3 := AdvanceThread(s2, i).value;
    if Empty(s.delta) {
      Moves(s, [call], i, 2, s2, s3);
      t := ClientUnlocks(s, i, 3, s3, true);
      n := 5;
    } else if CannotFold(s.snap, s.delta) {
      Moves(s, [call], i, 2, s2, s3);
      t := ClientUnlocks(s, i, 3, s3, false);
      n := 5;
    } else {
      Moves(s, [call], i, 2, s2, s3);
      t := ClientSwaps(s, i, s3);
      n := 6;
    }
  }

  lemma ClientSwaps(s: State, i: nat, u: State) returns (t: State)
    requires i < |s.threads| && LocksFree(s) && Reaches(s, [CallCompact(i)] + Times(Advance(i), 3), u)
    requires |u.threads| == |s.threads| && u.threads == s.threads[i := u.threads[i]]
    requires u.threads[i].Compacting? && u.threads[i].phase == Swapped && u.snapLock == u.deltaLock == Client(i)
    ensures Reaches(s, [CallCompact(i)] + Times(Advance(i), 6), t)
    ensures |t.threads| == |s.threads| && t.threads == s.threads[i := t.threads[i]]
    ensures t.threads[i].CompactReturned? && t.threads[i].ok
    ensures t == u.(threads := t.threads, snapLock := Free, deltaLock := Free, delta := Buffer({}, {}))
  {
    hide Reaches, Record;
    var v := AdvanceThread(u, i).value;
    Moves(s, [CallCompact(i)], i, 3, u, v);
    t := ClientUnlocks(s, i, 4, v, true);
  }

  /** With the verdict reached, the client drops both locks and returns. */
  lemma ClientUnlocks(s: State, i: nat, n: nat, u: State, ok: bool) returns (t: State)
    requires i < |s.threads| && LocksFree(s) && Reaches(s, [CallCompact(i)] + Times(Advance(i), n), u)
    requires |u.threads| == |s.threads| && u.threads == s.threads[i := u.threads[i]]
    requires u.threads[i].Compacting? && u.threads[i].phase == Unlocking(ok)
    requires u.snapLock == u.deltaLock == Client(i)
    ensures Reaches(s, [CallCompact(i)] + Times(Advance(i), n + 2), t)
    ensures |t.threads| == |s.threads| && t.threads == s.threads[i := t.threads[i]]
    ensures t.threads[i].CompactReturned? && t.threads[i].ok == ok
    ensures t == u.(threads := t.threads, snapLock := Free, deltaLock := Free)
  {
    hide Reaches, Record;
    var call := CallCompact(i);
    var v := AdvanceThread(u, i).value;
    Moves(s, [call], i, n, u, v);
    t := AdvanceThread(v, i).value;
    Moves(s, [call], i, n + 1, v, t);
  }
}
