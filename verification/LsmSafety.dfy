/** Safety of the store over every interleaving: linearizable reads, invisible compactions, mutual exclusion. */
module LsmSafety {
  import opened Basics
  import opened Edges
  import opened Delta
  import opened LsmMachine

  lemma InitialInv(s: State)
    requires Initial(s)
    ensures Inv(s)
  {
    assert Logical(s) == s.snap.edges - {} + {};
  }

  // ---------- locks ----------

  lemma FoldLocks(s: State, who: Owner, phase: Phase)
    requires FoldStep(s, who, phase).Some? && who != Free
    requires PhaseHoldsSnapshot(phase) <==> s.snapLock == who
    requires PhaseHoldsDelta(phase) <==> s.deltaLock == who
    ensures var (t, f) := FoldStep(s, who, phase).value;
            && (f.More? ==> (PhaseHoldsSnapshot(f.phase) <==> t.snapLock == who)
                            && (PhaseHoldsDelta(f.phase) <==> t.deltaLock == who))
            && (f.Finished? ==> t.snapLock != who && t.deltaLock != who)
            && Handover(s.snapLock, t.snapLock, who) && Handover(s.deltaLock, t.deltaLock, who)
  {
  }

  ghost predicate Handover(before: Owner, after: Owner, who: Owner) {
    before == after || (before == Free && after == who) || (before == who && after == Free)
  }

  /** One client moves, taking or dropping locks as its new position says. */
  lemma ThreadMoves(s: State, t: State, i: nat)
    requires LocksAgree(s) && i < |s.threads| == |t.threads| && t.threads == s.threads[i := t.threads[i]]
    requires t.worker == s.worker
    requires Handover(s.snapLock, t.snapLock, Client(i)) && Handover(s.deltaLock, t.deltaLock, Client(i))
    requires HoldsSnapshot(t.threads[i]) <==> t.snapLock == Client(i)
    requires HoldsDelta(t.threads[i]) <==> t.deltaLock == Client(i)
    ensures LocksAgree(t)
  {
    hide HoldsSnapshot, HoldsDelta;
  }

  lemma WorkerMoves(s: State, t: State)
    requires LocksAgree(s) && t.threads == s.threads
    requires Handover(s.snapLock, t.snapLock, Background) && Handover(s.deltaLock, t.deltaLock, Background)
    requires (t.worker.Folding? && PhaseHoldsSnapshot(t.worker.phase)) <==> t.snapLock == Background
    requires (t.worker.Folding? && PhaseHoldsDelta(t.worker.phase)) <==> t.deltaLock == Background
    ensures LocksAgree(t)
  {
    hide HoldsSnapshot, HoldsDelta;
  }

  lemma ThreadLocksStep(s: State, i: nat)
    requires LocksAgree(s) && i < |s.threads| && AdvanceThread(s, i).Some?
    ensures LocksAgree(AdvanceThread(s, i).value)
  {
    var t := AdvanceThread(s, i).value;
    assert HoldsSnapshot(s.threads[i]) <==> s.snapLock == Client(i);
    assert HoldsDelta(s.threads[i]) <==> s.deltaLock == Client(i);
    if s.threads[i].Compacting? {
      FoldLocks(s, Client(i), s.threads[i].phase);
    }
    assert t.threads == s.threads[i := t.threads[i]];
    ThreadMoves(s, t, i) by {
      hide LocksAgree, Fold, Queue;
    }
  }

  lemma WorkerLocksStep(s: State)
    requires LocksAgree(s) && WorkerStep(s).Some?
    ensures LocksAgree(WorkerStep(s).value)
  {
    if s.worker.Folding? {
      FoldLocks(s, Background, s.worker.phase);
    }
    WorkerMoves(s, WorkerStep(s).value);
  }

  lemma LocksStep(s: State, a: Action)
    requires LocksAgree(s) && ControlAgrees(s) && Do(s, a).Some?
    ensures LocksAgree(Do(s, a).value)
  {
    match a
    case Advance(i) => ThreadLocksStep(s, i);
    case AdvanceWorker => WorkerLocksStep(s);
    case CallWrite(i, _) => ThreadMoves(s, Do(s, a).value, i);
    case CallRead(i) => ThreadMoves(s, Do(s, a).value, i);
    case CallCompact(i) => ThreadMoves(s, Do(s, a).value, i);
    case Collect(i) => ThreadMoves(s, Do(s, a).value, i);
    case Spawn => WorkerMoves(s, Do(s, a).value);
    case Stop =>
    case AdvanceControl =>
  }

  // ---------- data ----------

  /** Folding is idempotent: with the delta still in place, the new snapshot reads the same. */
  lemma FoldTwice(snap: Snapshot, delta: Buffer)
    ensures var S := Merged(snap.edges, delta.inserts, delta.deletes);
            && Fold(snap, delta).edges == S
            && (delta.inserts !! delta.deletes ==> Merged(S, delta.inserts, delta.deletes) == S)
  {
  }

  lemma QueueMerges(S: set<Edge>, delta: Buffer, op: Op)
    ensures var d := Queue(delta, op); var T := Merged(S, delta.inserts, delta.deletes);
            Merged(S, d.inserts, d.deletes) == match op case Ins(e) => T + {e} case Del(e) => T - {e}
    ensures delta.inserts !! delta.deletes ==> Queue(delta, op).inserts !! Queue(delta, op).deletes
  {
  }

  /** While one thread is inside the swap, no other thread is. */
  lemma SwapExclusive(s: State)
    requires LocksAgree(s)
    ensures InSwap(s) ==> s.deltaLock != Free
    ensures forall i :: 0 <= i < |s.threads| && s.deltaLock == Client(i) && InSwap(s) ==> Swapping(s.threads[i])
    ensures s.deltaLock == Background && InSwap(s) ==> s.worker == Folding(Swapped)
  {
  }

  /** The store began the same way, and the snapshot has not fallen back. */
  ghost predicate Same(s: State, t: State) {
    t.initial == s.initial && t.nodeCount == s.nodeCount && s.base <= t.base
  }

  lemma FoldData(s: State, who: Owner, phase: Phase)
    requires FoldStep(s, who, phase).Some? && DataAgrees(s)
    requires phase == Swapped ==> Logical(s) == s.snap.edges
    ensures var (t, f) := FoldStep(s, who, phase).value;
            && t.initial == s.initial && t.log == s.log && t.nodeCount == s.nodeCount
            && t.snap.nodeCount == t.nodeCount
            && (forall e :: e in t.snap.edges ==> e.src < t.nodeCount)
            && t.delta.inserts !! t.delta.deletes
            && Logical(t) == Logical(s)
            && s.base <= t.base <= |t.log| && t.snap.edges == Replay(t.initial, t.log[..t.base])
            && (f == More(Swapped) || phase == Swapped ==> Logical(t) == t.snap.edges)
            && (f != More(Swapped) && phase != Swapped ==> t.snap == s.snap && t.delta == s.delta)
  {
    FoldTwice(s.snap, s.delta);
    assert s.log[..|s.log|] == s.log;
    if phase == Swapped || Empty(s.delta) {
      assert s.snap.edges - {} + {} == s.snap.edges;
    }
  }

  lemma SwapFrame(s: State, t: State, i: nat)
    requires i < |s.threads| == |t.threads| && t.threads == s.threads[i := t.threads[i]] && t.worker == s.worker
    requires !Swapping(t.threads[i])
    ensures InSwap(t) ==> InSwap(s)
  {
    if j :| 0 <= j < |t.threads| && Swapping(t.threads[j]) {
      assert Swapping(s.threads[j]);
    }
  }

  /** Steps that leave the store's contents alone. */
  lemma DataFrame(s: State, t: State)
    requires DataAgrees(s) && (InSwap(t) ==> InSwap(s))
    requires t.snap == s.snap && t.delta == s.delta && t.log == s.log && t.initial == s.initial
    requires t.nodeCount == s.nodeCount && t.base == s.base
    ensures DataAgrees(t) && Logical(t) == Logical(s)
  {
  }

  lemma WriteData(s: State, i: nat)
    requires Inv(s) && i < |s.threads| && s.threads[i].WriteLocked?
    ensures var t := AdvanceThread(s, i).value;
            DataAgrees(t) && t.base == s.base && Logical(t) == Replay(Logical(s), [s.threads[i].op])
  {
    var t := AdvanceThread(s, i).value;
    var op := s.threads[i].op;
    assert HoldsDelta(s.threads[i]);
    SwapExclusive(s);
    SwapFrame(s, t, i);
    QueueMerges(s.snap.edges, s.delta, op);
    assert t.log[..|t.log| - 1] == s.log;
    assert t.log[..s.base] == s.log[..s.base];
    assert [op][..0] == [];
  }

  lemma ThreadFoldData(s: State, i: nat)
    requires Inv(s) && i < |s.threads| && s.threads[i].Compacting? && AdvanceThread(s, i).Some?
    ensures var t := AdvanceThread(s, i).value;
            DataAgrees(t) && Same(s, t) && t.log == s.log && Logical(t) == Logical(s)
  {
    var t := AdvanceThread(s, i).value;
    FoldData(s, Client(i), s.threads[i].phase);
    hide LocksAgree, ControlAgrees, ThreadOk, Record;
    if !Swapping(t.threads[i]) {
      SwapFrame(s, t, i);
    }
  }

  lemma WorkerData(s: State)
    requires Inv(s) && WorkerStep(s).Some?
    ensures var t := WorkerStep(s).value;
            DataAgrees(t) && Same(s, t) && t.log == s.log && Logical(t) == Logical(s)
  {
    var t := WorkerStep(s).value;
    if s.worker.Folding? {
      FoldData(s, Background, s.worker.phase);
      assert t.worker != Folding(Swapped) && InSwap(t) ==> InSwap(s);
    } else {
      DataFrame(s, t);
    }
  }

  /** Every step keeps snapshot-plus-delta equal to the replay of the log; only a write changes it, and exactly
      by its own operation. */
  lemma DataStep(s: State, a: Action)
    requires Inv(s) && Do(s, a).Some?
    ensures var t := Do(s, a).value;
            && DataAgrees(t) && Same(s, t)
            && (if a.Advance? && s.threads[a.i].WriteLocked?
                then t.log == s.log + [s.threads[a.i].op]
                else t.log == s.log && Logical(t) == Logical(s))
  {
    hide LocksAgree, DataAgrees, ControlAgrees, ThreadOk, Logical, InSwap, AdvanceThread, WorkerStep;
    var t := Do(s, a).value;
    match a
    case Advance(i) => AdvanceData(s, i);
    case AdvanceWorker => WorkerData(s);
    case CallWrite(i, _) => CallData(s, t, i);
    case CallRead(i) => CallData(s, t, i);
    case CallCompact(i) => CallData(s, t, i);
    case Collect(i) => CallData(s, t, i);
    case Spawn => SpawnData(s, t);
    case Stop => SpawnData(s, t);
    case AdvanceControl => SpawnData(s, t);
  }

  lemma SpawnData(s: State, t: State)
    requires Inv(s) && t.threads == s.threads && (t.worker == s.worker || t.worker == LoopHead)
    requires t.snap == s.snap && t.delta == s.delta && t.log == s.log && t.initial == s.initial
    requires t.nodeCount == s.nodeCount && t.base == s.base
    ensures DataAgrees(t) && Logical(t) == Logical(s)
  {
    DataFrame(s, t);
  }

  lemma CallData(s: State, t: State, i: nat)
    requires Inv(s) && i < |s.threads| == |t.threads| && t == Put(s, i, t.threads[i]) && !Swapping(t.threads[i])
    ensures DataAgrees(t) && Logical(t) == Logical(s)
  {
    SwapFrame(s, t, i);
    DataFrame(s, t);
  }

  lemma AdvanceData(s: State, i: nat)
    requires Inv(s) && i < |s.threads| && AdvanceThread(s, i).Some?
    ensures var t := AdvanceThread(s, i).value;
            && DataAgrees(t) && Same(s, t)
            && (if s.threads[i].WriteLocked? then t.log == s.log + [s.threads[i].op]
                else t.log == s.log && Logical(t) == Logical(s))
  {
    hide LocksAgree, DataAgrees, ControlAgrees, ThreadOk, Logical, InSwap;
    var t := AdvanceThread(s, i).value;
    if s.threads[i].WriteLocked? {
      WriteData(s, i);
    } else if s.threads[i].Compacting? {
      ThreadFoldData(s, i);
    } else {
      SwapFrame(s, t, i);
      DataFrame(s, t);
    }
  }

  // ---------- reads in flight ----------

  /** What a thread knows stays true while others move and the log grows. */
  lemma ThreadStays(s: State, t: State, x: Thread)
    requires ThreadOk(s, x) && Same(s, t) && s.log <= t.log
    requires HoldsDelta(x) ==> t.log == s.log
    ensures ThreadOk(t, x)
  {
    if x.ReadComputed? || x.ReadUnlocking? || x.ReadReturned? {
      assert t.log[..x.mark] == s.log[..x.mark];
    }
    if (x.Compacting? || x.CompactReturned?) && x.call.mark <= |s.log| {
      assert t.log[..x.call.mark] == s.log[..x.call.mark];
    }
  }

  lemma OthersStay(s: State, t: State, k: nat)
    requires LocksAgree(s) && Same(s, t) && s.log <= t.log
    requires |t.threads| == |s.threads| && k < |s.threads|
    requires t.log != s.log ==> s.deltaLock == Client(k)
    requires forall j :: 0 <= j < |s.threads| ==> ThreadOk(s, s.threads[j])
    requires forall j :: 0 <= j < |s.threads| && j != k ==> t.threads[j] == s.threads[j]
    requires ThreadOk(t, t.threads[k])
    ensures forall j :: 0 <= j < |t.threads| ==> ThreadOk(t, t.threads[j])
  {
    forall j | 0 <= j < |t.threads| ensures ThreadOk(t, t.threads[j]) {
      if j != k {
        assert HoldsDelta(s.threads[j]) <==> s.deltaLock == Client(j);
        ThreadStays(s, t, s.threads[j]);
      }
    }
  }

  /** Folding is impossible exactly when the logical edge set has an edge leaving a node that does not exist. */
  lemma CannotFoldIff(s: State)
    requires DataAgrees(s)
    ensures CannotFold(s.snap, s.delta) <==> exists e :: e in Replay(s.initial, s.log) && e.src >= s.nodeCount
  {
    if e :| e in s.delta.inserts && e.src >= s.snap.nodeCount {
      assert e in Logical(s);
    }
  }

  /** One step of a compaction keeps its history right. */
  lemma FoldVerdict(s: State, who: Owner, phase: Phase, call: Compaction)
    requires DataAgrees(s) && CompactionOk(s, call, phase) && FoldStep(s, who, phase).Some?
    ensures var (t, f) := FoldStep(s, who, phase).value;
            var c := Record(call, phase, s, t);
            && (f.More? ==> CompactionOk(t, c, f.phase))
            && (f.Finished? ==> VerdictIs(t, c, f.ok))
  {
    CannotFoldIff(s);
    EmptyCanFold(s);
    hide DataAgrees, Replay, CannotFold, Empty, Fold;
    if phase == Deciding {
      assert s.log[..|s.log|] == s.log;
    } else {
      hide VerdictIs;
      var t := FoldStep(s, who, phase).value.0;
      SameVerdict(s, t, call);
    }
  }

  /** The verdict speaks of nothing but the log, the snapshot's part of it, and the node count. */
  lemma SameVerdict(s: State, t: State, call: Compaction)
    requires t.initial == s.initial && t.nodeCount == s.nodeCount && t.base == s.base && t.log == s.log
    ensures forall ok :: VerdictIs(s, call, ok) ==> VerdictIs(t, call, ok)
    ensures forall touched :: VerdictIs(s, call, true) ==> VerdictIs(t, call.(touched := touched), true)
    ensures forall phase :: CompactionOk(s, call, phase) ==> CompactionOk(t, call, phase)
  {
  }

  lemma CompactionMoves(s: State, i: nat)
    requires Inv(s) && i < |s.threads| && s.threads[i].Compacting? && AdvanceThread(s, i).Some?
    ensures ThreadOk(AdvanceThread(s, i).value, AdvanceThread(s, i).value.threads[i])
  {
    var x := s.threads[i];
    assert ThreadOk(s, x);
    FoldVerdict(s, Client(i), x.phase, x.call);
    hide Inv, FoldStep, CompactionOk, VerdictIs, Record;
    var t := FoldStep(s, Client(i), x.phase).value.0;
    SameVerdict(t, AdvanceThread(s, i).value, Record(x.call, x.phase, s, t));
  }

  lemma EmptyCanFold(s: State)
    ensures Empty(s.delta) ==> !CannotFold(s.snap, s.delta)
  {
  }

  /** A reader computes the replay of the log as it stood when it took the delta lock. */
  lemma MoverOk(s: State, i: nat)
    requires Inv(s) && i < |s.threads| && AdvanceThread(s, i).Some?
    ensures ThreadOk(AdvanceThread(s, i).value, AdvanceThread(s, i).value.threads[i])
  {
    var t := AdvanceThread(s, i).value;
    assert ThreadOk(s, s.threads[i]);
    if s.threads[i].Compacting? {
      CompactionMoves(s, i);
    } else if s.threads[i].ReadLocked? {
      FoldTwice(s.snap, s.delta);
      assert s.log[..|s.log|] == s.log;
    }
  }

  lemma AllStay(s: State, t: State)
    requires Same(s, t) && t.log == s.log && t.threads == s.threads
    requires forall j :: 0 <= j < |s.threads| ==> ThreadOk(s, s.threads[j])
    ensures forall j :: 0 <= j < |t.threads| ==> ThreadOk(t, t.threads[j])
  {
    forall j | 0 <= j < |t.threads| ensures ThreadOk(t, t.threads[j]) {
      ThreadStays(s, t, s.threads[j]);
    }
  }

  lemma ThreadsStep(s: State, a: Action)
    requires Inv(s) && Do(s, a).Some?
    ensures var t := Do(s, a).value;
            forall j :: 0 <= j < |t.threads| ==> ThreadOk(t, t.threads[j])
  {
    hide DataAgrees, ControlAgrees, Logical, InSwap, AdvanceThread, WorkerStep, LocksAgree, ThreadOk;
    var t := Do(s, a).value;
    DataStep(s, a);
    match a
    case Advance(i) => AdvanceStays(s, i);
    case CallWrite(i, _) => CallStays(s, t, i);
    case CallRead(i) => CallStays(s, t, i);
    case CallCompact(i) => CallStays(s, t, i);
    case Collect(i) => CallStays(s, t, i);
    case AdvanceWorker => WorkerStays(s);
    case Spawn => AllStay(s, t);
    case Stop => AllStay(s, t);
    case AdvanceControl => AllStay(s, t);
  }

  lemma WorkerStays(s: State)
    requires Inv(s) && WorkerStep(s).Some?
    ensures var t := WorkerStep(s).value;
            forall j :: 0 <= j < |t.threads| ==> ThreadOk(t, t.threads[j])
  {
    hide DataAgrees, ControlAgrees, Logical, InSwap, LocksAgree, ThreadOk;
    WorkerData(s);
    AllStay(s, WorkerStep(s).value);
  }

  lemma CallStays(s: State, t: State, i: nat)
    requires Inv(s) && i < |s.threads| == |t.threads| && t == Put(s, i, t.threads[i])
    requires t.threads[i] == Idle || t.threads[i].Writing? || t.threads[i] == ReadWantSnapshot(|s.log|) || t.threads[i] == NewCompaction(s)
    ensures forall j :: 0 <= j < |t.threads| ==> ThreadOk(t, t.threads[j])
  {
    hide DataAgrees, ControlAgrees, LocksAgree;
    OthersStay(s, t, i);
  }

  lemma AdvanceStays(s: State, i: nat)
    requires Inv(s) && i < |s.threads| && AdvanceThread(s, i).Some?
    ensures var t := AdvanceThread(s, i).value;
            forall j :: 0 <= j < |t.threads| ==> ThreadOk(t, t.threads[j])
  {
    var t := AdvanceThread(s, i).value;
    MoverOk(s, i);
    AdvanceData(s, i);
    WriterHolds(s, i);
    hide DataAgrees, ControlAgrees, LocksAgree, ThreadOk, AdvanceThread;
    OthersStay(s, t, i);
  }

  lemma WriterHolds(s: State, i: nat)
    requires LocksAgree(s) && i < |s.threads|
    ensures s.threads[i].WriteLocked? ==> s.deltaLock == Client(i)
  {
    assert HoldsDelta(s.threads[i]) <==> s.deltaLock == Client(i);
  }

  lemma ControlStep(s: State, a: Action)
    requires ControlAgrees(s) && Do(s, a).Some?
    ensures ControlAgrees(Do(s, a).value)
  {
    hide AdvanceThread, FoldStep;
  }

  /** The invariant holds after every step. */
  lemma InvStep(s: State, a: Action)
    requires Inv(s) && Do(s, a).Some?
    ensures Inv(Do(s, a).value)
  {
    LocksStep(s, a);
    DataStep(s, a);
    ThreadsStep(s, a);
    ControlStep(s, a);
  }

  // ---------- whole runs ----------

  /** Over a whole run: the invariant holds, the log only grows, and the snapshot never falls back. */
  lemma {:induction false} RunKeeps(s: State, actions: seq<Action>, t: State)
    requires Inv(s) && Reaches(s, actions, t)
    ensures Inv(t) && s.log <= t.log && Same(s, t) && |t.threads| == |s.threads|
  {
    if actions != [] {
      var init, last := actions[..|actions| - 1], actions[|actions| - 1];
      var mid :| Reaches(s, init, mid) && Do(mid, last) == Some(t);
      RunKeeps(s, init, mid);
      InvStep(mid, last);
      DataStep(mid, last);
      ThreadCountStep(mid, last);
    }
  }

  lemma ThreadCountStep(s: State, a: Action)
    requires Do(s, a).Some?
    ensures |Do(s, a).value.threads| == |s.threads|
  {
  }

  /** Linearizability. In every reachable state, what a read returned is the replay, in delta-lock order, of
      exactly the writes that took effect before it held the delta lock; that point lies between its call and its
      return. */
  lemma ReadsLinearize(s: State, actions: seq<Action>, t: State, i: nat)
    requires Initial(s) && Reaches(s, actions, t)
    requires i < |t.threads| && t.threads[i].ReadReturned?
    ensures t.threads[i].called <= t.threads[i].mark <= |t.log|
    ensures t.threads[i].result == Replay(s.initial, t.log[..t.threads[i].mark])
  {
    InitialInv(s);
    RunKeeps(s, actions, t);
    assert ThreadOk(t, t.threads[i]);
  }

  /** A read is known to have been called once the log had reached `n`. */
  ghost predicate CalledSince(x: Thread, n: nat) {
    (x.ReadWantSnapshot? || x.ReadWantDelta? || x.ReadLocked? || x.ReadComputed? || x.ReadUnlocking? || x.ReadReturned?)
    ==> x.called >= n
  }

  lemma CalledStep(s: State, a: Action, i: nat, n: nat)
    requires i < |s.threads| && CalledSince(s.threads[i], n) && n <= |s.log| && Do(s, a).Some?
    ensures i < |Do(s, a).value.threads| && CalledSince(Do(s, a).value.threads[i], n)
  {
    if a == Advance(i) {
      CalledAdvance(s, i, n);
    } else {
      hide AdvanceThread, FoldStep, CalledSince;
      CalledFresh(s, n);
    }
  }

  lemma CalledAdvance(s: State, i: nat, n: nat)
    requires i < |s.threads| && CalledSince(s.threads[i], n) && AdvanceThread(s, i).Some?
    ensures CalledSince(AdvanceThread(s, i).value.threads[i], n)
  {
    if s.threads[i].Compacting? {
      hide FoldStep, Record;
    } else {
      hide AdvanceCompaction, Fold, Queue;
    }
  }

  lemma CalledFresh(s: State, n: nat)
    requires n <= |s.log|
    ensures CalledSince(ReadWantSnapshot(|s.log|), n) && CalledSince(NewCompaction(s), n) && CalledSince(Idle, n)
    ensures forall op :: CalledSince(Writing(op), n)
  {
  }

  lemma {:induction false} CalledKeeps(s: State, actions: seq<Action>, t: State, i: nat, n: nat)
    requires Inv(s) && Reaches(s, actions, t) && i < |s.threads| && CalledSince(s.threads[i], n) && n <= |s.log|
    ensures i < |t.threads| && CalledSince(t.threads[i], n)
  {
    hide CalledSince, Do, Inv;
    if actions != [] {
      var init, last := actions[..|actions| - 1], actions[|actions| - 1];
      var mid :| Reaches(s, init, mid) && Do(mid, last) == Some(t);
      CalledKeeps(s, init, mid, i, n);
      RunKeeps(s, init, mid);
      CalledStep(mid, last, i, n);
    }
  }

  /** Real-time order between writes and reads: once a write has taken effect, as it has when it returns, its
      operation lies in the part of the log that every read called later replays. */
  lemma EarlierWritesAreRead(s: State, toWrite: seq<Action>, w: State, k: nat, toCall: seq<Action>, c: State, i: nat,
                             toReturn: seq<Action>, t: State)
    requires Initial(s) && Reaches(s, toWrite, w) && k < |w.threads| && w.threads[k].WriteLocked?
    requires Do(w, Advance(k)).Some? && Reaches(Do(w, Advance(k)).value, toCall, c)
    requires Do(c, CallRead(i)).Some? && Reaches(Do(c, CallRead(i)).value, toReturn, t)
    requires i < |t.threads| && t.threads[i].ReadReturned?
    ensures |w.log| < t.threads[i].called <= t.threads[i].mark <= |t.log|
    ensures t.log[|w.log|] == w.threads[k].op
    ensures t.threads[i].result == Replay(s.initial, t.log[..t.threads[i].mark])
  {
    hide Inv, Do, Reaches, Initial, AdvanceThread, CalledSince;
    var written, called := Do(w, Advance(k)).value, Do(c, CallRead(i)).value;
    InitialInv(s);
    RunKeeps(s, toWrite, w);
    InvStep(w, Advance(k));
    DataStep(w, Advance(k));
    RunKeeps(written, toCall, c);
    InvStep(c, CallRead(i));
    CallReadEffect(c, i);
    CalledKeeps(called, toReturn, t, i, |c.log|);
    RunKeeps(called, toReturn, t);
    ReturnedRead(t, i, |c.log|);
  }

  lemma CallReadEffect(c: State, i: nat)
    requires Do(c, CallRead(i)).Some?
    ensures var t := Do(c, CallRead(i)).value;
            && t.log == c.log && t.initial == c.initial
            && i < |t.threads| && CalledSince(t.threads[i], |c.log|)
  {
  }

  lemma ReturnedRead(t: State, i: nat, n: nat)
    requires Inv(t) && i < |t.threads| && t.threads[i].ReadReturned? && CalledSince(t.threads[i], n)
    ensures n <= t.threads[i].called <= t.threads[i].mark <= |t.log|
    ensures t.threads[i].result == Replay(t.initial, t.log[..t.threads[i].mark])
  {
    hide LocksAgree, DataAgrees, ControlAgrees;
    assert ThreadOk(t, t.threads[i]);
  }

  /** Real-time order between reads: a read called after another one returned never sees an older store. */
  lemma LaterReadsSeeMore(s: State, before: seq<Action>, mid: State, after: seq<Action>, t: State, i: nat, j: nat)
    requires Initial(s) && Reaches(s, before, mid) && Reaches(mid, after, t)
    requires i < |mid.threads| && mid.threads[i].ReadReturned?
    requires j < |t.threads| && t.threads[j].ReadReturned? && t.threads[j].called >= |mid.log|
    ensures mid.threads[i].mark <= t.threads[j].mark <= |t.log|
    ensures mid.threads[i].result == Replay(s.initial, t.log[..mid.threads[i].mark])
    ensures t.threads[j].result == Replay(mid.threads[i].result, t.log[mid.threads[i].mark..t.threads[j].mark])
  {
    hide LocksAgree, DataAgrees, ControlAgrees, Do, Initial;
    InitialInv(s);
    RunKeeps(s, before, mid);
    RunKeeps(mid, after, t);
    var a, b := mid.threads[i].mark, t.threads[j].mark;
    assert ThreadOk(mid, mid.threads[i]) && ThreadOk(t, t.threads[j]);
    assert t.log[..a] == mid.log[..a];
    assert t.log[..b] == t.log[..a] + t.log[a..b];
    ReplaySplit(s.initial, t.log[..a], t.log[a..b]);
  }

  lemma {:induction false} ReplaySplit(S: set<Edge>, a: seq<Op>, b: seq<Op>)
    ensures Replay(S, a + b) == Replay(Replay(S, a), b)
  {
    if b == [] {
      assert a + b == a;
    } else {
      var init := b[..|b| - 1];
      ReplaySplit(S, a, init);
      assert (a + b)[..|a + b| - 1] == a + init;
    }
  }

  /** Compaction is invisible: no step of any compaction, explicit or in the background, changes the logical
      edge set or the log, not even the one that leaves a swapped snapshot beside an uncleared delta. */
  lemma CompactionIsInvisible(s: State, actions: seq<Action>, t: State, a: Action)
    requires Initial(s) && Reaches(s, actions, t) && Do(t, a).Some?
    requires a == AdvanceWorker || (a.Advance? && t.threads[a.i].Compacting?)
    ensures Logical(Do(t, a).value) == Logical(t) == Replay(s.initial, t.log)
    ensures Do(t, a).value.log == t.log
  {
    InitialInv(s);
    RunKeeps(s, actions, t);
    DataStep(t, a);
  }

  /** What `compact_now` promises over whole runs. The point `mark` where it took the delta lock lies between its
      call and its return. It succeeds exactly when every edge of the store at that point leaves an existing node.
      If it succeeded then, from its return on and whatever runs after, the snapshot is the replay of a part of the
      log that includes every write before `mark`; if it failed, none of its steps changed snapshot or delta. */
  lemma CompactionsFold(s: State, before: seq<Action>, mid: State, after: seq<Action>, t: State, i: nat)
    requires Initial(s) && Reaches(s, before, mid) && Reaches(mid, after, t)
    requires i < |mid.threads| && mid.threads[i].CompactReturned?
    ensures var (call, ok) := (mid.threads[i].call, mid.threads[i].ok);
            && call.called <= call.mark <= |mid.log|
            && (ok <==> forall e :: e in Replay(s.initial, mid.log[..call.mark]) ==> e.src < s.nodeCount)
            && (ok ==> call.mark <= t.base <= |t.log|)
            && (!ok ==> !call.touched)
    ensures t.base <= |t.log| && t.snap.edges == Replay(s.initial, t.log[..t.base])
  {
    hide LocksAgree, ControlAgrees, Do;
    InitialInv(s);
    RunKeeps(s, before, mid);
    RunKeeps(mid, after, t);
    assert ThreadOk(mid, mid.threads[i]);
  }

  /** Mutual exclusion: the two locks are never held by two threads at once. */
  lemma MutualExclusion(s: State, actions: seq<Action>, t: State, i: nat, j: nat)
    requires Initial(s) && Reaches(s, actions, t) && i < |t.threads| && j < |t.threads| && i != j
    ensures !(HoldsDelta(t.threads[i]) && HoldsDelta(t.threads[j]))
    ensures !(HoldsSnapshot(t.threads[i]) && HoldsSnapshot(t.threads[j]))
    ensures HoldsDelta(t.threads[i]) ==> !(t.worker.Folding? && PhaseHoldsDelta(t.worker.phase))
    ensures HoldsSnapshot(t.threads[i]) ==> !(t.worker.Folding? && PhaseHoldsSnapshot(t.worker.phase))
  {
    InitialInv(s);
    RunKeeps(s, actions, t);
  }
}
