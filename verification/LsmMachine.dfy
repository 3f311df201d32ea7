/** `LsmStore` as a machine of lock-level steps: writers, readers, explicit compactions and the background
    compactor interleave freely over the snapshot lock and the delta lock. */
module LsmMachine {
  import opened Basics
  import opened Edges
  import opened Delta

  // ---------- state ----------

  datatype Snapshot = Snapshot(nodeCount: nat, edges: set<Edge>)

  datatype Buffer = Buffer(inserts: set<Edge>, deletes: set<Edge>)

  datatype Owner = Free | Client(id: nat) | Background

  /** The critical section of a compaction: lock both, decide, swap the snapshot, clear the delta, unlock both. */
  datatype Phase =
    | WantSnapshot
    | WantDelta
    | Deciding
    | Swapped
    | Unlocking(ok: bool)
    | UnlockingSnapshot(ok: bool)

  /** The history of one explicit compaction: the log lengths when it was called and when it took the delta lock,
      and whether any of its steps so far changed the snapshot or the delta. */
  datatype Compaction = Compaction(called: nat, mark: nat, touched: bool)

  /** A client thread between and inside calls. `called` and `mark` are log lengths: when a read was called,
      and when it took the delta lock. */
  datatype Thread =
    | Idle
    | Writing(op: Op)
    | WriteLocked(op: Op)
    | WriteApplied
    | ReadWantSnapshot(called: nat)
    | ReadWantDelta(called: nat)
    | ReadLocked(called: nat, mark: nat)
    | ReadComputed(called: nat, mark: nat, result: set<Edge>)
    | ReadUnlocking(called: nat, mark: nat, result: set<Edge>)
    | ReadReturned(called: nat, mark: nat, result: set<Edge>)
    | Compacting(call: Compaction, phase: Phase)
    | CompactReturned(call: Compaction, ok: bool)

  /** The background thread. */
  datatype Worker = NotRunning | LoopHead | Sleeping | Recheck | Folding(phase: Phase) | Exited

  /** The owner of the store handle, inside `stop_background` or not. */
  datatype Control = Resting | Joining

  /** `log` holds the writes in delta-lock order, and its first `base` entries are folded into the snapshot. */
  datatype State = State(
    initial: set<Edge>, nodeCount: nat, log: seq<Op>, base: nat,
    snap: Snapshot, delta: Buffer, snapLock: Owner, deltaLock: Owner,
    threads: seq<Thread>, worker: Worker, stop: bool, handle: bool, control: Control)

  // ---------- steps ----------

  datatype Action =
    | CallWrite(i: nat, op: Op)
    | CallRead(i: nat)
    | CallCompact(i: nat)
    | Collect(i: nat)
    | Advance(i: nat)
    | AdvanceWorker
    | Spawn
    | Stop
    | AdvanceControl

  function Fold(snap: Snapshot, delta: Buffer): (s: Snapshot)
  {
    snap.(edges := snap.edges - delta.deletes + delta.inserts)
  }

  function Queue(delta: Buffer, op: Op): (d: Buffer)
  {
    match op
    case Ins(e) => Buffer(delta.inserts + {e}, delta.deletes - {e})
    case Del(e) => Buffer(delta.inserts - {e}, delta.deletes + {e})
  }

  predicate Empty(delta: Buffer) {
    delta.inserts == {} && delta.deletes == {}
  }

  /** Rebuilding the graph fails when a pending insertion leaves a node that does not exist. */
  predicate CannotFold(snap: Snapshot, delta: Buffer) {
    exists e :: e in delta.inserts && e.src >= snap.nodeCount
  }

  /** One step inside a compaction run by `who`; `None` while the lock it needs is taken. The second component is
      the next phase, or the verdict once both locks are released. */
  datatype Folded = More(phase: Phase) | Finished(ok: bool)

  predicate SameControl(s: State, t: State) {
    t.stop == s.stop && t.handle == s.handle && t.control == s.control
  }

  function FoldStep(s: State, who: Owner, phase: Phase): (r: Option<(State, Folded)>)
    ensures r.Some? ==> r.value.0.threads == s.threads && r.value.0.worker == s.worker && SameControl(s, r.value.0)
  {
    match phase
    case WantSnapshot => if s.snapLock != Free then None else Some((s.(snapLock := who), More(WantDelta)))
    case WantDelta => if s.deltaLock != Free then None else Some((s.(deltaLock := who), More(Deciding)))
    case Deciding =>
      if Empty(s.delta) then Some((s.(base := |s.log|), More(Unlocking(true))))
      else if CannotFold(s.snap, s.delta) then Some((s, More(Unlocking(false))))
      else Some((s.(snap := Fold(s.snap, s.delta), base := |s.log|), More(Swapped)))
    case Swapped => Some((s.(delta := Buffer({}, {})), More(Unlocking(true))))
    case Unlocking(ok) => Some((s.(deltaLock := Free), More(UnlockingSnapshot(ok))))
    case UnlockingSnapshot(ok) => Some((s.(snapLock := Free), Finished(ok)))
  }

  /** What the step of a compaction from `s` to `t` adds to its history. */
  function Record(call: Compaction, phase: Phase, s: State, t: State): (r: Compaction)
  {
    call.(mark := if phase == WantDelta then |s.log| else call.mark,
          touched := call.touched || t.snap != s.snap || t.delta != s.delta)
  }

  function Put(s: State, i: nat, t: Thread): (r: State)
    requires i < |s.threads|
  {
    s.(threads := s.threads[i := t])
  }

  /** The next step of client `i` inside its current call. */
  function AdvanceThread(s: State, i: nat): (r: Option<State>)
    requires i < |s.threads|
    ensures r.Some? ==> |r.value.threads| == |s.threads| && r.value.worker == s.worker && SameControl(s, r.value)
    ensures r.Some? ==> forall j :: 0 <= j < |s.threads| && j != i ==> r.value.threads[j] == s.threads[j]
  {
    match s.threads[i]
    case Idle => None
    case Writing(op) =>
      if s.deltaLock != Free then None else Some(Put(s, i, WriteLocked(op)).(deltaLock := Client(i)))
    case WriteLocked(op) =>
      Some(Put(s, i, WriteApplied).(delta := Queue(s.delta, op), log := s.log + [op]))
    case WriteApplied => Some(Put(s, i, Idle).(deltaLock := Free))
    case ReadWantSnapshot(called) =>
      if s.snapLock != Free then None else Some(Put(s, i, ReadWantDelta(called)).(snapLock := Client(i)))
    case ReadWantDelta(called) =>
      if s.deltaLock != Free then None
      else Some(Put(s, i, ReadLocked(called, |s.log|)).(deltaLock := Client(i)))
    case ReadLocked(called, mark) =>
      Some(Put(s, i, ReadComputed(called, mark, Fold(s.snap, s.delta).edges)))
    case ReadComputed(called, mark, result) =>
      Some(Put(s, i, ReadUnlocking(called, mark, result)).(deltaLock := Free))
    case ReadUnlocking(called, mark, result) =>
      Some(Put(s, i, ReadReturned(called, mark, result)).(snapLock := Free))
    case ReadReturned(_, _, _) => None
    case Compacting(call, phase) => AdvanceCompaction(s, i, call, phase)
    case CompactReturned(_, _) => None
  }

  function AdvanceCompaction(s: State, i: nat, call: Compaction, phase: Phase): (r: Option<State>)
    requires i < |s.threads|
    ensures r.Some? ==> r.value.worker == s.worker && SameControl(s, r.value)
    ensures r.Some? ==> |r.value.threads| == |s.threads| && r.value.threads == s.threads[i := r.value.threads[i]]
    ensures r.Some? ==> r.value.threads[i].Compacting? || r.value.threads[i].CompactReturned?
  {
    match FoldStep(s, Client(i), phase)
    case None => None
    case Some((t, More(next))) => Some(Put(t, i, Compacting(Record(call, phase, s, t), next)))
    case Some((t, Finished(ok))) => Some(Put(t, i, CompactReturned(Record(call, phase, s, t), ok)))
  }

  /** The background loop: check, sleep, check again, fold, repeat. */
  function WorkerStep(s: State): (r: Option<State>)
  {
    match s.worker
    case NotRunning => None
    case LoopHead => Some(s.(worker := if s.stop then Exited else Sleeping))
    case Sleeping => Some(s.(worker := Recheck))
    case Recheck => Some(s.(worker := if s.stop then Exited else Folding(WantSnapshot)))
    case Folding(phase) =>
      (match FoldStep(s, Background, phase)
       case None => None
       case Some((t, More(next))) => Some(t.(worker := Folding(next)))
       case Some((t, Finished(_))) => Some(t.(worker := LoopHead)))
    case Exited => None
  }

  function NewCompaction(s: State): (t: Thread)
  {
    Compacting(Compaction(|s.log|, |s.log|, false), WantSnapshot)
  }

  /** The effect of an action, or `None` where it is not enabled. */
  function Do(s: State, a: Action): (r: Option<State>)
  {
    match a
    case CallWrite(i, op) =>
      if i < |s.threads| && s.threads[i] == Idle then Some(Put(s, i, Writing(op))) else None
    case CallRead(i) =>
      if i < |s.threads| && s.threads[i] == Idle then Some(Put(s, i, ReadWantSnapshot(|s.log|))) else None
    case CallCompact(i) =>
      if i < |s.threads| && s.threads[i] == Idle then Some(Put(s, i, NewCompaction(s))) else None
    case Collect(i) =>
      if i < |s.threads| && (s.threads[i].ReadReturned? || s.threads[i].CompactReturned?)
      then Some(Put(s, i, Idle)) else None
    case Advance(i) => if i < |s.threads| then AdvanceThread(s, i) else None
    case AdvanceWorker => WorkerStep(s)
    case Spawn =>
      if s.control != Resting then None
      else if s.handle then Some(s)
      else Some(s.(worker := LoopHead, handle := true))
    case Stop =>
      if s.control != Resting then None
      else Some(s.(stop := true, handle := false, control := if s.handle then Joining else Resting))
    case AdvanceControl =>
      if s.control == Joining && s.worker == Exited then Some(s.(control := Resting)) else None
  }

  predicate Initial(s: State) {
    && s.log == [] && s.base == 0 && s.initial == s.snap.edges && s.nodeCount == s.snap.nodeCount
    && (forall e :: e in s.snap.edges ==> e.src < s.nodeCount)
    && Empty(s.delta) && s.snapLock == Free && s.deltaLock == Free
    && (forall i :: 0 <= i < |s.threads| ==> s.threads[i] == Idle)
    && s.worker == NotRunning && !s.stop && !s.handle && s.control == Resting
  }

  /** The state after a run; actions that are not enabled cannot occur in it. */
  ghost predicate Reaches(s: State, actions: seq<Action>, s': State)
  {
    if actions == [] then s' == s
    else
      var last := actions[|actions| - 1];
      exists mid :: Reaches(s, actions[..|actions| - 1], mid) && Do(mid, last) == Some(s')
  }

  // ---------- invariant ----------

  predicate PhaseHoldsSnapshot(p: Phase) {
    !p.WantSnapshot?
  }

  predicate PhaseHoldsDelta(p: Phase) {
    p.Deciding? || p.Swapped? || p.Unlocking?
  }

  predicate HoldsSnapshot(t: Thread) {
    || t.ReadWantDelta? || t.ReadLocked? || t.ReadComputed? || t.ReadUnlocking?
    || (t.Compacting? && PhaseHoldsSnapshot(t.phase))
  }

  predicate HoldsDelta(t: Thread) {
    || t.WriteLocked? || t.WriteApplied? || t.ReadLocked? || t.ReadComputed?
    || (t.Compacting? && PhaseHoldsDelta(t.phase))
  }

  /** A lock is held by exactly the thread that is where the lock is needed. */
  ghost predicate LocksAgree(s: State) {
    && (forall i :: 0 <= i < |s.threads| ==> (HoldsSnapshot(s.threads[i]) <==> s.snapLock == Client(i)))
    && (forall i :: 0 <= i < |s.threads| ==> (HoldsDelta(s.threads[i]) <==> s.deltaLock == Client(i)))
    && ((s.worker.Folding? && PhaseHoldsSnapshot(s.worker.phase)) <==> s.snapLock == Background)
    && ((s.worker.Folding? && PhaseHoldsDelta(s.worker.phase)) <==> s.deltaLock == Background)
    && (s.snapLock.Client? ==> s.snapLock.id < |s.threads|)
    && (s.deltaLock.Client? ==> s.deltaLock.id < |s.threads|)
  }

  /** What readers see. */
  ghost function Logical(s: State): (S: set<Edge>)
  {
    Merged(s.snap.edges, s.delta.inserts, s.delta.deletes)
  }

  predicate Swapping(t: Thread) {
    t.Compacting? && t.phase == Swapped
  }

  ghost predicate InSwap(s: State) {
    || (exists i :: 0 <= i < |s.threads| && Swapping(s.threads[i]))
    || s.worker == Folding(Swapped)
  }

  /** Snapshot plus delta is always the replay of the log, also between swapping the snapshot and clearing the
      delta, when the delta has nothing left to contribute; the snapshot alone is the replay of its first part. */
  ghost predicate DataAgrees(s: State) {
    && s.snap.nodeCount == s.nodeCount
    && (forall e :: e in s.snap.edges ==> e.src < s.nodeCount)
    && s.delta.inserts !! s.delta.deletes
    && Logical(s) == Replay(s.initial, s.log)
    && s.base <= |s.log| && s.snap.edges == Replay(s.initial, s.log[..s.base])
    && (InSwap(s) ==> Logical(s) == s.snap.edges)
  }

  ghost predicate ReadIsReplay(s: State, called: nat, mark: nat, result: set<Edge>) {
    called <= mark <= |s.log| && result == Replay(s.initial, s.log[..mark])
  }

  /** A compaction succeeds exactly when every edge of the store it found leaves an existing node. If it did, the
      snapshot now holds all writes before its delta lock; if not, it changed neither snapshot nor delta. */
  ghost predicate VerdictIs(s: State, call: Compaction, ok: bool) {
    && call.called <= call.mark <= |s.log|
    && (ok <==> forall e :: e in Replay(s.initial, s.log[..call.mark]) ==> e.src < s.nodeCount)
    && (ok ==> call.mark <= s.base)
    && (!ok ==> !call.touched)
  }

  ghost predicate CompactionOk(s: State, call: Compaction, phase: Phase) {
    match phase
    case WantSnapshot => call.called <= |s.log| && !call.touched
    case WantDelta => call.called <= |s.log| && !call.touched
    case Deciding => call.called <= call.mark == |s.log| && !call.touched
    case Swapped => VerdictIs(s, call, true)
    case Unlocking(ok) => VerdictIs(s, call, ok)
    case UnlockingSnapshot(ok) => VerdictIs(s, call, ok)
  }

  ghost predicate ThreadOk(s: State, t: Thread) {
    match t
    case ReadWantSnapshot(called) => called <= |s.log|
    case ReadWantDelta(called) => called <= |s.log|
    case ReadLocked(called, mark) => called <= mark == |s.log|
    case ReadComputed(called, mark, result) => ReadIsReplay(s, called, mark, result)
    case ReadUnlocking(called, mark, result) => ReadIsReplay(s, called, mark, result)
    case ReadReturned(called, mark, result) => ReadIsReplay(s, called, mark, result)
    case Compacting(call, phase) => CompactionOk(s, call, phase)
    case CompactReturned(call, ok) => VerdictIs(s, call, ok)
    case _ => true
  }

  ghost predicate ControlAgrees(s: State) {
    && (s.handle ==> !s.worker.NotRunning? && s.control == Resting)
    && (!s.handle && s.control == Resting ==> s.worker.NotRunning? || s.worker.Exited?)
    && (s.control == Joining ==> s.stop && !s.worker.NotRunning?)
    && (s.worker.Exited? ==> s.stop)
    && (s.stop && s.control == Resting ==> s.worker.NotRunning? || s.worker.LoopHead? || s.worker.Exited?)
  }

  ghost predicate Inv(s: State) {
    && LocksAgree(s)
    && DataAgrees(s)
    && (forall i :: 0 <= i < |s.threads| ==> ThreadOk(s, s.threads[i]))
    && ControlAgrees(s)
  }
}
