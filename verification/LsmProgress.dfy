/** Progress of the store: no reachable state deadlocks, stopping drains every thread, and a stopped store never
    compacts in the background again. */
module LsmProgress {
  import opened Basics
  import opened LsmMachine
  import opened LsmSafety

  predicate MidCall(t: Thread) {
    !t.Idle? && !t.ReadReturned? && !t.CompactReturned?
  }

  predicate WorkerLive(w: Worker) {
    !w.NotRunning? && !w.Exited?
  }

  /** Nothing is in flight: every call has returned, the background thread is gone, nobody waits for it. */
  ghost predicate AtRest(s: State) {
    && (forall i :: 0 <= i < |s.threads| ==> !MidCall(s.threads[i]))
    && !WorkerLive(s.worker)
    && s.control == Resting
  }

  /** A step of something already in flight, as opposed to a new call. */
  predicate IsAdvance(a: Action) {
    a.Advance? || a.AdvanceWorker? || a.AdvanceControl?
  }

  // ---------- no deadlock ----------

  /** Whoever holds the delta lock can move. */
  lemma DeltaHolderMoves(s: State) returns (a: Action)
    requires LocksAgree(s) && s.deltaLock != Free
    ensures IsAdvance(a) && Do(s, a).Some?
  {
    match s.deltaLock
    case Client(i) =>
      assert HoldsDelta(s.threads[i]);
      a := Advance(i);
    case Background =>
      a := AdvanceWorker;
  }

  /** With the delta lock free, whoever holds the snapshot lock can move. */
  lemma SnapshotHolderMoves(s: State) returns (a: Action)
    requires LocksAgree(s) && s.deltaLock == Free && s.snapLock != Free
    ensures IsAdvance(a) && Do(s, a).Some?
  {
    match s.snapLock
    case Client(i) =>
      assert HoldsSnapshot(s.threads[i]);
      a := Advance(i);
    case Background =>
      a := AdvanceWorker;
  }

  /** With both locks free, any thread in flight can move. */
  lemma FreeLocksMove(s: State) returns (a: Action)
    requires LocksAgree(s) && ControlAgrees(s) && s.deltaLock == Free && s.snapLock == Free && !AtRest(s)
    ensures IsAdvance(a) && Do(s, a).Some?
  {
    if i :| 0 <= i < |s.threads| && MidCall(s.threads[i]) {
      a := Advance(i);
    } else if WorkerLive(s.worker) {
      a := AdvanceWorker;
    } else {
      a := AdvanceControl;
    }
  }

  /** Deadlock freedom: in every reachable state with anything in flight, something in flight can move. */
  lemma NeverDeadlocks(s: State, actions: seq<Action>, t: State) returns (a: Action)
    requires Initial(s) && Reaches(s, actions, t) && !AtRest(t)
    ensures IsAdvance(a) && Do(t, a).Some?
  {
    InitialInv(s);
    RunKeeps(s, actions, t);
    a := SomethingMoves(t);
  }

  lemma SomethingMoves(s: State) returns (a: Action)
    requires Inv(s) && !AtRest(s)
    ensures IsAdvance(a) && Do(s, a).Some?
  {
    hide DataAgrees, ThreadOk, Do;
    if s.deltaLock != Free {
      a := DeltaHolderMoves(s);
    } else if s.snapLock != Free {
      a := SnapshotHolderMoves(s);
    } else {
      a := FreeLocksMove(s);
    }
  }

  // ---------- stopping drains the store ----------

  function PhaseRank(p: Phase): (n: nat)
    ensures n >= 1
  {
    match p
    case WantSnapshot => 6
    case WantDelta => 5
    case Deciding => 4
    case Swapped => 3
    case Unlocking(_) => 2
    case UnlockingSnapshot(_) => 1
  }

  function ThreadRank(t: Thread): (n: nat)
    ensures n > 0 <==> MidCall(t)
  {
    match t
    case Idle => 0
    case Writing(_) => 3
    case WriteLocked(_) => 2
    case WriteApplied => 1
    case ReadWantSnapshot(_) => 5
    case ReadWantDelta(_) => 4
    case ReadLocked(_, _) => 3
    case ReadComputed(_, _, _) => 2
    case ReadUnlocking(_, _, _) => 1
    case ReadReturned(_, _, _) => 0
    case Compacting(_, p) => PhaseRank(p)
    case CompactReturned(_, _) => 0
  }

  /** Steps the background thread still takes once it is told to stop. */
  function WorkerRank(w: Worker): (n: nat)
    ensures n > 0 <==> WorkerLive(w)
  {
    match w
    case NotRunning => 0
    case LoopHead => 1
    case Sleeping => 2
    case Recheck => 1
    case Folding(p) => PhaseRank(p) + 1
    case Exited => 0
  }

  function Ranks(ts: seq<Thread>): (n: nat)
  {
    if ts == [] then 0 else ThreadRank(ts[0]) + Ranks(ts[1..])
  }

  function Work(s: State): (n: nat)
  {
    Ranks(s.threads) + WorkerRank(s.worker) + if s.control == Joining then 1 else 0
  }

  lemma {:induction false} RanksUpdate(ts: seq<Thread>, i: nat, t: Thread)
    requires i < |ts|
    ensures Ranks(ts[i := t]) == Ranks(ts) - ThreadRank(ts[i]) + ThreadRank(t)
  {
    if i == 0 {
      assert ts[0 := t][1..] == ts[1..];
    } else {
      RanksUpdate(ts[1..], i - 1, t);
      assert ts[i := t][1..] == ts[1..][i - 1 := t];
    }
  }

  /** Once `stop` is set, every step of something in flight brings the store closer to rest. */
  lemma AdvanceReducesWork(s: State, a: Action)
    requires s.stop && IsAdvance(a) && Do(s, a).Some?
    ensures Do(s, a).value.stop && Work(Do(s, a).value) < Work(s)
  {
    var t := Do(s, a).value;
    if a.Advance? {
      RanksUpdate(s.threads, a.i, t.threads[a.i]);
      assert t.threads == s.threads[a.i := t.threads[a.i]];
      ThreadRankDrops(s, a.i);
    }
  }

  lemma ThreadRankDrops(s: State, i: nat)
    requires i < |s.threads| && AdvanceThread(s, i).Some?
    ensures var t := AdvanceThread(s, i).value;
            ThreadRank(t.threads[i]) < ThreadRank(s.threads[i])
  {
    hide Fold, Queue, Record, FoldStep, PhaseRank;
    if s.threads[i].Compacting? {
      PhaseRankDrops(s, Client(i), s.threads[i].phase);
    } else {
      hide AdvanceCompaction;
    }
  }

  lemma PhaseRankDrops(s: State, who: Owner, phase: Phase)
    requires FoldStep(s, who, phase).Some?
    ensures var f := FoldStep(s, who, phase).value.1;
            f.More? ==> PhaseRank(f.phase) < PhaseRank(phase)
  {
    hide Fold, CannotFold, Empty;
  }

  lemma {:induction false} ReachesCons(s: State, a: Action, mid: State, rest: seq<Action>, t: State)
    requires Do(s, a) == Some(mid) && Reaches(mid, rest, t)
    ensures Reaches(s, [a] + rest, t)
  {
    hide Do, Reaches;
    if rest == [] {
      NoSteps(s);
      NoStepsSame(mid, t);
      ReachesSnoc(s, [], s, a, t);
      assert [a] + rest == [] + [a];
    } else {
      var init, last := rest[..|rest| - 1], rest[|rest| - 1];
      var m := ReachesLast(mid, rest, t);
      ReachesCons(s, a, mid, init, m);
      ReachesSnoc(s, [a] + init, m, last, t);
      assert [a] + rest == [a] + init + [last];
    }
  }

  lemma NoStepsSame(s: State, t: State)
    requires Reaches(s, [], t)
    ensures s == t
  {
  }

  lemma ReachesLast(s: State, actions: seq<Action>, t: State) returns (m: State)
    requires actions != [] && Reaches(s, actions, t)
    ensures Reaches(s, actions[..|actions| - 1], m) && Do(m, actions[|actions| - 1]) == Some(t)
  {
    m :| Reaches(s, actions[..|actions| - 1], m) && Do(m, actions[|actions| - 1]) == Some(t);
  }

  lemma ReachesSnoc(s: State, init: seq<Action>, m: State, last: Action, t: State)
    requires Reaches(s, init, m) && Do(m, last) == Some(t)
    ensures Reaches(s, init + [last], t)
  {
    var all := init + [last];
    assert all[..|all| - 1] == init && all[|all| - 1] == last;
  }

  /** After `stop_background` has set the flag, letting the threads in flight run on leads to rest: every call
      returns, the background thread exits and the join completes. */
  lemma {:induction false} StopDrains(s: State) returns (actions: seq<Action>, t: State)
    requires Inv(s) && s.stop
    ensures Reaches(s, actions, t) && AtRest(t) && t.stop && |actions| <= Work(s)
    ensures forall k :: 0 <= k < |actions| ==> IsAdvance(actions[k])
    decreases Work(s)
  {
    hide LocksAgree, DataAgrees, ControlAgrees, ThreadOk, Do, Work, Reaches;
    if AtRest(s) {
      NoSteps(s);
      return [], s;
    }
    var a := SomethingMoves(s);
    AdvanceReducesWork(s, a);
    InvStep(s, a);
    var mid := Do(s, a).value;
    var rest;
    rest, t := StopDrains(mid);
    ReachesCons(s, a, mid, rest, t);
    actions := [a] + rest;
  }

  lemma NoSteps(s: State)
    ensures Reaches(s, [], s)
  {
  }

  /** `stop_background` can be called whenever its caller is not already inside it; it sets the flag, and the store
      then comes to rest, whatever was in flight. */
  lemma StopBackgroundReturns(s: State, actions: seq<Action>, t: State) returns (more: seq<Action>, u: State)
    requires Initial(s) && Reaches(s, actions, t) && t.control == Resting
    ensures Do(t, Stop) == Some(t.(stop := true, handle := false, control := if t.handle then Joining else Resting))
    ensures Reaches(Do(t, Stop).value, more, u) && AtRest(u) && u.stop
    ensures forall k :: 0 <= k < |more| ==> IsAdvance(more[k])
  {
    InitialInv(s);
    RunKeeps(s, actions, t);
    InvStep(t, Stop);
    more, u := StopDrains(Do(t, Stop).value);
  }

  // ---------- no restart ----------

  /** The flag is never reset: once `stop_background` has returned, no background thread, not even one spawned
      later, ever starts another compaction. */
  lemma {:induction false} StoppedStaysStopped(s: State, actions: seq<Action>, t: State)
    requires Inv(s) && s.stop && s.control == Resting && Reaches(s, actions, t)
    ensures Inv(t) && t.stop && !t.worker.Folding?
  {
    if actions != [] {
      var init, last := actions[..|actions| - 1], actions[|actions| - 1];
      var mid :| Reaches(s, init, mid) && Do(mid, last) == Some(t);
      StoppedStaysStopped(s, init, mid);
      InvStep(mid, last);
      StopStep(mid, last);
    }
  }

  lemma StopStep(s: State, a: Action)
    requires s.stop && !s.worker.Folding? && Do(s, a).Some?
    ensures Do(s, a).value.stop && !Do(s, a).value.worker.Folding?
  {
  }
}
