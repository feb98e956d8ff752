/** No lost wakeup, no deadlock, and termination: with no new calls, every append finishes and
    every `sync_to` returns, although appenders skip the notify when nobody waits. */
module Liveness {
  import opened Store
  import opened Commit
  import opened Protocol
  import opened Safety
  import opened SyncSafety
  import opened Truncation

  /** A step of a call already under way that does not wait for anything. Spurious wakeups,
      background writeback and new calls are left out. */
  predicate IsProgress(l: Label) {
    l.WriteOk? || l.WriteFail? || l.MarkWritten? || l.MarkFailed?
    || l.Check? || l.FlushOk? || l.FlushErr? || l.Settle? || l.Resume?
  }

  /** A store call that fails. */
  predicate IsFault(l: Label) {
    l.WriteFail? || l.FlushErr?
  }

  ghost predicate SomeLeader(w: World) {
    exists i :: 0 <= i < |w.syncers| && Leading(w.syncers[i])
  }

  /** No lost wakeup: in every reachable state a parked thread still has to wait, the waiter
      count is the number of threads parked or not yet resumed, and what it waits for is under
      way: a leader is in the flush, or the append at the watermark, below its target, is
      still running. */
  lemma NoLostWakeup(origin: World, labels: seq<Label>, w: World, i: nat)
    requires Init(origin) && Runs(origin, labels, w)
    requires i < |w.syncers| && w.syncers[i].phase == Parked
    ensures Decide(w.core, w.syncers[i].target) == Wait
    ensures w.core.waiters == CountWaiting(w.syncers) > 0
    ensures SomeLeader(w) || (w.core.committed < w.syncers[i].target && w.InFlight(w.core.committed))
  {
    hide Inv, Init, Runs, Decide;
    InitHolds(origin);
    RunKeeps(origin, labels, w);
    ParkedIsServed(w, i);
  }

  lemma ParkedIsServed(w: World, i: nat)
    requires Inv(w) && i < |w.syncers| && w.syncers[i].phase == Parked
    ensures Decide(w.core, w.syncers[i].target) == Wait
    ensures w.core.waiters == CountWaiting(w.syncers) > 0
    ensures SomeLeader(w) || (w.core.committed < w.syncers[i].target && w.InFlight(w.core.committed))
  {
    hide Tiles, WatermarkOk, Content, Stability;
    assert SyncerOk(w, w.syncers[i]);
    CountBoundsOne(w.syncers, i);
    if !w.core.syncing {
      WatermarkFacts(w);
      var c := w.core.committed;
      assert w.Boundary(c) && c in w.regions;
      assert HasStatus(w, c, Failed) ==> w.core.poison.Some?;
    }
  }

  /** The next step of an append still running. */
  function AppendStep(w: World, s: nat): Label
    requires w.InFlight(s)
  {
    match w.regions[s].status
    case Reserved => WriteOk(s)
    case Stored => MarkWritten(s)
    case _ => MarkFailed(s)
  }

  /** The next step of a `sync_to` call that is not parked. */
  function SyncStep(w: World, i: nat): Label
    requires i < |w.syncers|
  {
    match w.syncers[i].phase
    case Checking => Check(i)
    case Flushing(_, _) => FlushOk(i, w.dirty)
    case Flushed(_, _) => Settle(i)
    case _ => Resume(i)
  }

  lemma SyncStepEnabled(w: World, i: nat)
    requires Inv(w) && i < |w.syncers| && !w.syncers[i].phase.Returned? && w.syncers[i].phase != Parked
    ensures IsProgress(SyncStep(w, i)) && !IsFault(SyncStep(w, i)) && Enabled(w, SyncStep(w, i))
  {
    hide Tiles, Marks, Content, Stability;
    if w.syncers[i].phase == Signalled {
      CountBoundsOne(w.syncers, i);
    }
  }

  lemma AppendStepEnabled(w: World, s: nat)
    requires w.InFlight(s)
    ensures IsProgress(AppendStep(w, s)) && !IsFault(AppendStep(w, s)) && Enabled(w, AppendStep(w, s))
  {
  }

  /** No deadlock: while an append or a sync is unfinished, some thread can move, and it need
      not be by a failure. */
  lemma SomeThreadMoves(w: World) returns (l: Label)
    requires Inv(w) && !Quiesced(w)
    ensures IsProgress(l) && !IsFault(l) && Enabled(w, l)
  {
    hide Inv, Enabled;
    if s :| s in w.regions && w.InFlight(s) {
      AppendStepEnabled(w, s);
      l := AppendStep(w, s);
    } else {
      var i :| 0 <= i < |w.syncers| && !w.syncers[i].phase.Returned?;
      if w.syncers[i].phase == Parked {
        ParkedIsServed(w, i);
        i :| 0 <= i < |w.syncers| && Leading(w.syncers[i]);
      }
      SyncStepEnabled(w, i);
      l := SyncStep(w, i);
    }
  }

  // Termination.

  /** The sum of `f` over the sync calls. */
  function Total(f: Syncer -> nat, ys: seq<Syncer>): nat {
    if ys == [] then 0 else Total(f, ys[..|ys| - 1]) + f(ys[|ys| - 1])
  }

  lemma {:induction false} TotalAfterUpdate(f: Syncer -> nat, ys: seq<Syncer>, i: nat, y: Syncer)
    requires i < |ys|
    ensures Total(f, ys[i := y]) == Total(f, ys) - f(ys[i]) + f(y)
  {
    var n := |ys| - 1;
    if i == n {
      assert ys[i := y][..n] == ys[..n];
    } else {
      assert ys[i := y][..n] == ys[..n][i := y];
      TotalAfterUpdate(f, ys[..n], i, y);
    }
  }

  lemma {:induction false} TotalPointwise(f: Syncer -> nat, ys: seq<Syncer>, zs: seq<Syncer>)
    requires |ys| == |zs| && forall i :: 0 <= i < |ys| ==> f(ys[i]) == f(zs[i])
    ensures Total(f, ys) == Total(f, zs)
  {
    if ys != [] {
      TotalPointwise(f, ys[..|ys| - 1], zs[..|ys| - 1]);
    }
  }

  lemma {:induction false} TotalIsBounded(f: Syncer -> nat, ys: seq<Syncer>)
    requires forall y :: f(y) <= 1
    ensures Total(f, ys) <= |ys|
  {
    if ys != [] {
      TotalIsBounded(f, ys[..|ys| - 1]);
    }
  }

  /** How far a call is from returning, counting only steps it cannot repeat. */
  function Distance(y: Syncer): nat {
    match y.phase
    case Returned(_) => 0
    case Flushed(_, _) => 1
    case Flushing(_, _) => 2
    case _ => 3
  }

  /** Whether the call is about to look at the state. */
  function Awake(y: Syncer): nat {
    if y.phase == Checking || y.phase == Signalled then 1 else 0
  }

  /** The regions whose append is still running, and those still being written. */
  function Unfinished(w: World): set<nat> {
    set s | s in w.regions && w.InFlight(s)
  }

  function Unwritten(w: World): set<nat> {
    set s | s in w.regions && w.regions[s].status == Reserved
  }

  /** The steps left that can wake somebody. */
  function Major(w: World): nat {
    |Unfinished(w)| + |Unwritten(w)| + Total(Distance, w.syncers)
  }

  /** An upper bound on the number of steps left. */
  function Measure(w: World): nat {
    Major(w) * (|w.syncers| + 1) + Total(Awake, w.syncers)
  }

  /** A step that lowers `Major` may wake everybody. */
  lemma MajorStep(w: World, v: World)
    requires |v.syncers| == |w.syncers| && Major(v) < Major(w)
    ensures Measure(v) < Measure(w)
  {
    hide Major, Total;
    TotalIsBounded(Awake, v.syncers);
    var n := |w.syncers| + 1;
    calc {
      Measure(v);
      <= Major(v) * n + n - 1;
      <  (Major(v) + 1) * n;
      <= { Grows(Major(v) + 1, Major(w), n); }
         Major(w) * n;
    }
  }

  lemma Grows(a: nat, b: nat, n: nat)
    requires a <= b
    ensures a * n <= b * n
  {
  }

  lemma MinorStep(w: World, v: World)
    requires |v.syncers| == |w.syncers| && Major(v) == Major(w)
    requires Total(Awake, v.syncers) < Total(Awake, w.syncers)
    ensures Measure(v) < Measure(w)
  {
  }

  /** A step of the append at `s`. */
  lemma AppendAdvances(w: World, v: World, s: nat, status: Status)
    requires w.InFlight(s) && v.regions == SetStatus(w.regions, s, status)
    requires (w.regions[s].status == Reserved && status != Reserved) || (w.regions[s].status != Reserved && (status == Done || status == Failed))
    requires v.syncers == w.syncers || v.syncers == Notify(w.syncers)
    ensures Measure(v) < Measure(w)
  {
    hide Total, Measure, Unwritten, Unfinished;
    TotalPointwise(Distance, w.syncers, v.syncers);
    AppendIsFurther(w, v, s, status);
    MajorStep(w, v);
  }

  lemma AppendIsFurther(w: World, v: World, s: nat, status: Status)
    requires w.InFlight(s) && v.regions == SetStatus(w.regions, s, status)
    requires (w.regions[s].status == Reserved && status != Reserved) || (w.regions[s].status != Reserved && (status == Done || status == Failed))
    ensures |Unfinished(v)| + |Unwritten(v)| < |Unfinished(w)| + |Unwritten(w)|
  {
    if w.regions[s].status == Reserved {
      assert Unwritten(v) == Unwritten(w) - {s};
      Subset(Unfinished(v), Unfinished(w));
    } else {
      assert Unwritten(v) == Unwritten(w);
      assert Unfinished(v) == Unfinished(w) - {s};
    }
  }

  lemma Subset(a: set<nat>, b: set<nat>)
    requires a <= b
    ensures |a| <= |b|
  {
    assert b == a + (b - a);
  }

  /** A step of the sync call `i` that leaves the regions alone. */
  lemma SyncAdvances(w: World, v: World, i: nat, y: Syncer)
    requires i < |w.syncers| && v.regions == w.regions
    requires v.syncers == w.syncers[i := y] || v.syncers == Notify(w.syncers)[i := y]
    requires Distance(y) < Distance(w.syncers[i])
    ensures Measure(v) < Measure(w)
  {
    hide Total, Measure, Distance;
    SameRegions(w, v);
    TotalAfterUpdate(Distance, w.syncers, i, y);
    NotifyKeepsDistance(w.syncers);
    TotalAfterUpdate(Distance, Notify(w.syncers), i, y);
    MajorStep(w, v);
  }

  lemma SameRegions(w: World, v: World)
    requires v.regions == w.regions
    ensures Unfinished(v) == Unfinished(w) && Unwritten(v) == Unwritten(w)
  {
  }

  lemma NotifyKeepsDistance(ys: seq<Syncer>)
    ensures Total(Distance, Notify(ys)) == Total(Distance, ys)
    ensures forall i :: 0 <= i < |ys| ==> Distance(Notify(ys)[i]) == Distance(ys[i])
  {
    hide Total;
    TotalPointwise(Distance, ys, Notify(ys));
  }

  /** A call that looks at the state gets closer to returning, or parks. */
  lemma LookAdvances(w: World, v: World, i: nat)
    requires i < |w.syncers| && Awake(w.syncers[i]) == 1 && v.syncers == w.syncers && v.regions == w.regions
    ensures Measure(LoopTop(v, i)) < Measure(w)
  {
    hide Decide, Total, Measure, Enter;
    var u := LoopTop(v, i);
    var y := u.syncers[i];
    if y.phase == Parked {
      TotalAfterUpdate(Distance, w.syncers, i, y);
      TotalAfterUpdate(Awake, w.syncers, i, y);
      SameRegions(w, u);
      MinorStep(w, u);
    } else {
      SyncAdvances(w, u, i, y);
    }
  }

  lemma SettleAdvances(w: World, i: nat)
    requires Inv(w) && i < |w.syncers| && w.syncers[i].phase.Flushed?
    ensures Measure(Settled(w, i)) < Measure(w)
  {
    hide Inv, Decide, FlushEnded, Measure, LoopTop;
    if w.syncers[i].phase.ok {
      SettledOk(w, i);
      SyncAdvances(w, Settled(w, i), i, w.syncers[i].(phase := Returned(Synced)));
    } else {
      SyncAdvances(w, Settled(w, i), i, w.syncers[i].(phase := Returned(FlushError)));
    }
  }

  lemma StepAdvances(w: World, l: Label)
    requires Inv(w) && Enabled(w, l) && IsProgress(l)
    ensures Measure(Apply(w, l)) < Measure(w)
  {
    hide Inv, Measure, Settled, LoopTop, Marked, Poisoned, Written, TornBy, FlushedBytes;
    match l
    case WriteOk(s) => AppendAdvances(w, AfterWrite(w, s), s, Stored);
    case WriteFail(s, after) => AppendAdvances(w, AfterTear(w, s, after), s, Broken);
    case MarkWritten(s) => AppendAdvances(w, AfterMark(w, s), s, Done);
    case MarkFailed(s) => AppendAdvances(w, AfterPoison(w, s), s, Failed);
    case Check(i) => LookAdvances(w, w, i);
    case Resume(i) => LookAdvances(w, w.(core := w.core.(waiters := w.core.waiters - 1)), i);
    case FlushOk(i, _) => SyncAdvances(w, Apply(w, l), i, Apply(w, l).syncers[i]);
    case FlushErr(i, _, _) => SyncAdvances(w, Apply(w, l), i, Apply(w, l).syncers[i]);
    case Settle(i) => SettleAdvances(w, i);
    case _ =>
  }

  ghost predicate AllProgress(labels: seq<Label>) {
    forall i :: 0 <= i < |labels| ==> IsProgress(labels[i])
  }

  /** Termination: with no new calls and no spurious wakeups, every run is bounded, and a run
      that cannot be extended has finished every append and returned from every sync. */
  lemma {:induction false} RunsAreBounded(w: World, labels: seq<Label>, v: World)
    requires Inv(w) && Runs(w, labels, v) && AllProgress(labels)
    ensures |labels| + Measure(v) <= Measure(w)
    ensures Quiesced(v) || exists l :: IsProgress(l) && Enabled(v, l)
    decreases |labels|
  {
    hide Inv, Enabled, Apply, Measure, Quiesced, IsProgress;
    if labels == [] {
      if !Quiesced(v) {
        var l := SomeThreadMoves(v);
      }
    } else {
      assert IsProgress(labels[0]);
      StepAdvances(w, labels[0]);
      StepKeeps(w, labels[0]);
      assert AllProgress(labels[1..]);
      RunsAreBounded(Apply(w, labels[0]), labels[1..], v);
    }
  }

  /** From every state that keeps the invariant, some run finishes all calls. */
  lemma {:induction false} CallsCanFinish(w: World) returns (labels: seq<Label>, v: World)
    requires Inv(w)
    ensures Runs(w, labels, v) && AllProgress(labels) && Quiesced(v)
    decreases Measure(w)
  {
    hide Inv, Enabled, Apply, Measure, Quiesced, IsProgress;
    if Quiesced(w) {
      labels, v := [], w;
    } else {
      var l := SomeThreadMoves(w);
      StepAdvances(w, l);
      StepKeeps(w, l);
      var rest;
      rest, v := CallsCanFinish(Apply(w, l));
      labels := [l] + rest;
      assert labels[1..] == rest;
    }
  }
}
