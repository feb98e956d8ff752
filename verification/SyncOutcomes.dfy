/** What a `sync_to` call returns, and when it may fail. */
module SyncOutcomes {
  import opened Store
  import opened Commit
  import opened Protocol
  import opened Safety
  import opened SyncSafety
  import opened Truncation
  import opened Discipline
  import opened Liveness

  /** The append at `o` is the lowest of those whose failure is on record. */
  ghost predicate LowestFailure(w: World, o: nat) {
    HasStatus(w, o, Failed) && forall s: nat :: HasStatus(w, s, Failed) ==> o <= s
  }

  /** The append at some offset below `target` has failed, on record. */
  ghost predicate FailedBelow(w: World, target: nat) {
    exists s: nat :: HasStatus(w, s, Failed) && s < target
  }

  /** A pass through the loop in any reachable state, by what has happened to the log: it reports
      the lowest failed append if that lies below its target; it returns Ok if the target is
      durable; it reports a flush that failed earlier; it flushes if everything below its target
      is written and nobody else is flushing, and then all that is written without a gap; only if none of these holds it parks. */
  lemma CheckOutcome(origin: World, labels: seq<Label>, w: World, i: nat, l: Label)
    requires Init(origin) && Runs(origin, labels, w)
    requires (l == Check(i) || l == Resume(i)) && Enabled(w, l)
    ensures var phase, target := Apply(w, l).syncers[i].phase, w.syncers[i].target;
            && (forall o: nat :: phase == Returned(CorruptAt(o)) <==> LowestFailure(w, o) && o < target)
            && (phase == Returned(Synced) <==> target <= w.core.durable)
            && (phase == Returned(FlushError) <==> !FailedBelow(w, target) && w.core.durable < target && w.core.flushFailed)
            && (phase.Flushing? ==> phase == Flushing(w.core.committed, w.dirty))
            && (phase.Flushing? <==> w.core.durable < target <= w.core.committed && !w.core.flushFailed && !SomeLeader(w))
            && (phase.Returned? || phase.Flushing? || phase == Parked)
  {
    hide Tiles, WatermarkOk, Content, Stability, Init, Runs, FailedBelow;
    InitHolds(origin);
    RunKeeps(origin, labels, w);
    PoisonIsLowest(w, w.syncers[i].target);
    MarksInOrder(origin, labels, w);
    assert w.core.syncing <==> SomeLeader(w) by { LeaderHasTheFlag(w); }
  }

  lemma LeaderHasTheFlag(w: World)
    requires Inv(w)
    ensures w.core.syncing <==> SomeLeader(w)
  {
    hide Tiles, Marks, Content, Stability;
    forall i | 0 <= i < |w.syncers| && Leading(w.syncers[i])
      ensures w.core.syncing
    {
      assert SyncerOk(w, w.syncers[i]);
    }
  }

  lemma PoisonIsLowest(w: World, target: nat)
    requires Inv(w)
    ensures forall o: nat :: LowestFailure(w, o) <==> w.core.poison == Some(o)
    ensures FailedBelow(w, target) <==> w.core.poison.Some? && w.core.poison.value < target
  {
    hide Tiles, WatermarkOk, Content, Stability, Syncers;
  }

  // Over whole runs.

  /** An error has a reason: a flush has failed, or the append at the offset it names has, below
      the target. */
  ghost predicate Justified(w: World, y: Syncer) {
    match y.phase
    case Returned(CorruptAt(o)) => HasStatus(w, o, Failed) && o < y.target
    case Returned(FlushError) => !NoFlushFailure(w)
    case _ => true
  }

  ghost predicate AllJustified(w: World) {
    forall i :: 0 <= i < |w.syncers| ==> Justified(w, w.syncers[i])
  }

  /** From `w` to `v` no failure is forgotten. */
  ghost predicate Remembers(w: World, v: World) {
    && (!NoFlushFailure(w) ==> !NoFlushFailure(v))
    && forall s: nat :: HasStatus(w, s, Failed) ==> HasStatus(v, s, Failed)
  }

  lemma StepRemembers(w: World, l: Label)
    requires Inv(w) && Enabled(w, l) && !l.Truncate?
    ensures Remembers(w, Apply(w, l))
  {
    hide Inv, NoFlushFailure, Decide, Insert, Marked, Poisoned, Written, FlushedBytes, Settled, Notify, LoopTop;
    if !NoFlushFailure(w) {
      StepSticks(w, l);
    }
    match l
    case Reserve(_) => TailIsFree(w);
    case Check(i) => LookKeepsRegions(w, i);
    case Resume(i) => LookKeepsRegions(w.(core := w.core.(waiters := w.core.waiters - 1)), i);
    case Settle(i) => SettleKeepsRegions(w, i);
    case _ =>
  }

  lemma TailIsFree(w: World)
    requires Inv(w)
    ensures w.tail !in w.regions
  {
    hide Marks, Content, Stability, Syncers;
  }

  lemma SettleKeepsRegions(w: World, i: nat)
    requires i < |w.syncers| && w.syncers[i].phase.Flushed?
    ensures Settled(w, i).regions == w.regions
  {
  }

  lemma LookKeepsRegions(w: World, i: nat)
    requires i < |w.syncers|
    ensures LoopTop(w, i).regions == w.regions
  {
  }

  /** Every call is as it was, or woken, or the one whose step it is. */
  ghost predicate OthersAsWere(w: World, v: World, i: nat) {
    && |v.syncers| == |w.syncers|
    && forall j :: 0 <= j < |w.syncers| && j != i ==> v.syncers[j] == w.syncers[j] || v.syncers[j] == WakeOne(w.syncers[j])
  }

  lemma StaysJustified(w: World, v: World, i: nat)
    requires AllJustified(w) && Remembers(w, v) && OthersAsWere(w, v, i)
    requires i < |v.syncers| ==> Justified(v, v.syncers[i])
    ensures AllJustified(v)
  {
    hide NoFlushFailure;
    forall j | 0 <= j < |v.syncers|
      ensures Justified(v, v.syncers[j])
    {
      assert j != i ==> Justified(w, w.syncers[j]);
    }
  }

  lemma LookIsJustified(w: World, i: nat)
    requires i < |w.syncers| && (w.core.poison.Some? ==> HasStatus(w, w.core.poison.value, Failed))
    ensures Justified(LoopTop(w, i), LoopTop(w, i).syncers[i])
  {
  }

  lemma SettleIsJustified(w: World, i: nat)
    requires Inv(w) && i < |w.syncers| && w.syncers[i].phase.Flushed?
    ensures Justified(Settled(w, i), Settled(w, i).syncers[i]) && OthersAsWere(w, Settled(w, i), i)
  {
    hide Tiles, Marks, Content, Stability, Syncers, Decide;
    if w.syncers[i].phase.ok {
      SettledOk(w, i);
    }
  }

  lemma StepJustified(w: World, l: Label)
    requires Inv(w) && Enabled(w, l) && AllJustified(w)
    ensures AllJustified(Apply(w, l))
  {
    hide Inv, NoFlushFailure, Remembers, AllJustified, Decide, Marked, Poisoned, Written, FlushedBytes, Settled;
    var v := Apply(w, l);
    if !l.Truncate? {
      StepRemembers(w, l);
    }
    match l
    case Truncate(_) => NobodyThere(v);
    case StartSync(target) => StartJustified(w, target);
    case Check(i) =>
      PoisonIsFailed(w);
      LookIsJustified(w, i);
      StaysJustified(w, v, i);
    case Resume(i) =>
      var u := w.(core := w.core.(waiters := w.core.waiters - 1));
      PoisonIsFailed(w);
      LookIsJustified(u, i);
      StaysJustified(w, v, i);
    case FlushOk(i, _) => StaysJustified(w, v, i);
    case FlushErr(i, _, _) => StaysJustified(w, v, i);
    case Spurious(i) => StaysJustified(w, v, i);
    case Settle(i) =>
      SettleIsJustified(w, i);
      StaysJustified(w, v, i);
    case _ => StaysJustified(w, v, |v.syncers|);
  }

  lemma PoisonIsFailed(w: World)
    requires Inv(w)
    ensures w.core.poison.Some? ==> HasStatus(w, w.core.poison.value, Failed)
  {
    hide Tiles, Content, Stability, Syncers, WatermarkOk;
  }

  lemma NobodyThere(w: World)
    requires w.syncers == []
    ensures AllJustified(w)
  {
  }

  lemma StartJustified(w: World, target: nat)
    requires AllJustified(w) && Remembers(w, w.(syncers := w.syncers + [Syncer(target, Checking, 0)]))
    ensures AllJustified(w.(syncers := w.syncers + [Syncer(target, Checking, 0)]))
  {
    hide NoFlushFailure;
    var v := w.(syncers := w.syncers + [Syncer(target, Checking, 0)]);
    forall i | 0 <= i < |v.syncers|
      ensures Justified(v, v.syncers[i])
    {
      assert i < |w.syncers| ==> Justified(w, w.syncers[i]);
    }
  }

  lemma {:induction false} RunJustified(w: World, labels: seq<Label>, v: World)
    requires Inv(w) && AllJustified(w) && Runs(w, labels, v)
    ensures AllJustified(v)
    decreases |labels|
  {
    hide Inv, AllJustified, Enabled, Apply;
    if labels != [] {
      StepKeeps(w, labels[0]);
      StepJustified(w, labels[0]);
      RunJustified(Apply(w, labels[0]), labels[1..], v);
    }
  }

  /** No sync fails without cause: over every run, a sync that returned a corruption error names a
      failed append below its target, and one returned an I/O error only if a flush has failed. */
  lemma ErrorsHaveCauses(origin: World, labels: seq<Label>, w: World, i: nat)
    requires Init(origin) && Runs(origin, labels, w) && i < |w.syncers|
    ensures forall o: nat :: w.syncers[i].phase == Returned(CorruptAt(o)) ==> HasStatus(w, o, Failed) && o < w.syncers[i].target
    ensures w.syncers[i].phase == Returned(FlushError) ==> !NoFlushFailure(w)
  {
    hide Init, Runs, NoFlushFailure;
    OneJustified(origin, labels, w, i);
  }

  lemma OneJustified(origin: World, labels: seq<Label>, w: World, i: nat)
    requires Init(origin) && Runs(origin, labels, w) && i < |w.syncers|
    ensures Justified(w, w.syncers[i])
  {
    hide Inv, Runs, Justified, Tiles, Content, AllStable;
    InitHolds(origin);
    NobodyThere(origin);
    RunJustified(origin, labels, w);
  }

  // Runs without failures.

  ghost predicate NoFaults(labels: seq<Label>) {
    forall i :: 0 <= i < |labels| ==> !IsFault(labels[i])
  }

  /** No append and no flush has failed. */
  ghost predicate Faultless(w: World) {
    NoFlushFailure(w) && forall s :: s in w.regions ==> w.regions[s].status != Broken && w.regions[s].status != Failed
  }

  lemma StepFaultless(w: World, l: Label)
    requires Inv(w) && Enabled(w, l) && Faultless(w) && !IsFault(l)
    ensures Faultless(Apply(w, l))
  {
    hide Inv, Insert, Written, FlushedBytes, Settled, LoopTop, Quiesced, Truncated;
    match l
    case Check(i) => LookFaultless(w, i);
    case Resume(i) => LookFaultless(w.(core := w.core.(waiters := w.core.waiters - 1)), i);
    case Settle(i) => SettleFaultless(w, i);
    case Truncate(s) => TruncateFaultless(w, s);
    case _ =>
  }

  lemma TruncateFaultless(w: World, s: nat)
    requires s in w.regions && Faultless(w)
    ensures Faultless(Truncated(w, s))
  {
  }

  lemma LookFaultless(w: World, i: nat)
    requires i < |w.syncers| && Faultless(w)
    ensures Faultless(LoopTop(w, i))
  {
    hide Decide;
  }

  lemma SettleFaultless(w: World, i: nat)
    requires Inv(w) && i < |w.syncers| && w.syncers[i].phase.Flushed? && Faultless(w)
    ensures Faultless(Settled(w, i))
  {
    hide Tiles, Marks, Content, Stability, Decide;
    SettledOk(w, i);
  }

  lemma {:induction false} RunFaultless(w: World, labels: seq<Label>, v: World)
    requires Inv(w) && Faultless(w) && Runs(w, labels, v) && NoFaults(labels)
    ensures Faultless(v)
    decreases |labels|
  {
    hide Inv, Faultless, Enabled, Apply, IsFault;
    if labels != [] {
      assert !IsFault(labels[0]) && NoFaults(labels[1..]);
      StepKeeps(w, labels[0]);
      StepFaultless(w, labels[0]);
      RunFaultless(Apply(w, labels[0]), labels[1..], v);
    }
  }

  /** As long as no store call fails, every sync that has returned has returned Ok. */
  lemma NoFaultNoError(origin: World, labels: seq<Label>, w: World, i: nat)
    requires Init(origin) && Runs(origin, labels, w) && NoFaults(labels)
    requires i < |w.syncers| && w.syncers[i].phase.Returned?
    ensures w.syncers[i].phase == Returned(Synced)
  {
    hide Inv, Runs, Tiles, Content, AllStable, NoFaults;
    InitHolds(origin);
    RunFaultless(origin, labels, w);
    OneJustified(origin, labels, w, i);
  }

  /** And a run that cannot go on without a failure has returned Ok from every sync, recorded
      every append, and moved the watermark to the tail. */
  lemma AllCallsSucceed(origin: World, labels: seq<Label>, w: World)
    requires Init(origin) && Runs(origin, labels, w) && NoFaults(labels)
    requires forall l :: IsProgress(l) && !IsFault(l) ==> !Enabled(w, l)
    ensures forall i :: 0 <= i < |w.syncers| ==> w.syncers[i].phase == Returned(Synced)
    ensures forall s :: s in w.regions ==> w.regions[s].status == Done
    ensures w.core.committed == w.tail
  {
    hide Inv, Runs, Init, NoFaults, Enabled, IsProgress, IsFault;
    InitHolds(origin);
    RunKeeps(origin, labels, w);
    RunFaultless(origin, labels, w) by { OpenedFaultless(origin); }
    assert Quiesced(w) by {
      if !Quiesced(w) {
        var l := SomeThreadMoves(w);
      }
    }
    forall i | 0 <= i < |w.syncers|
      ensures w.syncers[i].phase == Returned(Synced)
    {
      NoFaultNoError(origin, labels, w, i);
    }
    forall s | s in w.regions
      ensures w.regions[s].status == Done
    {
      assert !w.InFlight(s);
    }
    AllDoneIsCommitted(w);
  }

  lemma OpenedFaultless(w: World)
    requires Init(w)
    ensures Faultless(w)
  {
    hide Tiles, Content, AllStable;
  }

  lemma AllDoneIsCommitted(w: World)
    requires Inv(w) && forall s :: s in w.regions ==> w.regions[s].status == Done
    ensures w.core.committed == w.tail
  {
    hide Tiles, WatermarkOk, Content, Stability, Syncers;
    WatermarkFacts(w);
  }
}
