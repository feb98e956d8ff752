/** What the flush leader and a failed flush mean over whole runs. */
module Discipline {
  import opened Store
  import opened Commit
  import opened Protocol
  import opened Safety
  import opened SyncSafety
  import opened Truncation

  /** Over every run: at most one thread is inside the flush, every `sync_to` call flushes at
      most once, and a leader whose flush succeeded returns Ok when it settles, even if a
      write failed and poisoned the log meanwhile. */
  lemma LeaderDiscipline(origin: World, labels: seq<Label>, w: World)
    requires Init(origin) && Runs(origin, labels, w)
    ensures forall i, j ::
              0 <= i < |w.syncers| && 0 <= j < |w.syncers| && Leading(w.syncers[i]) && Leading(w.syncers[j]) ==> i == j
    ensures forall i :: 0 <= i < |w.syncers| ==> w.syncers[i].flushes <= 1
    ensures forall i: nat :: i < |w.syncers| && w.syncers[i].phase.Flushed? && w.syncers[i].phase.ok ==>
              Settled(w, i).syncers[i].phase == Returned(Synced)
  {
    hide Tiles, Marks, Content, Stability, Init, Runs, Decide, Settled, FlushEnded;
    InitHolds(origin);
    RunKeeps(origin, labels, w);
    forall i | 0 <= i < |w.syncers|
      ensures w.syncers[i].flushes <= 1
    {
      assert SyncerOk(w, w.syncers[i]);
    }
    forall i: nat | i < |w.syncers| && w.syncers[i].phase.Flushed? && w.syncers[i].phase.ok
      ensures Settled(w, i).syncers[i].phase == Returned(Synced)
    {
      SettledOk(w, i);
    }
  }

  /** Nothing durable lies at or past a recorded failure. */
  lemma MarksInOrder(origin: World, labels: seq<Label>, w: World)
    requires Init(origin) && Runs(origin, labels, w)
    ensures w.head <= w.core.durable <= w.core.committed <= w.tail
    ensures w.core.poison.Some? ==> w.core.committed <= w.core.poison.value
  {
    hide Tiles, WatermarkOk, Content, Stability, Syncers, Init, Runs;
    InitHolds(origin);
    RunKeeps(origin, labels, w);
    WatermarkFacts(w);
    if w.core.poison.Some? {
      CommittedStopsAtPoison(w);
    }
  }

  // A failed flush.

  /** From `w` to `v` the failure is still on record and the durable mark has not risen. */
  ghost predicate Stuck(w: World, v: World) {
    !NoFlushFailure(v) && v.core.durable <= w.core.durable
  }

  /** A step that wakes or adds threads, or changes none of them, forgets no failure. */
  lemma WakingSticks(w: World, v: World)
    requires !NoFlushFailure(w)
    requires v.core.flushFailed == w.core.flushFailed && v.core.durable == w.core.durable
    requires |w.syncers| <= |v.syncers|
    requires forall i :: 0 <= i < |w.syncers| ==> v.syncers[i] == WakeOne(w.syncers[i]) || v.syncers[i] == w.syncers[i]
    ensures Stuck(w, v)
  {
  }

  /** A step of a thread that is not the failed leader forgets no failure. */
  lemma OtherThreadSticks(w: World, v: World, i: nat)
    requires !NoFlushFailure(w) && i < |w.syncers| && !w.syncers[i].phase.Flushed?
    requires v.core.flushFailed == w.core.flushFailed && v.core.durable == w.core.durable
    requires |v.syncers| == |w.syncers| && forall j :: 0 <= j < |w.syncers| && j != i ==> v.syncers[j] == w.syncers[j]
    ensures Stuck(w, v)
  {
  }

  /** After a failure only the failed leader can settle. */
  lemma SettleSticks(w: World, i: nat)
    requires Inv(w) && !NoFlushFailure(w) && i < |w.syncers| && w.syncers[i].phase.Flushed?
    ensures Stuck(w, Settled(w, i))
  {
  }

  lemma TruncateSticks(w: World, s: nat)
    requires !NoFlushFailure(w) && Enabled(w, Truncate(s))
    ensures Stuck(w, Truncated(w, s))
  {
  }

  lemma StepSticks(w: World, l: Label)
    requires Inv(w) && !NoFlushFailure(w) && Enabled(w, l)
    ensures Stuck(w, Apply(w, l))
  {
    hide Tiles, Marks, Content, Stability, Syncers, NoFlushFailure;
    hide Decide, Insert, Settled, Truncated, Written, FlushedBytes, Quiesced;
    match l
    case Settle(i) => SettleSticks(w, i);
    case Truncate(s) => TruncateSticks(w, s);
    case Check(i) => OtherThreadSticks(w, Apply(w, l), i);
    case Resume(i) => OtherThreadSticks(w, Apply(w, l), i);
    case Spurious(i) => OtherThreadSticks(w, Apply(w, l), i);
    case FlushOk(i, _) => OtherThreadSticks(w, Apply(w, l), i);
    case FlushErr(i, _, _) => OtherThreadSticks(w, Apply(w, l), i);
    case _ => WakingSticks(w, Apply(w, l));
  }

  /** A sync that returned Ok covers only positions that are on stable storage. */
  lemma SyncedIsStable(w: World, i: nat)
    requires Inv(w) && i < |w.syncers| && w.syncers[i].phase == Returned(Synced)
    ensures w.syncers[i].target <= w.core.durable && AllStable(w, w.syncers[i].target)
  {
  }

  /** Sticky flush failure: once a flush has failed, recorded or not, `durable` never rises
      again in any run, truncations included, and every sync that returned Ok covers only
      bytes that are on stable storage. */
  lemma {:induction false} FlushFailureSticks(w: World, labels: seq<Label>, v: World)
    requires Inv(w) && !NoFlushFailure(w) && Runs(w, labels, v)
    ensures Stuck(w, v)
    ensures forall i :: 0 <= i < |v.syncers| && v.syncers[i].phase == Returned(Synced) ==>
              v.syncers[i].target <= w.core.durable && AllStable(v, v.syncers[i].target)
    decreases |labels|
  {
    hide Inv, NoFlushFailure, Enabled, Apply, AllStable;
    if labels == [] {
      forall i | 0 <= i < |v.syncers| && v.syncers[i].phase == Returned(Synced)
        ensures v.syncers[i].target <= w.core.durable && AllStable(v, v.syncers[i].target)
      {
        SyncedIsStable(v, i);
      }
    } else {
      StepKeeps(w, labels[0]);
      StepSticks(w, labels[0]);
      FlushFailureSticks(Apply(w, labels[0]), labels[1..], v);
    }
  }
}
