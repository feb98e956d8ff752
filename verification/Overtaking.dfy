/** The converse of the guard on writes: once a write starts below the window of the segmented
    store, the log can go on so that a sync returns Ok for a byte that is not on stable storage.
    Writes that overtake each other make this happen. */
module Overtaking {
  import opened Crc32c
  import opened Record
  import opened Store
  import opened Commit
  import opened Segments
  import opened Protocol
  import opened Safety
  import opened SyncSafety
  import opened Truncation
  import opened Durability
  import opened SyncRun
  import opened SegmentedLog
  import S = SegmentedStore
  import FT = FailedTruncation
  import opened Division

  lemma {:induction false} SegRunsOn(
    j: Joint, size: nat, careful: bool, first: seq<Step>, k: Joint, second: seq<Step>, last: Joint)
    requires size > 0 && SegRuns(j, size, careful, first, k) && SegRuns(k, size, careful, second, last)
    ensures SegRuns(j, size, careful, first + second, last)
    decreases |first|
  {
    hide SegEnabled, SegApply, Guarded;
    if first == [] {
      assert first + second == second;
    } else {
      SegRunsOn(SegApply(j, size, first[0]), size, careful, first[1..], k, second, last);
      assert (first + second)[1..] == first[1..] + second;
    }
  }

  lemma OneStep(j: Joint, size: nat, careful: bool, t: Step, k: Joint)
    requires size > 0 && SegEnabled(j, size, t) && (careful ==> Guarded(j, size, t)) && SegApply(j, size, t) == k
    ensures SegRuns(j, size, careful, [t], k)
  {
    hide SegEnabled, SegApply, Guarded;
    assert [t][1..] == [];
    assert SegRuns(k, size, careful, [], k);
  }

  /** No step of it is a truncation. */
  ghost predicate NoCut(steps: seq<Step>) {
    forall i :: 0 <= i < |steps| ==> !steps[i].move.Truncate?
  }

  // A sync over the segments.

  /** The steps of a sync that has to flush. */
  function SyncSteps(j: Joint, size: nat, target: nat): seq<Step>
    requires size > 0
  {
    var n := |j.w.syncers|;
    [Plain(StartSync(target)), Plain(Check(n))] + [Plain(FlushOk(n, Reaches(j, size))), Plain(Settle(n))]
  }

  function AfterSegSync(j: Joint, size: nat, target: nat): Joint
    requires size > 0
  {
    Joint(AfterSyncRun(j.w, target, Reaches(j, size)), S.AfterSync(j.seg, size))
  }

  lemma SegSync(j: Joint, size: nat, careful: bool, target: nat)
    requires size > 0 && MustFlush(j.w, target)
    ensures SegRuns(j, size, careful, SyncSteps(j, size, target), AfterSegSync(j, size, target))
  {
    hide MustFlush, AfterSyncRun, Returning, Apply, Enabled, SegRuns, SetPhase, AfterFlush, S.AfterSync, S.Window;
    var n, reached := |j.w.syncers|, Reaches(j, size);
    var j1, j2 := Joint(Started(j.w, target), j.seg), Joint(Elected(j.w, target), j.seg);
    var j3 := Joint(Returning(j.w, target, reached), S.AfterSync(j.seg, size));
    Electing(j.w, target);
    Flushing1(j.w, target, reached);
    Settling(j.w, target, reached);
    assert Reaches(j2, size) == reached;
    OneStep(j, size, careful, Plain(StartSync(target)), j1);
    OneStep(j1, size, careful, Plain(Check(n)), j2);
    OneStep(j2, size, careful, Plain(FlushOk(n, reached)), j3);
    OneStep(j3, size, careful, Plain(Settle(n)), AfterSegSync(j, size, target));
    SegRunsOn(j, size, careful, [Plain(StartSync(target))], j1, [Plain(Check(n))], j2);
    SegRunsOn(j2, size, careful, [Plain(FlushOk(n, reached))], j3, [Plain(Settle(n))], AfterSegSync(j, size, target));
    assert [Plain(StartSync(target))] + [Plain(Check(n))] == [Plain(StartSync(target)), Plain(Check(n))];
    assert [Plain(FlushOk(n, reached))] + [Plain(Settle(n))] == [Plain(FlushOk(n, reached)), Plain(Settle(n))];
    SegRunsOn(j, size, careful, [Plain(StartSync(target)), Plain(Check(n))], j2,
              [Plain(FlushOk(n, reached)), Plain(Settle(n))], AfterSegSync(j, size, target));
  }

  // Finishing what is under way.

  /** The byte at `s` is written but not flushed, in a segment that no later flush covers. */
  ghost predicate Overlooked(j: Joint, size: nat, s: nat)
    requires size > 0
  {
    && s in j.w.dirty && s !in j.w.stable
    && s / size < j.seg.syncedFrom && j.seg.syncedFrom * size < j.seg.len
  }

  /** Nothing stands in the way of the watermark passing the record at `s`. */
  ghost predicate Clear(w: World, s: nat) {
    && NoFlushFailure(w) && s in w.regions && w.core.durable <= s
    && (forall t :: t in w.regions && t <= s ==> w.regions[t].status in {Reserved, Stored, Done})
    && (forall i :: 0 <= i < |w.syncers| && Leading(w.syncers[i]) ==> w.syncers[i].phase.flushTo <= s)
  }

  /** The appends up to `s` that are still to be written, and still to be recorded. */
  function Unwritten(w: World, s: nat): set<nat> {
    set t | t in w.regions && t <= s && w.regions[t].status == Reserved
  }

  function Unrecorded(w: World, s: nat): set<nat> {
    set t | t in w.regions && t <= s && w.regions[t].status != Done
  }

  lemma WriteStaysClear(w: World, s: nat, t: nat)
    requires Clear(w, s) && HasStatus(w, t, Reserved) && t <= s
    ensures var v := AfterWrite(w, t);
            && Clear(v, s) && v.EndOf(s) == w.EndOf(s)
            && |Unwritten(v, s)| < |Unwritten(w, s)| && Unrecorded(v, s) == Unrecorded(w, s)
  {
    hide Frame, Written;
    assert Unwritten(AfterWrite(w, t), s) == Unwritten(w, s) - {t};
  }

  lemma MarkStaysClear(w: World, s: nat, t: nat)
    requires Clear(w, s) && HasStatus(w, t, Stored) && t <= s
    ensures var v := AfterMark(w, t);
            && Clear(v, s) && v.EndOf(s) == w.EndOf(s)
            && Unwritten(v, s) == Unwritten(w, s) && |Unrecorded(v, s)| < |Unrecorded(w, s)|
  {
    hide Marked;
    MarkedRest(w.core, t, w.EndOf(t));
    assert Unrecorded(AfterMark(w, t), s) == Unrecorded(w, s) - {t};
  }

  /** One append at or below `s` makes a step. */
  lemma FinishOne(j: Joint, size: nat, s: nat, t: nat) returns (step: Step, k: Joint)
    requires size > 0 && Inv(j.w) && Clear(j.w, s) && Overlooked(j, size, s) && t in Unrecorded(j.w, s)
    ensures SegRuns(j, size, false, [step], k) && !step.move.Truncate?
    ensures Inv(k.w) && Clear(k.w, s) && Overlooked(k, size, s)
    ensures |Unwritten(k.w, s)| + |Unrecorded(k.w, s)| < |Unwritten(j.w, s)| + |Unrecorded(j.w, s)|
  {
    hide Inv, Clear, Frame, Written, Marked, WriteAll, S.Touched, Unwritten, SegRuns;
    StatusOf(j.w, s, t);
    if j.w.regions[t].status == Reserved {
      step := Plain(WriteOk(t));
      k := SegApply(j, size, step);
      WriteKeeps(j.w, t);
      WriteStaysClear(j.w, s, t);
    } else {
      step := Plain(MarkWritten(t));
      k := SegApply(j, size, step);
      MarkKeeps(j.w, t);
      MarkStaysClear(j.w, s, t);
    }
    OneStep(j, size, false, step, k);
  }

  lemma StatusOf(w: World, s: nat, t: nat)
    requires Clear(w, s) && t in Unrecorded(w, s)
    ensures t in w.regions && t <= s && (HasStatus(w, t, Reserved) || HasStatus(w, t, Stored))
  {
  }

  lemma {:induction false} FinishBelow(j: Joint, size: nat, s: nat) returns (steps: seq<Step>, k: Joint)
    requires size > 0 && Inv(j.w) && Clear(j.w, s) && Overlooked(j, size, s)
    ensures SegRuns(j, size, false, steps, k) && NoCut(steps)
    ensures Inv(k.w) && Clear(k.w, s) && Overlooked(k, size, s) && Unrecorded(k.w, s) == {}
    decreases |Unwritten(j.w, s)| + |Unrecorded(j.w, s)|
  {
    hide Inv, Clear, Overlooked, Unwritten, Unrecorded, SegEnabled, SegApply;
    if Unrecorded(j.w, s) == {} {
      steps, k := [], j;
    } else {
      var t :| t in Unrecorded(j.w, s);
      var step, next := FinishOne(j, size, s, t);
      var rest;
      rest, k := FinishBelow(next, size, s);
      steps := [step] + rest;
      SegRunsOn(j, size, false, [step], next, rest, k);
    }
  }

  /** Then the watermark has passed the record at `s`, and no failure lies at or below it. */
  lemma Passed(w: World, s: nat)
    requires Inv(w) && Clear(w, s) && Unrecorded(w, s) == {}
    ensures s < w.EndOf(s) <= w.core.committed <= w.tail
    ensures w.core.poison.Some? ==> w.EndOf(s) <= w.core.poison.value
  {
    hide WatermarkOk, Content, Stability, Syncers;
    WatermarkFacts(w);
    assert forall t :: t in w.regions && t <= s ==> t !in Unrecorded(w, s);
    assert forall t :: t in w.regions && t <= s ==> w.regions[t].status == Done;
  }

  /** The leader, if there is one, flushes and settles; it was elected before the watermark
      passed `s`, so it does not raise the durable mark above `s`. */
  lemma SettledCore(w: World, i: nat)
    requires i < |w.syncers| && w.syncers[i].phase.Flushed? && w.syncers[i].phase.ok
    requires w.syncers[i].target <= w.syncers[i].phase.flushTo
    ensures Settled(w, i) == w.(core := FlushEnded(w.core, w.syncers[i].phase.flushTo, true), syncers := Settled(w, i).syncers)
  {
  }

  /** `k` differs from `j` in who is doing what, and in a durable mark still at or below `s`. */
  ghost predicate LeaderGone(j: Joint, k: Joint, s: nat) {
    && k.w.head == j.w.head && k.w.tail == j.w.tail && k.w.regions == j.w.regions
    && k.w.core.committed == j.w.core.committed && k.w.core.poison == j.w.core.poison
    && !k.w.core.flushFailed && !k.w.core.syncing && k.w.core.durable <= s
  }

  lemma SettleLeader(j: Joint, size: nat, s: nat, i: nat) returns (k: Joint)
    requires size > 0 && Overlooked(j, size, s) && !j.w.core.flushFailed && j.w.core.durable <= s
    requires i < |j.w.syncers| && j.w.syncers[i].phase.Flushed? && j.w.syncers[i].phase.ok
    requires j.w.syncers[i].target <= j.w.syncers[i].phase.flushTo <= s
    ensures SegRuns(j, size, false, [Plain(Settle(i))], k) && LeaderGone(j, k, s) && Overlooked(k, size, s)
  {
    hide Settled, SegRuns;
    SettledCore(j.w, i);
    k := Joint(Settled(j.w, i), j.seg);
    OneStep(j, size, false, Plain(Settle(i)), k);
  }

  lemma FlushOverlooks(j: Joint, size: nat, s: nat, i: nat)
    requires size > 0 && Overlooked(j, size, s) && i < |j.w.syncers| && j.w.syncers[i].phase.Flushing?
    ensures Overlooked(AfterSegFlush(j, size, i), size, s)
  {
    Ordered(j.seg.syncedFrom * size, j.seg.len - 1, size);
    Locates(j.seg.syncedFrom, 0, size);
    Splits(j.seg.len - 1, size);
  }

  lemma FinishLeader(j: Joint, size: nat, s: nat) returns (steps: seq<Step>, k: Joint)
    requires size > 0 && Inv(j.w) && Clear(j.w, s) && Overlooked(j, size, s)
    ensures SegRuns(j, size, false, steps, k) && NoCut(steps) && LeaderGone(j, k, s) && Overlooked(k, size, s)
  {
    hide Tiles, Marks, Content, Stability, SegRuns, Overlooked, Settled, LoopTop;
    steps, k := [], j;
    assert SegRuns(j, size, false, [], j) by { NoSteps(j, size); }
    if j.w.core.syncing {
      var i: nat :| i < |j.w.syncers| && Leading(j.w.syncers[i]);
      LeaderIsOk(j.w, i);
      if j.w.syncers[i].phase.Flushing? {
        var m := AfterSegFlush(j, size, i);
        var flush := Plain(FlushOk(i, Reaches(j, size)));
        FlushOverlooks(j, size, s, i);
        OneStep(j, size, false, flush, m);
        k := SettleLeader(m, size, s, i);
        steps := [flush] + [Plain(Settle(i))];
        SegRunsOn(j, size, false, [flush], m, [Plain(Settle(i))], k);
      } else {
        k := SettleLeader(j, size, s, i);
        steps := [Plain(Settle(i))];
      }
    }
  }

  lemma NoSteps(j: Joint, size: nat)
    requires size > 0
    ensures SegRuns(j, size, false, [], j)
  {
  }

  /** And a sync of the record at `s` returns Ok without it. */
  lemma SyncWithout(j: Joint, size: nat, s: nat, target: nat)
    requires size > 0 && Overlooked(j, size, s) && MustFlush(j.w, target) && j.w.head <= s < target
    ensures !FT.SyncsHold(AfterSegSync(j, size, target).w)
  {
    var u := AfterSegSync(j, size, target).w;
    assert s !in Reaches(j, size);
    assert s !in u.stable;
    assert u.syncers[|j.w.syncers|] == Syncer(target, Returned(Synced), 1);
  }

  // The write below the window.

  /** A state in which the append at `s` can still be recorded: no flush has failed, and no write
      at or below it. */
  ghost predicate Healthy(w: World, s: nat) {
    && Inv(w) && NoFlushFailure(w) && HasStatus(w, s, Reserved)
    && forall t :: t in w.regions && t < s ==> w.regions[t].status != Broken && w.regions[t].status != Failed
  }

  lemma WriteOverlooks(j: Joint, size: nat, s: nat)
    requires size > 0 && Healthy(j.w, s) && s / size < j.seg.syncedFrom && j.seg.syncedFrom * size < j.seg.len
    ensures var k := SegApply(j, size, Plain(WriteOk(s)));
            Inv(k.w) && Clear(k.w, s) && Overlooked(k, size, s) && k.w.head <= s
  {
    hide Tiles, WatermarkOk, Content, Stability, Frame, Written, WriteAll, S.Touched;
    WriteKeeps(j.w, s);
    UnfinishedIsAbove(j.w, s);
    RegionStart(j.w, s);
    forall i | 0 <= i < |j.w.syncers| && Leading(j.w.syncers[i])
      ensures j.w.syncers[i].phase.flushTo <= s
    {
      LeaderIsOk(j.w, i);
    }
    assert s in Range(s, j.w.EndOf(s));
  }

  /** Finish, settle, sync. */
  lemma OverlookedMisleads(j: Joint, size: nat, s: nat) returns (steps: seq<Step>, last: Joint)
    requires size > 0 && Inv(j.w) && Clear(j.w, s) && Overlooked(j, size, s)
    ensures SegRuns(j, size, false, steps, last) && NoCut(steps) && !FT.SyncsHold(last.w)
  {
    hide Inv, Overlooked, SegRuns, SyncSteps, AfterSegSync, LeaderGone, FT.SyncsHold, MustFlush, Unrecorded, NoFlushFailure;
    var a, k := FinishBelow(j, size, s);
    Passed(k.w, s);
    var b, m := FinishLeader(k, size, s);
    var target := k.w.EndOf(s);
    ReadyToSync(k, m, s);
    SegSync(m, size, false, target);
    SyncWithout(m, size, s, target);
    SyncCutsNothing(m, size, target);
    last := AfterSegSync(m, size, target);
    steps := a + (b + SyncSteps(m, size, target));
    SegRunsOn(k, size, false, b, m, SyncSteps(m, size, target), last);
    SegRunsOn(j, size, false, a, k, b + SyncSteps(m, size, target), last);
  }

  /** From any healthy state, a write below the window has a continuation in which a sync returns
      Ok for a byte of it that is not on stable storage. */
  lemma WriteBelowMisleads(j: Joint, size: nat, s: nat) returns (steps: seq<Step>, last: Joint)
    requires size > 0 && Healthy(j.w, s) && s / size < j.seg.syncedFrom && j.seg.syncedFrom * size < j.seg.len
    ensures SegRuns(j, size, false, [Plain(WriteOk(s))] + steps, last) && NoCut(steps) && !FT.SyncsHold(last.w)
  {
    hide Inv, Clear, Overlooked, SegRuns, FT.SyncsHold, S.AfterWrite, AfterWrite, NoFlushFailure;
    var first := Plain(WriteOk(s));
    var k := SegApply(j, size, first);
    OneStep(j, size, false, first, k);
    WriteOverlooks(j, size, s);
    steps, last := OverlookedMisleads(k, size, s);
    SegRunsOn(j, size, false, [first], k, steps, last);
  }

  lemma SyncCutsNothing(j: Joint, size: nat, target: nat)
    requires size > 0
    ensures NoCut(SyncSteps(j, size, target))
  {
  }

  lemma ReadyToSync(j: Joint, k: Joint, s: nat)
    requires Inv(j.w) && s in j.w.regions && LeaderGone(j, k, s) && s < j.w.EndOf(s) <= j.w.core.committed <= j.w.tail
    requires j.w.core.poison.Some? ==> j.w.EndOf(s) <= j.w.core.poison.value
    ensures MustFlush(k.w, j.w.EndOf(s)) && k.w.head <= s
  {
    hide Marks, Content, Stability, Syncers;
  }

  /** A truncation that leaves something unflushed in a segment below the cut's own misleads at
      once: the reset counts it as durable, and the next sync returns Ok. */
  lemma CutBelowMisleads(j: Joint, size: nat, s: nat) returns (steps: seq<Step>, last: Joint)
    requires size > 0 && Inv(j.w) && !j.w.core.flushFailed && Enabled(j.w, Truncate(s)) && !Guarded(j, size, Plain(Truncate(s)))
    ensures SegRuns(j, size, false, [Plain(Truncate(s))] + steps, last) && NoCut(steps) && !FT.SyncsHold(last.w)
  {
    hide Tiles, Marks, Content, Syncers, NoFlushFailure, Quiesced, CutReaches, SegRuns, FlushedBytes, S.AfterCut, S.AfterSync, CutFiles;
    var end := j.w.EndOf(s);
    var p :| p in j.w.dirty && p < end && p / size < end / size;
    var k := SegApply(j, size, Plain(Truncate(s)));
    OneStep(j, size, false, Plain(Truncate(s)), k);
    CutPassesBy(j, size, s, p);
    ReturnsAtOnce(k.w, end);
    var m := Joint(Started(k.w, end), k.seg);
    last := Joint(k.w.(syncers := k.w.syncers + [Syncer(end, Returned(Synced), 0)]), k.seg);
    OneStep(k, size, false, Plain(StartSync(end)), m);
    OneStep(m, size, false, Plain(Check(0)), last);
    SegRunsOn(k, size, false, [Plain(StartSync(end))], m, [Plain(Check(0))], last);
    steps := [Plain(StartSync(end))] + [Plain(Check(0))];
    SegRunsOn(j, size, false, [Plain(Truncate(s))], k, steps, last);
    assert last.w.syncers[0].phase == Returned(Synced) && p !in last.w.stable;
  }

  lemma CutPassesBy(j: Joint, size: nat, s: nat, p: nat)
    requires size > 0 && s in j.w.regions && p !in j.w.stable && p / size < j.w.EndOf(s) / size
    ensures p !in CutBy(j.w, s, CutReaches(j, size, j.w.EndOf(s))).stable
  {
    hide CutFiles, Reset;
  }

  // In every run of an opened log the window starts at a written byte, once anything reserved lies
  // below it.

  ghost predicate Ahead(j: Joint, size: nat)
    requires size > 0
  {
    && j.seg.len <= j.w.tail && j.seg.syncedFrom <= j.w.tail / size
    && (j.seg.syncedFrom * size < j.seg.len
        || forall t :: t in j.w.regions && j.w.regions[t].status == Reserved ==> j.seg.syncedFrom <= t / size)
  }

  /** A log just opened: the store is as long as the log, and the window starts at its end. */
  ghost predicate SegOpened(j: Joint, size: nat)
    requires size > 0
  {
    Init(j.w) && j.seg.len == j.w.tail && j.seg.syncedFrom == j.w.tail / size
  }

  /** After a flush the window starts in the segment of the last written byte. */
  lemma FlushedIsAhead(k: Joint, size: nat)
    requires size > 0 && 0 < k.seg.len <= k.w.tail && k.seg.syncedFrom == (k.seg.len - 1) / size
    ensures Ahead(k, size)
  {
    Splits(k.seg.len - 1, size);
    Ordered(k.seg.len - 1, k.w.tail, size);
  }

  /** A step that moves no window and reserves only at the tail. */
  lemma StaysAhead(j: Joint, size: nat, k: Joint)
    requires size > 0 && Ahead(j, size) && j.w.tail <= k.w.tail
    requires k.seg.syncedFrom == j.seg.syncedFrom && j.seg.len <= k.seg.len <= k.w.tail
    requires forall t :: t in k.w.regions && k.w.regions[t].status == Reserved ==> HasStatus(j.w, t, Reserved) || t == j.w.tail
    ensures Ahead(k, size)
  {
    Ordered(j.w.tail, k.w.tail, size);
  }

  lemma StepStaysAhead(j: Joint, size: nat, t: Step)
    requires size > 0 && Tiles(j.w) && Ahead(j, size) && SegEnabled(j, size, t)
    ensures Ahead(SegApply(j, size, t), size)
  {
    hide Tiles, Frame, Written, WriteAll, CutFiles, S.Touched, FlushedBytes, Reaches, CutReaches, Apply, Reset, Quiesced, TornBy, Ahead;
    var k := SegApply(j, size, t);
    assert j.seg.len <= j.w.tail by { AheadLength(j, size); }
    match t.move
    case WriteOk(s) =>
      RegionWithin(j.w, s);
      StaysAhead(j, size, k);
    case WriteFail(s, _) => StaysAhead(j, size, k);
    case FlushOk(_, _) =>
      if j.seg.len > 0 {
        FlushedIsAhead(k, size);
      } else {
        StaysAhead(j, size, k);
      }
    case Truncate(s) =>
      RegionWithin(j.w, s);
      FlushedIsAhead(k, size);
    case _ =>
      TailIsFree(j.w);
      QuietStatuses(j.w, t.move);
      StaysAhead(j, size, k);
  }

  lemma AheadLength(j: Joint, size: nat)
    requires size > 0 && Ahead(j, size)
    ensures j.seg.len <= j.w.tail
  {
  }

  lemma {:induction false} CarefulStaysAhead(j: Joint, size: nat, steps: seq<Step>, last: Joint)
    requires size > 0 && Inv(j.w) && InWindow(j, size) && Ahead(j, size) && SegRuns(j, size, true, steps, last)
    ensures Ahead(last, size)
    decreases |steps|
  {
    hide Inv, InWindow, Ahead, SegEnabled, SegApply, Guarded;
    if steps != [] {
      InvTiles(j.w);
      StepStaysAhead(j, size, steps[0]);
      StepInWindow(j, size, steps[0]);
      StepKeeps(j.w, steps[0].move);
      CarefulStaysAhead(SegApply(j, size, steps[0]), size, steps[1..], last);
    }
  }

  /** The guard is exact. After any careful run of an opened log, in a healthy state, a write that
      breaks the guard has a continuation in which a sync misleads. (One that keeps it has none:
      `SegmentedRecordsReopen`.) */
  lemma GuardIsNeeded(origin: Joint, size: nat, before: seq<Step>, j: Joint, s: nat) returns (steps: seq<Step>, last: Joint)
    requires size > 0 && SegOpened(origin, size) && SegRuns(origin, size, true, before, j)
    requires NoFlushFailure(j.w) && HasStatus(j.w, s, Reserved) && !Guarded(j, size, Plain(WriteOk(s)))
    requires forall t :: t in j.w.regions && t < s ==> j.w.regions[t].status != Broken && j.w.regions[t].status != Failed
    ensures SegRuns(j, size, false, [Plain(WriteOk(s))] + steps, last) && NoCut(steps) && !FT.SyncsHold(last.w)
  {
    hide Inv, SegRuns, FT.SyncsHold, NoFlushFailure, Init;
    OpenedIsReady(origin, size);
    CarefulRunsComply(origin, size, before, j);
    CarefulStaysAhead(origin, size, before, j);
    steps, last := WriteBelowMisleads(j, size, s);
  }

  lemma OpenedIsReady(j: Joint, size: nat)
    requires size > 0 && SegOpened(j, size)
    ensures Inv(j.w) && InWindow(j, size) && Ahead(j, size)
  {
    hide Tiles, Inv;
    InitHolds(j.w);
  }

  // An input that breaks it.

  /** Three appends reserve their ranges. */
  function Reserved3(w: World, a: seq<byte>, b: seq<byte>, c: seq<byte>): World {
    AfterReserve(AfterReserve(AfterReserve(w, a), b), c)
  }

  lemma ReserveThree(j: Joint, size: nat, a: seq<byte>, b: seq<byte>, c: seq<byte>)
    requires size > 0 && Enabled(j.w, Reserve(a)) && Enabled(AfterReserve(j.w, a), Reserve(b))
    requires Enabled(AfterReserve(AfterReserve(j.w, a), b), Reserve(c))
    ensures SegRuns(j, size, true, [Plain(Reserve(a))] + ([Plain(Reserve(b))] + [Plain(Reserve(c))]),
                    Joint(Reserved3(j.w, a, b, c), j.seg))
  {
    hide AfterReserve, SegRuns, Enabled;
    var j1 := Joint(AfterReserve(j.w, a), j.seg);
    var j2 := Joint(AfterReserve(j1.w, b), j.seg);
    var j3 := Joint(AfterReserve(j2.w, c), j.seg);
    OneStep(j, size, true, Plain(Reserve(a)), j1);
    OneStep(j1, size, true, Plain(Reserve(b)), j2);
    OneStep(j2, size, true, Plain(Reserve(c)), j3);
    SegRunsOn(j1, size, true, [Plain(Reserve(b))], j2, [Plain(Reserve(c))], j3);
    SegRunsOn(j, size, true, [Plain(Reserve(a))], j1, [Plain(Reserve(b))] + [Plain(Reserve(c))], j3);
  }

  /** One of them writes its record and records it. */
  function Appended(j: Joint, size: nat, s: nat): Joint
    requires size > 0 && s in j.w.regions
  {
    Joint(AfterMark(AfterWrite(j.w, s), s), S.AfterWrite(j.seg, size, s, Frame(j.w.regions[s].payload)))
  }

  lemma WriteAndMark(j: Joint, size: nat, s: nat)
    requires size > 0 && HasStatus(j.w, s, Reserved) && j.seg.syncedFrom <= s / size
    ensures SegRuns(j, size, true, [Plain(WriteOk(s))] + [Plain(MarkWritten(s))], Appended(j, size, s))
  {
    hide Frame, Written, S.AfterWrite, Marked, SegRuns;
    var k := SegApply(j, size, Plain(WriteOk(s)));
    assert HasStatus(k.w, s, Stored);
    OneStep(j, size, true, Plain(WriteOk(s)), k);
    OneStep(k, size, true, Plain(MarkWritten(s)), Appended(j, size, s));
    SegRunsOn(j, size, true, [Plain(WriteOk(s))], k, [Plain(MarkWritten(s))], Appended(j, size, s));
  }

  /** What an append leaves. */
  lemma AppendedFacts(j: Joint, size: nat, s: nat)
    requires size > 0 && HasStatus(j.w, s, Reserved) && j.w.core.waiters == 0
    ensures var w, v := j.w, Appended(j, size, s).w;
            && v.core == Marked(w.core, s, w.EndOf(s)) && v.syncers == w.syncers && v.tail == w.tail
            && (forall t :: t in w.regions && t != s ==> t in v.regions && v.regions[t] == w.regions[t])
    ensures var seg := Appended(j, size, s).seg;
            && seg.syncedFrom == j.seg.syncedFrom
            && seg.len == Max(j.seg.len, Min(j.w.EndOf(s), U64_MAX))
  {
    hide Frame, Written, Marked, WriteAll, S.Touched;
  }

  /** The record at the watermark is folded in, */
  lemma MarkNext(c: Core, end: nat)
    requires c.pending == map[]
    ensures Marked(c, c.committed, end) == c.(committed := end)
  {
  }

  /** one that completes early is held back. */
  lemma MarkEarly(c: Core, start: nat, end: nat)
    requires c.pending == map[] && start != c.committed
    ensures Marked(c, start, end) == c.(pending := map[start := end])
  {
  }

  /** Three appends in flight, one after another. */
  ghost predicate ThreeInFlight(w: World, sa: nat, sb: nat, sc: nat, end: nat) {
    && HasStatus(w, sa, Reserved) && HasStatus(w, sb, Reserved) && HasStatus(w, sc, Reserved)
    && w.EndOf(sa) == sb && w.EndOf(sb) == sc && w.EndOf(sc) == end == w.tail <= U64_MAX
    && w.core == Opened(sa) && w.syncers == []
  }

  lemma RegionsBelowTail(w: World)
    requires Tiles(w)
    ensures w.tail !in w.regions && forall s :: s in w.regions ==> s < w.tail
  {
  }

  lemma ReservedThree(w: World, a: seq<byte>, b: seq<byte>, c: seq<byte>)
    requires Init(w) && w.tail + FramedLen(|a|) + FramedLen(|b|) + FramedLen(|c|) <= U64_MAX
    ensures var sb := w.tail + FramedLen(|a|);
            var sc := sb + FramedLen(|b|);
            ThreeInFlight(Reserved3(w, a, b, c), w.tail, sb, sc, sc + FramedLen(|c|))
  {
    hide Tiles, Content, AllStable;
    assert w.tail !in w.regions && forall s :: s in w.regions ==> s < w.tail by { RegionsBelowTail(w); }
    var w1 := AfterReserve(w, a);
    var w2 := AfterReserve(w1, b);
    var w3 := AfterReserve(w2, c);
    assert HasStatus(w1, w.tail, Reserved) && w1.EndOf(w.tail) == w1.tail;
    assert HasStatus(w2, w.tail, Reserved) && HasStatus(w2, w1.tail, Reserved) && w2.EndOf(w1.tail) == w2.tail;
    assert HasStatus(w3, w2.tail, Reserved) && w3.EndOf(w2.tail) == w3.tail;
  }

  /** The first and the last are recorded and the first is synced. */
  lemma OvertakenRun(j: Joint, size: nat, sa: nat, sb: nat, sc: nat, end: nat) returns (steps: seq<Step>, k: Joint)
    requires size > 0 && ThreeInFlight(j.w, sa, sb, sc, end) && j.seg.len <= end && j.seg.syncedFrom <= sa / size
    ensures SegRuns(j, size, true, steps, k)
    ensures HasStatus(k.w, sb, Reserved) && k.w.core.committed == sb && k.w.core.poison == None
    ensures !k.w.core.flushFailed && k.w.syncers == [Syncer(sb, Returned(Synced), 1)]
    ensures k.seg.syncedFrom == (end - 1) / size && k.seg.len == end
  {
    hide Appended, Marked, SegRuns, Reaches, S.AfterWrite, FlushedBytes, SyncSteps;
    WriteAndMark(j, size, sa);
    AppendedFacts(j, size, sa);
    MarkNext(j.w.core, sb);
    var j2 := Appended(j, size, sa);
    Ordered(sa, sc, size);
    WriteAndMark(j2, size, sc);
    AppendedFacts(j2, size, sc);
    MarkEarly(j2.w.core, sc, end);
    var j3 := Appended(j2, size, sc);
    SegSync(j3, size, true, sb);
    k := AfterSegSync(j3, size, sb);
    var a, c := [Plain(WriteOk(sa))] + [Plain(MarkWritten(sa))], [Plain(WriteOk(sc))] + [Plain(MarkWritten(sc))];
    steps := a + (c + SyncSteps(j3, size, sb));
    SegRunsOn(j2, size, true, c, j3, SyncSteps(j3, size, sb), k);
    SegRunsOn(j, size, true, a, j2, c + SyncSteps(j3, size, sb), k);
  }

  lemma NothingFailed(w: World)
    requires !w.core.flushFailed && |w.syncers| == 1 && w.syncers[0].phase.Returned?
    ensures NoFlushFailure(w)
  {
  }

  lemma BelowCommittedIsDone(w: World, s: nat)
    requires Inv(w) && w.core.committed == s
    ensures forall t :: t in w.regions && t < s ==> w.regions[t].status == Done
  {
    hide Tiles, WatermarkOk, Content, Stability, Syncers;
    WatermarkFacts(w);
  }

  /** An input that breaks the guard, on any log just opened: of three appends the last ends in a
      later segment than the one the middle record starts in. It overtakes the middle one, and a
      sync of the first record moves the window past the middle record's segment. When that
      record is then written, a later sync returns Ok without it. */
  lemma OvertakingMisleads(origin: Joint, size: nat, a: seq<byte>, b: seq<byte>, c: seq<byte>)
    returns (first: seq<Step>, j: Joint, second: seq<Step>, last: Joint)
    requires size > 0 && SegOpened(origin, size)
    requires |a| <= origin.w.limit && |b| <= origin.w.limit && |c| <= origin.w.limit
    requires |a| < WORD && |b| < WORD && |c| < WORD
    requires origin.w.tail + FramedLen(|a|) + FramedLen(|b|) + FramedLen(|c|) <= U64_MAX
    requires var sb := origin.w.tail + FramedLen(|a|);
             sb / size < (sb + FramedLen(|b|) + FramedLen(|c|) - 1) / size
    ensures SegRuns(origin, size, true, first, j)
    ensures SegRuns(j, size, false, [Plain(WriteOk(origin.w.tail + FramedLen(|a|)))] + second, last)
    ensures NoCut(second) && !FT.SyncsHold(last.w)
  {
    hide Init, Inv, SegRuns, Reserved3, FT.SyncsHold, NoFlushFailure;
    var sa := origin.w.tail;
    var sb := sa + FramedLen(|a|);
    var sc := sb + FramedLen(|b|);
    var end := sc + FramedLen(|c|);
    OpenedIsReady(origin, size);
    ReserveThree(origin, size, a, b, c);
    ReservedThree(origin.w, a, b, c);
    var reserves := [Plain(Reserve(a))] + ([Plain(Reserve(b))] + [Plain(Reserve(c))]);
    var k := Joint(Reserved3(origin.w, a, b, c), origin.seg);
    var more;
    more, j := OvertakenRun(k, size, sa, sb, sc, end);
    first := reserves + more;
    SegRunsOn(origin, size, true, reserves, k, more, j);
    CarefulRunsComply(origin, size, first, j);
    NothingFailed(j.w);
    BelowCommittedIsDone(j.w, sb);
    second, last := GuardIsNeeded(origin, size, first, j, sb);
  }
}
