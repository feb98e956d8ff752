/** The steps that record completions and failures, and the steps of `sync_to`, keep the
    invariant. */
module SyncSafety {
  import opened Crc32c
  import opened Record
  import opened Store
  import opened Commit
  import opened Protocol
  import opened Safety

  /** More completions never lower the watermark. */
  lemma CommittedGrows(w: World, v: World)
    requires Tiles(w) && WatermarkOk(w) && Tiles(v) && WatermarkOk(v) && SameShape(w, v)
    requires forall s :: HasStatus(w, s, Done) ==> HasStatus(v, s, Done)
    ensures w.core.committed <= v.core.committed
  {
    hide Tiles, WatermarkOk;
    WatermarkIsBoundary(v);
    WatermarkIsBoundary(w);
    var c := v.core.committed;
    assert !HasStatus(v, c, Done);
    assert !HasStatus(w, c, Done);
    if c < w.core.committed {
      BelowIsDone(w, c);
    }
  }

  lemma WokenIsOk(w: World, y: Syncer)
    requires SyncerOk(w, y)
    ensures SyncerOk(w, WakeOne(y)) && (Leading(WakeOne(y)) <==> Leading(y))
  {
  }

  /** Notifying after a change that takes nothing back leaves every caller in order. */
  lemma NotifiedSyncers(w: World, v: World)
    requires Syncers(w) && Keeps(w, v)
    requires v.syncers == NotifyIfAny(w.syncers, w.core.waiters) && v.core.waiters == w.core.waiters
    ensures Syncers(v)
  {
    hide SyncerOk, CountWaiting, NotifyIfAny, Leading;
    NotifyLeavesNoneParked(w.syncers, w.core.waiters);
    forall i | 0 <= i < |v.syncers|
      ensures SyncerOk(v, v.syncers[i]) && (Leading(v.syncers[i]) <==> Leading(w.syncers[i]))
    {
      WokenIsOk(w, w.syncers[i]);
      SyncerFrame(w, v, v.syncers[i]);
    }
  }

  lemma WokenFlushes(w: World, v: World)
    requires v.syncers == NotifyIfAny(w.syncers, w.core.waiters) && v.core.flushFailed == w.core.flushFailed
    ensures NoFlushFailure(v) ==> NoFlushFailure(w)
  {
  }

  lemma MarkedDone(w: World, s: nat)
    requires HasStatus(w, s, Stored)
    ensures AfterMark(w, s).DoneMap() == w.DoneMap()[s := w.EndOf(s)] && s !in w.DoneMap()
  {
    var v := AfterMark(w, s);
    assert forall t :: t in v.DoneMap() <==> t in w.DoneMap() || t == s;
  }

  /** Recording a completion keeps the watermark exact. */
  lemma MarkedWatermark(w: World, s: nat)
    requires WatermarkOk(w) && HasStatus(w, s, Stored)
    ensures WatermarkOk(AfterMark(w, s))
  {
    hide Drain, Insert;
    MarkedDone(w, s);
    InsertIntoDrain(w.DoneMap(), w.head, s, w.EndOf(s));
  }

  lemma MarkMarks(w: World, s: nat)
    requires Tiles(w) && Marks(w) && HasStatus(w, s, Stored)
    ensures Marks(AfterMark(w, s)) && Tiles(AfterMark(w, s))
    ensures w.core.committed <= AfterMark(w, s).core.committed
  {
    hide WatermarkOk, Tiles, Marked;
    var v := AfterMark(w, s);
    StatusShape(w, v, s, Done);
    TilesFrame(w, v);
    MarkedWatermark(w, s);
    CommittedGrows(w, v);
    MarkedRest(w.core, s, w.EndOf(s));
    assert forall t :: HasStatus(v, t, Failed) <==> HasStatus(w, t, Failed);
  }

  lemma MarkedRest(c: Core, start: nat, end: nat)
    ensures var d := Marked(c, start, end);
            d == c.(committed := d.committed, pending := d.pending)
  {
  }

  lemma MarkKeeps(w: World, s: nat)
    requires Inv(w) && HasStatus(w, s, Stored)
    ensures Inv(AfterMark(w, s))
  {
    hide Tiles, Marks, Content, Stability, Syncers, Marked, NotifyIfAny;
    var v := AfterMark(w, s);
    StatusShape(w, v, s, Done);
    MarkMarks(w, s);
    MarkedRest(w.core, s, w.EndOf(s));
    assert forall t :: v.OnDisk(t) ==> w.OnDisk(t);
    ContentFrame(w, v);
    WokenFlushes(w, v);
    StabilityFrame(w, v);
    NotifiedSyncers(w, v);
  }

  lemma PoisonMarks(w: World, s: nat)
    requires Marks(w) && HasStatus(w, s, Broken)
    ensures Marks(AfterPoison(w, s))
  {
    hide Drain;
    var v := AfterPoison(w, s);
    StatusShape(w, v, s, Failed);
    assert v.DoneMap() == w.DoneMap();
    assert forall t :: HasStatus(v, t, Failed) <==> HasStatus(w, t, Failed) || t == s;
  }

  lemma PoisonKeeps(w: World, s: nat)
    requires Inv(w) && HasStatus(w, s, Broken)
    ensures Inv(AfterPoison(w, s))
  {
    hide Tiles, Marks, Content, Stability, Syncers, NotifyIfAny;
    var v := AfterPoison(w, s);
    StatusShape(w, v, s, Failed);
    TilesFrame(w, v);
    PoisonMarks(w, s);
    ContentFrame(w, v);
    WokenFlushes(w, v);
    StabilityFrame(w, v);
    NotifiedSyncers(w, v);
  }

  // The steps of a sync.

  lemma FreshIsOk(w: World, target: nat)
    requires target <= w.tail
    ensures SyncerOk(w, Syncer(target, Checking, 0))
  {
  }

  lemma StartSyncers(w: World, target: nat)
    requires Syncers(w) && target <= w.tail
    ensures Syncers(w.(syncers := w.syncers + [Syncer(target, Checking, 0)]))
  {
    hide SyncerOk;
    var y := Syncer(target, Checking, 0);
    var v := w.(syncers := w.syncers + [y]);
    FreshIsOk(v, target);
    assert v.syncers[..|v.syncers| - 1] == w.syncers;
    forall i | 0 <= i < |v.syncers|
      ensures SyncerOk(v, v.syncers[i])
    {
      if i < |w.syncers| {
        assert v.syncers[i] == w.syncers[i];
        ParkedWaits(w, w.syncers[i]);
        SyncerFrame(w, v, w.syncers[i]);
      }
    }
    if w.core.syncing {
      var i :| 0 <= i < |w.syncers| && Leading(w.syncers[i]);
      assert Leading(v.syncers[i]);
    }
  }

  lemma StartKeeps(w: World, target: nat)
    requires Inv(w) && target <= w.tail
    ensures Inv(w.(syncers := w.syncers + [Syncer(target, Checking, 0)]))
  {
    hide Tiles, Marks, Content, Stability, Syncers;
    var v := w.(syncers := w.syncers + [Syncer(target, Checking, 0)]);
    QuietFrame(w, v);
    assert NoFlushFailure(v) ==> NoFlushFailure(w) by {
      if NoFlushFailure(v) {
        forall i | 0 <= i < |w.syncers|
          ensures !(w.syncers[i].phase.Flushed? && !w.syncers[i].phase.ok)
        {
          assert v.syncers[i] == w.syncers[i];
        }
      }
    }
    StabilityFrame(w, v);
    StartSyncers(w, target);
  }

  /** A step that touches neither regions nor bytes. */
  lemma QuietFrame(w: World, v: World)
    requires Tiles(w) && Marks(w) && Content(w)
    requires v.head == w.head && v.tail == w.tail && v.limit == w.limit && v.regions == w.regions && v.image == w.image
    requires v.core.committed == w.core.committed && v.core.pending == w.core.pending
    requires v.core.durable == w.core.durable && v.core.poison == w.core.poison
    ensures Tiles(v) && Marks(v) && Content(v)
  {
    hide Tiles, Marks, Content;
    TilesFrame(w, v);
    assert v.DoneMap() == w.DoneMap();
    MarksFrame(w, v);
    ContentFrame(w, v);
  }

  /** Until a flush fails, every position below the watermark is dirty or stable, so a flush
      that starts now covers all of them. */
  lemma LeadCovers(w: World)
    requires Tiles(w) && Marks(w) && Stability(w) && NoFlushFailure(w)
    ensures FlushCovers(w, w.core.committed, w.dirty)
  {
    hide Tiles, WatermarkOk, NoFlushFailure;
    forall p | w.head <= p < w.core.committed
      ensures p in w.stable || p in w.dirty
    {
      var s := CoveringRegion(w, p);
      BelowIsOnDisk(w, s);
    }
  }

  lemma DecideFrame(c: Core, d: Core, t: nat)
    requires d == c.(syncing := d.syncing, waiters := d.waiters)
    requires c.syncing ==> d.syncing
    ensures Decide(c, t) == Wait ==> Decide(d, t) == Wait
  {
  }

  /** A caller that is neither leading nor parked depends on little. */
  lemma IdleFrame(w: World, v: World, y: Syncer)
    requires SyncerOk(w, y) && !Leading(y) && (y.phase == Parked ==> Decide(v.core, y.target) == Wait)
    requires w.tail <= v.tail && w.core.durable <= v.core.durable
    ensures SyncerOk(v, y)
  {
  }

  lemma NoLeader(w: World, j: nat)
    requires Syncers(w) && !w.core.syncing && j < |w.syncers|
    ensures !Leading(w.syncers[j])
  {
  }

  /** The other callers, across one pass through the top of caller `i`'s loop. */
  lemma OthersAtLoopTop(w: World, i: nat, j: nat)
    requires Syncers(w) && i < |w.syncers| && j < |w.syncers| && j != i
    ensures SyncerOk(LoopTop(w, i), w.syncers[j])
  {
  }

  lemma EnterChanges(c: Core, target: nat)
    ensures var d := Enter(c, Decide(c, target));
            && d == c.(syncing := d.syncing, waiters := d.waiters)
            && (d.syncing <==> c.syncing || Decide(c, target).Lead?)
            && (Decide(c, target).Lead? ==> !c.syncing && !c.flushFailed && Decide(c, target).flushTo == c.committed && target <= c.committed)
            && d.waiters == c.waiters + (if Decide(c, target) == Wait then 1 else 0)
  {
  }

  lemma CheckedSyncer(w: World, i: nat)
    requires Inv(w) && i < |w.syncers| && w.syncers[i].phase == Checking
    ensures SyncerOk(LoopTop(w, i), LoopTop(w, i).syncers[i])
  {
    hide Tiles, Content;
    var v := LoopTop(w, i);
    assert SyncerOk(w, w.syncers[i]);
    if Decide(w.core, w.syncers[i].target).Lead? {
      WatermarkIsBoundary(w);
      NoFailureYet(w);
      LeadCovers(w);
    } else if Decide(w.core, w.syncers[i].target) == Wait {
      DecideFrame(w.core, v.core, w.syncers[i].target);
    }
  }

  lemma NoFailureYet(w: World)
    requires Syncers(w) && !w.core.syncing && !w.core.flushFailed
    ensures NoFlushFailure(w)
  {
  }

  lemma LoopTopSyncers(w: World, i: nat)
    requires Inv(w) && i < |w.syncers| && w.syncers[i].phase == Checking
    ensures Syncers(LoopTop(w, i))
  {
    hide Tiles, Marks, Content, Stability, SyncerOk, Decide, CountWaiting;
    var v := LoopTop(w, i);
    EnterChanges(w.core, w.syncers[i].target);
    CountAfterUpdate(w.syncers, i, v.syncers[i]);
    forall j | 0 <= j < |v.syncers|
      ensures SyncerOk(v, v.syncers[j])
    {
      if j == i {
        CheckedSyncer(w, i);
      } else {
        OthersAtLoopTop(w, i, j);
      }
    }
    if v.core.syncing != w.core.syncing {
      forall j | 0 <= j < |w.syncers|
        ensures !Leading(w.syncers[j])
      {
        NoLeader(w, j);
      }
      assert Leading(v.syncers[i]);
    } else if w.core.syncing {
      var j :| 0 <= j < |w.syncers| && Leading(w.syncers[j]);
      assert Leading(v.syncers[j]);
    }
  }

  lemma CheckKeeps(w: World, i: nat)
    requires Inv(w) && i < |w.syncers| && w.syncers[i].phase == Checking
    ensures Inv(LoopTop(w, i))
  {
    hide Tiles, Marks, Content, Stability, Syncers, Decide;
    var v := LoopTop(w, i);
    EnterChanges(w.core, w.syncers[i].target);
    QuietFrame(w, v);
    assert NoFlushFailure(v) ==> NoFlushFailure(w) by {
      forall j | 0 <= j < |w.syncers| && NoFlushFailure(v)
        ensures !(w.syncers[j].phase.Flushed? && !w.syncers[j].phase.ok)
      {
        if j != i {
          assert v.syncers[j] == w.syncers[j];
        }
      }
    }
    StabilityFrame(w, v);
    LoopTopSyncers(w, i);
  }

  /** Resuming from the condition variable is a fresh pass through the loop. */
  lemma ResumeKeeps(w: World, i: nat)
    requires Inv(w) && i < |w.syncers| && w.syncers[i].phase == Signalled && w.core.waiters > 0
    ensures Inv(LoopTop(w.(core := w.core.(waiters := w.core.waiters - 1)), i))
  {
    hide Tiles, Marks, Content, Stability, Decide;
    var y := w.syncers[i].(phase := Checking);
    var awake := w.(core := w.core.(waiters := w.core.waiters - 1), syncers := w.syncers[i := y]);
    QuietFrame(w, awake);
    SwapKeepsStability(w, awake, i);
    AwakeSyncers(w, awake, i, y);
    CheckKeeps(awake, i);
    SameLoopTop(w.(core := w.core.(waiters := w.core.waiters - 1)), awake, i);
  }

  lemma SameLoopTop(w: World, v: World, i: nat)
    requires i < |w.syncers| && v == w.(syncers := w.syncers[i := w.syncers[i].(phase := Checking)])
    ensures LoopTop(v, i) == LoopTop(w, i)
  {
  }

  /** Changing one caller's phase, when it was not in a flush. */
  lemma SwapKeepsStability(w: World, v: World, i: nat)
    requires Stability(w) && i < |w.syncers| && !w.syncers[i].phase.Flushed?
    requires |v.syncers| == |w.syncers| && forall j :: 0 <= j < |w.syncers| && j != i ==> v.syncers[j] == w.syncers[j]
    requires v.head == w.head && v.regions == w.regions && v.image == w.image && v.dirty == w.dirty && v.stable == w.stable
    requires v.core.durable == w.core.durable && v.core.flushFailed == w.core.flushFailed && v.core.poison == w.core.poison
    ensures Stability(v)
  {
    hide Stability;
    assert NoFlushFailure(v) ==> NoFlushFailure(w) by {
      forall j | 0 <= j < |w.syncers| && NoFlushFailure(v)
        ensures !(w.syncers[j].phase.Flushed? && !w.syncers[j].phase.ok)
      {
        if j != i {
          assert v.syncers[j] == w.syncers[j];
        }
      }
    }
    StabilityFrame(w, v);
  }

  /** Replacing an idle caller by another idle caller, with the count adjusted. */
  lemma AwakeSyncers(w: World, v: World, i: nat, y: Syncer)
    requires Syncers(w) && i < |w.syncers| && !Leading(w.syncers[i]) && !Leading(y) && SyncerOk(w, y) && y.phase != Parked
    requires v == w.(core := v.core, syncers := w.syncers[i := y]) && v.core == w.core.(waiters := v.core.waiters)
    requires v.core.waiters + Waiting(w.syncers[i]) == w.core.waiters + Waiting(y)
    ensures Syncers(v)
  {
    hide SyncerOk, Decide, CountWaiting;
    CountAfterUpdate(w.syncers, i, y);
    forall j | 0 <= j < |v.syncers|
      ensures SyncerOk(v, v.syncers[j])
    {
      DecideFrame(w.core, v.core, v.syncers[j].target);
      if j != i {
        ParkedWaits(w, w.syncers[j]);
      }
      SyncerFrame(w, v, v.syncers[j]);
    }
    if w.core.syncing {
      var j :| 0 <= j < |w.syncers| && Leading(w.syncers[j]);
      assert Leading(v.syncers[j]);
    }
  }

  /** A condition variable may wake a thread for no reason. */
  lemma SpuriousKeeps(w: World, i: nat)
    requires Inv(w) && i < |w.syncers| && w.syncers[i].phase == Parked
    ensures Inv(SetPhase(w, i, Signalled))
  {
    hide Tiles, Marks, Content, Stability, Decide;
    var v := SetPhase(w, i, Signalled);
    QuietFrame(w, v);
    SwapKeepsStability(w, v, i);
    AwakeSyncers(w, v, i, v.syncers[i]);
  }

  // The store reaches stable storage, or fails to.

  /** Flushing some dirty positions and dropping none loses nothing. */
  lemma FlushStability(w: World, reached: set<nat>)
    requires Stability(w) && reached <= w.dirty
    ensures Stability(AfterFlush(w, reached, {}))
  {
    hide NoFlushFailure;
    var v := AfterFlush(w, reached, {});
    SameFlushFailure(w, v);
    assert forall s :: v.OnDisk(s) ==> w.OnDisk(s) && v.EndOf(s) == w.EndOf(s);
  }

  lemma WriteBackKeeps(w: World, reached: set<nat>)
    requires Inv(w) && reached <= w.dirty
    ensures Inv(AfterFlush(w, reached, {}))
  {
    hide Tiles, Marks, Content, Stability, Syncers, Decide;
    var v := AfterFlush(w, reached, {});
    QuietFrame(w, v);
    FlushStability(w, reached);
    SyncersFrame(w, v);
  }

  /** A successful flush makes everything the leader set out to flush stable. */
  lemma FlushOkKeeps(w: World, i: nat, reached: set<nat>)
    requires Inv(w) && i < |w.syncers| && w.syncers[i].phase.Flushing?
    requires w.syncers[i].phase.snapshot * w.dirty <= reached <= w.dirty
    ensures Inv(SetPhase(AfterFlush(w, reached, {}), i, Flushed(w.syncers[i].phase.flushTo, true)))
  {
    hide Tiles, Marks, Content, Stability, Syncers;
    var back := AfterFlush(w, reached, {});
    var v := SetPhase(back, i, Flushed(w.syncers[i].phase.flushTo, true));
    WriteBackKeeps(w, reached);
    QuietFrame(back, v);
    SwapKeepsStability(back, v, i);
    LeaderIsOk(w, i);
    assert AllStable(v, w.syncers[i].phase.flushTo);
    LeaderStays(back, v, i);
  }

  lemma LeaderIsOk(w: World, i: nat)
    requires Syncers(w) && i < |w.syncers|
    ensures SyncerOk(w, w.syncers[i])
  {
  }

  /** The leader moves from flushing to flushed. */
  lemma LeaderStays(w: World, v: World, i: nat)
    requires Syncers(w) && i < |w.syncers| && w.syncers[i].phase.Flushing?
    requires v.core == w.core && v.head == w.head && v.tail == w.tail && v.regions == w.regions
    requires forall p :: p in w.stable ==> p in v.stable
    requires |v.syncers| == |w.syncers| && forall j :: 0 <= j < |w.syncers| && j != i ==> v.syncers[j] == w.syncers[j]
    requires v.syncers[i].phase.Flushed? && v.syncers[i] == w.syncers[i].(phase := v.syncers[i].phase)
    requires v.syncers[i].phase.flushTo == w.syncers[i].phase.flushTo
    requires v.syncers[i].phase.ok ==> AllStable(v, w.syncers[i].phase.flushTo)
    ensures Syncers(v)
  {
    hide Decide, CountWaiting;
    CountAfterUpdate(w.syncers, i, v.syncers[i]);
    assert v.syncers == w.syncers[i := v.syncers[i]];
    LeaderIsOk(w, i);
    forall j | 0 <= j < |v.syncers| && j != i
      ensures SyncerOk(v, v.syncers[j])
    {
      assert !Leading(w.syncers[j]);
      ParkedWaits(w, w.syncers[j]);
      IdleFrame(w, v, v.syncers[j]);
    }
    assert Leading(v.syncers[i]);
  }

  /** A failed flush may lose bytes, but nothing that was already durable. */
  lemma FlushErrKeeps(w: World, i: nat, reached: set<nat>, dropped: set<nat>)
    requires Inv(w) && i < |w.syncers| && w.syncers[i].phase.Flushing?
    requires reached <= w.dirty && dropped <= w.dirty
    ensures Inv(SetPhase(AfterFlush(w, reached, dropped), i, Flushed(w.syncers[i].phase.flushTo, false)))
  {
    hide Tiles, Marks, Content, Syncers;
    var v := SetPhase(AfterFlush(w, reached, dropped), i, Flushed(w.syncers[i].phase.flushTo, false));
    QuietFrame(w, v);
    assert v.syncers[i].phase.Flushed? && !v.syncers[i].phase.ok;
    assert !NoFlushFailure(v);
    assert Stability(v);
    LeaderStays(w, v, i);
  }

  // The leader takes the lock again.

  lemma SettledVerdict(w: World, i: nat)
    requires Inv(w) && i < |w.syncers| && w.syncers[i].phase.Flushed? && w.syncers[i].phase.ok
    ensures Decide(FlushEnded(w.core, w.syncers[i].phase.flushTo, true), w.syncers[i].target) == Durable
  {
    hide Tiles, WatermarkOk, Content, Stability;
    LeaderIsOk(w, i);
    if w.core.poison.Some? {
      CommittedStopsAtPoison(w);
    }
  }

  /** A leader whose flush succeeded always returns Ok: its target is below what it flushed,
      which is below the watermark, which no failure can be below, even one recorded while
      the flush was running. */
  lemma SettledOk(w: World, i: nat)
    requires Inv(w) && i < |w.syncers| && w.syncers[i].phase.Flushed? && w.syncers[i].phase.ok
    ensures var y := w.syncers[i];
            Settled(w, i) == w.(core := FlushEnded(w.core, y.phase.flushTo, true),
                                syncers := Notify(w.syncers)[i := y.(phase := Returned(Synced))])
  {
    hide Inv, Decide, FlushEnded;
    SettledVerdict(w, i);
    assert Notify(w.syncers)[i] == w.syncers[i];
  }

  /** The state after a leader has settled, either way. */
  function AfterSettle(w: World, i: nat, ok: bool, outcome: Outcome): World
    requires i < |w.syncers| && w.syncers[i].phase.Flushed?
  {
    var y := w.syncers[i];
    w.(core := FlushEnded(w.core, y.phase.flushTo, ok), syncers := Notify(w.syncers)[i := y.(phase := Returned(outcome))])
  }

  lemma SettleSyncers(w: World, i: nat, ok: bool, outcome: Outcome)
    requires Syncers(w) && i < |w.syncers| && w.syncers[i].phase.Flushed?
    requires outcome == Synced ==> ok
    ensures Syncers(AfterSettle(w, i, ok, outcome))
  {
    hide Decide, CountWaiting;
    var v := AfterSettle(w, i, ok, outcome);
    LeaderIsOk(w, i);
    CountAfterNotify(w.syncers);
    CountAfterUpdate(Notify(w.syncers), i, v.syncers[i]);
    forall j | 0 <= j < |v.syncers|
      ensures SyncerOk(v, v.syncers[j]) && !Leading(v.syncers[j])
    {
      if j != i {
        assert !Leading(w.syncers[j]);
        WokenIsOk(w, w.syncers[j]);
        IdleFrame(w, v, v.syncers[j]);
      }
    }
  }

  /** Raising the durable mark to another boundary below the watermark. */
  lemma MarksWithDurable(w: World, v: World)
    requires Marks(w) && v.head == w.head && v.tail == w.tail && v.regions == w.regions
    requires v.core.committed == w.core.committed && v.core.pending == w.core.pending && v.core.poison == w.core.poison
    requires w.core.durable <= v.core.durable <= w.core.committed && w.Boundary(v.core.durable)
    ensures Marks(v)
  {
    hide Drain;
    assert v.DoneMap() == w.DoneMap();
    assert forall s, status :: HasStatus(v, s, status) == HasStatus(w, s, status);
  }

  lemma SettleMarks(w: World, i: nat, ok: bool, outcome: Outcome)
    requires Tiles(w) && Marks(w) && Syncers(w) && i < |w.syncers| && w.syncers[i].phase.Flushed?
    ensures Marks(AfterSettle(w, i, ok, outcome)) && Tiles(AfterSettle(w, i, ok, outcome))
  {
    hide Syncers, Tiles, Marks, Notify;
    var v := AfterSettle(w, i, ok, outcome);
    LeaderIsOk(w, i);
    TilesFrame(w, v);
    DurableIsBelow(w);
    MarksWithDurable(w, v);
  }

  lemma SettleStability(w: World, i: nat, ok: bool, outcome: Outcome)
    requires Stability(w) && Syncers(w) && i < |w.syncers| && w.syncers[i].phase.Flushed? && w.syncers[i].phase.ok == ok
    ensures Stability(AfterSettle(w, i, ok, outcome))
  {
    hide Syncers;
    var v := AfterSettle(w, i, ok, outcome);
    LeaderIsOk(w, i);
    if ok {
      assert NoFlushFailure(v) ==> NoFlushFailure(w) by {
        forall j | 0 <= j < |w.syncers| && NoFlushFailure(v)
          ensures !(w.syncers[j].phase.Flushed? && !w.syncers[j].phase.ok)
        {
          if j != i {
            assert v.syncers[j] == WakeOne(w.syncers[j]);
          }
        }
      }
    }
    assert forall s :: v.OnDisk(s) ==> w.OnDisk(s) && v.EndOf(s) == w.EndOf(s);
  }

  lemma SettleKeeps(w: World, i: nat)
    requires Inv(w) && i < |w.syncers| && w.syncers[i].phase.Flushed?
    ensures Inv(Settled(w, i))
  {
    hide Tiles, Marks, Content, Stability, Syncers, Decide;
    var ok := w.syncers[i].phase.ok;
    var outcome := if ok then Synced else FlushError;
    if ok {
      SettledOk(w, i);
    }
    var v := AfterSettle(w, i, ok, outcome);
    assert Settled(w, i) == v;
    SettleMarks(w, i, ok, outcome);
    ContentFrame(w, v);
    SettleStability(w, i, ok, outcome);
    SettleSyncers(w, i, ok, outcome);
  }
}
