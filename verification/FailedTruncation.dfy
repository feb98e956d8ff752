/** A suffix truncation whose flush fails: the store has been cut and may have lost unflushed
    bytes, but the coordinator has been told of neither. When later syncs can still be
    believed, exactly. */
module FailedTruncation {
  import opened Crc32c
  import opened Record
  import opened Store
  import opened Commit
  import opened Protocol
  import opened Safety
  import opened SyncSafety
  import opened Truncation
  import opened Durability
  import opened SyncRun

  /** The store is cut after the record at `s`. */
  function CutOnly(w: World, s: nat): World
    requires s in w.regions
  {
    var end := w.EndOf(s);
    w.(image := w.image[..Min(end, |w.image|)],
       dirty := (set p | p in w.dirty && p < end),
       stable := map p | p in w.stable && p < end :: w.stable[p])
  }

  /** Then the flush fails, with the positions `reached` on stable storage and those of
      `dropped` discarded. Tail, watermarks and poison are as before. */
  function FailedCut(w: World, s: nat, reached: set<nat>, dropped: set<nat>): World
    requires s in w.regions
  {
    AfterFlush(CutOnly(w, s), reached, dropped)
  }

  /** Every sync that returned Ok covers only bytes that are on stable storage. */
  ghost predicate SyncsHold(w: World) {
    forall i :: 0 <= i < |w.syncers| && w.syncers[i].phase == Returned(Synced) ==> AllStable(w, w.syncers[i].target)
  }

  /** And so it stays in every run without a further truncation. */
  ghost predicate Truthful(w: World) {
    forall labels, u :: Runs(w, labels, u) && NoTruncation(labels) ==> SyncsHold(u)
  }

  // One whole sync.

  /** A sync that has to flush, over a store that honours its contract. */
  lemma LoneSync(w: World, target: nat)
    requires MustFlush(w, target)
    ensures Runs(w, SyncLabels(w, target, w.dirty), AfterSyncRun(w, target, w.dirty))
  {
    hide MustFlush, LoopTop, Settled, FlushedBytes, AfterFlush, SetPhase, AfterSyncRun, Returning;
    Electing(w, target);
    Flushing1(w, target, w.dirty);
    Settling(w, target, w.dirty);
    FourSteps(w, Started(w, target), Elected(w, target), Returning(w, target, w.dirty), AfterSyncRun(w, target, w.dirty),
              SyncLabels(w, target, w.dirty));
  }

  lemma FourSteps(w: World, w1: World, w2: World, w3: World, w4: World, ls: seq<Label>)
    requires |ls| == 4
    requires Enabled(w, ls[0]) && Apply(w, ls[0]) == w1 && Enabled(w1, ls[1]) && Apply(w1, ls[1]) == w2
    requires Enabled(w2, ls[2]) && Apply(w2, ls[2]) == w3 && Enabled(w3, ls[3]) && Apply(w3, ls[3]) == w4
    ensures Runs(w, ls, w4)
  {
    hide Enabled, Apply;
    assert ls[1..][0] == ls[1] && ls[1..][1..] == ls[2..];
    assert ls[2..][0] == ls[2] && ls[2..][1..] == ls[3..];
    assert ls[3..][0] == ls[3] && ls[3..][1..] == [];
    assert Runs(w3, ls[3..], w4);
    assert Runs(w2, ls[2..], w4);
    assert Runs(w1, ls[1..], w4);
  }

  /** A sync to what is durable already. */
  lemma DurableSync(w: World, target: nat)
    requires target <= w.core.durable && target <= w.tail && (w.core.poison.Some? ==> target <= w.core.poison.value)
    ensures var ys := w.syncers + [Syncer(target, Returned(Synced), 0)];
            Runs(w, [StartSync(target), Check(|w.syncers|)], w.(syncers := ys))
  {
    hide Enabled, Apply, LoopTop;
    ReturnsAtOnce(w, target);
    var w1, w2 := Started(w, target), w.(syncers := w.syncers + [Syncer(target, Returned(Synced), 0)]);
    var ls := [StartSync(target), Check(|w.syncers|)];
    assert ls[1..] == [Check(|w.syncers|)] && ls[1..][1..] == [];
    assert Runs(w2, [], w2);
    assert Runs(w1, ls[1..], w2);
  }

  // The failed truncation.

  /** What a failed truncation starts from. */
  ghost predicate FailsToCut(w: World, s: nat, reached: set<nat>, dropped: set<nat>) {
    && Inv(w) && s in w.regions && Enabled(w, Truncate(s))
    && reached <= CutOnly(w, s).dirty && dropped <= CutOnly(w, s).dirty
  }

  /** The condition, by what the call knows: after an earlier failed flush, that nothing durable
      was cut; otherwise that nothing committed was cut and nothing unflushed was discarded. */
  ghost predicate NothingLost(w: World, s: nat, reached: set<nat>, dropped: set<nat>)
    requires s in w.regions
  {
    if w.core.flushFailed then w.core.durable <= w.EndOf(s)
    else w.core.committed <= w.EndOf(s) && forall p :: p in dropped ==> p in reached || p in w.stable
  }

  lemma CutShape(w: World, s: nat, reached: set<nat>, dropped: set<nat>)
    requires s in w.regions
    ensures var v := FailedCut(w, s, reached, dropped);
            && v.head == w.head && v.tail == w.tail && v.limit == w.limit && v.regions == w.regions
            && v.core == w.core && v.syncers == w.syncers && v.image == w.image[..Min(w.EndOf(s), |w.image|)]
  {
  }

  /** In a quiesced log no record above the watermark counts as on disk. */
  lemma OnDiskIsCommitted(w: World, t: nat)
    requires Tiles(w) && Marks(w) && Quiesced(w) && w.OnDisk(t)
    ensures t < w.core.committed && w.EndOf(t) <= w.core.committed
  {
    hide WatermarkOk, Tiles;
    WatermarkFacts(w);
    RegionEnds(w, t);
    var c := w.core.committed;
    if c in w.regions {
      assert !w.InFlight(c);
      assert HasStatus(w, c, Failed);
    }
  }

  lemma RegionEnds(w: World, t: nat)
    requires Tiles(w) && t in w.regions
    ensures t < w.EndOf(t) <= w.tail
  {
  }

  lemma CutContent(w: World, s: nat, v: World)
    requires Tiles(w) && Marks(w) && Content(w) && Quiesced(w) && s in w.regions && w.core.committed <= w.EndOf(s)
    requires v.regions == w.regions && v.core == w.core && v.tail == w.tail && v.image == w.image[..Min(w.EndOf(s), |w.image|)]
    ensures Content(v)
  {
    hide Tiles, WatermarkOk, Frame, Quiesced;
    forall t: nat | v.OnDisk(t)
      ensures FramedAt(v.image, t, v.regions[t].payload)
    {
      assert w.OnDisk(t);
      OnDiskIsCommitted(w, t);
      assert v.image[t..w.EndOf(t)] == w.image[t..w.EndOf(t)];
    }
  }

  lemma CutStability(w: World, s: nat, reached: set<nat>, dropped: set<nat>)
    requires Tiles(w) && Marks(w) && Stability(w) && Quiesced(w) && s in w.regions && reached <= CutOnly(w, s).dirty
    requires !w.core.flushFailed && NothingLost(w, s, reached, dropped)
    ensures Stability(FailedCut(w, s, reached, dropped))
  {
    hide Tiles, Marks, NoFlushFailure, Quiesced, NothingLost;
    var v := FailedCut(w, s, reached, dropped);
    assert w.core.committed <= w.EndOf(s) by { NothingCut(w, s, reached, dropped); }
    assert NoFlushFailure(w) by { QuiescedFlushes(w); }
    DurableIsBelow(w);
    forall t: nat, p: nat | v.OnDisk(t) && t <= p < v.EndOf(t)
      ensures p in v.dirty || p in v.stable
    {
      assert w.OnDisk(t);
      OnDiskIsCommitted(w, t);
      StillHeld(w, s, reached, dropped, p);
    }
  }

  lemma FailedCutFacts(w: World, s: nat, reached: set<nat>, dropped: set<nat>)
    requires FailsToCut(w, s, reached, dropped)
    ensures Inv(w) && Quiesced(w) && s in w.regions && reached <= CutOnly(w, s).dirty
  {
    hide Inv, Quiesced, CutOnly;
  }

  lemma NothingCut(w: World, s: nat, reached: set<nat>, dropped: set<nat>)
    requires s in w.regions && !w.core.flushFailed && NothingLost(w, s, reached, dropped)
    ensures w.core.committed <= w.EndOf(s)
  {
  }

  lemma StillHeld(w: World, s: nat, reached: set<nat>, dropped: set<nat>, p: nat)
    requires s in w.regions && !w.core.flushFailed && NothingLost(w, s, reached, dropped)
    requires (p in w.dirty || p in w.stable) && p < w.EndOf(s)
    ensures p in FailedCut(w, s, reached, dropped).dirty || p in FailedCut(w, s, reached, dropped).stable
  {
  }

  lemma CutSpares(w: World, s: nat, reached: set<nat>, dropped: set<nat>)
    requires s in w.regions && !w.core.flushFailed && NothingLost(w, s, reached, dropped)
    ensures Keeps(w, FailedCut(w, s, reached, dropped))
  {
  }

  /** If nothing was lost, the invariant holds as if the truncation had not been tried. */
  lemma HarmlessCut(w: World, s: nat, reached: set<nat>, dropped: set<nat>)
    requires FailsToCut(w, s, reached, dropped) && !w.core.flushFailed && NothingLost(w, s, reached, dropped)
    ensures Inv(FailedCut(w, s, reached, dropped))
  {
    hide Tiles, Marks, Content, Stability, Syncers, Quiesced, Decide, FailedCut, Keeps, NothingLost, CutOnly, FailsToCut;
    FailedCutFacts(w, s, reached, dropped);
    var v := FailedCut(w, s, reached, dropped);
    NothingCut(w, s, reached, dropped);
    CutShape(w, s, reached, dropped);
    TilesFrame(w, v);
    assert v.DoneMap() == w.DoneMap();
    MarksFrame(w, v);
    CutContent(w, s, v);
    CutStability(w, s, reached, dropped);
    CutSpares(w, s, reached, dropped);
    SyncersFrame(w, v);
  }

  lemma InvHolds(w: World)
    requires Inv(w)
    ensures SyncsHold(w)
  {
    hide Tiles, Marks, Content, NoFlushFailure;
    forall i | 0 <= i < |w.syncers| && w.syncers[i].phase == Returned(Synced)
      ensures AllStable(w, w.syncers[i].target)
    {
      assert SyncerOk(w, w.syncers[i]);
    }
  }

  // After an earlier failed flush nothing more becomes durable.

  /** What then stays true whatever has been cut above the durable mark. */
  ghost predicate Halted(w: World) {
    && w.core.flushFailed && w.core.durable <= w.tail && AllStable(w, w.core.durable)
    && (forall s :: s in w.regions && w.regions[s].status == Reserved ==> w.core.durable <= s)
    && (forall i :: 0 <= i < |w.syncers| ==> !Leading(w.syncers[i]))
    && (forall i :: 0 <= i < |w.syncers| && w.syncers[i].phase == Returned(Synced) ==> w.syncers[i].target <= w.core.durable)
  }

  lemma HaltedWaits(w: World, v: World, i: nat)
    requires Halted(w) && i < |w.syncers| && v == w.(core := v.core) && v.core == w.core.(waiters := v.core.waiters)
    ensures Halted(LoopTop(v, i))
  {
    var u := LoopTop(v, i);
    forall j | 0 <= j < |u.syncers|
      ensures !Leading(u.syncers[j]) && (u.syncers[j].phase == Returned(Synced) ==> u.syncers[j].target <= u.core.durable)
    {
      assert j != i ==> u.syncers[j] == w.syncers[j];
    }
  }

  /** A step that elects nobody, returns from nothing and spares what is durable. */
  lemma HaltedFrame(w: World, v: World)
    requires Halted(w) && v.head == w.head && w.tail <= v.tail
    requires v.core.flushFailed && v.core.durable == w.core.durable
    requires forall p :: p in w.stable && p < w.core.durable ==> p in v.stable
    requires forall s :: s in v.regions && v.regions[s].status == Reserved ==> HasStatus(w, s, Reserved) || s == w.tail
    requires |w.syncers| <= |v.syncers|
    requires forall i :: 0 <= i < |w.syncers| ==> v.syncers[i] in {w.syncers[i], w.syncers[i].(phase := Signalled)}
    requires forall i :: |w.syncers| <= i < |v.syncers| ==> v.syncers[i].phase == Checking
    ensures Halted(v)
  {
  }

  lemma HaltedStep(w: World, l: Label)
    requires Halted(w) && Enabled(w, l) && !l.Truncate?
    ensures Halted(Apply(w, l))
  {
    hide Decide, LoopTop, Written, TornBy, Insert, Frame, Quiesced;
    assert forall i :: 0 <= i < |w.syncers| ==> !w.syncers[i].phase.Flushing? && !w.syncers[i].phase.Flushed?;
    if l.Check? {
      HaltedWaits(w, w, l.i);
    } else if l.Resume? {
      HaltedWaits(w, w.(core := w.core.(waiters := w.core.waiters - 1)), l.i);
    } else if !l.FlushOk? && !l.FlushErr? && !l.Settle? {
      HaltedFrame(w, Apply(w, l));
    }
  }

  lemma {:induction false} HaltedRun(w: World, labels: seq<Label>, u: World)
    requires Halted(w) && Runs(w, labels, u) && NoTruncation(labels)
    ensures SyncsHold(u)
    decreases |labels|
  {
    hide Enabled, Apply;
    if labels != [] {
      assert !labels[0].Truncate?;
      HaltedStep(w, labels[0]);
      assert NoTruncation(labels[1..]);
      HaltedRun(Apply(w, labels[0]), labels[1..], u);
    }
  }

  lemma CutHalts(w: World, s: nat, reached: set<nat>, dropped: set<nat>)
    requires FailsToCut(w, s, reached, dropped) && w.core.flushFailed && w.core.durable <= w.EndOf(s)
    ensures Halted(FailedCut(w, s, reached, dropped))
  {
    hide Tiles, WatermarkOk, Content, NoFlushFailure;
    var v := FailedCut(w, s, reached, dropped);
    WatermarkFacts(w);
    forall t | t in w.regions
      ensures w.regions[t].status != Reserved
    {
      assert !w.InFlight(t);
    }
    forall i | 0 <= i < |v.syncers|
      ensures v.syncers[i].phase == Returned(Synced) ==> v.syncers[i].target <= v.core.durable
    {
      assert SyncerOk(w, w.syncers[i]);
    }
  }

  // Where it goes wrong.

  /** A position below `target` that no flush can bring back. */
  ghost predicate Gone(w: World, p: nat, target: nat) {
    w.head <= p < target && p !in w.stable && p !in w.dirty
  }

  /** A lone sync then returns Ok for a byte that is not on stable storage. */
  lemma SyncMisleads(w: World, p: nat, target: nat) returns (labels: seq<Label>, u: World)
    requires !w.core.syncing && Gone(w, p, target) && target <= w.tail
    requires w.core.poison.Some? ==> target <= w.core.poison.value
    requires target <= w.core.durable || (!w.core.flushFailed && target <= w.core.committed)
    ensures NoTruncation(labels) && Runs(w, labels, u) && !SyncsHold(u)
  {
    hide Enabled, Apply, Runs;
    var n := |w.syncers|;
    if target <= w.core.durable {
      DurableSync(w, target);
      labels, u := [StartSync(target), Check(n)], w.(syncers := w.syncers + [Syncer(target, Returned(Synced), 0)]);
    } else {
      LoneSync(w, target);
      labels, u := SyncLabels(w, target, w.dirty), AfterSyncRun(w, target, w.dirty);
    }
    assert u.syncers[n].phase == Returned(Synced) && p !in u.stable;
  }

  /** The mark up to which such a sync is promised. */
  function Promised(w: World): nat {
    if w.core.flushFailed then w.core.durable else w.core.committed
  }

  lemma LossMisleads(w: World, s: nat, reached: set<nat>, dropped: set<nat>) returns (labels: seq<Label>, u: World)
    requires FailsToCut(w, s, reached, dropped) && !NothingLost(w, s, reached, dropped)
    ensures NoTruncation(labels) && Runs(FailedCut(w, s, reached, dropped), labels, u) && !SyncsHold(u)
  {
    hide WatermarkOk, Content, NoFlushFailure, SyncerOk;
    var v, end := FailedCut(w, s, reached, dropped), w.EndOf(s);
    WatermarkFacts(w);
    if w.core.poison.Some? {
      CommittedStopsAtPoison(w);
    }
    var p := end;
    if !w.core.flushFailed && w.core.committed <= end {
      p :| p in dropped && p !in reached && p !in w.stable;
    }
    assert Gone(v, p, Promised(w));
    labels, u := SyncMisleads(v, p, Promised(w));
  }

  /** After a truncation whose flush failed, in any reachable quiesced state, every later sync
      is truthful if and only if nothing was lost. */
  lemma FailedTruncationMisleads(origin: World, before: seq<Label>, w: World, s: nat, reached: set<nat>, dropped: set<nat>)
    requires Init(origin) && Runs(origin, before, w) && s in w.regions && Enabled(w, Truncate(s))
    requires reached <= CutOnly(w, s).dirty && dropped <= CutOnly(w, s).dirty
    ensures Truthful(FailedCut(w, s, reached, dropped)) <==> NothingLost(w, s, reached, dropped)
  {
    hide Inv, Init, Runs, Enabled, CutOnly, FailedCut, NothingLost, SyncsHold, NoTruncation, Halted;
    InitHolds(origin);
    RunKeeps(origin, before, w);
    var v := FailedCut(w, s, reached, dropped);
    if NothingLost(w, s, reached, dropped) {
      forall labels, u | Runs(v, labels, u) && NoTruncation(labels)
        ensures SyncsHold(u)
      {
        LosslessIsTruthful(w, s, reached, dropped, labels, u);
      }
    } else {
      var labels, u := LossMisleads(w, s, reached, dropped);
    }
  }

  /** What a caller can see before the call: that no failure of the flush could do harm. */
  ghost predicate SafeToFail(w: World, s: nat)
    requires s in w.regions
  {
    if w.core.flushFailed then w.core.durable <= w.EndOf(s)
    else w.core.committed <= w.EndOf(s) && forall p :: p in w.dirty ==> p >= w.EndOf(s)
  }

  /** Every later sync is truthful, however the flush fails, if and only if nothing committed lies
      past the cut and nothing below it is unflushed; with an earlier failed flush, if and only
      if nothing durable lies past the cut. */
  lemma AnyFailureIsTruthful(origin: World, before: seq<Label>, w: World, s: nat)
    requires Init(origin) && Runs(origin, before, w) && s in w.regions && Enabled(w, Truncate(s))
    ensures SafeToFail(w, s)
       <==> forall reached, dropped :: reached <= CutOnly(w, s).dirty && dropped <= CutOnly(w, s).dirty ==>
              Truthful(FailedCut(w, s, reached, dropped))
  {
    hide Inv, Init, Runs, Enabled, FailedCut, Truthful, CutOnly;
    InitHolds(origin);
    RunKeeps(origin, before, w);
    if SafeToFail(w, s) {
      forall reached, dropped | reached <= CutOnly(w, s).dirty && dropped <= CutOnly(w, s).dirty
        ensures Truthful(FailedCut(w, s, reached, dropped))
      {
        SafeLosesNothing(w, s, reached, dropped);
        FailedTruncationMisleads(origin, before, w, s, reached, dropped);
      }
    } else {
      var dropped := CutOnly(w, s).dirty;
      DroppingLoses(w, s);
      FailedTruncationMisleads(origin, before, w, s, {}, dropped);
    }
  }

  lemma SafeLosesNothing(w: World, s: nat, reached: set<nat>, dropped: set<nat>)
    requires s in w.regions && SafeToFail(w, s) && dropped <= CutOnly(w, s).dirty
    ensures NothingLost(w, s, reached, dropped)
  {
  }

  /** The worst a failed flush can do is to drop everything. */
  lemma DroppingLoses(w: World, s: nat)
    requires Inv(w) && s in w.regions && !SafeToFail(w, s)
    ensures !NothingLost(w, s, {}, CutOnly(w, s).dirty)
  {
    hide Tiles, Marks, Content, Syncers, NoFlushFailure;
    if !w.core.flushFailed && w.core.committed <= w.EndOf(s) {
      var p :| p in w.dirty && p < w.EndOf(s);
      assert p in CutOnly(w, s).dirty && p !in w.stable;
    }
  }

  lemma LosslessIsTruthful(w: World, s: nat, reached: set<nat>, dropped: set<nat>, labels: seq<Label>, u: World)
    requires FailsToCut(w, s, reached, dropped) && NothingLost(w, s, reached, dropped)
    requires Runs(FailedCut(w, s, reached, dropped), labels, u) && NoTruncation(labels)
    ensures SyncsHold(u)
  {
    hide Inv, Runs, Enabled, CutOnly, FailedCut, SyncsHold, NoTruncation, Halted;
    if w.core.flushFailed {
      CutHalts(w, s, reached, dropped);
      HaltedRun(FailedCut(w, s, reached, dropped), labels, u);
    } else {
      HarmlessCut(w, s, reached, dropped);
      RunKeeps(FailedCut(w, s, reached, dropped), labels, u);
      InvHolds(u);
    }
  }
}
