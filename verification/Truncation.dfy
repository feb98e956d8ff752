/** Suffix truncation on a quiesced log, and the invariant over whole runs. */
module Truncation {
  import opened Crc32c
  import opened Record
  import opened Store
  import opened Commit
  import opened Protocol
  import opened Safety
  import opened SyncSafety

  /** The regions below the cut end by it and are done. */
  lemma KeptRegions(w: World, s: nat, t: nat)
    requires Tiles(w) && WatermarkOk(w) && Enabled(w, Truncate(s)) && t in w.regions && t < w.EndOf(s)
    ensures w.EndOf(t) <= w.EndOf(s) && w.regions[t].status == Done
  {
    hide WatermarkOk;
    BelowIsDone(w, t);
  }

  lemma TruncatedRegions(w: World, s: nat)
    requires Tiles(w) && WatermarkOk(w) && Enabled(w, Truncate(s))
    ensures var v := Truncated(w, s);
            && (forall t :: t in v.regions ==>
                  t in w.regions && t < w.EndOf(s) && v.regions[t] == w.regions[t] && w.EndOf(t) <= w.EndOf(s) && v.regions[t].status == Done)
            && (forall t :: t in w.regions && t < w.EndOf(s) ==> t in v.regions)
  {
    hide Tiles, WatermarkOk, Quiesced;
    var v := Truncated(w, s);
    forall t | t in v.regions
      ensures w.EndOf(t) <= w.EndOf(s) && v.regions[t].status == Done
    {
      KeptRegions(w, s, t);
    }
  }

  lemma TruncatedLinks(w: World, s: nat, t: nat)
    requires Tiles(w) && WatermarkOk(w) && Enabled(w, Truncate(s)) && t in Truncated(w, s).regions
    ensures Linked(Truncated(w, s), t)
  {
    hide WatermarkOk, Quiesced;
    TruncatedRegions(w, s);
    assert Linked(w, t);
  }

  lemma TruncatedTiles(w: World, s: nat)
    requires Tiles(w) && WatermarkOk(w) && Enabled(w, Truncate(s))
    ensures Tiles(Truncated(w, s))
  {
    hide WatermarkOk, Quiesced;
    var v := Truncated(w, s);
    TruncatedRegions(w, s);
    forall t | t in v.regions
      ensures Linked(v, t)
    {
      TruncatedLinks(w, s, t);
    }
  }

  lemma TruncatedMarks(w: World, s: nat)
    requires Tiles(w) && Marks(w) && Enabled(w, Truncate(s))
    ensures Marks(Truncated(w, s))
  {
    hide Tiles, Quiesced, Drain;
    var v := Truncated(w, s);
    TruncatedRegions(w, s);
    TruncatedTiles(w, s);
    AllDoneDrains(v);
    KeptBoundary(w, s);
  }

  /** The durable mark lands on a boundary of the shortened log. */
  lemma KeptBoundary(w: World, s: nat)
    requires Tiles(w) && Marks(w) && Enabled(w, Truncate(s))
    ensures var v := Truncated(w, s);
            w.head <= v.core.durable <= w.EndOf(s) && v.Boundary(v.core.durable)
  {
    hide WatermarkOk;
    TruncatedRegions(w, s);
  }

  lemma TruncatedContent(w: World, s: nat)
    requires Tiles(w) && Marks(w) && Content(w) && Enabled(w, Truncate(s))
    ensures Content(Truncated(w, s))
  {
    hide Tiles, WatermarkOk, Frame, Quiesced;
    var v := Truncated(w, s);
    TruncatedRegions(w, s);
    forall t: nat | v.OnDisk(t)
      ensures FramedAt(v.image, t, v.regions[t].payload)
    {
      BelowIsOnDisk(w, t);
      assert v.image[t..w.EndOf(t)] == w.image[t..w.EndOf(t)];
    }
  }

  /** Truncation flushes: whatever was dirty below the cut is stable after it. */
  lemma TruncatedIsFlushed(w: World, s: nat, p: nat)
    requires s in w.regions && p < w.EndOf(s) && (p in w.dirty || p in w.stable)
    ensures p in Truncated(w, s).stable
  {
  }

  lemma QuiescedFlushes(w: World)
    requires Quiesced(w) && !w.core.flushFailed
    ensures NoFlushFailure(w)
  {
  }

  lemma TruncatedKeepsBytes(w: World, s: nat)
    requires s in w.regions && Stability(w)
    ensures var v := Truncated(w, s);
            forall p :: p in v.stable ==> p < |v.image| && v.stable[p] == v.image[p]
  {
  }

  lemma TruncatedStability(w: World, s: nat)
    requires Tiles(w) && Marks(w) && Stability(w) && Enabled(w, Truncate(s))
    ensures Stability(Truncated(w, s))
  {
    hide WatermarkOk, NoFlushFailure, Truncated, Quiesced, Reset;
    var v := Truncated(w, s);
    TruncatedFields(w, s);
    TruncatedKeepsBytes(w, s);
    TruncatedRegions(w, s);
    forall p | w.head <= p < v.core.durable
      ensures p in v.stable
    {
      if !w.core.flushFailed {
        QuiescedFlushes(w);
        var t := CoveringRegion(w, p);
        BelowIsOnDisk(w, t);
      }
      TruncatedIsFlushed(w, s, p);
    }
    if NoFlushFailure(v) {
      assert !w.core.flushFailed by { StillFailed(w, v); }
      QuiescedFlushes(w);
      forall t: nat, p: nat | v.OnDisk(t) && t <= p < v.EndOf(t)
        ensures p in v.dirty || p in v.stable
      {
        BelowIsOnDisk(w, t);
        TruncatedIsFlushed(w, s, p);
      }
    }
  }

  lemma StillFailed(w: World, v: World)
    requires NoFlushFailure(v) && v.core.flushFailed == w.core.flushFailed
    ensures !w.core.flushFailed
  {
  }

  lemma TruncatedFields(w: World, s: nat)
    requires s in w.regions
    ensures var v := Truncated(w, s);
            && v.head == w.head && v.tail == w.EndOf(s) && v.limit == w.limit && v.syncers == [] && v.dirty == {}
            && v.core.flushFailed == w.core.flushFailed
            && (w.core.flushFailed ==> v.core.durable <= w.core.durable) && v.core.durable <= w.EndOf(s)
  {
  }

  lemma {:induction false} CountReturned(ys: seq<Syncer>)
    requires forall i :: 0 <= i < |ys| ==> ys[i].phase.Returned?
    ensures CountWaiting(ys) == 0
  {
    if ys != [] {
      CountReturned(ys[..|ys| - 1]);
    }
  }

  lemma TruncatedSyncers(w: World, s: nat)
    requires Syncers(w) && Enabled(w, Truncate(s))
    ensures Syncers(Truncated(w, s))
  {
    CountReturned(w.syncers);
  }

  /** `truncate_after` on a quiesced log, poisoned or with pending regions included,
      re-establishes every invariant. */
  lemma TruncateKeeps(w: World, s: nat)
    requires Inv(w) && Enabled(w, Truncate(s))
    ensures Inv(Truncated(w, s))
  {
    hide Tiles, WatermarkOk, Content, Stability, Syncers, Enabled, Truncated;
    TruncatedTiles(w, s);
    TruncatedMarks(w, s);
    TruncatedContent(w, s);
    TruncatedStability(w, s);
    TruncatedSyncers(w, s);
  }

  /** Every step keeps the invariant. */
  lemma StepKeeps(w: World, l: Label)
    requires Inv(w) && Enabled(w, l)
    ensures Inv(Apply(w, l))
  {
    hide Inv, TornBy, Quiesced;
    match l
    case Reserve(payload) => ReserveKeeps(w, payload);
    case WriteOk(s) => WriteKeeps(w, s);
    case WriteFail(s, after) => TearKeeps(w, s, after);
    case MarkWritten(s) => MarkKeeps(w, s);
    case MarkFailed(s) => PoisonKeeps(w, s);
    case StartSync(target) => StartKeeps(w, target);
    case Check(i) => CheckKeeps(w, i);
    case FlushOk(i, reached) => FlushOkKeeps(w, i, reached);
    case FlushErr(i, reached, dropped) => FlushErrKeeps(w, i, reached, dropped);
    case Settle(i) => SettleKeeps(w, i);
    case Spurious(i) => SpuriousKeeps(w, i);
    case Resume(i) => ResumeKeeps(w, i);
    case WriteBack(reached) => WriteBackKeeps(w, reached);
    case Truncate(s) => TruncateKeeps(w, s);
  }

  /** Every reachable state satisfies the invariant. */
  lemma {:induction false} RunKeeps(w: World, labels: seq<Label>, last: World)
    requires Inv(w) && Runs(w, labels, last)
    ensures Inv(last)
    decreases |labels|
  {
    hide Inv, Enabled, Apply;
    if labels != [] {
      StepKeeps(w, labels[0]);
      RunKeeps(Apply(w, labels[0]), labels[1..], last);
    }
  }
}
