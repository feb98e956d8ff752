/** What the protocol promises end to end: a sync that returned Ok means recovery after any
    crash returns the record. */
module Durability {
  import opened Crc32c
  import opened Record
  import opened Store
  import opened Commit
  import opened Recovery
  import opened TornWrite
  import opened Protocol
  import opened Safety
  import opened SyncSafety
  import opened Truncation

  /** `c` could be found on disk after a crash in `w`: it keeps what reached stable storage;
      everything else, and its length, is arbitrary. */
  ghost predicate CrashImage(w: World, c: seq<byte>) {
    forall p :: p in w.stable ==> p < |c| && c[p] == w.stable[p]
  }

  /** The payloads reserved in `[s, stop)`, in log order. */
  function Payloads(w: World, s: nat, stop: nat): seq<seq<byte>>
    decreases stop - s
  {
    if s < stop && s in w.regions then [w.regions[s].payload] + Payloads(w, w.EndOf(s), stop) else []
  }

  /** The records of `[s, stop)` as the log should return them. */
  function Expected(w: World, s: nat, stop: nat): seq<Rec> {
    Laid(Payloads(w, s, stop), s)
  }

  /** Every region of `[s, stop)` is framed in `bytes`. */
  ghost predicate FramedThrough(w: World, bytes: seq<byte>, s: nat, stop: nat) {
    forall t :: t in w.regions && s <= t < stop ==> FramedAt(bytes, t, w.regions[t].payload)
  }

  /** Between boundaries, regions framed in place are the tiled framings of their payloads. */
  lemma {:induction false} RegionsAreTiled(w: World, bytes: seq<byte>, s: nat, stop: nat)
    requires Tiles(w) && w.Boundary(s) && w.Boundary(stop) && w.head <= s <= stop <= w.tail
    requires FramedThrough(w, bytes, s, stop)
    ensures Tiled(bytes, s, Payloads(w, s, stop))
    ensures s + |FrameAll(Payloads(w, s, stop))| == stop
    ensures WithinLimit(Payloads(w, s, stop), w.limit)
    decreases stop - s
  {
    hide FramedAt, Frame;
    if s < stop {
      assert Linked(w, s);
      RegionsAreTiled(w, bytes, w.EndOf(s), stop);
    }
  }

  /** A region of `[s, stop)` contributes its record, at its own offset. */
  lemma {:induction false} RegionIsExpected(w: World, s: nat, stop: nat, t: nat)
    requires Tiles(w) && w.Boundary(s) && w.Boundary(stop) && w.head <= s <= stop <= w.tail
    requires t in w.regions && s <= t < stop
    ensures Rec(t, w.regions[t].payload) in Expected(w, s, stop)
    decreases stop - s
  {
    if t != s {
      assert Linked(w, s);
      RegionIsExpected(w, w.EndOf(s), stop, t);
    }
  }

  /** A crash keeps every durable record in place. */
  lemma CrashKeepsFrames(w: World, c: seq<byte>)
    requires Inv(w) && CrashImage(w, c)
    ensures FramedThrough(w, c, w.head, w.core.durable)
  {
    hide Tiles, WatermarkOk, Syncers, Frame, NoFlushFailure;
    forall t | t in w.regions && w.head <= t < w.core.durable
      ensures FramedAt(c, t, w.regions[t].payload)
    {
      DurableRegion(w, t);
      assert forall p :: t <= p < w.EndOf(t) ==> p in w.stable;
      assert w.EndOf(t) - 1 in w.stable;
      assert c[t..w.EndOf(t)] == w.image[t..w.EndOf(t)];
    }
  }

  lemma DurableRegion(w: World, t: nat)
    requires Tiles(w) && Marks(w) && t in w.regions && t < w.core.durable
    ensures w.OnDisk(t) && t < w.EndOf(t) <= w.core.durable
  {
    hide WatermarkOk;
    BelowIsOnDisk(w, t);
  }

  /** The scan of bytes in which the regions of `[head, stop)` are framed reaches `stop` and
      returns them first. */
  lemma FramedIsScanned(w: World, bytes: seq<byte>, stop: nat, limit: nat)
    requires Tiles(w) && w.Boundary(stop) && w.head <= stop <= w.tail && w.limit <= limit
    requires FramedThrough(w, bytes, w.head, stop)
    ensures LogEnd(Whole(bytes), w.head, limit) == LogEnd(Whole(bytes), stop, limit)
    ensures Records(Whole(bytes), w.head, limit) == Expected(w, w.head, stop) + Records(Whole(bytes), stop, limit)
  {
    hide Tiles, LogEnd, Records, FramedThrough, Tiled, Payloads, FrameAll, Laid;
    HeadIsBoundary(w);
    RegionsAreTiled(w, bytes, w.head, stop);
    TiledScan(Whole(bytes), w.head, Payloads(w, w.head, stop), limit);
  }

  /** Recovery of any crash image reaches at least the durable mark, and returns every record
      below it first, at its own sequence number and with its own payload. */
  lemma CrashRecovers(w: World, c: seq<byte>, limit: nat)
    requires Inv(w) && CrashImage(w, c) && w.limit <= limit
    ensures LogEnd(Whole(c), w.head, limit) >= w.core.durable
    ensures Expected(w, w.head, w.core.durable) <= Records(Whole(c), w.head, limit)
  {
    hide Tiles, WatermarkOk, Content, Stability, Syncers, LogEnd, Records, CrashImage, FramedThrough, Expected;
    CrashKeepsFrames(w, c);
    WatermarkIsBoundary(w);
    FramedIsScanned(w, c, w.core.durable, limit);
  }

  lemma HeadIsBoundary(w: World)
    requires Tiles(w)
    ensures w.Boundary(w.head)
  {
  }

  // Over whole runs.

  ghost predicate NoTruncation(labels: seq<Label>) {
    forall i :: 0 <= i < |labels| ==> !labels[i].Truncate?
  }

  /** What no step but a truncation takes back. */
  ghost predicate Persists(w: World, v: World) {
    && v.head == w.head && v.limit == w.limit && w.core.committed <= v.core.committed
    && (forall s :: s in w.regions ==> s in v.regions && v.regions[s].payload == w.regions[s].payload)
    && ReturnedStay(w.syncers, v.syncers)
  }

  /** A call that has returned keeps its outcome. */
  ghost predicate ReturnedStay(before: seq<Syncer>, after: seq<Syncer>) {
    && |before| <= |after|
    && (forall i :: 0 <= i < |before| && before[i].phase.Returned? ==> after[i] == before[i])
  }

  lemma ReserveSpares(w: World, payload: seq<byte>)
    requires Tiles(w)
    ensures Persists(w, AfterReserve(w, payload))
  {
  }

  /** A step that only moves one region's status and perhaps wakes threads. */
  lemma StatusSpares(w: World, v: World, s: nat, status: Status)
    requires s in w.regions && v.regions == SetStatus(w.regions, s, status)
    requires v.head == w.head && v.limit == w.limit && w.core.committed <= v.core.committed
    requires v.syncers == w.syncers || v.syncers == Notify(w.syncers)
    ensures Persists(w, v)
  {
  }

  lemma MarkAdvances(w: World, s: nat)
    requires Inv(w) && HasStatus(w, s, Stored)
    ensures w.core.committed <= AfterMark(w, s).core.committed
  {
    hide Tiles, WatermarkOk, Content, Stability, Syncers, Marked;
    var v := AfterMark(w, s);
    TilesFrame(w, v);
    MarkedWatermark(w, s);
    CommittedGrows(w, v);
  }

  lemma LoopTopSpares(w: World, i: nat)
    requires i < |w.syncers| && !w.syncers[i].phase.Returned?
    ensures Persists(w, LoopTop(w, i))
  {
  }

  lemma SettleSpares(w: World, i: nat)
    requires i < |w.syncers| && w.syncers[i].phase.Flushed?
    ensures Persists(w, Settled(w, i))
  {
  }

  lemma StepPersists(w: World, l: Label)
    requires Inv(w) && Enabled(w, l) && !l.Truncate?
    ensures Persists(w, Apply(w, l))
  {
    hide Tiles, Marks, Content, Stability, Syncers, Settled, LoopTop, Marked, Written, AfterReserve, TornBy;
    match l
    case Reserve(payload) => ReserveSpares(w, payload);
    case WriteOk(s) => StatusSpares(w, AfterWrite(w, s), s, Stored);
    case WriteFail(s, after) => StatusSpares(w, AfterTear(w, s, after), s, Broken);
    case MarkWritten(s) =>
      MarkAdvances(w, s);
      StatusSpares(w, AfterMark(w, s), s, Done);
    case MarkFailed(s) => StatusSpares(w, AfterPoison(w, s), s, Failed);
    case Check(i) => LoopTopSpares(w, i);
    case Settle(i) => SettleSpares(w, i);
    case Resume(i) => LoopTopSpares(w.(core := w.core.(waiters := w.core.waiters - 1)), i);
    case _ =>
  }

  lemma {:induction false} RunPersists(w: World, labels: seq<Label>, v: World)
    requires Inv(w) && Runs(w, labels, v) && NoTruncation(labels)
    ensures Persists(w, v) && Inv(v)
    decreases |labels|
  {
    hide Tiles, Marks, Content, Stability, Syncers, Enabled, Apply;
    if labels != [] {
      var u := Apply(w, labels[0]);
      assert !labels[0].Truncate?;
      StepPersists(w, labels[0]);
      StepKeeps(w, labels[0]);
      assert NoTruncation(labels[1..]);
      RunPersists(u, labels[1..], v);
    }
  }

  /** End-to-end durability: once a sync to `target` has returned Ok, then in every later
      state of every run without truncation, every crash image recovers to an end at or above
      `target`, and every record reserved below `target` is recovered at its sequence number
      with its payload. */
  lemma SyncedRecordsSurvive(
    origin: World, before: seq<Label>, w: World, i: nat, after: seq<Label>, v: World, c: seq<byte>, limit: nat)
    requires Init(origin) && Runs(origin, before, w)
    requires i < |w.syncers| && w.syncers[i].phase == Returned(Synced)
    requires Runs(w, after, v) && NoTruncation(after)
    requires CrashImage(v, c) && w.limit <= limit
    ensures LogEnd(Whole(c), w.head, limit) >= w.syncers[i].target
    ensures forall s :: s in w.regions && s < w.syncers[i].target ==>
              Rec(s, w.regions[s].payload) in Records(Whole(c), w.head, limit)
  {
    hide Tiles, WatermarkOk, Content, Stability, LogEnd, Records, CrashImage, Runs, Init, Expected;
    InitHolds(origin);
    RunKeeps(origin, before, w);
    RunPersists(w, after, v);
    LeaderIsOk(v, i);
    CrashRecovers(v, c, limit);
    forall s | s in w.regions && s < w.syncers[i].target
      ensures Rec(s, w.regions[s].payload) in Records(Whole(c), w.head, limit)
    {
      WatermarkIsBoundary(v);
      HeadIsBoundary(v);
      RegionStart(v, s);
      RegionIsExpected(v, v.head, v.core.durable, s);
    }
  }

  lemma RegionStart(w: World, s: nat)
    requires Tiles(w) && s in w.regions
    ensures w.head <= s
  {
  }
}
