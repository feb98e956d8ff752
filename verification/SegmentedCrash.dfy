/** Opening what a crash left of the segment files themselves, instead of a flat image. */
module SegmentedCrash {
  import opened Crc32c
  import opened Record
  import opened Store
  import opened Commit
  import opened Recovery
  import opened TornWrite
  import opened Segments
  import opened HeadMarker
  import opened Protocol
  import opened Safety
  import opened Truncation
  import opened Durability
  import opened SegmentedLog
  import S = SegmentedStore
  import opened Division

  /** `files` keeps what had reached stable storage. Anything else may be lost, or hold anything:
      segments may be missing, short, or hold bytes never written. */
  ghost predicate SegCrash(w: World, size: nat, files: Files)
    requires size > 0
  {
    forall p :: p in w.stable ==> At(files, size, p) == Some(w.stable[p])
  }

  /** Every byte below the durable mark is found where it was. */
  lemma DurableIsFound(w: World, size: nat, files: Files, p: nat)
    requires size > 0 && Inv(w) && SegCrash(w, size, files) && w.head <= p < w.core.durable
    ensures p < |w.image| && At(files, size, p) == Some(w.image[p])
  {
    hide Tiles, Marks, Content, Syncers, NoFlushFailure, At;
    assert p in w.stable;
  }

  /** The length an open computes reaches the durable mark. */
  lemma OpensLongEnough(w: World, size: nat, files: Files, len: nat)
    requires size > 0 && Inv(w) && SegCrash(w, size, files) && S.IsOpenLength(files, size, len)
    ensures w.head < w.core.durable ==> w.core.durable <= len
  {
    hide Tiles, WatermarkOk, Content, Stability, Syncers, At;
    if w.head < w.core.durable {
      var p := w.core.durable - 1;
      DurableIsFound(w, size, files, p);
      DurableFits(w);
      FoundIsWithin(files, size, len, p);
    }
  }

  lemma DurableFits(w: World)
    requires Inv(w)
    ensures w.core.durable <= U64_MAX
  {
    hide WatermarkOk, Content, Stability, Syncers;
    WatermarkFacts(w);
  }

  lemma FoundIsWithin(files: Files, size: nat, len: nat, p: nat)
    requires size > 0 && At(files, size, p).Some? && S.IsOpenLength(files, size, len) && p < U64_MAX
    ensures p < len
  {
    var i := p / size;
    assert i in files;
    var h: nat :| IsHighest(files, h) && len == Min(h * size + |files[h]|, U64_MAX);
    Splits(p, size);
    if i < h {
      Multiples(i + 1, h, size);
      Multiples(i, i, size);
    }
  }

  /** Recovery over whatever segments a crash leaves returns every durable record first. */
  lemma SegCrashRecovers(w: World, size: nat, files: Files, len: nat, limit: nat)
    requires size > 0 && Inv(w) && SegCrash(w, size, files) && S.IsOpenLength(files, size, len) && w.limit <= limit
    requires w.head < w.core.durable
    ensures Expected(w, w.head, w.core.durable) <= Records(View(files, size, len), w.head, limit)
    ensures LogEnd(View(files, size, len), w.head, limit) >= w.core.durable
  {
    hide Tiles, WatermarkOk, Content, Stability, Syncers, LogEnd, Records, Tiled, Payloads, FrameAll, Laid, FramedThrough, SegCrash, S.IsOpenLength, At;
    var d, stop := View(files, size, len), w.core.durable;
    OpensLongEnough(w, size, files, len);
    WatermarkFacts(w);
    HeadIsBoundary(w);
    ViewKeepsFrames(w, size, files, len);
    RegionsAreTiled(w, d.bytes, w.head, stop);
    forall p: nat | w.head <= p < stop
      ensures p !in d.holes
    {
      DurableIsFound(w, size, files, p);
    }
    TiledScan(d, w.head, Payloads(w, w.head, stop), limit);
  }

  lemma ViewKeepsFrames(w: World, size: nat, files: Files, len: nat)
    requires size > 0 && Inv(w) && SegCrash(w, size, files) && w.core.durable <= len
    ensures FramedThrough(w, View(files, size, len).bytes, w.head, w.core.durable)
  {
    hide Tiles, WatermarkOk, Stability, Syncers, Frame, SegCrash, At;
    var c := View(files, size, len).bytes;
    forall t | t in w.regions && w.head <= t < w.core.durable
      ensures FramedAt(c, t, w.regions[t].payload)
    {
      DurableRegion(w, t);
      forall p: nat | t <= p < w.EndOf(t)
        ensures p < |w.image| && c[p] == w.image[p]
      {
        DurableIsFound(w, size, files, p);
      }
      assert c[t..w.EndOf(t)] == w.image[t..w.EndOf(t)];
    }
  }

  /** End-to-end durability through the segment files. After a careful run in which a sync has
      returned Ok, and any careful run after it, whatever a crash leaves of the files: opening
      them and scanning from the head returns every record below the synced offset. */
  lemma SyncedRecordsReopenFromSegments(
    origin: Joint, size: nat, before: seq<Step>, j: Joint, i: nat, after: seq<Step>, last: Joint,
    d: S.Dir, len: nat, limit: nat)
    requires size > 0 && Init(origin.w) && SegRuns(origin, size, true, before, j)
    requires i < |j.w.syncers| && j.w.syncers[i].phase == Returned(Synced)
    requires SegRuns(j, size, true, after, last) && NoTruncation(LabelsOf(after))
    requires SegCrash(last.w, size, d.files) && HeadOf(d.marker) == j.w.head
    requires S.IsOpenLength(d.files, size, len) && j.w.limit <= limit
    ensures forall s :: s in j.w.regions && s < j.w.syncers[i].target ==>
              Rec(s, j.w.regions[s].payload) in Records(View(d.files, size, len), Min(HeadOf(d.marker), len), limit)
  {
    hide Inv, Init, SegRuns, Runs, NoTruncation, SegCrash, Records, LogEnd, View, HeadOf, Expected, S.IsOpenLength;
    StartIsReady(origin, size);
    CarefulRunsComply(origin, size, before, j);
    CarefulRunsComply(j, size, after, last);
    RunPersists(j.w, LabelsOf(after), last.w);
    forall s | s in j.w.regions && s < j.w.syncers[i].target
      ensures Rec(s, j.w.regions[s].payload) in Records(View(d.files, size, len), Min(HeadOf(d.marker), len), limit)
    {
      SyncedIsBelow(last.w, i, s);
      OpensLongEnough(last.w, size, d.files, len);
      SegCrashRecovers(last.w, size, d.files, len, limit);
    }
  }

  lemma StartIsReady(j: Joint, size: nat)
    requires size > 0 && Init(j.w)
    ensures Inv(j.w) && InWindow(j, size)
  {
    hide Tiles, Inv;
    InitHolds(j.w);
  }

  lemma SyncedIsBelow(w: World, i: nat, s: nat)
    requires Inv(w) && i < |w.syncers| && w.syncers[i].phase == Returned(Synced)
    requires s in w.regions && s < w.syncers[i].target
    ensures w.head <= s < w.core.durable
    ensures Rec(s, w.regions[s].payload) in Expected(w, w.head, w.core.durable)
  {
    hide Tiles, WatermarkOk, Content, Stability, Expected;
    assert SyncerOk(w, w.syncers[i]);
    WatermarkFacts(w);
    HeadIsBoundary(w);
    RegionStart(w, s);
    RegionIsExpected(w, w.head, w.core.durable, s);
  }
}
