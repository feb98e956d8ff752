/** The watermark is what recovery would find: scanning the live store from the head stops
    exactly at `committed`, unless the record there is already on disk and only its
    completion is still to be recorded. */
module Watermark {
  import opened Crc32c
  import opened Record
  import opened Store
  import opened Commit
  import opened Recovery
  import opened TornWrite
  import opened Protocol
  import opened Safety
  import opened Truncation
  import opened Durability

  /** Nothing of the region at `s` has reached the store: it is past the end, or zeros. */
  ghost predicate Untouched(w: World, s: nat)
    requires s in w.regions
  {
    forall p :: s <= p < w.EndOf(s) && p < |w.image| ==> w.image[p] == 0
  }

  /** Every region still being written is untouched. */
  ghost predicate Blank(w: World) {
    forall s :: HasStatus(w, s, Reserved) ==> Untouched(w, s)
  }

  /** A write to the region at `s` leaves the other regions untouched, zero filling included. */
  lemma WriteStaysBlank(w: World, v: World, s: nat, status: Status)
    requires Tiles(w) && Blank(w) && s in w.regions && status != Reserved
    requires v.regions == SetStatus(w.regions, s, status)
    requires forall p :: 0 <= p < |v.image| && !(s <= p < w.EndOf(s)) ==> v.image[p] == ByteAt(w.image, p)
    ensures Blank(v)
  {
    forall t: nat | HasStatus(v, t, Reserved)
      ensures Untouched(v, t)
    {
      assert t != s && HasStatus(w, t, Reserved);
      assert Untouched(w, t);
      forall p | t <= p < v.EndOf(t) && p < |v.image|
        ensures v.image[p] == 0
      {
        assert !(s <= p < w.EndOf(s));
      }
    }
  }

  lemma WrittenElsewhere(w: World, s: nat)
    requires s in w.regions
    ensures var image := AfterWrite(w, s).image;
            forall p :: 0 <= p < |image| && !(s <= p < w.EndOf(s)) ==> image[p] == ByteAt(w.image, p)
  {
  }

  lemma ReserveStaysBlank(w: World, payload: seq<byte>)
    requires Blank(w) && Content(w)
    ensures Blank(AfterReserve(w, payload))
  {
    hide FramedAt;
    var v := AfterReserve(w, payload);
    forall s | HasStatus(v, s, Reserved)
      ensures Untouched(v, s)
    {
      if s != w.tail {
        assert HasStatus(w, s, Reserved);
        assert Untouched(w, s);
      }
    }
  }

  /** Steps that leave the image alone and start no write. */
  lemma SameImageStaysBlank(w: World, v: World)
    requires Blank(w) && v.image == w.image
    requires forall s :: HasStatus(v, s, Reserved) ==> HasStatus(w, s, Reserved) && v.EndOf(s) == w.EndOf(s)
    ensures Blank(v)
  {
  }

  lemma TruncateStaysBlank(w: World, s: nat)
    requires Enabled(w, Truncate(s))
    ensures Blank(Truncated(w, s))
  {
  }

  lemma StepStaysBlank(w: World, l: Label)
    requires Inv(w) && Blank(w) && Enabled(w, l)
    ensures Blank(Apply(w, l))
  {
    hide Tiles, Marks, Content, Stability, Syncers, Blank, Decide, Marked, FlushEnded, Written, Truncated, AfterReserve;
    match l
    case Reserve(payload) => ReserveStaysBlank(w, payload);
    case WriteOk(s) =>
      WrittenElsewhere(w, s);
      WriteStaysBlank(w, AfterWrite(w, s), s, Stored);
    case WriteFail(s, after) => WriteStaysBlank(w, AfterTear(w, s, after), s, Broken);
    case Truncate(s) => TruncateStaysBlank(w, s);
    case _ => SameImageStaysBlank(w, Apply(w, l));
  }

  lemma {:induction false} RunStaysBlank(w: World, labels: seq<Label>, last: World)
    requires Inv(w) && Blank(w) && Runs(w, labels, last)
    ensures Inv(last) && Blank(last)
    decreases |labels|
  {
    hide Inv, Blank, Enabled, Apply;
    if labels != [] {
      StepKeeps(w, labels[0]);
      StepStaysBlank(w, labels[0]);
      RunStaysBlank(Apply(w, labels[0]), labels[1..], last);
    }
  }

  lemma BelowIsFramed(w: World)
    requires Inv(w)
    ensures FramedThrough(w, w.image, w.head, w.core.committed)
  {
    hide Tiles, WatermarkOk, Stability, Syncers, FramedAt;
    WatermarkFacts(w);
    forall t | t in w.regions && w.head <= t < w.core.committed
      ensures w.OnDisk(t)
    {
      BelowIsOnDisk(w, t);
    }
  }

  /** No record starts at an untouched region, nor at the tail. */
  lemma UntouchedIsDamaged(w: World, at: nat, limit: nat)
    requires Tiles(w) && |w.image| <= w.tail && w.Boundary(at) && at <= w.tail
    requires at in w.regions ==> Untouched(w, at)
    ensures !Recoverable(Whole(w.image), at, limit)
  {
    hide ChecksumHoldsAt;
    if at + HEADER_LEN <= |w.image| {
      ZeroHeaderIsDamaged(w.image, at, limit, |w.image|);
    }
  }

  /** What recovery finds at a region: a record if its framing is in place. */
  lemma FramedIsRecoverable(w: World, at: nat, limit: nat)
    requires Tiles(w) && w.limit <= limit && at in w.regions && FramedAt(w.image, at, w.regions[at].payload)
    ensures LogEnd(Whole(w.image), at, limit) > at && Recoverable(Whole(w.image), at, limit)
  {
    hide Frame, ParseHeader, Verify;
    FramedIsIntact(w.image, at, w.regions[at].payload);
  }

  /** The framing of the record at the watermark is in place, although its completion is not
      recorded: it is written and about to be recorded, or its write was reported as failed
      after all of it had reached the store. */
  ghost predicate WrittenUnrecorded(w: World) {
    var c := w.core.committed;
    c in w.regions && FramedAt(w.image, c, w.regions[c].payload)
  }

  /** The region at the watermark is wholly written, untouched or past the tail. */
  lemma AtTheWatermark(w: World)
    requires Inv(w) && Blank(w)
    requires var c := w.core.committed;
             HasStatus(w, c, Broken) || HasStatus(w, c, Failed) ==> Untouched(w, c) || FramedAt(w.image, c, w.regions[c].payload)
    ensures w.core.committed in w.regions && !WrittenUnrecorded(w) ==> Untouched(w, w.core.committed)
  {
    hide Tiles, WatermarkOk, Stability, Syncers, FramedAt;
    WatermarkFacts(w);
    var c := w.core.committed;
    if HasStatus(w, c, Stored) {
      assert w.OnDisk(c);
    }
  }

  /** Watermark equals recovery. In every reachable state in which the region at the watermark,
      if its write failed, is wholly written or untouched, recovery of the live image finds
      every committed record, and it stops exactly at `committed`, with exactly those records,
      if and only if the record there is not one written but unrecorded. Regions above the
      watermark may hold anything. */
  lemma WatermarkEqualsRecovery(origin: World, labels: seq<Label>, w: World, limit: nat)
    requires Init(origin) && Runs(origin, labels, w) && w.limit <= limit
    requires var c := w.core.committed;
             HasStatus(w, c, Broken) || HasStatus(w, c, Failed) ==> Untouched(w, c) || FramedAt(w.image, c, w.regions[c].payload)
    ensures LogEnd(Whole(w.image), w.head, limit) >= w.core.committed
    ensures Expected(w, w.head, w.core.committed) <= Records(Whole(w.image), w.head, limit)
    ensures LogEnd(Whole(w.image), w.head, limit) == w.core.committed <==> !WrittenUnrecorded(w)
    ensures Records(Whole(w.image), w.head, limit) == Expected(w, w.head, w.core.committed) <==> !WrittenUnrecorded(w)
  {
    hide Tiles, WatermarkOk, Stability, Syncers, Recoverable, Expected, Runs, FramedAt, FramedThrough, Init;
    StartsBlank(origin);
    RunStaysBlank(origin, labels, w);
    WatermarkFacts(w);
    BelowIsFramed(w);
    FramedIsScanned(w, w.image, w.core.committed, limit);
    AtTheWatermark(w);
    if WrittenUnrecorded(w) {
      FramedIsRecoverable(w, w.core.committed, limit);
    } else {
      UntouchedIsDamaged(w, w.core.committed, limit);
    }
  }

  /** A write reported as failed may be found all the same: with its bytes all in place at the
      watermark, recovery returns a record whose append returned an error. */
  lemma FailedWriteMayRecover(w: World, limit: nat)
    requires Inv(w) && w.limit <= limit && HasStatus(w, w.core.committed, Failed) && WrittenUnrecorded(w)
    ensures Rec(w.core.committed, w.regions[w.core.committed].payload) in Records(Whole(w.image), w.head, limit)
  {
    hide Tiles, WatermarkOk, Stability, Syncers, Expected, FramedAt, FramedThrough, Records;
    var c := w.core.committed;
    WatermarkFacts(w);
    BelowIsFramed(w);
    FramedIsScanned(w, w.image, c, limit);
    LimitOf(w, c);
    FramedWithin(w.image, c, w.regions[c].payload);
    ScanPassesFrame(Whole(w.image), c, w.regions[c].payload, limit);
  }

  /** A run that ends so: one append whose write is reported as failed after all its bytes are in
      place. */
  lemma FailedWriteRun(w: World, payload: seq<byte>, limit: nat) returns (labels: seq<Label>, last: World)
    requires Init(w) && Enabled(w, Reserve(payload)) && w.limit <= limit
    ensures Runs(w, labels, last) && HasStatus(last, w.tail, Failed)
    ensures Rec(w.tail, payload) in Records(Whole(last.image), last.head, limit)
  {
    hide Tiles, Content, Records, Frame, Inv, Runs;
    var s, image := w.tail, Written(w.image, w.tail, Frame(payload));
    var w1 := AfterReserve(w, payload);
    var w2 := AfterTear(w1, s, image);
    last := AfterPoison(w2, s);
    labels := [Reserve(payload), WriteFail(s, image), MarkFailed(s)];
    assert TornBy(w1.image, image, s, w1.EndOf(s));
    ThreeSteps(w, w1, w2, last, labels);
    InitHolds(w);
    RunKeeps(w, labels, last);
    assert last.core.committed == s && FramedAt(last.image, s, payload);
    FailedWriteMayRecover(last, limit);
  }

  lemma ThreeSteps(w: World, w1: World, w2: World, w3: World, ls: seq<Label>)
    requires |ls| == 3
    requires Enabled(w, ls[0]) && Apply(w, ls[0]) == w1 && Enabled(w1, ls[1]) && Apply(w1, ls[1]) == w2
    requires Enabled(w2, ls[2]) && Apply(w2, ls[2]) == w3
    ensures Runs(w, ls, w3)
  {
    hide Enabled, Apply;
    assert ls[1..][0] == ls[1] && ls[1..][1..] == ls[2..];
    assert ls[2..][0] == ls[2] && ls[2..][1..] == [];
    assert Runs(w2, ls[2..], w3);
    assert Runs(w1, ls[1..], w3);
  }

  lemma LimitOf(w: World, s: nat)
    requires Tiles(w) && s in w.regions
    ensures |w.regions[s].payload| <= w.limit && |w.regions[s].payload| < WORD
  {
  }

  lemma StartsBlank(w: World)
    requires Init(w)
    ensures Inv(w) && Blank(w)
  {
    InitHolds(w);
  }
}
