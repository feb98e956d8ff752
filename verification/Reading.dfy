/** Readers and truncations of a running log: an iterator taken while appends go on, and what
    is left after a suffix truncation. */
module Reading {
  import opened Crc32c
  import opened Record
  import opened Store
  import opened Commit
  import opened Recovery
  import opened TornWrite
  import opened Iteration
  import opened Protocol
  import opened Safety
  import opened Truncation
  import opened Durability
  import opened Watermark

  /** `v` comes after `w` in some run without truncation. */
  ghost predicate Later(w: World, v: World) {
    exists labels :: NoTruncation(labels) && Runs(w, labels, v)
  }

  lemma LaterPersists(w: World, v: World)
    requires Inv(w) && Later(w, v)
    ensures Persists(w, v) && Inv(v)
  {
    hide Inv, Runs, NoTruncation;
    var labels :| NoTruncation(labels) && Runs(w, labels, v);
    RunPersists(w, labels, v);
  }

  /** The payloads between two boundaries do not change. */
  lemma {:induction false} PayloadsPersist(w: World, v: World, s: nat, stop: nat)
    requires Tiles(w) && w.Boundary(s) && w.Boundary(stop) && s <= stop <= w.tail
    requires forall t :: t in w.regions && t < stop ==> t in v.regions && v.regions[t].payload == w.regions[t].payload
    ensures Payloads(v, s, stop) == Payloads(w, s, stop)
    decreases stop - s
  {
    if s < stop {
      assert Linked(w, s);
      PayloadsPersist(w, v, w.EndOf(s), stop);
    }
  }

  /** The records committed in `w` stay in place in every later store. */
  lemma CommittedStaysTiled(w: World, v: World, from: nat)
    requires Inv(w) && Later(w, v)
    requires w.Boundary(from) && w.head <= from <= w.core.committed
    ensures Tiled(v.image, from, Payloads(w, from, w.core.committed))
    ensures |v.image| <= U64_MAX
  {
    hide WatermarkOk, Stability, Syncers, FramedAt, Tiled, Payloads, Later;
    LaterPersists(w, v);
    WatermarkIsBoundary(w);
    BelowIsFramed(v);
    PayloadsPersist(w, v, from, w.core.committed);
    CommittedBoundary(w, v, from);
    CommittedBoundary(w, v, w.core.committed);
    WatermarkFacts(v);
    RegionsAreTiled(v, v.image, from, w.core.committed);
  }

  /** A boundary up to the watermark is still one later. */
  lemma CommittedBoundary(w: World, v: World, o: nat)
    requires Inv(w) && Inv(v) && Persists(w, v) && w.Boundary(o) && w.head <= o <= w.core.committed
    ensures v.Boundary(o)
  {
    hide WatermarkOk, Stability, Syncers, Content, Payloads;
    if o !in w.regions {
      TailIsBoundary(w, v);
    }
  }

  lemma TailIsBoundary(w: World, v: World)
    requires Tiles(w) && Tiles(v) && Persists(w, v)
    ensures v.Boundary(w.tail)
  {
    hide Payloads;
    if w.tail != w.head {
      var s := LastRegion(w, w.head);
      assert Linked(v, s);
    } else {
      assert v.Boundary(v.head);
    }
  }

  /** The region that ends at the tail. */
  lemma {:induction false} LastRegion(w: World, from: nat) returns (s: nat)
    requires Tiles(w) && from in w.regions
    ensures s in w.regions && w.EndOf(s) == w.tail
    decreases w.tail - from
  {
    assert Linked(w, from);
    if w.EndOf(from) == w.tail {
      s := from;
    } else {
      s := LastRegion(w, w.EndOf(from));
    }
  }

  /** Iterator stability: an iterator taken in any reachable state, from the head or any record
      boundary up to the watermark, yields exactly the records committed at that moment, one
      per call and then nothing, whatever later state each of its calls meets and whatever is
      missing below its start. */
  lemma IteratorSeesCommitted(
    origin: World, labels: seq<Label>, w: World, from: nat, met: seq<World>, stores: seq<Disk>, policy: RecoveryPolicy)
    requires Init(origin) && Runs(origin, labels, w)
    requires w.Boundary(from) && w.head <= from <= w.core.committed
    requires |stores| == |met| && forall k :: 0 <= k < |met| ==> Later(w, met[k]) && stores[k].bytes == met[k].image && stores[k].ReadableFrom(from)
    ensures ItemsOver(stores, Cursor(from, false), w.core.committed, w.limit, policy)
         == OneByOne(Expected(w, from, w.core.committed), |met|)
  {
    hide Tiles, WatermarkOk, Content, Stability, Syncers, Init, Runs, Later;
    hide Tiled, Payloads, ItemsOver, FrameAll, Advance, Laid, OneByOne, FramedAt, WithinLimit;
    InitHolds(origin);
    RunKeeps(origin, labels, w);
    var payloads := Payloads(w, from, w.core.committed);
    WatermarkIsBoundary(w);
    BelowIsFramed(w);
    RegionsAreTiled(w, w.image, from, w.core.committed);
    forall k | 0 <= k < |stores|
      ensures Usable(stores[k], from) && Tiled(stores[k].bytes, from, payloads)
    {
      CommittedStaysTiled(w, met[k], from);
    }
    IteratorIsStable(stores, from, payloads, w.limit, policy);
  }

  // Suffix truncation.

  /** `v` is `w` cut after the record at `s`: exactly the records through that one, at the same
      sequence numbers, and the log ends there, so the next append lands there. */
  ghost predicate CutAfter(w: World, s: nat, v: World, limit: nat)
    requires s in w.regions
  {
    var end := w.EndOf(s);
    && v.head == w.head && v.tail == v.core.committed == end == |v.image|
    && LogEnd(Whole(v.image), v.head, limit) == end
    && Records(Whole(v.image), v.head, limit) == Expected(w, w.head, end)
    && v.core.durable == (if w.core.flushFailed then Min(w.core.durable, end) else end)
    && v.core.poison == None && v.core.pending == map[]
  }

  /** Suffix truncation: from any quiesced reachable state, poisoned or not, truncating after a
      committed record leaves exactly the records through it, with every invariant of the
      protocol in place again. */
  lemma TruncationKeepsThePrefix(origin: World, labels: seq<Label>, w: World, s: nat, limit: nat)
    requires Init(origin) && Runs(origin, labels, w) && w.limit <= limit
    requires s in w.regions && Enabled(w, Truncate(s))
    ensures Inv(Truncated(w, s)) && CutAfter(w, s, Truncated(w, s), limit)
  {
    hide WatermarkOk, Stability, Syncers, Init, Runs, FramedAt, Quiesced, Truncated, LogEnd, Records, Expected;
    InitHolds(origin);
    RunKeeps(origin, labels, w);
    var v := Truncated(w, s);
    StepKeeps(w, Truncate(s));
    TruncatedShape(w, s);
    BelowIsFramed(v);
    WatermarkIsBoundary(v);
    FramedIsScanned(v, v.image, v.tail, limit);
    KeptPayloads(w, s);
    NothingFollows(v, limit);
  }

  lemma TruncatedShape(w: World, s: nat)
    requires Inv(w) && Enabled(w, Truncate(s))
    ensures var v := Truncated(w, s);
            && v.head == w.head && v.limit == w.limit && v.tail == v.core.committed == w.EndOf(s) == |v.image|
            && v.core.durable == (if w.core.flushFailed then Min(w.core.durable, w.EndOf(s)) else w.EndOf(s))
            && v.core.poison == None && v.core.pending == map[]
  {
    hide WatermarkOk, Stability, Syncers, Quiesced, Frame;
    BelowIsOnDisk(w, s);
    FramedWithin(w.image, s, w.regions[s].payload);
  }

  lemma KeptPayloads(w: World, s: nat)
    requires Inv(w) && Enabled(w, Truncate(s))
    ensures Expected(Truncated(w, s), w.head, w.EndOf(s)) == Expected(w, w.head, w.EndOf(s))
  {
    hide WatermarkOk, Stability, Syncers, Quiesced, Content, Payloads, Reset;
    assert Linked(w, s);
    PayloadsPersist(w, Truncated(w, s), w.head, w.EndOf(s));
  }

  lemma NothingFollows(v: World, limit: nat)
    requires |v.image| == v.tail
    ensures LogEnd(Whole(v.image), v.tail, limit) == v.tail
    ensures Records(Whole(v.image), v.tail, limit) == []
  {
  }
}
