/** Every step of the protocol keeps the invariant, so every reachable state has it. */
module Safety {
  import opened Crc32c
  import opened Record
  import opened Store
  import opened Commit
  import opened Protocol

  lemma DoneIsDisjoint(w: World)
    requires Tiles(w)
    ensures Disjoint(w.DoneMap(), w.head)
  {
  }

  /** The protocol's watermark is the least offset no completed region covers. */
  lemma WatermarkHolds(w: World)
    requires Tiles(w) && WatermarkOk(w)
    ensures IsWatermark(w.DoneMap(), w.head, Mark(w.core.committed, w.core.pending))
  {
    DoneIsDisjoint(w);
    DrainIsWatermark(w.DoneMap(), w.head);
  }

  /** Every position below the watermark lies in a completed region. */
  lemma CoveringRegion(w: World, p: nat) returns (s: nat)
    requires Tiles(w) && WatermarkOk(w) && w.head <= p < w.core.committed
    ensures HasStatus(w, s, Done) && s <= p < w.EndOf(s)
  {
    hide Drain, Tiles, WatermarkOk;
    WatermarkHolds(w);
    assert Covered(w.DoneMap(), p);
    s :| s in w.DoneMap() && s <= p < w.DoneMap()[s];
  }

  lemma WatermarkIsBoundary(w: World)
    requires Tiles(w) && WatermarkOk(w)
    ensures w.head <= w.core.committed <= w.tail && w.Boundary(w.core.committed)
    ensures w.core.committed in w.regions ==> w.regions[w.core.committed].status != Done
  {
    hide Drain;
    WatermarkHolds(w);
    var done, c := w.DoneMap(), w.core.committed;
    assert c in done ==> Covered(done, c);
    if c != w.head {
      var s :| s in done && done[s] == c;
      assert Linked(w, s);
    }
  }

  lemma BelowIsDone(w: World, s: nat)
    requires Tiles(w) && WatermarkOk(w) && s in w.regions && s < w.core.committed
    ensures w.regions[s].status == Done && w.EndOf(s) <= w.core.committed
  {
    hide Drain;
    var t := CoveringRegion(w, s);
    assert t == s;
    WatermarkIsBoundary(w);
  }

  /** What the watermark means for the regions: everything below it is done, it is a record
      boundary, and the region that starts at it, if any, is not done. */
  lemma WatermarkFacts(w: World)
    requires Tiles(w) && WatermarkOk(w)
    ensures w.head <= w.core.committed <= w.tail && w.Boundary(w.core.committed)
    ensures w.core.committed in w.regions ==> w.regions[w.core.committed].status != Done
    ensures forall s :: s in w.regions && s < w.core.committed ==> w.regions[s].status == Done && w.EndOf(s) <= w.core.committed
  {
    hide WatermarkOk, Tiles;
    WatermarkIsBoundary(w);
    forall s | s in w.regions && s < w.core.committed
      ensures w.regions[s].status == Done && w.EndOf(s) <= w.core.committed
    {
      BelowIsDone(w, s);
    }
  }

  /** The watermark never passes a recorded failure. */
  lemma CommittedStopsAtPoison(w: World)
    requires Tiles(w) && Marks(w) && w.core.poison.Some?
    ensures w.core.committed <= w.core.poison.value
  {
    hide Drain, Tiles;
    WatermarkFacts(w);
  }

  /** Every record below the watermark is on disk. */
  lemma BelowIsOnDisk(w: World, s: nat)
    requires Tiles(w) && Marks(w) && s in w.regions && s < w.core.committed
    ensures w.OnDisk(s) && w.EndOf(s) <= w.core.committed
  {
    hide WatermarkOk, Tiles;
    BelowIsDone(w, s);
    if w.core.poison.Some? {
      CommittedStopsAtPoison(w);
    }
  }

  lemma AllDoneDrains(w: World)
    requires Tiles(w) && forall s :: s in w.regions ==> w.regions[s].status == Done
    ensures Drain(w.DoneMap(), w.head) == Mark(w.tail, map[])
  {
    hide Drain;
    DoneIsDisjoint(w);
    DrainIsWatermark(w.DoneMap(), w.head);
    var m := Drain(w.DoneMap(), w.head);
    assert m.at in w.DoneMap() ==> Covered(w.DoneMap(), m.at);
    if m.at != w.head {
      var s :| s in w.DoneMap() && w.DoneMap()[s] == m.at;
      assert Linked(w, s);
    }
    assert m.pending == map[];
  }

  lemma InitMarks(w: World)
    requires Init(w)
    ensures Marks(w)
  {
    hide Drain, Content;
    AllDoneDrains(w);
  }

  lemma InitStability(w: World)
    requires Init(w)
    ensures Stability(w)
  {
  }

  /** Opening establishes the invariant. */
  lemma InitHolds(w: World)
    requires Init(w)
    ensures Inv(w)
  {
    hide Tiles, Marks, Content, Stability;
    InitMarks(w);
    InitStability(w);
  }

  // Counting waiters.

  lemma {:induction false} CountAfterUpdate(ys: seq<Syncer>, i: nat, y: Syncer)
    requires i < |ys|
    ensures CountWaiting(ys[i := y]) + Waiting(ys[i]) == CountWaiting(ys) + Waiting(y)
    decreases |ys|
  {
    var front := ys[..|ys| - 1];
    if i < |front| {
      CountAfterUpdate(front, i, y);
      assert ys[i := y][..|ys| - 1] == front[i := y];
    } else {
      assert ys[i := y][..|ys| - 1] == front;
    }
  }

  lemma {:induction false} CountAfterNotify(ys: seq<Syncer>)
    ensures CountWaiting(Notify(ys)) == CountWaiting(ys)
  {
    if ys != [] {
      CountAfterNotify(ys[..|ys| - 1]);
      assert Notify(ys)[..|ys| - 1] == Notify(ys[..|ys| - 1]);
    }
  }

  lemma {:induction false} CountBoundsOne(ys: seq<Syncer>, i: nat)
    requires i < |ys|
    ensures Waiting(ys[i]) <= CountWaiting(ys)
    decreases |ys|
  {
    if i < |ys| - 1 {
      CountBoundsOne(ys[..|ys| - 1], i);
    }
  }

  lemma NobodyWaits(ys: seq<Syncer>)
    requires CountWaiting(ys) == 0
    ensures forall i :: 0 <= i < |ys| ==> ys[i].phase != Parked && ys[i].phase != Signalled
  {
  }

  /** Skipping the notify when the count is zero wakes nobody the notify would have: either
      way no thread is left parked, and nothing else about the threads changes. */
  lemma NotifyLeavesNoneParked(ys: seq<Syncer>, waiters: nat)
    requires waiters == CountWaiting(ys)
    ensures var ns := NotifyIfAny(ys, waiters);
            && |ns| == |ys| && CountWaiting(ns) == waiters
            && forall i :: 0 <= i < |ys| ==> ns[i] == WakeOne(ys[i]) && ns[i].phase != Parked
  {
    CountAfterNotify(ys);
    if waiters == 0 {
      NobodyWaits(ys);
    }
  }

  // What a step leaves alone.

  /** Same regions with the same payloads; only statuses may differ. */
  ghost predicate SameShape(w: World, v: World) {
    && v.head == w.head && v.tail == w.tail && v.limit == w.limit
    && (forall s :: s in v.regions <==> s in w.regions)
    && (forall s :: s in w.regions ==> v.regions[s].payload == w.regions[s].payload)
  }

  lemma TilesFrame(w: World, v: World)
    requires Tiles(w) && SameShape(w, v)
    ensures Tiles(v)
  {
    assert v.Boundary(v.head) by { assert w.Boundary(w.head); }
    forall s | s in v.regions
      ensures Linked(v, s)
    {
      assert Linked(w, s);
    }
  }

  lemma MarksFrame(w: World, v: World)
    requires Marks(w) && SameShape(w, v) && v.DoneMap() == w.DoneMap()
    requires forall s :: HasStatus(v, s, Failed) <==> HasStatus(w, s, Failed)
    requires v.core.committed == w.core.committed && v.core.pending == w.core.pending
    requires v.core.durable == w.core.durable && v.core.poison == w.core.poison
    ensures Marks(v)
  {
  }

  lemma ContentFrame(w: World, v: World)
    requires Content(w) && v.image == w.image && w.tail <= v.tail
    requires forall s :: v.OnDisk(s) ==> w.OnDisk(s) && v.regions[s].payload == w.regions[s].payload
    ensures Content(v)
  {
  }

  lemma StabilityFrame(w: World, v: World)
    requires Stability(w) && v.head == w.head && v.image == w.image && v.dirty == w.dirty && v.stable == w.stable
    requires forall s :: v.OnDisk(s) ==> w.OnDisk(s) && v.regions[s].payload == w.regions[s].payload
    requires v.core.durable == w.core.durable && (NoFlushFailure(v) ==> NoFlushFailure(w))
    ensures Stability(v)
  {
  }

  /** Nothing a `sync_to` call relies on is taken back. */
  ghost predicate Keeps(w: World, v: World) {
    && v.head == w.head && w.tail <= v.tail
    && (forall o: nat :: w.Boundary(o) ==> v.Boundary(o))
    && w.core.committed <= v.core.committed && w.core.durable <= v.core.durable
    && v.core.syncing == w.core.syncing && v.core.flushFailed == w.core.flushFailed
    && (forall p :: p in w.stable && p < w.core.committed ==> p in v.stable)
    && (forall p :: p in w.dirty && p < w.core.committed ==> p in v.dirty || p in v.stable)
  }

  lemma SyncerFrame(w: World, v: World, y: Syncer)
    requires Keeps(w, v) && SyncerOk(w, y)
    requires y.phase == Parked ==> Decide(v.core, y.target) == Wait
    ensures SyncerOk(v, y)
  {
  }

  lemma SyncersFrame(w: World, v: World)
    requires Syncers(w) && Keeps(w, v) && v.syncers == w.syncers && v.core.waiters == w.core.waiters
    requires forall t: nat :: Decide(w.core, t) == Wait ==> Decide(v.core, t) == Wait
    ensures Syncers(v)
  {
    hide SyncerOk, Decide, CountWaiting;
    forall i | 0 <= i < |v.syncers|
      ensures SyncerOk(v, v.syncers[i])
    {
      ParkedWaits(w, w.syncers[i]);
      SyncerFrame(w, v, v.syncers[i]);
    }
  }

  lemma ParkedWaits(w: World, y: Syncer)
    requires SyncerOk(w, y)
    ensures y.phase == Parked ==> Decide(w.core, y.target) == Wait
  {
  }

  // The steps of an append.

  /** `v` has the regions of `w` and possibly one more, starting at `w`'s tail. */
  ghost predicate Extends(w: World, v: World) {
    && v.head == w.head && v.limit == w.limit && w.tail <= v.tail
    && (forall s :: s in w.regions ==> s in v.regions && v.regions[s] == w.regions[s])
    && (forall s :: s in v.regions ==> s in w.regions || (s == w.tail && v.regions[s].status == Reserved))
  }

  lemma ReserveExtends(w: World, payload: seq<byte>)
    requires Tiles(w)
    ensures Extends(w, AfterReserve(w, payload))
  {
  }

  lemma ExtendedLinks(w: World, v: World)
    requires Tiles(w) && Extends(w, v) && v.Boundary(w.tail)
    requires w.tail in v.regions ==> v.EndOf(w.tail) == v.tail
    ensures forall s :: s in v.regions ==> Linked(v, s)
  {
    forall s | s in v.regions
      ensures Linked(v, s)
    {
      if s in w.regions {
        assert Linked(w, s);
      }
    }
  }

  lemma ReserveTiles(w: World, payload: seq<byte>)
    requires Tiles(w) && Enabled(w, Reserve(payload))
    ensures Tiles(AfterReserve(w, payload))
  {
    var v := AfterReserve(w, payload);
    ReserveExtends(w, payload);
    ExtendedLinks(w, v);
  }

  lemma ExtendedMarks(w: World, v: World)
    requires Marks(w) && Extends(w, v) && v.core == w.core
    requires forall o: nat :: w.Boundary(o) ==> v.Boundary(o)
    ensures Marks(v)
  {
    hide Drain;
    assert v.DoneMap() == w.DoneMap();
    assert w.core.poison.Some? ==> HasStatus(v, w.core.poison.value, Failed);
    assert forall s :: HasStatus(v, s, Failed) ==> HasStatus(w, s, Failed);
    assert v.Boundary(w.core.durable);
  }

  lemma ReserveKeeps(w: World, payload: seq<byte>)
    requires Inv(w) && Enabled(w, Reserve(payload))
    ensures Inv(AfterReserve(w, payload))
  {
    hide Tiles, Marks, Content, Stability, Syncers, Decide;
    var v := AfterReserve(w, payload);
    ReserveExtends(w, payload);
    ReserveTiles(w, payload);
    assert forall o: nat :: w.Boundary(o) ==> v.Boundary(o);
    ExtendedMarks(w, v);
    ContentFrame(w, v);
    StabilityFrame(w, v);
    SyncersFrame(w, v);
  }

  /** A region not yet done lies at or above the watermark. */
  lemma UnfinishedIsAbove(w: World, s: nat)
    requires Tiles(w) && WatermarkOk(w) && s in w.regions && w.regions[s].status != Done
    ensures w.core.committed <= s
  {
    hide Tiles, WatermarkOk;
    if s < w.core.committed {
      BelowIsDone(w, s);
    }
  }

  /** A status change that neither completes nor fails a region. */
  lemma StatusShape(w: World, v: World, s: nat, status: Status)
    requires s in w.regions && v.regions == SetStatus(w.regions, s, status)
    requires v.head == w.head && v.tail == w.tail && v.limit == w.limit
    ensures SameShape(w, v)
    ensures forall t :: t != s && t in w.regions ==> v.regions[t] == w.regions[t]
    ensures forall o: nat :: w.Boundary(o) <==> v.Boundary(o)
  {
  }

  lemma StatusMarks(w: World, v: World, s: nat, status: Status)
    requires Marks(w) && HasStatus(w, s, Reserved) && v.regions == SetStatus(w.regions, s, status)
    requires status != Done && status != Failed && v.core == w.core
    requires v.head == w.head && v.tail == w.tail && v.limit == w.limit
    ensures Marks(v)
  {
    hide Marks, Drain;
    StatusShape(w, v, s, status);
    assert v.DoneMap() == w.DoneMap();
    MarksFrame(w, v);
  }

  /** Other records are untouched by a write confined to the region at `s`. */
  lemma OthersReadBack(w: World, after: seq<byte>, s: nat, t: nat)
    requires Tiles(w) && Content(w) && s in w.regions && w.OnDisk(t) && t != s
    requires |w.image| <= |after|
    requires forall p :: 0 <= p < |w.image| && !(s <= p < w.EndOf(s)) ==> after[p] == w.image[p]
    ensures FramedAt(after, t, w.regions[t].payload)
  {
    hide Frame;
    assert t + FramedLen(|w.regions[t].payload|) == w.EndOf(t);
    assert w.EndOf(t) <= s || w.EndOf(s) <= t;
    assert after[t..w.EndOf(t)] == w.image[t..w.EndOf(t)];
  }

  lemma WriteContent(w: World, s: nat)
    requires Tiles(w) && Content(w) && s in w.regions
    ensures Content(AfterWrite(w, s))
  {
    hide Tiles, Frame, FramedAt;
    var v := AfterWrite(w, s);
    WriteIsFramed(w, s);
    forall t | v.OnDisk(t)
      ensures FramedAt(v.image, t, v.regions[t].payload)
    {
      if t != s {
        assert w.OnDisk(t);
        OthersReadBack(w, v.image, s, t);
      }
    }
  }

  lemma WriteIsFramed(w: World, s: nat)
    requires Tiles(w) && Content(w) && s in w.regions
    ensures var image := Written(w.image, s, Frame(w.regions[s].payload));
            FramedAt(image, s, w.regions[s].payload) && |image| <= w.tail
  {
  }

  /** The store effects of a write confined to a region above the watermark. */
  lemma StoreKeeps(w: World, v: World, s: nat)
    requires Tiles(w) && Marks(w) && s in w.regions && w.regions[s].status != Done
    requires v.head == w.head && v.tail == w.tail && v.core == w.core
    requires forall o: nat :: w.Boundary(o) ==> v.Boundary(o)
    requires v.stable == w.stable - Range(s, w.EndOf(s)) && w.dirty - Range(s, w.EndOf(s)) <= v.dirty
    ensures Keeps(w, v)
  {
    hide Tiles, WatermarkOk;
    UnfinishedIsAbove(w, s);
  }

  /** `v` differs from `w` by store effects confined to the region at `s`. */
  ghost predicate Confined(w: World, v: World, s: nat)
    requires s in w.regions
  {
    && v.head == w.head && v.core == w.core && v.syncers == w.syncers
    && |w.image| <= |v.image|
    && (forall p :: 0 <= p < |w.image| && !(s <= p < w.EndOf(s)) ==> v.image[p] == w.image[p])
    && v.stable == w.stable - Range(s, w.EndOf(s))
    && w.dirty - Range(s, w.EndOf(s)) <= v.dirty
    && (forall p :: p in v.dirty ==> v.head <= p < |v.image| && p !in v.stable)
  }

  /** Every other record on disk is as it was; the one at `s`, if on disk, is all dirty. */
  ghost predicate OthersOnDisk(w: World, v: World, s: nat)
    requires s in w.regions
  {
    && (v.OnDisk(s) ==> Range(s, w.EndOf(s)) <= v.dirty && v.EndOf(s) == w.EndOf(s))
    && (forall t :: v.OnDisk(t) && t != s ==> w.OnDisk(t) && v.EndOf(t) == w.EndOf(t))
  }

  lemma ConfinedLosesNothing(w: World, v: World, s: nat, t: nat, p: nat)
    requires Tiles(w) && s in w.regions && Confined(w, v, s) && OthersOnDisk(w, v, s)
    requires v.OnDisk(t) && t <= p < v.EndOf(t)
    requires t != s ==> p in w.dirty || p in w.stable
    ensures p in v.dirty || p in v.stable
  {
  }

  lemma ConfinedStability(w: World, v: World, s: nat)
    requires Tiles(w) && Marks(w) && Stability(w) && s in w.regions && w.regions[s].status != Done
    requires Confined(w, v, s) && OthersOnDisk(w, v, s)
    ensures Stability(v)
  {
    hide WatermarkOk, Tiles, NoFlushFailure, OthersOnDisk;
    UnfinishedIsAbove(w, s);
    DurableIsBelow(w);
    SameFlushFailure(w, v);
    if NoFlushFailure(v) {
      forall t: nat, p: nat | v.OnDisk(t) && t <= p < v.EndOf(t)
        ensures p in v.dirty || p in v.stable
      {
        assert t != s ==> w.OnDisk(t) && v.EndOf(t) == w.EndOf(t) by { OtherIsOnDisk(w, v, s, t); }
        ConfinedLosesNothing(w, v, s, t, p);
      }
    }
  }

  lemma OtherIsOnDisk(w: World, v: World, s: nat, t: nat)
    requires s in w.regions && OthersOnDisk(w, v, s) && v.OnDisk(t)
    ensures t != s ==> w.OnDisk(t) && v.EndOf(t) == w.EndOf(t)
  {
  }

  lemma DurableIsBelow(w: World)
    requires Marks(w)
    ensures w.head <= w.core.durable <= w.core.committed && w.Boundary(w.core.durable)
  {
  }

  lemma SameFlushFailure(w: World, v: World)
    requires v.syncers == w.syncers && v.core == w.core
    ensures NoFlushFailure(v) == NoFlushFailure(w)
  {
  }

  lemma WriteIsConfined(w: World, s: nat)
    requires Tiles(w) && Stability(w) && s in w.regions
    ensures Confined(w, AfterWrite(w, s), s)
  {
  }

  lemma WriteKeeps(w: World, s: nat)
    requires Inv(w) && HasStatus(w, s, Reserved)
    ensures Inv(AfterWrite(w, s))
  {
    hide Tiles, Marks, Content, Stability, Syncers, Decide, Frame, Written;
    var v := AfterWrite(w, s);
    StatusShape(w, v, s, Stored);
    TilesFrame(w, v);
    StatusMarks(w, v, s, Stored);
    WriteContent(w, s);
    assert Confined(w, v, s) by { WriteIsConfined(w, s); }
    assert OthersOnDisk(w, v, s);
    ConfinedStability(w, v, s);
    StoreKeeps(w, v, s);
    SyncersFrame(w, v);
  }

  lemma TearContent(w: World, s: nat, after: seq<byte>)
    requires Tiles(w) && Content(w) && HasStatus(w, s, Reserved) && TornBy(w.image, after, s, w.EndOf(s))
    ensures Content(AfterTear(w, s, after))
  {
    hide Frame, FramedAt;
    var v := AfterTear(w, s, after);
    forall t | v.OnDisk(t)
      ensures FramedAt(v.image, t, v.regions[t].payload)
    {
      assert w.OnDisk(t) && t != s;
      OthersReadBack(w, after, s, t);
    }
  }

  lemma TearIsConfined(w: World, s: nat, after: seq<byte>)
    requires Stability(w) && s in w.regions && TornBy(w.image, after, s, w.EndOf(s))
    ensures Confined(w, AfterTear(w, s, after), s)
  {
  }

  lemma TearKeeps(w: World, s: nat, after: seq<byte>)
    requires Inv(w) && HasStatus(w, s, Reserved) && TornBy(w.image, after, s, w.EndOf(s))
    ensures Inv(AfterTear(w, s, after))
  {
    hide Tiles, Marks, Content, Stability, Syncers, Decide, TornBy;
    var v := AfterTear(w, s, after);
    StatusShape(w, v, s, Broken);
    TilesFrame(w, v);
    StatusMarks(w, v, s, Broken);
    TearContent(w, s, after);
    assert Confined(w, v, s) by { TearIsConfined(w, s, after); }
    assert OthersOnDisk(w, v, s);
    ConfinedStability(w, v, s);
    StoreKeeps(w, v, s);
    SyncersFrame(w, v);
  }
}
