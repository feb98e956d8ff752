/** One whole `sync_to` that has to flush, step by step, in whatever state the other callers are.
    What its flush reaches is left open, so that the run can be told of any store. */
module SyncRun {
  import opened Store
  import opened Commit
  import opened Protocol

  /** A sync to `target` would become the leader at once. */
  ghost predicate MustFlush(w: World, target: nat) {
    && !w.core.syncing && !w.core.flushFailed
    && (w.core.poison.Some? ==> target <= w.core.poison.value)
    && w.core.durable < target <= w.core.committed && target <= w.tail
  }

  function SyncLabels(w: World, target: nat, reached: set<nat>): seq<Label> {
    var n := |w.syncers|;
    [StartSync(target), Check(n), FlushOk(n, reached), Settle(n)]
  }

  function Started(w: World, target: nat): World {
    w.(syncers := w.syncers + [Syncer(target, Checking, 0)])
  }

  function Elected(w: World, target: nat): World {
    w.(core := w.core.(syncing := true),
       syncers := w.syncers + [Syncer(target, Flushing(w.core.committed, w.dirty), 1)])
  }

  function Returning(w: World, target: nat, reached: set<nat>): World {
    w.(core := w.core.(syncing := true),
       syncers := w.syncers + [Syncer(target, Flushed(w.core.committed, true), 1)],
       dirty := w.dirty - reached,
       stable := w.stable + FlushedBytes(w.image, reached))
  }

  /** Everything committed counts as durable, and the call has returned Ok. */
  function AfterSyncRun(w: World, target: nat, reached: set<nat>): World {
    w.(core := w.core.(durable := w.core.committed),
       syncers := Notify(w.syncers) + [Syncer(target, Returned(Synced), 1)],
       dirty := w.dirty - reached,
       stable := w.stable + FlushedBytes(w.image, reached))
  }

  lemma Electing(w: World, target: nat)
    requires MustFlush(w, target)
    ensures Enabled(w, StartSync(target)) && Apply(w, StartSync(target)) == Started(w, target)
    ensures var n, w1 := |w.syncers|, Started(w, target);
            Enabled(w1, Check(n)) && Apply(w1, Check(n)) == Elected(w, target)
  {
    assert LoopTop(Started(w, target), |w.syncers|) == Elected(w, target);
  }

  /** A sync to what is durable already returns at once. */
  lemma ReturnsAtOnce(w: World, target: nat)
    requires target <= w.core.durable && target <= w.tail && (w.core.poison.Some? ==> target <= w.core.poison.value)
    ensures Enabled(w, StartSync(target)) && Apply(w, StartSync(target)) == Started(w, target)
    ensures var n, w1 := |w.syncers|, Started(w, target);
            && Enabled(w1, Check(n))
            && Apply(w1, Check(n)) == w.(syncers := w.syncers + [Syncer(target, Returned(Synced), 0)])
  {
    var n, ys := |w.syncers|, w.syncers + [Syncer(target, Returned(Synced), 0)];
    assert Started(w, target).syncers[n := Syncer(target, Returned(Synced), 0)] == ys;
  }

  lemma Flushing1(w: World, target: nat, reached: set<nat>)
    ensures SetPhase(AfterFlush(Elected(w, target), reached, {}), |w.syncers|, Flushed(w.core.committed, true))
         == Returning(w, target, reached)
  {
    hide FlushedBytes;
    assert w.dirty - reached - {} == w.dirty - reached;
  }

  lemma Settling(w: World, target: nat, reached: set<nat>)
    requires MustFlush(w, target)
    ensures var n, w3 := |w.syncers|, Returning(w, target, reached);
            Enabled(w3, Settle(n)) && Apply(w3, Settle(n)) == AfterSyncRun(w, target, reached)
  {
    hide FlushedBytes;
    var n, w3, y := |w.syncers|, Returning(w, target, reached), Syncer(target, Flushed(w.core.committed, true), 1);
    assert Notify(w3.syncers) == Notify(w.syncers) + [y];
    assert (Notify(w.syncers) + [y])[n := Syncer(target, Returned(Synced), 1)] == Notify(w.syncers) + [Syncer(target, Returned(Synced), 1)];
  }
}
