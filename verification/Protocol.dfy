/** The append and group-commit protocol as a labelled transition system. Every step is one
    atomic action of one thread: a reservation, a store call, or a critical section.

    The store is modelled as the bytes reads see (`image`), the positions written but not
    flushed (`dirty`), and what has reached stable storage (`stable`). A flush that
    fails moves some dirty positions to `stable` and forgets others: those are then in neither,
    out of reach of every later flush. */
module Protocol {
  import opened Crc32c
  import opened Record
  import opened Store
  import opened Commit

  /** How far the append that reserved a region has come. */
  datatype Status =
    | Reserved   // the write is in flight
    | Stored     // written, completion not yet recorded
    | Done       // completion recorded
    | Broken     // the write failed, failure not yet recorded
    | Failed     // failure recorded

  datatype Entry = Entry(payload: seq<byte>, status: Status)

  datatype Outcome = Synced | CorruptAt(offset: nat) | FlushError

  /** Where a `sync_to` call is. */
  datatype Phase =
    | Checking
    | Flushing(flushTo: nat, snapshot: set<nat>)
    | Flushed(flushTo: nat, ok: bool)
    | Parked
    | Signalled
    | Returned(outcome: Outcome)

  datatype Syncer = Syncer(target: nat, phase: Phase, flushes: nat)

  datatype World = World(
    head: nat,
    tail: nat,
    limit: nat,
    regions: map<nat, Entry>,
    core: Core,
    syncers: seq<Syncer>,
    image: seq<byte>,
    dirty: set<nat>,
    stable: map<nat, byte>)
  {
    /** The end of the region reserved at `s`. */
    function EndOf(s: nat): nat
      requires s in regions
    {
      s + FramedLen(|regions[s].payload|)
    }

    /** The record reserved at `s` has been written in full, below any recorded failure. */
    predicate OnDisk(s: nat) {
      && s in regions && (regions[s].status == Stored || regions[s].status == Done)
      && (core.poison.Some? ==> s < core.poison.value)
    }

    /** The append that reserved `s` is still running. */
    predicate InFlight(s: nat) {
      s in regions && (regions[s].status == Reserved || regions[s].status == Stored || regions[s].status == Broken)
    }

    /** The regions whose completion has been recorded. */
    function DoneMap(): map<nat, nat> {
      map s | s in regions && regions[s].status == Done :: EndOf(s)
    }

    /** `o` is a record boundary. */
    predicate Boundary(o: nat) {
      o == tail || o in regions
    }
  }

  /** The positions `[lo, hi)`. */
  function Range(lo: nat, hi: nat): (r: set<nat>)
    ensures forall p: nat :: p in r <==> lo <= p < hi
    decreases hi - lo
  {
    if lo >= hi then {} else {lo} + Range(lo + 1, hi)
  }

  function ByteAt(image: seq<byte>, p: nat): byte {
    if p < |image| then image[p] else 0
  }

  /** What flushing the positions `ps` adds to stable storage. */
  function FlushedBytes(image: seq<byte>, ps: set<nat>): map<nat, byte> {
    map p | p in ps :: ByteAt(image, p)
  }

  /** `after` is `image` after a failed write to `[from, to)`: that range holds anything. */
  ghost predicate TornBy(image: seq<byte>, after: seq<byte>, from: nat, to: nat) {
    && |image| <= |after| <= Max(|image|, to)
    && forall p :: 0 <= p < |after| && !(from <= p < to) ==> after[p] == ByteAt(image, p)
  }

  datatype Label =
    | Reserve(payload: seq<byte>)
    | WriteOk(start: nat)
    | WriteFail(start: nat, after: seq<byte>)
    | MarkWritten(start: nat)
    | MarkFailed(start: nat)
    | StartSync(target: nat)
    | Check(i: nat)
    | FlushOk(i: nat, reached: set<nat>)
    | FlushErr(i: nat, reached: set<nat>, dropped: set<nat>)
    | Settle(i: nat)
    | Spurious(i: nat)
    | Resume(i: nat)
    | WriteBack(reached: set<nat>)
    | Truncate(start: nat)

  /** No append or sync is in flight. */
  ghost predicate Quiesced(w: World) {
    && (forall s :: s in w.regions ==> !w.InFlight(s))
    && (forall i :: 0 <= i < |w.syncers| ==> w.syncers[i].phase.Returned?)
  }

  ghost predicate HasStatus(w: World, s: nat, status: Status) {
    s in w.regions && w.regions[s].status == status
  }

  ghost predicate Enabled(w: World, l: Label) {
    match l
    case Reserve(payload) =>
      |payload| <= w.limit && |payload| < WORD && w.tail + FramedLen(|payload|) <= U64_MAX
    case WriteOk(s) => HasStatus(w, s, Reserved)
    case WriteFail(s, after) => HasStatus(w, s, Reserved) && TornBy(w.image, after, s, w.EndOf(s))
    case MarkWritten(s) => HasStatus(w, s, Stored)
    case MarkFailed(s) => HasStatus(w, s, Broken)
    case StartSync(target) => target <= w.tail
    case Check(i) => i < |w.syncers| && w.syncers[i].phase == Checking
    case FlushOk(i, reached) =>
      && i < |w.syncers| && w.syncers[i].phase.Flushing?
      && w.syncers[i].phase.snapshot * w.dirty <= reached <= w.dirty
    case FlushErr(i, reached, dropped) =>
      && i < |w.syncers| && w.syncers[i].phase.Flushing?
      && reached <= w.dirty && dropped <= w.dirty
    case Settle(i) => i < |w.syncers| && w.syncers[i].phase.Flushed?
    case Spurious(i) => i < |w.syncers| && w.syncers[i].phase == Parked
    case Resume(i) => i < |w.syncers| && w.syncers[i].phase == Signalled && w.core.waiters > 0
    case WriteBack(reached) => reached <= w.dirty
    case Truncate(s) => HasStatus(w, s, Done) && w.EndOf(s) <= w.core.committed && Quiesced(w)
  }

  function SetStatus(regions: map<nat, Entry>, s: nat, status: Status): map<nat, Entry>
    requires s in regions
  {
    regions[s := regions[s].(status := status)]
  }

  function WakeOne(y: Syncer): Syncer {
    if y.phase == Parked then y.(phase := Signalled) else y
  }

  /** `notify_all`: every parked thread is signalled. */
  function Notify(ys: seq<Syncer>): (r: seq<Syncer>)
    ensures |r| == |ys| && forall i :: 0 <= i < |ys| ==> r[i] == WakeOne(ys[i])
  {
    seq(|ys|, i requires 0 <= i < |ys| => WakeOne(ys[i]))
  }

  /** As `Notify`, but only if the waiter count is not zero. */
  function NotifyIfAny(ys: seq<Syncer>, waiters: nat): seq<Syncer> {
    if waiters > 0 then Notify(ys) else ys
  }

  /** The syncer after the top of its loop. */
  function Decided(y: Syncer, v: Verdict, dirty: set<nat>): Syncer {
    match v
    case Durable => y.(phase := Returned(Synced))
    case Corrupt(offset) => y.(phase := Returned(CorruptAt(offset)))
    case FlushBroken => y.(phase := Returned(FlushError))
    case Lead(flushTo) => y.(phase := Flushing(flushTo, dirty), flushes := y.flushes + 1)
    case Wait => y.(phase := Parked)
  }

  /** One pass through the top of syncer `i`'s loop, under the lock. */
  function LoopTop(w: World, i: nat): World
    requires i < |w.syncers|
  {
    var v := Decide(w.core, w.syncers[i].target);
    w.(core := Enter(w.core, v), syncers := w.syncers[i := Decided(w.syncers[i], v, w.dirty)])
  }

  /** The leader takes the lock again after its flush, notifies, and loops or returns. */
  function Settled(w: World, i: nat): (v: World)
    requires i < |w.syncers| && w.syncers[i].phase.Flushed?
    ensures |v.syncers| == |w.syncers|
  {
    var y := w.syncers[i];
    var back := w.(core := FlushEnded(w.core, y.phase.flushTo, y.phase.ok), syncers := Notify(w.syncers));
    if y.phase.ok then LoopTop(back, i)
    else back.(syncers := back.syncers[i := y.(phase := Returned(FlushError))])
  }

  /** `truncate_after`: cut the store past the kept record, flush, and reset. */
  function Truncated(w: World, s: nat): World
    requires s in w.regions
  {
    var end := w.EndOf(s);
    var flushed := w.stable + FlushedBytes(w.image, w.dirty);
    w.(tail := end,
       regions := map t | t in w.regions && t < end :: w.regions[t],
       core := Reset(w.core, end),
       syncers := [],
       image := w.image[..Min(end, |w.image|)],
       dirty := {},
       stable := map p | p in flushed && p < end :: flushed[p])
  }

  function AfterReserve(w: World, payload: seq<byte>): World {
    w.(tail := w.tail + FramedLen(|payload|), regions := w.regions[w.tail := Entry(payload, Reserved)])
  }

  function AfterWrite(w: World, s: nat): World
    requires s in w.regions
  {
    w.(regions := SetStatus(w.regions, s, Stored),
       image := Written(w.image, s, Frame(w.regions[s].payload)),
       dirty := w.dirty + Range(s, w.EndOf(s)),
       stable := w.stable - Range(s, w.EndOf(s)))
  }

  function AfterTear(w: World, s: nat, after: seq<byte>): World
    requires s in w.regions
  {
    w.(regions := SetStatus(w.regions, s, Broken),
       image := after,
       dirty := w.dirty - Range(s, w.EndOf(s)),
       stable := w.stable - Range(s, w.EndOf(s)))
  }

  function AfterMark(w: World, s: nat): World
    requires s in w.regions
  {
    w.(regions := SetStatus(w.regions, s, Done),
       core := Marked(w.core, s, w.EndOf(s)),
       syncers := NotifyIfAny(w.syncers, w.core.waiters))
  }

  function AfterPoison(w: World, s: nat): World
    requires s in w.regions
  {
    w.(regions := SetStatus(w.regions, s, Failed),
       core := Poisoned(w.core, s),
       syncers := NotifyIfAny(w.syncers, w.core.waiters))
  }

  /** The positions `reached` get to stable storage, those of `dropped` are lost. */
  function AfterFlush(w: World, reached: set<nat>, dropped: set<nat>): World {
    w.(dirty := w.dirty - reached - dropped, stable := w.stable + FlushedBytes(w.image, reached))
  }

  function SetPhase(w: World, i: nat, phase: Phase): World
    requires i < |w.syncers|
  {
    w.(syncers := w.syncers[i := w.syncers[i].(phase := phase)])
  }

  function Apply(w: World, l: Label): World
    requires Enabled(w, l)
  {
    match l
    case Reserve(payload) => AfterReserve(w, payload)
    case WriteOk(s) => AfterWrite(w, s)
    case WriteFail(s, after) => AfterTear(w, s, after)
    case MarkWritten(s) => AfterMark(w, s)
    case MarkFailed(s) => AfterPoison(w, s)
    case StartSync(target) => w.(syncers := w.syncers + [Syncer(target, Checking, 0)])
    case Check(i) => LoopTop(w, i)
    case FlushOk(i, reached) => SetPhase(AfterFlush(w, reached, {}), i, Flushed(w.syncers[i].phase.flushTo, true))
    case FlushErr(i, reached, dropped) =>
      SetPhase(AfterFlush(w, reached, dropped), i, Flushed(w.syncers[i].phase.flushTo, false))
    case Settle(i) => Settled(w, i)
    case Spurious(i) => SetPhase(w, i, Signalled)
    case Resume(i) => LoopTop(w.(core := w.core.(waiters := w.core.waiters - 1)), i)
    case WriteBack(reached) => AfterFlush(w, reached, {})
    case Truncate(s) => Truncated(w, s)
  }

  /** The run of `labels` from `w` ends in `last`. */
  ghost predicate Runs(w: World, labels: seq<Label>, last: World)
    decreases |labels|
  {
    if labels == [] then last == w
    else Enabled(w, labels[0]) && Runs(Apply(w, labels[0]), labels[1..], last)
  }

  // What every reachable state keeps.

  /** The region at `s` ends where the next one starts, or at the tail. */
  ghost predicate Linked(w: World, s: nat)
    requires s in w.regions
  {
    w.Boundary(w.EndOf(s))
  }

  /** The reserved regions tile the log from its head to its tail. */
  ghost predicate Tiles(w: World) {
    && w.head <= w.tail <= U64_MAX
    && w.Boundary(w.head)
    && (forall s :: s in w.regions ==>
          && w.head <= s && w.EndOf(s) <= w.tail
          && |w.regions[s].payload| <= w.limit && |w.regions[s].payload| < WORD)
    && (forall s, t :: s in w.regions && t in w.regions && s < t ==> w.EndOf(s) <= t)
    && (forall s {:trigger Linked(w, s)} :: s in w.regions ==> Linked(w, s))
  }

  /** The watermark is the drain of the completed regions. */
  ghost predicate WatermarkOk(w: World) {
    Mark(w.core.committed, w.core.pending) == Drain(w.DoneMap(), w.head)
  }

  /** The watermark is exact, the poison is the lowest recorded failure, and what is durable
      ends at a record boundary below the watermark. */
  ghost predicate Marks(w: World) {
    && WatermarkOk(w)
    && (w.core.poison.Some? ==> HasStatus(w, w.core.poison.value, Failed))
    && (forall s :: HasStatus(w, s, Failed) ==> w.core.poison.Some? && w.core.poison.value <= s)
    && w.head <= w.core.durable <= w.core.committed && w.Boundary(w.core.durable)
  }

  /** Every record on disk reads back, and nothing lies past the tail. */
  ghost predicate Content(w: World) {
    && |w.image| <= w.tail
    && (forall s :: w.OnDisk(s) ==> FramedAt(w.image, s, w.regions[s].payload))
  }

  ghost predicate AllStable(w: World, to: nat) {
    forall p :: w.head <= p < to ==> p in w.stable
  }

  /** Every position below `to` is on stable storage or will be when this flush succeeds. */
  ghost predicate FlushCovers(w: World, to: nat, snapshot: set<nat>) {
    forall p :: w.head <= p < to ==> p in w.stable || (p in w.dirty && p in snapshot)
  }

  /** No flush has failed, recorded or not. */
  ghost predicate NoFlushFailure(w: World) {
    && !w.core.flushFailed
    && forall i :: 0 <= i < |w.syncers| ==> !(w.syncers[i].phase.Flushed? && !w.syncers[i].phase.ok)
  }

  /** What is durable is stable, and until a flush fails nothing written is lost. */
  ghost predicate Stability(w: World) {
    && (forall p :: p in w.stable ==> p < |w.image| && w.stable[p] == w.image[p])
    && (forall p :: p in w.dirty ==> w.head <= p < |w.image| && p !in w.stable)
    && AllStable(w, w.core.durable)
    && (NoFlushFailure(w) ==> forall s: nat, p: nat :: w.OnDisk(s) && s <= p < w.EndOf(s) ==> p in w.dirty || p in w.stable)
  }

  ghost predicate Leading(y: Syncer) {
    y.phase.Flushing? || y.phase.Flushed?
  }

  function Waiting(y: Syncer): nat {
    if y.phase == Parked || y.phase == Signalled then 1 else 0
  }

  function CountWaiting(ys: seq<Syncer>): nat {
    if ys == [] then 0 else CountWaiting(ys[..|ys| - 1]) + Waiting(ys[|ys| - 1])
  }

  /** What each `sync_to` call may rely on in its phase. */
  ghost predicate SyncerOk(w: World, y: Syncer) {
    && y.target <= w.tail
    && match y.phase
       case Checking => y.flushes == 0
       case Parked => y.flushes == 0 && Decide(w.core, y.target) == Wait
       case Signalled => y.flushes == 0
       case Flushing(flushTo, snapshot) =>
         && y.flushes == 1 && y.target <= flushTo <= w.core.committed && w.Boundary(flushTo)
         && w.core.syncing && !w.core.flushFailed && FlushCovers(w, flushTo, snapshot)
       case Flushed(flushTo, ok) =>
         && y.flushes == 1 && y.target <= flushTo <= w.core.committed && w.Boundary(flushTo)
         && w.core.syncing && !w.core.flushFailed && (ok ==> AllStable(w, flushTo))
       case Returned(outcome) => y.flushes <= 1 && (outcome == Synced ==> y.target <= w.core.durable)
  }

  /** At most one leader, and the waiter count is exact. */
  ghost predicate Syncers(w: World) {
    && (forall i :: 0 <= i < |w.syncers| ==> SyncerOk(w, w.syncers[i]))
    && (forall i, j :: 0 <= i < |w.syncers| && 0 <= j < |w.syncers| && Leading(w.syncers[i]) && Leading(w.syncers[j]) ==> i == j)
    && (w.core.syncing ==> exists i :: 0 <= i < |w.syncers| && Leading(w.syncers[i]))
    && w.core.waiters == CountWaiting(w.syncers)
  }

  ghost predicate Inv(w: World) {
    Tiles(w) && Marks(w) && Content(w) && Stability(w) && Syncers(w)
  }

  /** A log just opened: recovery found the records of `regions`, all of them stable. */
  ghost predicate Init(w: World) {
    && Tiles(w) && Content(w)
    && (forall s :: s in w.regions ==> w.regions[s].status == Done)
    && w.core == Opened(w.tail)
    && w.syncers == [] && w.dirty == {}
    && AllStable(w, w.tail)
    && (forall p :: p in w.stable ==> p < |w.image| && w.stable[p] == w.image[p])
  }
}
