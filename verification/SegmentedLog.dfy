/** The commit protocol over the segmented store, side by side: what its flush really covers. As
    long as no write starts below the window the store honours its contract and everything
    proved of the protocol holds. */
module SegmentedLog {
  import opened Crc32c
  import opened Record
  import opened Store
  import opened Commit
  import opened Segments
  import opened Protocol
  import opened Safety
  import opened SyncSafety
  import opened Truncation
  import opened Durability
  import opened Reopen
  import S = SegmentedStore
  import opened Division

  /** The log and its store. */
  datatype Joint = Joint(w: World, seg: S.Seg)

  /** A step of the log; `stop` is where in the segments a failed write stopped. */
  datatype Step = Step(move: Label, stop: S.Stop)

  function Plain(l: Label): Step {
    Step(l, S.Stop(0, false))
  }

  function LabelsOf(steps: seq<Step>): (labels: seq<Label>)
    ensures |labels| == |steps| && forall i :: 0 <= i < |steps| ==> labels[i] == steps[i].move
  {
    seq(|steps|, i requires 0 <= i < |steps| => steps[i].move)
  }

  /** The unflushed positions that a flush of the segmented store covers. */
  function Reaches(j: Joint, size: nat): set<nat>
    requires size > 0
  {
    set p | p in j.w.dirty && p / size in S.Window(j.seg, size)
  }

  /** The same for the flush that follows a truncation to `end`. */
  function CutReaches(j: Joint, size: nat, end: nat): set<nat>
    requires size > 0
  {
    set p | p in j.w.dirty && p < end && p / size in S.Window(S.AfterCut(j.seg, size, end), size)
  }

  /** A truncation after the record at `s` whose flush covers only `reached`. */
  function CutBy(w: World, s: nat, reached: set<nat>): World
    requires s in w.regions
  {
    var end, flushed := w.EndOf(s), w.stable + FlushedBytes(w.image, reached);
    Truncated(w, s).(dirty := (set p | p in w.dirty && p < end && p !in reached),
                     stable := map p | p in flushed && p < end :: flushed[p])
  }

  /** As in the protocol, except that a flush covers what the segmented store's flush covers. The
      step is the moment the flush reads how much is written: what completes later it may miss,
      and that is a later step here too. */
  ghost predicate SegEnabled(j: Joint, size: nat, t: Step)
    requires size > 0
  {
    match t.move
    case FlushOk(i, reached) => i < |j.w.syncers| && j.w.syncers[i].phase.Flushing? && reached == Reaches(j, size)
    case WriteFail(s, _) => Enabled(j.w, t.move) && t.stop.after < FramedLen(|j.w.regions[s].payload|)
    case _ => Enabled(j.w, t.move)
  }

  function SegApply(j: Joint, size: nat, t: Step): Joint
    requires size > 0 && SegEnabled(j, size, t)
  {
    match t.move
    case WriteOk(s) => Joint(AfterWrite(j.w, s), S.AfterWrite(j.seg, size, s, Frame(j.w.regions[s].payload)))
    case WriteFail(s, after) =>
      Joint(AfterTear(j.w, s, after), S.AfterFailedWrite(j.seg, size, s, Frame(j.w.regions[s].payload), t.stop))
    case FlushOk(i, reached) => AfterSegFlush(j, size, i)
    case Truncate(s) =>
      var end := j.w.EndOf(s);
      Joint(CutBy(j.w, s, CutReaches(j, size, end)), S.AfterSync(S.AfterCut(j.seg, size, end), size))
    case _ => Joint(Apply(j.w, t.move), j.seg)
  }

  function AfterSegFlush(j: Joint, size: nat, i: nat): Joint
    requires size > 0 && i < |j.w.syncers| && j.w.syncers[i].phase.Flushing?
  {
    Joint(SetPhase(AfterFlush(j.w, Reaches(j, size), {}), i, Flushed(j.w.syncers[i].phase.flushTo, true)),
          S.AfterSync(j.seg, size))
  }

  /** A write starts no lower than the window, and a truncation leaves nothing unflushed in a
      segment below the cut's own. Both can be seen before the call. */
  ghost predicate Guarded(j: Joint, size: nat, t: Step)
    requires size > 0
  {
    match t.move
    case WriteOk(s) => j.seg.syncedFrom <= s / size
    case Truncate(s) => s in j.w.regions ==> forall p :: p in j.w.dirty && p < j.w.EndOf(s) ==> j.w.EndOf(s) / size <= p / size
    case _ => true
  }

  /** The run of `steps` from `j` ends in `last`; if `careful`, every step of it is guarded. */
  ghost predicate SegRuns(j: Joint, size: nat, careful: bool, steps: seq<Step>, last: Joint)
    requires size > 0
    decreases |steps|
  {
    if steps == [] then last == j
    else
      && SegEnabled(j, size, steps[0]) && (careful ==> Guarded(j, size, steps[0]))
      && SegRuns(SegApply(j, size, steps[0]), size, careful, steps[1..], last)
  }

  /** Whatever is unflushed lies in the window. */
  ghost predicate InWindow(j: Joint, size: nat)
    requires size > 0
  {
    forall p :: p in j.w.dirty ==> j.seg.syncedFrom <= p / size && p / size in j.seg.open && p < j.seg.len
  }

  lemma {:induction false} TouchedCovers(size: nat, pos: nat, n: nat, p: nat)
    requires size > 0 && pos <= p < pos + n
    ensures p / size in S.Touched(size, pos, n)
    decreases n
  {
    Splits(pos, size);
    var take := Min(n, size - pos % size);
    if p < pos + take {
      SameSegment(pos, p - pos, size);
    } else {
      TouchedCovers(size, pos + take, n - take, p);
    }
  }

  lemma RegionWithin(w: World, s: nat)
    requires Tiles(w) && s in w.regions
    ensures s < w.EndOf(s) <= w.tail <= U64_MAX
  {
  }

  lemma WriteInWindow(j: Joint, size: nat, s: nat)
    requires size > 0 && Tiles(j.w) && InWindow(j, size) && s in j.w.regions && j.seg.syncedFrom <= s / size
    ensures InWindow(Joint(AfterWrite(j.w, s), S.AfterWrite(j.seg, size, s, Frame(j.w.regions[s].payload))), size)
  {
    hide WriteAll, S.Touched, Frame, Written;
    var bytes := Frame(j.w.regions[s].payload);
    RegionWithin(j.w, s);
    var k := Joint(AfterWrite(j.w, s), S.AfterWrite(j.seg, size, s, bytes));
    forall p | p in k.w.dirty
      ensures k.seg.syncedFrom <= p / size && p / size in k.seg.open && p < k.seg.len
    {
      if s <= p < j.w.EndOf(s) {
        TouchedCovers(size, s, |bytes|, p);
        Ordered(s, p, size);
      }
    }
  }

  lemma TearInWindow(j: Joint, size: nat, s: nat, after: seq<byte>, stop: S.Stop)
    requires size > 0 && InWindow(j, size) && s in j.w.regions && stop.after <= FramedLen(|j.w.regions[s].payload|)
    ensures InWindow(Joint(AfterTear(j.w, s, after), S.AfterFailedWrite(j.seg, size, s, Frame(j.w.regions[s].payload), stop)), size)
  {
    hide WriteAll, S.Touched, Frame;
  }

  /** A flush then covers everything unflushed: the store honours its contract. */
  lemma FlushCoversAll(j: Joint, size: nat)
    requires size > 0 && InWindow(j, size)
    ensures Reaches(j, size) == j.w.dirty
  {
    forall p | p in j.w.dirty
      ensures p / size in S.Window(j.seg, size)
    {
      Ordered(p, j.seg.len - 1, size);
    }
  }

  lemma InCutWindow(seg: S.Seg, size: nat, end: nat, p: nat)
    requires size > 0 && p / size in seg.open && p < end && end / size <= p / size
    ensures p / size in S.Window(S.AfterCut(seg, size, end), size)
  {
    hide CutFiles;
    Ordered(p, end - 1, size);
    Ordered(p, end, size);
  }

  /** So does the flush of a guarded truncation. */
  lemma CutCoversAll(j: Joint, size: nat, s: nat)
    requires size > 0 && InWindow(j, size) && s in j.w.regions && Guarded(j, size, Plain(Truncate(s)))
    ensures CutBy(j.w, s, CutReaches(j, size, j.w.EndOf(s))) == Truncated(j.w, s)
  {
    hide S.AfterCut, S.Window, Reset;
    var end := j.w.EndOf(s);
    forall p | p in j.w.dirty && p < end
      ensures p in CutReaches(j, size, end)
    {
      InCutWindow(j.seg, size, end, p);
    }
    CutByAll(j.w, s, CutReaches(j, size, end));
  }

  lemma CutByAll(w: World, s: nat, reached: set<nat>)
    requires s in w.regions && reached == set p | p in w.dirty && p < w.EndOf(s)
    ensures CutBy(w, s, reached) == Truncated(w, s)
  {
    hide Reset;
    var a, b := CutBy(w, s, reached), Truncated(w, s);
    assert a.dirty == b.dirty;
    assert a.stable == b.stable;
  }

  lemma StepInWindow(j: Joint, size: nat, t: Step)
    requires size > 0 && Inv(j.w) && InWindow(j, size) && SegEnabled(j, size, t) && Guarded(j, size, t)
    ensures Enabled(j.w, t.move) && SegApply(j, size, t).w == Apply(j.w, t.move) && InWindow(SegApply(j, size, t), size)
  {
    hide Inv, InWindow, S.AfterWrite, S.AfterFailedWrite, S.AfterSync, S.AfterCut, Frame, Written, Reaches, CutReaches, CutBy, Truncated;
    hide FlushedBytes, Decide, Insert, TornBy, Quiesced, LoopTop, Settled;
    assert Tiles(j.w) by { InvTiles(j.w); }
    match t.move
    case WriteOk(s) => WriteInWindow(j, size, s);
    case WriteFail(s, after) => TearInWindow(j, size, s, after, t.stop);
    case FlushOk(i, _) =>
      FlushCoversAll(j, size);
      FlushedInWindow(j, size, i);
    case Truncate(s) =>
      CutCoversAll(j, size, s);
      NothingInWindow(SegApply(j, size, t), size);
    case _ => QuietInWindow(j, size, t.move);
  }

  lemma InvTiles(w: World)
    requires Inv(w)
    ensures Tiles(w)
  {
  }

  lemma FlushedInWindow(j: Joint, size: nat, i: nat)
    requires size > 0 && InWindow(j, size) && i < |j.w.syncers| && j.w.syncers[i].phase.Flushing?
    ensures InWindow(AfterSegFlush(j, size, i), size)
  {
    FlushCoversAll(j, size);
  }

  lemma NothingInWindow(j: Joint, size: nat)
    requires size > 0 && exists w: World, s: nat :: s in w.regions && j.w == Truncated(w, s)
    ensures InWindow(j, size)
  {
  }

  /** The other steps leave the store alone and write nothing. */
  lemma QuietInWindow(j: Joint, size: nat, l: Label)
    requires size > 0 && InWindow(j, size) && Enabled(j.w, l)
    requires !l.WriteOk? && !l.WriteFail? && !l.FlushOk? && !l.Truncate?
    ensures InWindow(Joint(Apply(j.w, l), j.seg), size)
  {
    hide Decide, Insert, FlushedBytes;
    assert Apply(j.w, l).dirty <= j.w.dirty;
  }

  /** A careful run over the segmented store is a run of the protocol, failed writes, writes that
      overtake each other inside the window and truncations included. */
  lemma {:induction false} CarefulRunsComply(j: Joint, size: nat, steps: seq<Step>, last: Joint)
    requires size > 0 && Inv(j.w) && InWindow(j, size) && SegRuns(j, size, true, steps, last)
    ensures Runs(j.w, LabelsOf(steps), last.w) && Inv(last.w) && InWindow(last, size)
    decreases |steps|
  {
    hide Inv, InWindow, SegEnabled, SegApply, Guarded, Enabled, Apply;
    if steps != [] {
      StepInWindow(j, size, steps[0]);
      StepKeeps(j.w, steps[0].move);
      CarefulRunsComply(SegApply(j, size, steps[0]), size, steps[1..], last);
      assert LabelsOf(steps)[1..] == LabelsOf(steps[1..]);
    }
  }

  /** End-to-end durability over the segmented store, for every segment size: if every step is
      guarded, the log reopened on any crash image holds every record below a synced offset. */
  lemma SegmentedRecordsReopen(
    origin: Joint, size: nat, before: seq<Step>, j: Joint, i: nat, after: seq<Step>, last: Joint, c: seq<byte>, limit: nat)
    requires size > 0 && Init(origin.w) && SegRuns(origin, size, true, before, j)
    requires i < |j.w.syncers| && j.w.syncers[i].phase == Returned(Synced)
    requires SegRuns(j, size, true, after, last) && NoTruncation(LabelsOf(after))
    requires CrashImage(last.w, c) && |c| <= U64_MAX && j.w.limit <= limit
    ensures var next := Reopened(c, j.w.head, limit);
            && Init(next) && (j.w.head <= |c| ==> next.tail >= j.w.syncers[i].target)
            && forall s :: s in j.w.regions && s < j.w.syncers[i].target ==>
                 HasStatus(next, s, Done) && next.regions[s].payload == j.w.regions[s].payload
  {
    hide Inv, SegRuns, Runs, CrashImage, Reopened, NoTruncation, Tiles, Content, AllStable;
    InitHolds(origin.w);
    CarefulRunsComply(origin, size, before, j);
    CarefulRunsComply(j, size, after, last);
    SyncedRecordsReopen(origin.w, LabelsOf(before), j.w, i, LabelsOf(after), last.w, c, limit);
  }

  // Writes in order.

  /** The write neither fails nor overtakes an earlier one; nothing is truncated. */
  ghost predicate InOrder(w: World, l: Label) {
    && !l.WriteFail? && !l.Truncate?
    && (l.WriteOk? ==> forall t :: t in w.regions && t < l.start ==> w.regions[t].status != Reserved)
  }

  ghost predicate AllInOrder(j: Joint, size: nat, steps: seq<Step>)
    requires size > 0
    decreases |steps|
  {
    steps == [] ||
    (InOrder(j.w, steps[0].move) && SegEnabled(j, size, steps[0]) && AllInOrder(SegApply(j, size, steps[0]), size, steps[1..]))
  }

  /** Everything reserved below `f` has been written, and nothing above it. */
  ghost predicate Frontier(w: World, f: nat) {
    && w.Boundary(f) && f <= w.tail
    && (forall t :: t in w.regions && t < f ==> w.regions[t].status != Reserved)
    && (forall t :: t in w.regions && f <= t ==> w.regions[t].status == Reserved)
  }

  /** The length is where the writes so far end, and the window starts no higher. */
  ghost predicate Together(j: Joint, size: nat)
    requires size > 0
  {
    j.seg.syncedFrom <= j.seg.len / size && Frontier(j.w, j.seg.len)
  }

  lemma OpenedTogether(j: Joint, size: nat)
    requires size > 0 && Init(j.w) && j.seg.len == j.w.tail && j.seg.syncedFrom == j.w.tail / size
    ensures Together(j, size) && InWindow(j, size)
  {
  }

  /** A write that overtakes nothing starts where everything written so far ends. */
  lemma NextInOrder(w: World, f: nat, s: nat)
    requires Tiles(w) && Frontier(w, f) && HasStatus(w, s, Reserved) && InOrder(w, WriteOk(s))
    ensures s == f && Frontier(AfterWrite(w, s), w.EndOf(s))
  {
    assert Linked(w, s);
    var v := AfterWrite(w, s);
    forall t | t in v.regions
      ensures t < w.EndOf(s) ==> v.regions[t].status != Reserved
      ensures w.EndOf(s) <= t ==> v.regions[t].status == Reserved
    {
      assert t != s ==> v.regions[t] == w.regions[t];
    }
  }

  lemma FrontierStays(w: World, v: World, f: nat)
    requires Frontier(w, f) && w.tail <= v.tail && (forall o: nat :: w.Boundary(o) ==> v.Boundary(o))
    requires forall t :: t in v.regions && t in w.regions ==> (v.regions[t].status == Reserved <==> w.regions[t].status == Reserved)
    requires forall t :: t in v.regions && t !in w.regions ==> t == w.tail && v.regions[t].status == Reserved
    ensures Frontier(v, f)
  {
  }

  /** A step that neither writes nor truncates starts no write but a reservation at the tail. */
  lemma QuietStatuses(w: World, l: Label)
    requires Enabled(w, l) && !l.WriteOk? && !l.WriteFail? && !l.Truncate?
    ensures var v := Apply(w, l);
            && w.tail <= v.tail && (forall o: nat :: w.Boundary(o) ==> v.Boundary(o))
            && (forall t :: t in v.regions && t in w.regions && t != w.tail ==>
                  (v.regions[t].status == Reserved <==> w.regions[t].status == Reserved))
            && (forall t :: t in v.regions && t !in w.regions ==> t == w.tail && v.regions[t].status == Reserved)
  {
    hide Decide, Insert, FlushedBytes;
  }

  lemma StepInOrder(j: Joint, size: nat, t: Step)
    requires size > 0 && Tiles(j.w) && Together(j, size) && SegEnabled(j, size, t) && InOrder(j.w, t.move)
    ensures Guarded(j, size, t) && Together(SegApply(j, size, t), size)
  {
    hide Tiles, Frontier, Frame, Written, WriteAll, S.Touched, FlushedBytes, Reaches, Apply;
    var k := SegApply(j, size, t);
    if t.move.WriteOk? {
      NextInOrder(j.w, j.seg.len, t.move.start);
      RegionWithin(j.w, t.move.start);
      Ordered(t.move.start, j.w.EndOf(t.move.start), size);
    } else if t.move.FlushOk? {
      if j.seg.len > 0 {
        Ordered(j.seg.len - 1, j.seg.len, size);
      }
      FrontierStays(j.w, k.w, j.seg.len);
    } else {
      assert j.w.tail !in j.w.regions by { TailIsFree(j.w); }
      QuietStatuses(j.w, t.move);
      FrontierStays(j.w, k.w, j.seg.len);
    }
  }

  lemma TailIsFree(w: World)
    requires Tiles(w)
    ensures w.tail !in w.regions
  {
  }

  /** Writes that complete in order are never below the window, so such a run is careful. */
  lemma {:induction false} InOrderIsCareful(j: Joint, size: nat, steps: seq<Step>, last: Joint)
    requires size > 0 && Inv(j.w) && InWindow(j, size) && Together(j, size)
    requires SegRuns(j, size, false, steps, last) && AllInOrder(j, size, steps)
    ensures SegRuns(j, size, true, steps, last)
    decreases |steps|
  {
    hide Inv, InWindow, Together, SegEnabled, SegApply, Guarded, InOrder;
    if steps != [] {
      InvTiles(j.w);
      StepInOrder(j, size, steps[0]);
      StepInWindow(j, size, steps[0]);
      StepKeeps(j.w, steps[0].move);
      InOrderIsCareful(SegApply(j, size, steps[0]), size, steps[1..], last);
    }
  }

  /** On a log just opened, too: the store is as long as the log, and the window starts at its
      end. */
  lemma OpenedInOrder(j: Joint, size: nat, steps: seq<Step>, last: Joint)
    requires size > 0 && Init(j.w) && j.seg.len == j.w.tail && j.seg.syncedFrom == j.w.tail / size
    requires SegRuns(j, size, false, steps, last) && AllInOrder(j, size, steps)
    ensures SegRuns(j, size, true, steps, last)
  {
    hide Inv, Init, SegRuns, AllInOrder;
    OpenedTogether(j, size);
    InitHolds(j.w);
    InOrderIsCareful(j, size, steps, last);
  }
}
