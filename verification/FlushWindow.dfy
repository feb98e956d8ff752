/** A flush covers only the segments from `syncedFrom` on. When that is enough, exactly. */
module FlushWindow {
  import opened Crc32c
  import opened Store
  import opened Segments
  import opened SegmentedStore
  import opened Division

  /** Segments stay within their size and end by `len`. */
  ghost predicate Fits(files: Files, size: nat, len: nat) {
    forall i :: i in files ==> |files[i]| <= size && i * size + |files[i]| <= len
  }

  /** Segments stay within their size and the length, handles are of existing files, and only
      open segments can have unflushed changes. */
  ghost predicate SegOk(s: Seg, size: nat)
    requires size > 0
  {
    && Fits(s.files, size, s.len)
    && s.open <= s.files.Keys && s.dirty <= s.open
  }

  /** Nothing unflushed lies below the window. */
  ghost predicate Sound(s: Seg) {
    forall i :: i in s.dirty ==> s.syncedFrom <= i
  }

  /** Every byte written is flushed. */
  ghost predicate BytesFlushed(s: Seg) {
    forall i :: i in s.dirty && i in s.files ==> s.files[i] == []
  }

  // What each operation touches.

  lemma PutFits(files: Files, size: nat, len: nat, pos: nat, chunk: seq<byte>)
    requires size > 0 && Fits(files, size, len) && pos % size + |chunk| <= size
    ensures Fits(Put(files, size, pos, chunk), size, Max(len, pos + |chunk|))
  {
    hide Written;
    Splits(pos, size);
    var next, i := Put(files, size, pos, chunk), pos / size;
    assert |next[i]| == Max(|Segment(files, i)|, pos % size + |chunk|);
    forall k | k in next
      ensures |next[k]| <= size && k * size + |next[k]| <= Max(len, pos + |chunk|)
    {
      assert k != i ==> next[k] == files[k];
    }
  }

  lemma {:induction false} WriteFits(files: Files, size: nat, len: nat, pos: nat, bytes: seq<byte>)
    requires size > 0 && Fits(files, size, len)
    ensures bytes != [] ==> Fits(WriteAll(files, size, pos, bytes), size, Max(len, pos + |bytes|))
    ensures WriteAll(files, size, pos, bytes).Keys == files.Keys + Touched(size, pos, |bytes|)
    ensures forall i :: i in Touched(size, pos, |bytes|) ==> WriteAll(files, size, pos, bytes)[i] != []
    ensures forall i :: i in files && files[i] != [] ==> WriteAll(files, size, pos, bytes)[i] != []
    decreases |bytes|
  {
    hide Put, Fits;
    if bytes != [] {
      var take := Min(|bytes|, size - pos % size);
      var next := Put(files, size, pos, bytes[..take]);
      PutFits(files, size, len, pos, bytes[..take]);
      PutFills(files, size, pos, bytes[..take]);
      WriteFits(next, size, Max(len, pos + take), pos + take, bytes[take..]);
    }
  }

  lemma PutFills(files: Files, size: nat, pos: nat, chunk: seq<byte>)
    requires size > 0 && chunk != []
    ensures var next := Put(files, size, pos, chunk);
            && next.Keys == files.Keys + {pos / size} && next[pos / size] != []
            && forall i :: i in files && files[i] != [] ==> next[i] != []
  {
  }

  lemma WriteKeepsOk(s: Seg, size: nat, pos: nat, bytes: seq<byte>)
    requires size > 0 && SegOk(s, size) && pos + |bytes| <= U64_MAX
    ensures SegOk(AfterWrite(s, size, pos, bytes), size)
  {
    hide WriteAll, Touched;
    WriteFits(s.files, size, s.len, pos, bytes);
    if bytes == [] {
      WriteEnds(s.files, size, pos);
    }
  }

  lemma CutKeepsOk(s: Seg, size: nat, len: nat)
    requires size > 0 && SegOk(s, size) && len <= s.len
    ensures SegOk(AfterCut(s, size, len), size)
  {
    Splits(len, size);
    var v := AfterCut(s, size, len);
    forall i | i in v.files
      ensures |v.files[i]| <= size && i * size + |v.files[i]| <= len
    {
      if i < len / size {
        Multiples(i + 1, len / size, size);
        Multiples(i, i, size);
      }
    }
  }

  /** A segment is within a flush's upper bound exactly when it starts below the length. */
  lemma PastTheWindow(i: nat, size: nat, len: nat)
    requires size > 0 && len > 0
    ensures i <= (len - 1) / size <==> i * size < len
  {
    var active := (len - 1) / size;
    Splits(len - 1, size);
    if i <= active {
      Multiples(i, active, size);
    } else {
      Multiples(active + 1, i, size);
      Multiples(active, active, size);
    }
  }

  // The window stays sound, exactly when.

  /** A write keeps the window sound if and only if it does not start below it. */
  lemma WriteIsSound(s: Seg, size: nat, pos: nat, bytes: seq<byte>)
    requires size > 0 && Sound(s) && bytes != []
    ensures Sound(AfterWrite(s, size, pos, bytes)) <==> s.syncedFrom <= pos / size
  {
    hide WriteAll, Touched;
    TouchedRange(size, pos, |bytes|);
    var v := AfterWrite(s, size, pos, bytes);
    assert pos / size in v.dirty;
  }

  /** A truncation keeps it sound if and only if no unflushed segment lies below the cut. */
  lemma CutIsSound(s: Seg, size: nat, len: nat)
    requires size > 0
    ensures Sound(AfterCut(s, size, len)) <==> forall i :: i in s.dirty ==> len / size <= i
  {
    var v := AfterCut(s, size, len);
    if Sound(v) {
      forall i | i in s.dirty
        ensures len / size <= i
      {
        assert i in v.dirty || i > len / size;
      }
    }
  }

  /** What a flush leaves unflushed in a sound state: at most an empty segment just past the
      end of the log. */
  lemma SyncLeaves(s: Seg, size: nat)
    requires size > 0 && SegOk(s, size) && Sound(s)
    ensures AfterSync(s, size).dirty == set i | i in s.dirty && i * size == s.len
    ensures Sound(AfterSync(s, size)) && BytesFlushed(AfterSync(s, size)) && SegOk(AfterSync(s, size), size)
  {
    var v := AfterSync(s, size);
    forall i | i in s.dirty
      ensures i in v.dirty <==> i * size == s.len
      ensures i * size == s.len ==> s.files[i] == [] && v.syncedFrom <= i
    {
      assert i in s.files && i * size + |s.files[i]| <= s.len;
      if s.len > 0 {
        PastTheWindow(i, size, s.len);
      }
    }
  }

  // Whole runs.

  datatype Op = OpWrite(pos: nat, bytes: seq<byte>) | OpCut(len: nat) | OpRead(handles: set<nat>) | OpSync

  /** What the store's user has to keep to: a write starts no lower than the window, and a
      truncation does not go past the length nor raise the window over unflushed segments. */
  ghost predicate Allowed(s: Seg, size: nat, op: Op)
    requires size > 0
  {
    match op
    case OpWrite(pos, bytes) => pos + |bytes| <= U64_MAX && (bytes != [] ==> s.syncedFrom <= pos / size)
    case OpCut(len) => len <= s.len && forall i :: i in s.dirty ==> len / size <= i
    case OpRead(handles) => handles <= s.files.Keys
    case OpSync => true
  }

  function Perform(s: Seg, size: nat, op: Op): Seg
    requires size > 0
  {
    match op
    case OpWrite(pos, bytes) => AfterWrite(s, size, pos, bytes)
    case OpCut(len) => AfterCut(s, size, len)
    case OpRead(handles) => s.(open := s.open + handles)
    case OpSync => AfterSync(s, size)
  }

  function PerformAll(s: Seg, size: nat, ops: seq<Op>): Seg
    requires size > 0
    decreases |ops|
  {
    if ops == [] then s else PerformAll(Perform(s, size, ops[0]), size, ops[1..])
  }

  ghost predicate AllAllowed(s: Seg, size: nat, ops: seq<Op>)
    requires size > 0
    decreases |ops|
  {
    ops == [] || (Allowed(s, size, ops[0]) && AllAllowed(Perform(s, size, ops[0]), size, ops[1..]))
  }

  lemma OpIsSound(s: Seg, size: nat, op: Op)
    requires size > 0 && SegOk(s, size) && Sound(s) && Allowed(s, size, op)
    ensures SegOk(Perform(s, size, op), size) && Sound(Perform(s, size, op))
  {
    hide SegOk, Sound, AfterCut, AfterWrite, AfterSync;
    match op
    case OpWrite(pos, bytes) =>
      WriteKeepsOk(s, size, pos, bytes);
      if bytes == [] {
        EmptyWrite(s, size, pos);
      } else {
        WriteIsSound(s, size, pos, bytes);
      }
    case OpCut(len) =>
      CutKeepsOk(s, size, len);
      CutIsSound(s, size, len);
    case OpRead(handles) => OpenedIsSound(s, size, handles);
    case OpSync => SyncLeaves(s, size);
  }

  lemma EmptyWrite(s: Seg, size: nat, pos: nat)
    requires size > 0 && Sound(s)
    ensures Sound(AfterWrite(s, size, pos, []))
  {
  }

  lemma OpenedIsSound(s: Seg, size: nat, handles: set<nat>)
    requires size > 0 && SegOk(s, size) && Sound(s) && handles <= s.files.Keys
    ensures SegOk(s.(open := s.open + handles), size) && Sound(s.(open := s.open + handles))
  {
  }

  /** Flush-window soundness: in every run that keeps to the conditions, flushing only the
      window makes every written byte stable. */
  lemma {:induction false} WindowIsSound(s: Seg, size: nat, ops: seq<Op>)
    requires size > 0 && SegOk(s, size) && Sound(s) && AllAllowed(s, size, ops)
    ensures var last := PerformAll(s, size, ops);
            SegOk(last, size) && Sound(last) && BytesFlushed(AfterSync(last, size))
    decreases |ops|
  {
    hide SegOk, Sound, Allowed, Perform, AfterSync, BytesFlushed;
    if ops == [] {
      SyncLeaves(s, size);
    } else {
      OpIsSound(s, size, ops[0]);
      WindowIsSound(Perform(s, size, ops[0]), size, ops[1..]);
    }
  }

  /** A truncation into or below the window, and any right after a flush, is allowed. */
  lemma CutsAllowed(s: Seg, size: nat, len: nat)
    requires size > 0 && SegOk(s, size) && Sound(s) && len <= s.len
    ensures len / size <= s.syncedFrom ==> Allowed(s, size, OpCut(len))
    ensures Allowed(AfterSync(s, size), size, OpCut(len))
  {
    hide SegOk;
    SyncLeaves(s, size);
    var v := AfterSync(s, size);
    forall i | i in v.dirty
      ensures len / size <= i
    {
      Locates(i, 0, size);
      Ordered(len, s.len, size);
    }
  }

  /** A write at or above the length the last flush saw starts no lower than the window. */
  lemma AboveTheFlushedLength(s: Seg, size: nat, pos: nat)
    requires size > 0 && s.len > 0 && s.len <= pos
    ensures AfterSync(s, size).syncedFrom <= pos / size
  {
    Ordered(s.len - 1, pos, size);
  }

  /** The log's own discipline, by what it can see: every write starts at or above the length
      the last flush saw, `seen`, and every truncation is to a segment at or below the window or
      comes right after a flush. */
  ghost predicate Careful(s: Seg, size: nat, seen: nat, justFlushed: bool, ops: seq<Op>)
    requires size > 0
    decreases |ops|
  {
    ops == [] ||
    match ops[0]
    case OpWrite(pos, bytes) =>
      && pos + |bytes| <= U64_MAX && (bytes != [] ==> seen <= pos)
      && Careful(Perform(s, size, ops[0]), size, seen, false, ops[1..])
    case OpCut(len) =>
      && len <= s.len && (len / size <= s.syncedFrom || justFlushed)
      && Careful(Perform(s, size, ops[0]), size, seen, false, ops[1..])
    case OpRead(handles) =>
      handles <= s.files.Keys && Careful(Perform(s, size, ops[0]), size, seen, justFlushed, ops[1..])
    case OpSync =>
      Careful(Perform(s, size, ops[0]), size, s.len, true, ops[1..])
  }

  /** What such a run keeps: the window starts no higher than the length and than `seen`, and
      right after a flush only an emptied segment at the end is unflushed. */
  ghost predicate InStep(s: Seg, size: nat, seen: nat, justFlushed: bool)
    requires size > 0
  {
    && SegOk(s, size) && Sound(s)
    && s.syncedFrom <= s.len / size && s.syncedFrom <= seen / size
    && (justFlushed ==> seen == s.len && forall i :: i in s.dirty ==> i * size == s.len)
  }

  lemma WriteInStep(s: Seg, size: nat, seen: nat, justFlushed: bool, pos: nat, bytes: seq<byte>)
    requires size > 0 && InStep(s, size, seen, justFlushed) && pos + |bytes| <= U64_MAX && (bytes != [] ==> seen <= pos)
    ensures Allowed(s, size, OpWrite(pos, bytes)) && InStep(AfterWrite(s, size, pos, bytes), size, seen, false)
  {
    hide SegOk, Sound, WriteAll, Touched;
    if bytes != [] {
      Ordered(seen, pos, size);
    }
    Ordered(s.len, AfterWrite(s, size, pos, bytes).len, size);
    OpIsSound(s, size, OpWrite(pos, bytes));
  }

  lemma CutInStep(s: Seg, size: nat, seen: nat, justFlushed: bool, len: nat)
    requires size > 0 && InStep(s, size, seen, justFlushed) && len <= s.len && (len / size <= s.syncedFrom || justFlushed)
    ensures Allowed(s, size, OpCut(len)) && InStep(AfterCut(s, size, len), size, seen, false)
  {
    hide SegOk;
    Ordered(len, s.len, size);
    forall i | i in s.dirty
      ensures len / size <= i
    {
      Locates(i, 0, size);
    }
    OpIsSound(s, size, OpCut(len));
  }

  lemma SyncInStep(s: Seg, size: nat, seen: nat, justFlushed: bool)
    requires size > 0 && InStep(s, size, seen, justFlushed)
    ensures InStep(AfterSync(s, size), size, s.len, true)
  {
    hide SegOk, Sound;
    SyncLeaves(s, size);
    if s.len > 0 {
      Ordered(s.len - 1, s.len, size);
    }
  }

  /** Flush-window soundness from that discipline: in every such run, flushing only the window
      makes every written byte stable. */
  lemma {:induction false} CarefulRunsAreFlushed(s: Seg, size: nat, seen: nat, justFlushed: bool, ops: seq<Op>)
    requires size > 0 && InStep(s, size, seen, justFlushed) && Careful(s, size, seen, justFlushed, ops)
    ensures BytesFlushed(AfterSync(PerformAll(s, size, ops), size))
    decreases |ops|
  {
    hide InStep, AfterSync, AfterCut, AfterWrite, BytesFlushed;
    if ops == [] {
      InStepIsSound(s, size, seen, justFlushed);
      SyncLeaves(s, size);
    } else {
      match ops[0]
      case OpWrite(pos, bytes) =>
        WriteInStep(s, size, seen, justFlushed, pos, bytes);
        CarefulRunsAreFlushed(AfterWrite(s, size, pos, bytes), size, seen, false, ops[1..]);
      case OpCut(len) =>
        CutInStep(s, size, seen, justFlushed, len);
        CarefulRunsAreFlushed(AfterCut(s, size, len), size, seen, false, ops[1..]);
      case OpRead(handles) =>
        ReadInStep(s, size, seen, justFlushed, handles);
        CarefulRunsAreFlushed(s.(open := s.open + handles), size, seen, justFlushed, ops[1..]);
      case OpSync =>
        SyncInStep(s, size, seen, justFlushed);
        CarefulRunsAreFlushed(AfterSync(s, size), size, s.len, true, ops[1..]);
    }
  }

  lemma InStepIsSound(s: Seg, size: nat, seen: nat, justFlushed: bool)
    requires size > 0 && InStep(s, size, seen, justFlushed)
    ensures SegOk(s, size) && Sound(s)
  {
  }

  lemma ReadInStep(s: Seg, size: nat, seen: nat, justFlushed: bool, handles: set<nat>)
    requires size > 0 && InStep(s, size, seen, justFlushed) && handles <= s.files.Keys
    ensures InStep(s.(open := s.open + handles), size, seen, justFlushed)
  {
  }

  // Where it is not enough.

  /** A write then a flush, from a flushed state: everything is stable if and only if the write
      does not start below the window. */
  lemma WriteThenSync(s: Seg, size: nat, pos: nat, bytes: seq<byte>)
    requires size > 0 && SegOk(s, size) && s.dirty == {} && bytes != [] && pos + |bytes| <= U64_MAX
    ensures AfterSync(AfterWrite(s, size, pos, bytes), size).dirty == {} <==> s.syncedFrom <= pos / size
  {
    hide WriteAll, Touched;
    var v := AfterWrite(s, size, pos, bytes);
    WriteKeepsOk(s, size, pos, bytes);
    WriteIsSound(s, size, pos, bytes);
    TouchedRange(size, pos, |bytes|);
    if s.syncedFrom <= pos / size {
      SyncLeaves(v, size);
      forall i | i in v.dirty
        ensures i * size != v.len
      {
        assert i in Touched(size, pos, |bytes|);
      }
    } else {
      assert pos / size in AfterSync(v, size).dirty;
    }
  }

  /** A truncation then a flush leave everything on stable storage if and only if no unflushed
      segment lies below the cut's own, and the cut is not the first byte of a segment that
      exists. The truncation moves the window up to the cut, over anything unflushed below it;
      and a segment emptied by the cut lies past the last written byte, where the flush stops. */
  lemma CutThenSync(s: Seg, size: nat, len: nat)
    requires size > 0 && SegOk(s, size) && len <= s.len
    ensures AfterSync(AfterCut(s, size, len), size).dirty == {}
       <==> (forall i :: i in s.dirty ==> len / size <= i) && !(len % size == 0 && len / size in s.files)
  {
    hide SegOk;
    var v := AfterCut(s, size, len);
    if i :| i in s.dirty && i < len / size {
      assert i in AfterSync(v, size).dirty;
    } else {
      CutKeepsOk(s, size, len);
      CutIsSound(s, size, len);
      SyncLeaves(v, size);
      Splits(len, size);
      if len % size == 0 && len / size in s.files {
        assert len / size in AfterSync(v, size).dirty;
      } else {
        EmptiedOnly(s, size, len);
      }
    }
  }

  lemma EmptiedOnly(s: Seg, size: nat, len: nat)
    requires size > 0 && SegOk(s, size)
    ensures forall i :: i in AfterCut(s, size, len).dirty && i * size == len ==> len % size == 0 && len / size in s.files
  {
    forall i | i in AfterCut(s, size, len).dirty
      ensures i * size == len ==> len % size == 0 && len / size == i && i in s.files
    {
      Locates(i, 0, size);
    }
  }

  /** A store just opened on an empty directory. */
  const NEW: Seg := Seg(map[], {}, {}, 0, 0, true)

  /** An unflushed append over two segments, then a truncation into the second one: the first
      stays unflushed, for every segment size. */
  lemma CutOverUnflushed(size: nat, bytes: seq<byte>, len: nat)
    requires 0 < size <= len <= |bytes| <= U64_MAX
    ensures !BytesFlushed(AfterSync(AfterCut(AfterWrite(NEW, size, 0, bytes), size, len), size))
  {
    hide WriteAll, Touched;
    var s := AfterWrite(NEW, size, 0, bytes);
    WriteKeepsOk(NEW, size, 0, bytes);
    WriteFits(NEW.files, size, 0, 0, bytes);
    TouchedRange(size, 0, |bytes|);
    Locates(0, 0, size);
    Locates(1, 0, size);
    Ordered(size, len, size);
    var v := AfterSync(AfterCut(s, size, len), size);
    assert 0 in v.dirty && v.files[0] == s.files[0];
  }

  /** A flushed append over two segments, then a truncation to the boundary between them: the
      second stays unflushed. If its old content is what a crash leaves, the log opens longer
      than it was cut. */
  lemma CutAtBoundary(size: nat, bytes: seq<byte>)
    requires 0 < size < |bytes| <= U64_MAX
    ensures var s := AfterSync(AfterWrite(NEW, size, 0, bytes), size);
            && s.dirty == {} && AfterSync(AfterCut(s, size, size), size).dirty != {}
            && 1 in s.files && s.files[1] != []
            && IsOpenLength(CutFiles(s.files, size, size)[1 := s.files[1]], size, Min(size + |s.files[1]|, U64_MAX))
  {
    hide WriteAll, Touched, SegOk, Sound;
    var w := AfterWrite(NEW, size, 0, bytes);
    NewIsSound(size);
    WriteKeepsOk(NEW, size, 0, bytes);
    WriteThenSync(NEW, size, 0, bytes);
    WriteIsSound(NEW, size, 0, bytes);
    SyncLeaves(w, size);
    Locates(1, 0, size);
    SecondExists(size, bytes);
    CutThenSync(AfterSync(w, size), size, size);
    UnflushedCutReturns(w.files, size, size);
  }

  lemma NewIsSound(size: nat)
    requires size > 0
    ensures SegOk(NEW, size) && Sound(NEW) && 0 / size == 0
  {
    Locates(0, 0, size);
  }

  lemma SecondExists(size: nat, bytes: seq<byte>)
    requires 0 < size < |bytes|
    ensures 1 in WriteAll(map[], size, 0, bytes) && WriteAll(map[], size, 0, bytes)[1] != []
  {
    hide At;
    WriteAllAt(map[], size, 0, bytes, size);
    Locates(1, 0, size);
    assert At(WriteAll(map[], size, 0, bytes), size, size).Some?;
    PresentSegment(WriteAll(map[], size, 0, bytes), size, size);
  }

  lemma PresentSegment(files: Files, size: nat, p: nat)
    requires size > 0 && At(files, size, p).Some?
    ensures p / size in files && files[p / size] != []
  {
  }

  /** If that segment's old content is what a crash leaves, the log opens longer than it was cut. */
  lemma UnflushedCutReturns(files: Files, size: nat, len: nat)
    requires size > 0 && len % size == 0 && len / size in files
    ensures var found := CutFiles(files, size, len)[len / size := files[len / size]];
            IsOpenLength(found, size, Min(len + |files[len / size]|, U64_MAX))
  {
    var found := CutFiles(files, size, len)[len / size := files[len / size]];
    Splits(len, size);
    assert IsHighest(found, len / size);
  }

  /** A write past the end of an empty log, into a later segment, that fails once it has created
      the segment: no byte is in the log, yet it opens with the length at which that segment
      starts. */
  lemma OvertakingFailureOverstates(size: nat, pos: nat, bytes: seq<byte>)
    requires 0 < size <= pos <= U64_MAX && bytes != []
    ensures var files := AfterFailedWrite(NEW, size, pos, bytes, Stop(0, true)).files;
            && Gapless(files, size, 0, []) && size <= pos / size * size
            && IsOpenLength(files, size, pos / size * size)
  {
    var files := AfterFailedWrite(NEW, size, pos, bytes, Stop(0, true)).files;
    assert bytes[..0] == [];
    assert files == map[pos / size := []];
    Splits(pos, size);
    Ordered(size, pos, size);
    Locates(1, 0, size);
    Multiples(1, pos / size, size);
    assert IsHighest(files, pos / size);
  }

  /** One that starts at the end of a gap-free log leaves its length right. */
  lemma FailureAtTheEnd(files: Files, size: nat, base: nat, flat: seq<byte>, h: nat)
    requires size > 0 && Gapless(files, size, base, flat) && Fits(files, size, |flat|) && (base < |flat| || |flat| == base == 0)
    requires IsHighest(Created(files, |flat| / size), h)
    ensures h * size + |Created(files, |flat| / size)[h]| == |flat|
  {
    hide Gapless, Fits;
    var last := |flat| / size;
    LastIsHighest(files, size, |flat|, h);
    CreatedIsGapless(files, size, base, flat, last);
    HighestEndsTheLog(Created(files, last), size, base, flat, h);
  }

  /** Segments that end by `len` are no higher than that of `len`. */
  lemma FitsBelow(files: Files, size: nat, len: nat, i: nat)
    requires size > 0 && Fits(files, size, len) && i in files
    ensures i <= len / size && |files[i]| <= size
  {
    Locates(i, 0, size);
    Ordered(i * size, len, size);
  }

  lemma LastIsHighest(files: Files, size: nat, len: nat, h: nat)
    requires size > 0 && Fits(files, size, len) && IsHighest(Created(files, len / size), h)
    ensures h == len / size && h * size <= len && |Created(files, len / size)[h]| <= size
  {
    hide Fits;
    Splits(len, size);
    assert len / size in Created(files, len / size);
    if h in files {
      FitsBelow(files, size, len, h);
    }
  }

  lemma CreatedIsGapless(files: Files, size: nat, base: nat, flat: seq<byte>, i: nat)
    requires size > 0 && Gapless(files, size, base, flat)
    ensures Gapless(Created(files, i), size, base, flat)
  {
    assert forall p: nat :: At(Created(files, i), size, p) == At(files, size, p);
  }
}
