/** The segmented store as an object: handles, the window of segments a flush covers, and the
    operations that split, cut and flush the segment files. */
module SegmentedStore {
  import opened Crc32c
  import opened Store
  import opened Segments
  import opened HeadMarker
  import opened Directory
  import opened Division

  /** The state of a segmented store. `open` are the segments with a handle; `dirty` are those
      with changes not yet flushed, which the code does not track. */
  datatype Seg = Seg(
    files: Files,
    open: set<nat>,
    dirty: set<nat>,
    len: nat,
    syncedFrom: nat,
    dirDirty: bool)

  /** The segments a write of `n` bytes at `pos` touches. */
  function Touched(size: nat, pos: nat, n: nat): set<nat>
    requires size > 0
    decreases n
  {
    if n == 0 then {}
    else
      var take := Min(n, Room(pos, size));
      {pos / size} + Touched(size, pos + take, n - take)
  }

  lemma {:induction false} IsTouched(size: nat, pos: nat, n: nat, i: nat)
    requires size > 0
    ensures i in Touched(size, pos, n) <==> n > 0 && pos / size <= i && i * size < pos + n
    decreases n
  {
    if n > 0 {
      var q, take := pos / size, Min(n, size - pos % size);
      Splits(pos, size);
      Multiples(q, q, size);
      IsTouched(size, pos + take, n - take, i);
      if take < n {
        NextSegment(pos, size);
      }
      if q < i {
        Multiples(q + 1, i, size);
      }
    }
  }

  /** Exactly those that hold a byte of it. */
  lemma TouchedRange(size: nat, pos: nat, n: nat)
    requires size > 0
    ensures n > 0 ==> pos / size in Touched(size, pos, n)
    ensures forall i :: i in Touched(size, pos, n) <==> n > 0 && pos / size <= i && i * size < pos + n
  {
    hide Touched;
    forall i: nat
      ensures i in Touched(size, pos, n) <==> n > 0 && pos / size <= i && i * size < pos + n
    {
      IsTouched(size, pos, n, i);
    }
    Splits(pos, size);
  }

  function AfterWrite(s: Seg, size: nat, pos: nat, bytes: seq<byte>): Seg
    requires size > 0
  {
    var touched := Touched(size, pos, |bytes|);
    s.(files := WriteAll(s.files, size, pos, bytes),
       open := s.open + touched,
       dirty := s.dirty + touched,
       len := Max(s.len, Min(pos + |bytes|, U64_MAX)),
       dirDirty := s.dirDirty || !(touched <= s.open))
  }

  /** The segments past the one that holds `len`. */
  function Past(files: Files, size: nat, len: nat): set<nat>
    requires size > 0
  {
    set i | i in files && i > len / size
  }

  /** The segment that straddles `len`, if there is one. */
  function Straddling(files: Files, size: nat, len: nat): set<nat>
    requires size > 0
  {
    if len / size in files then {len / size} else {}
  }

  function AfterCut(s: Seg, size: nat, len: nat): Seg
    requires size > 0
  {
    var gone, last := Past(s.files, size, len), Straddling(s.files, size, len);
    s.(files := CutFiles(s.files, size, len),
       open := s.open - gone + last,
       dirty := s.dirty - gone + last,
       len := len,
       syncedFrom := len / size,
       dirDirty := s.dirDirty || gone != {} || !(last <= s.open))
  }

  /** What a truncation does with one directory entry. */
  function CutEntry(s: Seg, size: nat, len: nat, i: nat): Seg
    requires size > 0 && i in s.files
  {
    if i > len / size then
      s.(files := s.files - {i}, open := s.open - {i}, dirty := s.dirty - {i}, dirDirty := true)
    else if i == len / size then
      s.(files := s.files[i := Resized(s.files[i], len % size)], open := s.open + {i}, dirty := s.dirty + {i},
         dirDirty := s.dirDirty || i !in s.open)
    else s
  }

  /** A truncation that has dealt with the entries `done`. */
  function CutSome(s: Seg, size: nat, len: nat, done: set<nat>): Seg
    requires size > 0
  {
    var gone, last := Past(s.files, size, len) * done, Straddling(s.files, size, len) * done;
    s.(files := map i | i in s.files && i !in gone :: if i in last then Resized(s.files[i], len % size) else s.files[i],
       open := s.open - gone + last,
       dirty := s.dirty - gone + last,
       dirDirty := s.dirDirty || gone != {} || !(last <= s.open))
  }

  lemma CutNone(s: Seg, size: nat, len: nat)
    requires size > 0
    ensures CutSome(s, size, len, {}) == s
  {
  }

  lemma CutSomeStep(s: Seg, size: nat, len: nat, done: set<nat>, i: nat)
    requires size > 0 && i in s.files && i !in done
    ensures i in CutSome(s, size, len, done).files
    ensures CutEntry(CutSome(s, size, len, done), size, len, i) == CutSome(s, size, len, done + {i})
  {
    var a, b := CutEntry(CutSome(s, size, len, done), size, len, i), CutSome(s, size, len, done + {i});
    var past, last := Past(s.files, size, len), Straddling(s.files, size, len);
    if i > len / size {
      assert past * (done + {i}) == past * done + {i} && last * (done + {i}) == last * done;
    } else if i == len / size {
      assert past * (done + {i}) == past * done && last * (done + {i}) == {i} && last * done == {};
    } else {
      assert past * (done + {i}) == past * done && last * (done + {i}) == last * done;
    }
    assert a.files == b.files;
  }

  lemma CutSomeAll(s: Seg, size: nat, len: nat)
    requires size > 0
    ensures CutSome(s, size, len, s.files.Keys).(len := len, syncedFrom := len / size) == AfterCut(s, size, len)
  {
    var gone, last := Past(s.files, size, len), Straddling(s.files, size, len);
    assert gone * s.files.Keys == gone && last * s.files.Keys == last;
    assert CutSome(s, size, len, s.files.Keys).files == CutFiles(s.files, size, len);
  }

  /** From `s` to `v` the directory is flagged exactly if a file is new or gone, or a handle is
      new. */
  ghost predicate Flagged(s: Seg, v: Seg) {
    v.dirDirty == (s.dirDirty || v.files.Keys != s.files.Keys || !(v.open <= s.open))
  }

  lemma CutFlags(s: Seg, size: nat, len: nat, done: set<nat>)
    requires size > 0
    ensures Flagged(s, CutSome(s, size, len, done))
  {
    var v, gone, last := CutSome(s, size, len, done), Past(s.files, size, len) * done, Straddling(s.files, size, len) * done;
    assert v.files.Keys == s.files.Keys - gone;
    if gone != {} {
      var i :| i in gone;
      assert i in s.files.Keys && i !in v.files.Keys;
    }
    assert v.open <= s.open <==> last <= s.open;
  }

  lemma SameFlags(s: Seg, v: Seg, len: nat, syncedFrom: nat)
    requires Flagged(s, v)
    ensures Flagged(s, v.(len := len, syncedFrom := syncedFrom))
  {
  }

  /** A write creates the files it touches. */
  lemma {:induction false} WriteKeys(files: Files, size: nat, pos: nat, bytes: seq<byte>)
    requires size > 0
    ensures WriteAll(files, size, pos, bytes).Keys == files.Keys + Touched(size, pos, |bytes|)
    decreases |bytes|
  {
    hide WriteAll, Touched, Put;
    if bytes == [] {
      WriteEnds(files, size, pos);
    } else {
      var take := Min(|bytes|, size - pos % size);
      WriteSteps(files, size, pos, bytes);
      PutKeys(files, size, pos, bytes[..take]);
      WriteKeys(Put(files, size, pos, bytes[..take]), size, pos + take, bytes[take..]);
    }
  }

  lemma PutKeys(files: Files, size: nat, pos: nat, chunk: seq<byte>)
    requires size > 0
    ensures Put(files, size, pos, chunk).Keys == files.Keys + {pos / size}
  {
    hide Written;
  }

  lemma WriteFlags(s: Seg, size: nat, pos: nat, bytes: seq<byte>)
    requires size > 0 && s.open <= s.files.Keys
    ensures Flagged(s, AfterWrite(s, size, pos, bytes))
  {
    hide WriteAll, Touched;
    WriteKeys(s.files, size, pos, bytes);
  }

  lemma FailedWriteFlags(s: Seg, size: nat, pos: nat, bytes: seq<byte>, stop: Stop)
    requires size > 0 && s.open <= s.files.Keys && stop.after <= |bytes|
    ensures Flagged(s, AfterFailedWrite(s, size, pos, bytes, stop))
  {
    hide WriteAll, Touched;
    WriteKeys(s.files, size, pos, bytes[..stop.after]);
    var v, touched := AfterFailedWrite(s, size, pos, bytes, stop), TouchedBefore(size, pos, stop);
    assert v.files.Keys == s.files.Keys + touched;
  }

  /** One chunk of a write, and then the rest. */
  lemma WriteSteps(files: Files, size: nat, pos: nat, bytes: seq<byte>)
    requires size > 0 && bytes != []
    ensures var take := Min(|bytes|, size - pos % size);
            && WriteAll(files, size, pos, bytes)
               == WriteAll(Put(files, size, pos, bytes[..take]), size, pos + take, bytes[take..])
            && Touched(size, pos, |bytes|) == {pos / size} + Touched(size, pos + take, |bytes| - take)
  {
    hide Put;
  }

  lemma WriteEnds(files: Files, size: nat, pos: nat)
    requires size > 0
    ensures WriteAll(files, size, pos, []) == files && Touched(size, pos, 0) == {}
  {
  }

  /** The segments a flush covers: the open ones from `syncedFrom` to the last written one. */
  function Window(s: Seg, size: nat): set<nat>
    requires size > 0
  {
    if s.len == 0 then {} else set i | i in s.open && s.syncedFrom <= i <= (s.len - 1) / size
  }

  function AfterSync(s: Seg, size: nat): Seg
    requires size > 0
  {
    s.(dirty := s.dirty - Window(s, size),
       syncedFrom := if s.len == 0 then s.syncedFrom else (s.len - 1) / size,
       dirDirty := false)
  }

  /** A segment that exists, empty if it was created just now. */
  function Created(files: Files, i: nat): Files {
    if i in files then files else files[i := []]
  }

  /** Where and how a write fails: after its first `after` bytes, and with the segment that comes
      next `made` or not. */
  datatype Stop = Stop(after: nat, made: bool)

  /** The segments it has touched, */
  function TouchedBefore(size: nat, pos: nat, stop: Stop): set<nat>
    requires size > 0
  {
    if stop.made then Touched(size, pos, stop.after) + {IndexOf(pos + stop.after, size)} else Touched(size, pos, stop.after)
  }

  /** and the files it leaves. */
  function FilesBefore(files: Files, size: nat, pos: nat, bytes: seq<byte>, stop: Stop): Files
    requires size > 0 && stop.after <= |bytes|
  {
    var next := IndexOf(pos + stop.after, size);
    var part := WriteAll(files, size, pos, bytes[..stop.after]);
    if stop.made then Created(part, next) else part
  }

  /** A write that fails: its first bytes are in place, and the length has not been raised. */
  function AfterFailedWrite(s: Seg, size: nat, pos: nat, bytes: seq<byte>, stop: Stop): Seg
    requires size > 0 && stop.after <= |bytes|
  {
    var touched := TouchedBefore(size, pos, stop);
    s.(files := FilesBefore(s.files, size, pos, bytes, stop),
       open := s.open + touched,
       dirty := s.dirty + touched,
       dirDirty := s.dirDirty || !(touched <= s.open))
  }

  /** What is in the log's directory: the segment files and the head marker. */
  datatype Dir = Dir(files: Files, marker: Option<seq<byte>>)

  /** The directory with the names `n`, each file as it is in `content`. */
  function DirOf(content: Files, n: Names): Dir {
    Dir(map i | i in content && i in n.present :: content[i], n.marker)
  }

  /** The lower of two segments, that of the new head and that of the last byte of the log:
      nothing from there on is dropped. */
  function KeepFrom(size: nat, newHead: nat, len: nat): nat
    requires size > 0
  {
    Min(newHead / size, SaturatingSub(len, 1) / size)
  }

  /** Every byte of segment `i` lies below the new head, and the log goes on past it. */
  predicate Dead(size: nat, newHead: nat, len: nat, i: nat)
    requires size > 0
  {
    (i + 1) * size <= newHead && i < SaturatingSub(len, 1) / size
  }

  /** The dead segments are exactly those that may go. */
  lemma DeadAreBelow(size: nat, newHead: nat, len: nat, i: nat)
    requires size > 0
    ensures i < KeepFrom(size, newHead, len) <==> Dead(size, newHead, len, i)
  {
    var h := newHead / size;
    Splits(newHead, size);
    if i < h {
      Multiples(i + 1, h, size);
    } else {
      Multiples(h + 1, i + 1, size);
      Multiples(h, h, size);
    }
  }

  lemma DroppedAreDead(files: Files, size: nat, newHead: nat, len: nat)
    requires size > 0
    ensures forall i :: i in Dropped(files, KeepFrom(size, newHead, len)) <==> i in files && !Dead(size, newHead, len, i)
    ensures forall i :: i in files ==> (i >= KeepFrom(size, newHead, len) <==> !Dead(size, newHead, len, i))
  {
    hide Dead, KeepFrom;
    forall i | i in files
      ensures i >= KeepFrom(size, newHead, len) <==> !Dead(size, newHead, len, i)
    {
      DeadAreBelow(size, newHead, len, i);
    }
  }

  function Dropped(files: Files, keepFrom: nat): Files {
    map i | i in files && i >= keepFrom :: files[i]
  }

  /** Some of the segments below `keepFrom` are gone, and nothing else. */
  ghost predicate PartlyDropped(before: Files, keepFrom: nat, files: Files) {
    && (forall i :: i in files ==> i in before && files[i] == before[i])
    && (forall i :: i in before && i >= keepFrom ==> i in files)
  }

  lemma NothingDropped(files: Files, keepFrom: nat)
    ensures PartlyDropped(files, keepFrom, files)
  {
  }

  /** On the way from a log to one that starts at `newHead`: as before, or the new marker and
      any of the segments below `keepFrom` gone. */
  ghost predicate OnTheWay(before: Names, newHead: nat, keepFrom: nat, n: Names) {
    || n == before
    || (&& n.marker == Some(EncodeHead(newHead)) && n.present <= before.present
        && forall i :: i in before.present && i >= keepFrom ==> i in n.present)
  }

  /** Whatever a crash leaves of `j` is on the way from something a crash could have left of
      `start`. */
  ghost predicate CrashSafe(start: Journal, newHead: nat, keepFrom: nat, j: Journal) {
    forall n :: Crash(j, n) ==> exists b :: Crash(start, b) && OnTheWay(b, newHead, keepFrom, n)
  }

  /** The marker has been replaced, by a file whose content is flushed. */
  lemma RenameIsSafe(start: Journal, newHead: nat, keepFrom: nat)
    ensures CrashSafe(start, newHead, keepFrom, Noted(start, Rename(EncodeHead(newHead), true)))
  {
    hide EncodeHead;
    var op := Rename(EncodeHead(newHead), true);
    forall n | Crash(Noted(start, op), n)
      ensures exists b :: Crash(start, b) && OnTheWay(b, newHead, keepFrom, n)
    {
      CrashAfter(start, op, n);
      var b :| Crash(start, b) && (n == b || Persisted(b, op, n));
      assert OnTheWay(b, newHead, keepFrom, n);
    }
  }

  /** Once a flush has made the new marker stable, segments below `keepFrom` may go. */
  lemma DropsAreSafe(start: Journal, newHead: nat, keepFrom: nat, j: Journal)
    requires j.durable == Live(start).(marker := Some(EncodeHead(newHead))) && OnlyDrops(j.pending, keepFrom)
    ensures CrashSafe(start, newHead, keepFrom, j)
  {
    hide EncodeHead;
    LiveMayCrash(start);
    forall n | Crash(j, n)
      ensures exists b :: Crash(start, b) && OnTheWay(b, newHead, keepFrom, n)
    {
      DropsCrash(j, keepFrom, n);
      assert OnTheWay(Live(start), newHead, keepFrom, n);
    }
  }

  /** Without that flush they may not: a crash can then keep a deletion and lose the new marker. */
  lemma UnflushedDropIsUnsafe(start: Journal, newHead: nat, keepFrom: nat, i: nat)
    requires start.pending == [] && start.durable.marker != Some(EncodeHead(newHead)) && i in start.durable.present
    ensures !CrashSafe(start, newHead, keepFrom, Noted(Noted(start, Rename(EncodeHead(newHead), true)), Remove(i)))
  {
    hide EncodeHead;
    var renamed := Noted(start, Rename(EncodeHead(newHead), true));
    var j := Noted(renamed, Remove(i));
    var n := start.durable.(present := start.durable.present - {i});
    assert Earlier(renamed) == start && Earlier(j) == renamed && Latest(j) == Remove(i);
    assert Crash(start, start.durable);
    assert Crash(renamed, start.durable);
    assert Persisted(start.durable, Remove(i), n);
    assert Crash(j, n);
    assert forall b :: Crash(start, b) ==> b == start.durable;
  }

  lemma FlushIsSafe(start: Journal, newHead: nat, keepFrom: nat)
    ensures CrashSafe(start, newHead, keepFrom, Journal(Live(start).(marker := Some(EncodeHead(newHead))), []))
  {
    hide EncodeHead, CrashSafe, Live;
    DropsAreSafe(start, newHead, keepFrom, Journal(Live(start).(marker := Some(EncodeHead(newHead))), []));
  }

  /** `len` is the length an open computes: where the highest segment ends. */
  ghost predicate IsOpenLength(files: Files, size: nat, len: nat) {
    if files == map[] then len == 0
    else exists h: nat :: IsHighest(files, h) && len == Min(h * size + |files[h]|, U64_MAX)
  }

  /** The steps of dropping a prefix that may fail before a file is deleted: the four that replace
      the head marker, and listing the directory. */
  datatype DropStep = WriteTmp | FlushTmp | RenameTmp | FlushNames | ListNames

  class SegmentedStore {
    const size: nat
    var files: Files
    var open: set<nat>
    var maxWritten: nat
    var syncedFrom: nat
    var dirDirty: bool
    var head: nat
    var marker: Option<seq<byte>>
    var tmp: seq<byte>
    ghost var dirty: set<nat>
    ghost var tmpSynced: bool
    ghost var journal: Journal
    ghost var history: seq<Journal>

    ghost function State(): Seg
      reads this
    {
      Seg(files, open, dirty, maxWritten, syncedFrom, dirDirty)
    }

    /** Handles are of existing files, the journal tells how the directory came about, and an
        unflushed creation is flagged. */
    ghost predicate Valid()
      reads this
    {
      && size > 0 && open <= files.Keys
      && Live(journal) == Names(files.Keys, marker) && NoLoose(journal.pending)
      && (!dirDirty ==> NoCreate(journal.pending))
    }

    /** A store over the segments found in its directory; all of it counts as flushed, but
        `found` may hold names left unflushed by an earlier process. */
    constructor (size: nat, dir: Dir, len: nat, ghost found: Journal)
      requires size > 0 && Live(found) == Names(dir.files.Keys, dir.marker) && NoLoose(found.pending)
      ensures this.size == size && State() == Seg(dir.files, {}, {}, len, len / size, true)
      ensures head == Min(HeadOf(dir.marker), len) && marker == dir.marker
      ensures Valid() && journal == found
    {
      this.size := size;
      files, open, dirty := dir.files, {}, {};
      maxWritten, syncedFrom, dirDirty := len, len / size, true;
      head, marker := Min(HeadOf(dir.marker), len), dir.marker;
      tmp, tmpSynced := [], false;
      journal, history := found, [found];
    }

    /** Open the log in `dir`: its length is where the highest segment ends. */
    static method Open(dir: Dir, size: nat, ghost found: Journal) returns (r: Result<SegmentedStore>)
      requires Live(found) == Names(dir.files.Keys, dir.marker) && NoLoose(found.pending)
      ensures size == 0 ==> r == Err(Io)
      ensures size > 0 ==>
                && r.Ok? && fresh(r.value) && r.value.size == size && r.value.marker == dir.marker && r.value.Valid()
                && IsOpenLength(dir.files, size, r.value.maxWritten)
                && r.value.State() == Seg(dir.files, {}, {}, r.value.maxWritten, r.value.maxWritten / size, true)
                && r.value.head == Min(HeadOf(dir.marker), r.value.maxWritten)
    {
      hide Live, HeadOf;
      if size == 0 {
        return Err(Io);
      }
      var entries := dir.files.Keys;
      var highest: Option<nat> := None;
      while entries != {}
        invariant entries <= dir.files.Keys
        invariant highest.None? ==> entries == dir.files.Keys
        invariant highest.Some? ==> highest.value in dir.files
        invariant highest.Some? ==> forall i :: i in dir.files && i !in entries ==> i <= highest.value
        decreases |entries|
      {
        var index :| index in entries;
        if highest.None? || index > highest.value {
          highest := Some(index);
        }
        entries := entries - {index};
      }
      var total := 0;
      if highest.Some? {
        total := Min(highest.value * size + |dir.files[highest.value]|, U64_MAX);
        assert IsHighest(dir.files, highest.value);
      }
      var store := new SegmentedStore(size, dir, total, found);
      r := Ok(store);
    }

    // The directory.

    /** A change to the directory that no flush has covered yet. */
    ghost method Note(op: DirOp)
      modifies this`journal, this`history
      ensures journal == Noted(old(journal), op) && history == old(history) + [journal]
      ensures Live(journal) == Done(Live(old(journal)), op)
    {
      LiveAfter(journal, op);
      journal := Noted(journal, op);
      history := history + [journal];
    }

    method AddFile(index: nat)
      requires Valid() && index !in files
      modifies this`files, this`dirDirty, this`journal, this`history
      ensures Valid() && dirDirty && files == old(files)[index := []]
    {
      hide Live;
      files := files[index := []];
      dirDirty := true;
      Note(Create(index));
    }

    method RemoveFile(index: nat)
      requires Valid() && index in files && index !in open
      modifies this`files, this`journal, this`history
      ensures Valid() && files == old(files) - {index}
      ensures journal == Noted(old(journal), Remove(index)) && history == old(history) + [journal]
    {
      hide Live;
      files := files - {index};
      Note(Remove(index));
    }

    /** Move the temporary file over the marker. */
    method RenameMarker()
      requires Live(journal) == Names(files.Keys, marker)
      modifies this`marker, this`journal, this`history
      ensures marker == Some(tmp) && Live(journal) == Names(files.Keys, marker)
      ensures journal == Noted(old(journal), Rename(tmp, tmpSynced)) && history == old(history) + [journal]
    {
      hide Live;
      marker := Some(tmp);
      Note(Rename(tmp, tmpSynced));
    }

    /** Flush the directory, if the flush succeeds. */
    method FlushDir(ok: bool) returns (r: Result<()>)
      requires Valid()
      modifies this`journal, this`history
      ensures Valid()
      ensures ok ==> r == Ok(()) && journal == Journal(Names(files.Keys, marker), []) && history == old(history) + [journal]
      ensures !ok ==> r == Err(Io) && journal == old(journal) && history == old(history)
    {
      if !ok {
        return Err(Io);
      }
      NothingLoose(journal.pending);
      journal := DirFlushed(journal);
      history := history + [journal];
      r := Ok(());
    }

    // Dropping a prefix.

    /** Replace the head marker: write a temporary file, flush it, move it into place, flush the
        directory. `fault` is the step that fails, if one does. */
    method WriteHeadFile(newHead: nat, fault: Option<DropStep>) returns (r: Result<()>)
      requires Valid()
      modifies this`tmp, this`tmpSynced, this`marker, this`journal, this`history
      ensures Valid()
      ensures r.Ok? <==> fault.None? || fault.value == ListNames
      ensures r.Err? ==> r == Err(Io)
      ensures r.Ok? || fault.value == FlushNames ==> marker == Some(EncodeHead(newHead))
      ensures r.Err? && fault.value != FlushNames ==> marker == old(marker) && journal == old(journal) && history == old(history)
      ensures fault == Some(FlushNames) ==>
                journal == Noted(old(journal), Rename(EncodeHead(newHead), true)) && history == old(history) + [journal]
      ensures r.Ok? ==>
                && journal == Journal(Names(files.Keys, marker), [])
                && history == old(history) + [Noted(old(journal), Rename(EncodeHead(newHead), true)), journal]
    {
      hide Live, EncodeHead;
      if fault == Some(WriteTmp) {
        return Err(Io);
      }
      tmp, tmpSynced := EncodeHead(newHead), false;
      if fault == Some(FlushTmp) {
        return Err(Io);
      }
      tmpSynced := true;
      if fault == Some(RenameTmp) {
        return Err(Io);
      }
      RenameMarker();
      r := FlushDir(fault != Some(FlushNames));
    }

    /** Close a segment and delete its file. */
    method DropOne(index: nat)
      requires Valid() && index in files
      modifies this`files, this`open, this`dirty, this`journal, this`history
      ensures Valid()
      ensures files == old(files) - {index} && open == old(open) - {index} && dirty == old(dirty) - {index}
      ensures journal == Noted(old(journal), Remove(index)) && history == old(history) + [journal]
    {
      hide Live;
      open, dirty := open - {index}, dirty - {index};
      RemoveFile(index);
    }

    /** Delete the segments below `keepFrom` one by one, up to the first of `broken`, which cannot
        be deleted. */
    method DropBelow(keepFrom: nat, broken: set<nat>) returns (r: Result<()>)
      requires Valid() && journal.pending == []
      modifies this`files, this`open, this`dirty, this`journal, this`history
      ensures Valid() && PartlyDropped(old(files), keepFrom, files)
      ensures r.Ok? <==> forall i :: i in old(files) && i in broken ==> i >= keepFrom
      ensures r.Ok? ==> files == Dropped(old(files), keepFrom)
      ensures r.Err? ==> r == Err(Io)
      ensures open == old(open) * files.Keys && dirty == old(dirty) - (old(files).Keys - files.Keys)
      ensures journal.durable == old(journal.durable) && OnlyDrops(journal.pending, keepFrom)
      ensures |old(history)| <= |history| && history[..|old(history)|] == old(history)
      ensures forall k :: |old(history)| <= k < |history| ==>
                history[k].durable == old(journal.durable) && OnlyDrops(history[k].pending, keepFrom)
    {
      hide Valid;
      assert open <= files.Keys by { ValidHandles(); }
      var entries := files.Keys;
      while entries != {}
        invariant Valid()
        invariant entries <= files.Keys && PartlyDropped(old(files), keepFrom, files)
        invariant forall i :: i in files ==> i in entries || i >= keepFrom
        invariant forall i :: i in old(files) && i in broken && i !in files ==> i >= keepFrom
        invariant open == old(open) * files.Keys && dirty == old(dirty) - (old(files).Keys - files.Keys)
        invariant journal.durable == old(journal.durable) && OnlyDrops(journal.pending, keepFrom)
        invariant |old(history)| <= |history| && history[..|old(history)|] == old(history)
        invariant forall k :: |old(history)| <= k < |history| ==>
                    history[k].durable == old(journal.durable) && OnlyDrops(history[k].pending, keepFrom)
        decreases |entries|
      {
        var index :| index in entries;
        if index < keepFrom {
          if index in broken {
            return Err(Io);
          }
          DropOne(index);
        }
        entries := entries - {index};
      }
      assert files == Dropped(old(files), keepFrom);
      r := Ok(());
    }

    /** The same, with the new marker flushed: whatever a crash leaves meanwhile is safe. */
    method DropSafely(keepFrom: nat, broken: set<nat>, ghost start: Journal, ghost newHead: nat) returns (r: Result<()>)
      requires Valid() && journal == Journal(Live(start).(marker := Some(EncodeHead(newHead))), [])
      modifies this`files, this`open, this`dirty, this`journal, this`history
      ensures Valid() && PartlyDropped(old(files), keepFrom, files)
      ensures r.Ok? <==> forall i :: i in old(files) && i in broken ==> i >= keepFrom
      ensures r.Ok? ==> files == Dropped(old(files), keepFrom)
      ensures r.Err? ==> r == Err(Io)
      ensures open == old(open) * files.Keys && dirty == old(dirty) - (old(files).Keys - files.Keys)
      ensures journal.durable == old(journal.durable) && OnlyDrops(journal.pending, keepFrom)
      ensures |old(history)| <= |history| && history[..|old(history)|] == old(history)
      ensures forall k :: |old(history)| <= k < |history| ==> CrashSafe(start, newHead, keepFrom, history[k])
    {
      hide EncodeHead, CrashSafe, Dropped, Valid, Live, OnlyDrops, PartlyDropped;
      r := DropBelow(keepFrom, broken);
      forall k | |old(history)| <= k < |history|
        ensures CrashSafe(start, newHead, keepFrom, history[k])
      {
        DropsAreSafe(start, newHead, keepFrom, history[k]);
      }
    }

    method SetHead(newHead: nat)
      requires Valid()
      modifies this`head
      ensures Valid() && head == newHead
    {
      head := newHead;
    }

    /** With the new marker flushed, delete what lies below its segment and move the head. */
    method DropDead(newHead: nat, broken: set<nat>, ghost start: Journal) returns (r: Result<nat>)
      requires Valid() && journal == Journal(Live(start).(marker := Some(EncodeHead(newHead))), [])
      modifies this`files, this`open, this`dirty, this`journal, this`history, this`head
      ensures Valid()
      ensures var keepFrom := KeepFrom(size, newHead, maxWritten);
              && PartlyDropped(old(files), keepFrom, files)
              && (r.Ok? <==> forall i :: i in old(files) && i in broken ==> !Dead(size, newHead, maxWritten, i))
              && (r.Ok? ==> r.value == head == newHead && files == Dropped(old(files), keepFrom))
              && (r.Ok? ==> forall i :: i in files <==> i in old(files) && !Dead(size, newHead, maxWritten, i))
              && (r.Err? ==> r == Err(Io) && head == old(head))
              && journal.durable == old(journal.durable) && OnlyDrops(journal.pending, keepFrom)
              && |old(history)| <= |history| && history[..|old(history)|] == old(history)
              && forall k :: |old(history)| <= k < |history| ==> CrashSafe(start, newHead, keepFrom, history[k])
      ensures open == old(open) * files.Keys && dirty == old(dirty) - (old(files).Keys - files.Keys)
    {
      hide EncodeHead, CrashSafe, Dropped, Valid, Live, OnlyDrops, PartlyDropped, Dead;
      assert size > 0 by { ValidSize(); }
      var written := maxWritten;
      var lastSegment := (if written >= 1 then written - 1 else 0) / size;
      var keepFrom := if newHead / size <= lastSegment then newHead / size else lastSegment;
      DroppedAreDead(files, size, newHead, written);
      var dropped := DropSafely(keepFrom, broken, start, newHead);
      if dropped.Err? {
        return Err(dropped.error);
      }
      SetHead(newHead);
      r := Ok(newHead);
    }

    /** Drop every segment wholly below `offset`, clamped between the head and the end. The marker
        is replaced, and the directory flushed, before anything is deleted: so whatever a crash
        leaves at any point on the way is safe. `fault` is the step that fails, if one does, and
        `broken` are segments that cannot be deleted; after a failed deletion the new marker is in
        place and some segments are gone, but the head in memory is the old one. */
    method TruncateBefore(offset: nat, fault: Option<DropStep>, broken: set<nat>) returns (r: Result<nat>)
      requires Valid() && head <= maxWritten
      modifies this`files, this`open, this`dirty, this`journal, this`history, this`marker, this`tmp, this`tmpSynced, this`head
      ensures Valid()
      ensures var newHead := Max(old(head), Min(offset, maxWritten));
              var keepFrom := KeepFrom(size, newHead, maxWritten);
              && |old(history)| <= |history| && history[..|old(history)|] == old(history)
              && (forall k :: |old(history)| <= k < |history| ==> CrashSafe(old(journal), newHead, keepFrom, history[k]))
              && (r.Err? ==> r == Err(Io) && head == old(head) && PartlyDropped(old(files), keepFrom, files))
              && (fault.Some? ==> files == old(files))
              && (fault.Some? && fault.value !in {FlushNames, ListNames} ==> marker == old(marker))
              && (fault.None? || fault.value in {FlushNames, ListNames} ==> marker == Some(EncodeHead(newHead)))
              && (r.Ok? ==> r.value == head == newHead && files == Dropped(old(files), keepFrom))
              && (fault.None? ==> journal.durable == Names(old(files).Keys, marker) && OnlyDrops(journal.pending, keepFrom))
              && (r.Ok? <==> fault.None? && forall i :: i in old(files) && i in broken ==> !Dead(size, newHead, maxWritten, i))
              && (r.Ok? ==> forall i :: i in files <==> i in old(files) && !Dead(size, newHead, maxWritten, i))
      ensures open == old(open) * files.Keys && dirty == old(dirty) - (old(files).Keys - files.Keys)
    {
      hide EncodeHead, CrashSafe, Dropped, Valid, Live, OnlyDrops, PartlyDropped, Dead;
      assert size > 0 by { ValidSize(); }
      assert open <= files.Keys by { ValidHandles(); }
      assert Live(journal) == Names(files.Keys, marker) by { ValidNames(); }
      var written := maxWritten;
      var newHead := if offset < head then head else if offset > written then written else offset;
      ghost var start := journal;
      ghost var kept := KeepFrom(size, newHead, written);
      RenameIsSafe(start, newHead, kept);
      NothingDropped(files, kept);
      var replaced := WriteHeadFile(newHead, fault);
      if replaced.Err? {
        return Err(replaced.error);
      }
      FlushIsSafe(start, newHead, kept);
      if fault == Some(ListNames) {
        return Err(Io);
      }
      r := DropDead(newHead, broken, start);
    }

    // Reads, writes, truncation and flushes.

    /** A handle for writing, creating the file if need be. */
    method SegmentForWrite(index: nat)
      requires Valid()
      modifies this`files, this`open, this`dirDirty, this`journal, this`history
      ensures Valid()
      ensures files == Created(old(files), index)
      ensures open == old(open) + {index}
      ensures dirDirty == (old(dirDirty) || index !in old(open))
    {
      hide Live;
      if index in open {
        return;
      }
      if index !in files {
        AddFile(index);
      }
      dirDirty := true;
      open := open + {index};
    }

    /** Write the part of `remaining` that fits the segment of `pos`. */
    method WriteChunk(pos: nat, remaining: seq<byte>) returns (take: nat)
      requires Valid() && remaining != []
      modifies this`files, this`open, this`dirDirty, this`dirty, this`journal, this`history
      ensures Valid()
      ensures take == Min(|remaining|, size - pos % size)
      ensures files == Put(old(files), size, pos, remaining[..take])
      ensures open == old(open) + {pos / size} && dirty == old(dirty) + {pos / size}
      ensures dirDirty == (old(dirDirty) || pos / size !in old(open))
    {
      hide Written, Live;
      var index, local := pos / size, pos % size;
      var room := size - local;
      take := if |remaining| <= room then |remaining| else room;
      SegmentForWrite(index);
      assert files.Keys == (files[index := Written(files[index], local, remaining[..take])]).Keys;
      files := files[index := Written(files[index], local, remaining[..take])];
      dirty := dirty + {index};
    }

    /** Write `bytes` chunk by chunk. */
    method WriteChunks(offset: nat, bytes: seq<byte>)
      requires Valid()
      modifies this`files, this`open, this`dirty, this`dirDirty, this`journal, this`history
      ensures Valid()
      ensures files == WriteAll(old(files), size, offset, bytes)
      ensures open == old(open) + Touched(size, offset, |bytes|) && dirty == old(dirty) + Touched(size, offset, |bytes|)
      ensures dirDirty == (old(dirDirty) || !(Touched(size, offset, |bytes|) <= old(open)))
    {
      hide Put, WriteAll, Touched, Valid;
      assert size > 0 by { ValidSize(); }
      var pos: nat, remaining := offset, bytes;
      ghost var touched := Touched(size, offset, |bytes|);
      ghost var rest := touched;
      while remaining != []
        invariant Valid()
        invariant WriteAll(files, size, pos, remaining) == WriteAll(old(files), size, offset, bytes)
        invariant rest == Touched(size, pos, |remaining|)
        invariant open + rest == old(open) + touched && dirty + rest == old(dirty) + touched
        invariant old(open) <= open
        invariant dirDirty == (old(dirDirty) || !(open <= old(open)))
        decreases |remaining|
      {
        WriteSteps(files, size, pos, remaining);
        var take := WriteChunk(pos, remaining);
        pos, remaining := pos + take, remaining[take..];
        rest := Touched(size, pos, |remaining|);
      }
      WriteEnds(files, size, pos);
    }

    lemma ValidHandles()
      requires Valid()
      ensures open <= files.Keys
    {
    }

    lemma ValidNames()
      requires Valid()
      ensures Live(journal) == Names(files.Keys, marker)
    {
    }

    lemma ValidSize()
      requires Valid()
      ensures size > 0
    {
    }

    /** A write that stops as `stop` says. */
    method WriteSome(offset: nat, bytes: seq<byte>, stop: Stop)
      requires Valid() && stop.after < |bytes|
      modifies this`files, this`open, this`dirty, this`dirDirty, this`journal, this`history
      ensures Valid()
      ensures State() == AfterFailedWrite(old(State()), size, offset, bytes, stop)
    {
      hide WriteAll, Touched, Live, NoLoose, NoCreate;
      WriteChunks(offset, bytes[..stop.after]);
      if stop.made {
        var next := IndexOf(offset + stop.after, size);
        SegmentForWrite(next);
        dirty := dirty + {next};
      }
    }

    /** `stop` is where the write fails; none if it goes through. */
    method WriteAt(offset: nat, bytes: seq<byte>, stop: Option<Stop>) returns (r: Result<()>)
      requires Valid() && (stop.Some? ==> stop.value.after < |bytes|)
      modifies this`files, this`open, this`dirty, this`maxWritten, this`dirDirty, this`journal, this`history
      ensures Valid()
      ensures stop.None? ==> r == Ok(()) && State() == AfterWrite(old(State()), size, offset, bytes)
      ensures stop.None? ==> forall i ::
                i in open <==> i in old(open) || (bytes != [] && offset / size <= i && i * size < offset + |bytes|)
      ensures stop.Some? ==> r == Err(Io) && State() == AfterFailedWrite(old(State()), size, offset, bytes, stop.value)
      ensures Flagged(old(State()), State())
    {
      hide WriteAll, Touched, Live, NoLoose, NoCreate, Flagged, AfterFailedWrite;
      if stop.Some? {
        FailedWriteFlags(State(), size, offset, bytes, stop.value);
        WriteSome(offset, bytes, stop.value);
        return Err(Io);
      }
      WriteFlags(State(), size, offset, bytes);
      TouchedRange(size, offset, |bytes|);
      WriteChunks(offset, bytes);
      var end := offset + |bytes|;
      if end > U64_MAX {
        end := U64_MAX;
      }
      if maxWritten < end {
        maxWritten := end;
      }
      r := Ok(());
    }

    /** A read keeps the handles it opens. */
    method ReadAt(offset: nat, n: nat) returns (r: Result<seq<byte>>)
      requires Valid()
      modifies this`open
      ensures Valid()
      ensures r.Ok? && IsRead(files, size, offset, n, r.value)
      ensures old(open) <= open <= old(open) + files.Keys
    {
      hide Live, NoLoose, NoCreate;
      var pos, buf := offset, [];
      while |buf| < n
        invariant old(open) <= open <= old(open) + files.Keys
        invariant |buf| <= n && pos == offset + |buf|
        invariant forall k :: 0 <= k < |buf| ==> At(files, size, offset + k) == Some(buf[k])
        decreases n - |buf|
      {
        var index, local := pos / size, pos % size;
        var room := size - local;
        var want := if n - |buf| <= room then n - |buf| else room;
        if index !in files {
          break;
        }
        open := open + {index};
        var got := ReadBack(files[index], local, want);
        forall k | 0 <= k < |got|
          ensures At(files, size, pos + k) == Some(got[k])
        {
          SameSegment(pos, k, size);
        }
        if |got| < want {
          SameSegment(pos, |got|, size);
        }
        ghost var before := buf;
        buf := buf + got;
        forall k | 0 <= k < |buf|
          ensures At(files, size, offset + k) == Some(buf[k])
        {
          if k >= |before| {
            assert At(files, size, pos + (k - |before|)) == Some(got[k - |before|]);
          }
        }
        pos := pos + |got|;
        if |got| < want {
          break;
        }
      }
      r := Ok(buf);
    }

    /** Deal with one directory entry of a truncation. */
    method CutOne(index: nat, len: nat)
      requires Valid() && index in files
      modifies this`files, this`open, this`dirDirty, this`dirty, this`journal, this`history
      ensures Valid()
      ensures State() == CutEntry(old(State()), size, len, index)
    {
      hide Live;
      if index > len / size {
        DropOne(index);
        dirDirty := true;
      } else if index == len / size {
        SegmentForWrite(index);
        assert files.Keys == (files[index := Resized(files[index], len % size)]).Keys;
        files := files[index := Resized(files[index], len % size)];
        dirty := dirty + {index};
      }
    }

    /** One more entry of the truncation of `was`. */
    method CutNext(index: nat, len: nat, ghost was: Seg, ghost done: set<nat>)
      requires Valid() && index in was.files && index !in done && State() == CutSome(was, size, len, done)
      modifies this`files, this`open, this`dirDirty, this`dirty, this`journal, this`history
      ensures Valid() && State() == CutSome(was, size, len, done + {index})
    {
      hide CutEntry, CutSome, Valid;
      assert size > 0 by { ValidSize(); }
      CutSomeStep(was, size, len, done, index);
      CutOne(index, len);
    }

    /** The end of a truncation: the length and the window move to the cut. */
    method MoveMarks(len: nat)
      requires Valid()
      modifies this`maxWritten, this`syncedFrom
      ensures Valid() && maxWritten == len && syncedFrom == len / size
    {
      maxWritten := len;
      syncedFrom := len / size;
    }

    /** `listed` is whether the directory can be listed, and `broken` are the entries that cannot be
        removed or resized. After a failure the entries `done` have been dealt with, in whatever
        order the directory was listed, and neither the length nor the window has moved. */
    method Truncate(len: nat, listed: bool, broken: set<nat>) returns (r: Result<()>, ghost done: set<nat>)
      requires Valid()
      modifies this`files, this`open, this`dirty, this`maxWritten, this`syncedFrom, this`dirDirty, this`journal, this`history
      ensures Valid()
      ensures r.Ok? <==> listed && forall i :: i in old(files) && i in broken ==> i < len / size
      ensures !listed ==> done == {}
      ensures r.Ok? ==> State() == AfterCut(old(State()), size, len)
      ensures Flagged(old(State()), State())
      ensures r.Err? ==> r == Err(Io) && done <= old(files).Keys && State() == CutSome(old(State()), size, len, done)
    {
      hide CutSome, AfterCut, Valid, Flagged;
      assert size > 0 by { ValidSize(); }
      var entries := files.Keys;
      ghost var was := State();
      done := {};
      CutNone(was, size, len);
      if !listed {
        CutFlags(was, size, len, {});
        return Err(Io), done;
      }
      while entries != {}
        invariant Valid()
        invariant done !! entries && done + entries == was.files.Keys
        invariant State() == CutSome(was, size, len, done)
        invariant forall i :: i in done && i in broken ==> i < len / size
        decreases |entries|
      {
        var index :| index in entries;
        if index in broken && index >= len / size {
          CutFlags(was, size, len, done);
          return Err(Io), done;
        }
        CutNext(index, len, was, done);
        entries, done := entries - {index}, done + {index};
      }
      assert done == was.files.Keys;
      CutFlags(was, size, len, done);
      CutSomeAll(was, size, len);
      SameFlags(was, CutSome(was, size, len, done), len, len / size);
      MoveMarks(len);
      r := Ok(());
    }

    /** Afterwards the flag is set only if it was set before and the flush failed. */
    method FlushDirIfDirty(dirOk: bool) returns (r: Result<()>)
      requires Valid()
      modifies this`dirDirty, this`journal, this`history
      ensures Valid()
      ensures r.Ok? <==> !old(dirDirty) || dirOk
      ensures r.Err? ==> r == Err(Io)
      ensures dirDirty == (old(dirDirty) && !dirOk)
      ensures old(dirDirty) && dirOk ==> journal.pending == []
      ensures !(old(dirDirty) && dirOk) ==> journal == old(journal) && history == old(history)
    {
      hide Live, NoLoose;
      if dirDirty {
        var flush := FlushDir(dirOk);
        dirDirty := false;
        if flush.Err? {
          dirDirty := true;
          return Err(flush.error);
        }
      }
      r := Ok(());
    }

    /** Flush the window. `dirOk` and `broken` say which flushes fail: the directory's, and
        those of the segments in `broken`. */
    method Sync(dirOk: bool, broken: set<nat>) returns (r: Result<()>)
      requires Valid()
      modifies this`dirDirty, this`dirty, this`syncedFrom, this`journal, this`history
      ensures Valid()
      ensures r.Ok? ==> forall n :: Crash(journal, n) ==> files.Keys <= n.present
      ensures r.Ok? && old(dirDirty) ==> journal.pending == []
      ensures r.Ok? ==> State() == AfterSync(old(State()), size)
      ensures r.Ok? <==> (!old(dirDirty) || dirOk) && Window(old(State()), size) * broken == {}
      ensures r.Err? ==> r == Err(Io) && syncedFrom == old(syncedFrom)
      ensures r.Err? ==> old(dirty) - Window(old(State()), size) <= dirty <= old(dirty)
      ensures r.Err? ==> old(dirty) * broken <= dirty
      ensures old(dirDirty) && !dirOk ==> dirty == old(dirty) && journal == old(journal)
      ensures !old(dirDirty) || dirOk ==>
                forall i :: i in Window(old(State()), size) && (forall b :: b in Window(old(State()), size) && b in broken ==> i < b) ==> i !in dirty
    {
      hide Live, NoLoose, Crash;
      ghost var window := Window(State(), size);
      var names := FlushDirIfDirty(dirOk);
      if names.Err? {
        return names;
      }
      forall n | Crash(journal, n)
        ensures files.Keys <= n.present
      {
        NamesSurvive(journal, n);
      }
      if maxWritten == 0 {
        return Ok(());
      }
      var active := (maxWritten - 1) / size;
      var index := syncedFrom;
      while index <= active
        modifies this`dirty
        invariant old(syncedFrom) <= index
        invariant dirty == old(dirty) - (set i | i in window && i < index)
        invariant forall i :: i in window && i < index ==> i !in broken
        decreases active - index
      {
        if index in open {
          assert index in window;
          if index in broken {
            assert index in window * broken;
            return Err(Io);
          }
          dirty := dirty - {index};
        }
        index := index + 1;
      }
      assert window == set i | i in window && i < index;
      syncedFrom := active;
      r := Ok(());
    }
  }
}
