/** Dropping a prefix of a segmented log, and what a crash on the way leaves to be opened. */
module Compaction {
  import opened Crc32c
  import opened Record
  import opened Store
  import opened Recovery
  import opened Strict
  import opened Segments
  import opened HeadMarker
  import opened Directory
  import opened SegmentedStore
  import opened FlushWindow
  import opened Division

  /** A directory that holds the flat log from `head` on: no gap, segments of the right size,
      and a marker that says so. */
  ghost predicate Holds(d: Dir, size: nat, flat: seq<byte>, head: nat)
    requires size > 0
  {
    && |flat| <= U64_MAX && head <= |flat| && HeadOf(d.marker) == head
    && Fits(d.files, size, |flat|) && IsOpenLength(d.files, size, |flat|)
    && Gapless(d.files, size, head, flat)
  }

  lemma NamesDropped(content: Files, before: Names, newHead: nat, keepFrom: nat, n: Names)
    requires OnTheWay(before, newHead, keepFrom, n)
    ensures PartlyDropped(DirOf(content, before).files, keepFrom, DirOf(content, n).files)
  {
  }

  /** The highest segment is never dropped. */
  lemma HighestIsKept(files: Files, size: nat, len: nat, newHead: nat, h: nat)
    requires size > 0 && Fits(files, size, len) && IsHighest(files, h)
    requires len == h * size + |files[h]|
    ensures h >= KeepFrom(size, newHead, len)
  {
    if len > 0 {
      Multiples(h, h, size);
      Splits(len - 1, size);
      Locates(h, size - 1, size);
      Ordered(len - 1, h * size + (size - 1), size);
    } else {
      Locates(0, 0, size);
    }
  }

  lemma HighestEnd(files: Files, size: nat, len: nat, h: nat)
    requires Fits(files, size, len) && IsHighest(files, h) && len == Min(h * size + |files[h]|, U64_MAX)
    ensures len == h * size + |files[h]|
  {
  }

  lemma HighestStays(before: Files, keepFrom: nat, files: Files, h: nat)
    requires PartlyDropped(before, keepFrom, files) && IsHighest(before, h) && keepFrom <= h
    ensures IsHighest(files, h) && files[h] == before[h]
  {
  }

  lemma EmptyStays(keepFrom: nat, files: Files)
    requires PartlyDropped(map[], keepFrom, files)
    ensures files == map[]
  {
  }

  lemma SameLength(before: Files, size: nat, len: nat, newHead: nat, files: Files)
    requires size > 0 && len <= U64_MAX && Fits(before, size, len) && IsOpenLength(before, size, len)
    requires PartlyDropped(before, KeepFrom(size, newHead, len), files)
    ensures IsOpenLength(files, size, len)
  {
    hide KeepFrom, Fits, PartlyDropped;
    if before != map[] {
      var h: nat :| IsHighest(before, h) && len == Min(h * size + |before[h]|, U64_MAX);
      HighestEnd(before, size, len, h);
      HighestIsKept(before, size, len, newHead, h);
      HighestStays(before, KeepFrom(size, newHead, len), files, h);
    } else {
      EmptyStays(KeepFrom(size, newHead, len), files);
    }
  }

  /** Nothing at or above the new head is dropped. */
  lemma KeptFromHead(before: Files, size: nat, flat: seq<byte>, head: nat, newHead: nat, files: Files)
    requires size > 0 && Gapless(before, size, head, flat) && head <= newHead
    requires PartlyDropped(before, KeepFrom(size, newHead, |flat|), files)
    ensures Gapless(files, size, newHead, flat)
  {
    forall p: nat | newHead <= p
      ensures At(files, size, p) == At(before, size, p)
    {
      Ordered(newHead, p, size);
    }
  }

  /** On the way, opening yields the old head or the new one, the same length, and every byte
      from that head to the end; with the old head, no name is missing. */
  lemma HoldsOnTheWay(content: Files, before: Names, size: nat, flat: seq<byte>, head: nat, newHead: nat, n: Names)
    requires size > 0 && Holds(DirOf(content, before), size, flat, head) && head <= newHead <= |flat|
    requires OnTheWay(before, newHead, KeepFrom(size, newHead, |flat|), n)
    ensures Holds(DirOf(content, n), size, flat, head) || Holds(DirOf(content, n), size, flat, newHead)
    ensures head < newHead && HeadOf(n.marker) == head ==> n == before
  {
    hide Gapless, IsOpenLength, EncodeHead, KeepFrom, HeadOf;
    if n != before {
      WrittenMarkerIsRead(newHead);
      NamesDropped(content, before, newHead, KeepFrom(size, newHead, |flat|), n);
      SameLength(DirOf(content, before).files, size, |flat|, newHead, DirOf(content, n).files);
      KeptFromHead(DirOf(content, before).files, size, flat, head, newHead, DirOf(content, n).files);
    }
  }

  /** Recovery of a directory that holds the flat log is recovery of the flat log. */
  lemma SegmentsRecoverFlat(files: Files, size: nat, flat: seq<byte>, head: nat, limit: nat)
    requires size > 0 && Gapless(files, size, head, flat) && head <= |flat|
    ensures LogEnd(View(files, size, |flat|), head, limit) == LogEnd(Whole(flat), head, limit)
    ensures Records(View(files, size, |flat|), head, limit) == Records(Whole(flat), head, limit)
  {
    hide LogEnd, Records, At;
    var v, w := View(files, size, |flat|), Whole(flat);
    assert forall p: nat :: head <= p < |flat| ==> v.bytes[p] == flat[p] && p !in v.holes by {
      assert forall p: nat :: head <= p < |flat| ==> At(files, size, p) == Some(flat[p]);
    }
    ScanIsLocal(w, v, head, limit);
    ScanIsLocal(v, w, head, limit);
  }

  /** Crash-safe compaction. `start` is the directory's journal when the call begins and `j` any
      journal on its way. If whatever a crash could have left at the start holds the log, then
      whatever a crash leaves on the way does too, from the old head or the new one: the same
      length and the same records. With the old head nothing was deleted. */
  lemma CrashSafeCompaction(
    content: Files, start: Journal, j: Journal, size: nat, flat: seq<byte>, head: nat, newHead: nat, n: Names, limit: nat)
    requires size > 0 && head <= newHead <= |flat|
    requires CrashSafe(start, newHead, KeepFrom(size, newHead, |flat|), j) && Crash(j, n)
    requires forall b :: Crash(start, b) ==> Holds(DirOf(content, b), size, flat, head)
    ensures Holds(DirOf(content, n), size, flat, head) || Holds(DirOf(content, n), size, flat, newHead)
    ensures head < newHead && HeadOf(n.marker) == head ==> Crash(start, n)
    ensures var from := HeadOf(n.marker);
            && LogEnd(View(DirOf(content, n).files, size, |flat|), from, limit) == LogEnd(Whole(flat), from, limit)
            && Records(View(DirOf(content, n).files, size, |flat|), from, limit) == Records(Whole(flat), from, limit)
  {
    hide OnTheWay, Gapless, IsOpenLength, KeepFrom, HeadOf, Fits, Records, LogEnd, View, Crash, DirOf;
    var b :| Crash(start, b) && OnTheWay(b, newHead, KeepFrom(size, newHead, |flat|), n);
    HoldsOnTheWay(content, b, size, flat, head, newHead, n);
    MarkerOf(content, n);
    SegmentsRecoverFlat(DirOf(content, n).files, size, flat, HeadOf(n.marker), limit);
  }

  lemma MarkerOf(content: Files, n: Names)
    ensures DirOf(content, n).marker == n.marker
  {
  }

  /** The premise of `CrashSafeCompaction`, from what the running process sees. After a sync that
      flushed the directory nothing is pending; after an earlier compaction only its deletions
      are. Either way, if the live directory holds the log, so does whatever a crash leaves. */
  lemma CrashHolds(content: Files, j: Journal, size: nat, flat: seq<byte>, head: nat, keepFrom: nat, n: Names)
    requires size > 0 && Holds(DirOf(content, Live(j)), size, flat, head) && Fits(content, size, |flat|)
    requires OnlyDrops(j.pending, keepFrom) && keepFrom <= KeepFrom(size, head, |flat|) && Crash(j, n)
    ensures Holds(DirOf(content, n), size, flat, head)
  {
    hide Gapless, IsOpenLength, Crash, Live, OnlyDrops, KeepFrom;
    DropsLive(j, keepFrom);
    DropsCrash(j, keepFrom, n);
    assert NoCreate(j.pending) by { DropsCreateNothing(j.pending, keepFrom); }
    NamesSurvive(j, n);
    var live, found := DirOf(content, Live(j)).files, DirOf(content, n).files;
    assert PartlyDropped(found, keepFrom, live);
    LengthBack(found, size, |flat|, head, keepFrom, live);
    GaplessBack(found, size, flat, head, keepFrom, live);
  }

  lemma DropsCreateNothing(ops: seq<DirOp>, keepFrom: nat)
    requires OnlyDrops(ops, keepFrom)
    ensures NoCreate(ops)
  {
  }

  /** Lower segments that come back do not change the length, */
  lemma LengthBack(found: Files, size: nat, len: nat, head: nat, keepFrom: nat, live: Files)
    requires size > 0 && len <= U64_MAX && Fits(live, size, len) && IsOpenLength(live, size, len)
    requires PartlyDropped(found, keepFrom, live) && keepFrom <= KeepFrom(size, head, len)
    ensures IsOpenLength(found, size, len)
  {
    hide Fits;
    if live != map[] {
      var h: nat :| IsHighest(live, h) && len == Min(h * size + |live[h]|, U64_MAX);
      HighestEnd(live, size, len, h);
      HighestIsKept(live, size, len, head, h);
      assert IsHighest(found, h);
    } else {
      Locates(0, 0, size);
      assert found == map[];
    }
  }

  /** nor what is at or above the head. */
  lemma GaplessBack(found: Files, size: nat, flat: seq<byte>, head: nat, keepFrom: nat, live: Files)
    requires size > 0 && Gapless(live, size, head, flat)
    requires PartlyDropped(found, keepFrom, live) && keepFrom <= KeepFrom(size, head, |flat|)
    ensures Gapless(found, size, head, flat)
  {
    forall p: nat | head <= p
      ensures At(found, size, p) == At(live, size, p)
    {
      Ordered(head, p, size);
    }
  }

  // An empty segment past the end.

  /** A whole, intact log with an empty segment past its end, as an overtaking write that failed
      leaves it: the open scan still finds all of it, but the unreadable rest could hide a
      record, so a strict open refuses the log. */
  lemma EmptySegmentBlocksStrict(files: Files, size: nat, flat: seq<byte>, len: nat, limit: nat) returns (b: seq<byte>)
    requires size > 0 && Gapless(files, size, 0, flat) && |flat| + 1 + HEADER_LEN <= len
    requires LogEnd(Whole(flat), 0, limit) == |flat|
    ensures var d := View(files, size, len);
            && LogEnd(d, 0, limit) == |flat| < |d.bytes|
            && d.Completes(b) && RecordLost(b, limit, |flat|)
  {
    hide LogEnd, At, RecordLost;
    var d := View(files, size, len);
    assert forall p: nat :: p < |flat| ==> At(files, size, p) == Some(flat[p]);
    assert forall p: nat :: |flat| <= p < len ==> p in d.holes;
    ScanIsLocal(Whole(flat), d, 0, limit);
    StopsAtHole(d, |flat|, limit);
    b := HoleMayHide(d, limit, |flat|);
  }

  lemma StopsAtHole(d: Disk, at: nat, limit: nat)
    requires at in d.holes
    ensures LogEnd(d, at, limit) == at
  {
    hide ChecksumHoldsAt;
  }

  // A lost marker.

  /** Every segment file is a slice of the flat log: full, except for the last. */
  ghost predicate Slices(files: Files, size: nat, flat: seq<byte>) {
    forall i :: i in files ==> i * size <= |flat| && files[i] == flat[i * size..Min(i * size + size, |flat|)]
  }

  /** The start of every segment that reaches below `to` is there. */
  ghost predicate AllBelow(files: Files, size: nat, to: nat) {
    forall i: nat {:trigger i in files} :: i * size < to ==> i in files
  }

  /** Then what is at a position is the flat byte, if its segment is there at all. */
  lemma SliceAt(files: Files, size: nat, flat: seq<byte>, p: nat)
    requires size > 0 && Slices(files, size, flat) && p < |flat|
    ensures At(files, size, p) == if p / size in files then Some(flat[p]) else None
  {
    Splits(p, size);
  }

  lemma ViewOfSlices(files: Files, size: nat, flat: seq<byte>)
    requires size > 0 && Slices(files, size, flat)
    ensures var v := View(files, size, |flat|);
            && |v.bytes| == |flat| && v.faults == {}
            && (forall p: nat :: p < |flat| ==> (p in v.holes <==> p / size !in files))
            && (forall p: nat :: p < |flat| && p !in v.holes ==> v.bytes[p] == flat[p])
  {
    hide At, Slices;
    forall p: nat | p < |flat|
      ensures At(files, size, p) == if p / size in files then Some(flat[p]) else None
    {
      SliceAt(files, size, flat, p);
    }
  }

  /** A range is readable if and only if every segment that starts in or before it is there. */
  lemma ClearIsAllBelow(files: Files, size: nat, flat: seq<byte>, to: nat)
    requires size > 0 && Slices(files, size, flat) && to <= |flat|
    ensures View(files, size, |flat|).Clear(0, to) <==> AllBelow(files, size, to)
  {
    hide At, Slices;
    var v := View(files, size, |flat|);
    ViewOfSlices(files, size, flat);
    if AllBelow(files, size, to) {
      forall p: nat | p < to
        ensures p !in v.holes
      {
        Splits(p, size);
      }
    }
    if v.Clear(0, to) {
      forall i: nat | i * size < to
        ensures i in files
      {
        Locates(i, 0, size);
        assert i * size !in v.holes;
      }
    }
  }

  /** The scan from 0 finds the whole log if and only if every segment it lies in is there; it
      never gets past a missing one. */
  lemma ScanFromZero(files: Files, size: nat, flat: seq<byte>, limit: nat)
    requires size > 0 && Slices(files, size, flat)
    ensures var v, end := View(files, size, |flat|), LogEnd(Whole(flat), 0, limit);
            && (LogEnd(v, 0, limit) == end <==> AllBelow(files, size, end))
            && LogEnd(v, 0, limit) <= end
            && AllBelow(files, size, LogEnd(v, 0, limit))
  {
    hide LogEnd, At, Slices, View, AllBelow;
    var v, w := View(files, size, |flat|), Whole(flat);
    var end, found := LogEnd(w, 0, limit), LogEnd(v, 0, limit);
    ViewOfSlices(files, size, flat);
    ScanClears(v, 0, limit);
    ScanIsLocal(v, w, 0, limit);
    ClearIsAllBelow(files, size, flat, found);
    ClearIsAllBelow(files, size, flat, end);
    if v.Clear(0, end) {
      ScanIsLocal(w, v, 0, limit);
    }
  }

  /** Falling back to offset 0 when the marker is lost, at any point on the way of a compaction
      of a log compacted before or not. `head` is where the log then really starts, a record
      boundary of the flat log. The scan from 0 finds it all if and only if no segment below
      the head's is missing; otherwise it stops before the first one that is. */
  lemma LostMarkerFindsTheLog(content: Files, n: Names, size: nat, flat: seq<byte>, head: nat, limit: nat)
    requires size > 0 && Holds(DirOf(content, n), size, flat, head) && Slices(content, size, flat)
    requires LogEnd(Whole(flat), 0, limit) == LogEnd(Whole(flat), head, limit)
    ensures var v := View(DirOf(content, n).files, size, |flat|);
            && (LogEnd(v, 0, limit) == LogEnd(Whole(flat), head, limit) <==> AllBelow(DirOf(content, n).files, size, head))
            && (forall i: nat :: i !in DirOf(content, n).files ==> LogEnd(v, 0, limit) <= i * size)
  {
    hide LogEnd, View, Fits, IsOpenLength, HeadOf;
    var files := DirOf(content, n).files;
    assert Slices(files, size, flat);
    ScanFromZero(files, size, flat, limit);
    PresentFrom(files, size, flat, head, LogEnd(Whole(flat), head, limit));
  }

  /** From the head on nothing is missing. */
  lemma PresentFrom(files: Files, size: nat, flat: seq<byte>, head: nat, end: nat)
    requires size > 0 && Gapless(files, size, head, flat) && head <= end <= |flat|
    ensures AllBelow(files, size, end) <==> AllBelow(files, size, head)
  {
    if AllBelow(files, size, head) {
      forall i: nat | i * size < end
        ensures i in files
      {
        Locates(i, 0, size);
        if head <= i * size {
          assert At(files, size, i * size).Some?;
        }
      }
    }
  }
}
