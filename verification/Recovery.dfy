/** Opening a log: `LogEnd` and `Records` say what a scan of the store finds, and `Recover` is
    proved to find that and to cut no more than its policy permits. */
module Recovery {
  import opened Crc32c
  import opened Record
  import opened Store
  import opened Strict

  datatype OpenPolicy = TruncateTail | StrictOpen

  /** The result of an open: the recovered end, and the number of bytes removed after it. */
  datatype Recovered = Recovered(end: nat, cut: nat)

  /** A record read back: its sequence number is its offset. */
  datatype Rec = Rec(lsn: nat, data: seq<byte>)

  /** An intact record within the limit starts at `at` and can be read back. */
  predicate Recoverable(d: Disk, at: nat, limit: nat) {
    IntactAt(d.bytes, at, limit, |d.bytes|) && d.Clear(at, EndAt(d.bytes, at))
  }

  /** Where the run of recoverable records starting at `at` ends. */
  function LogEnd(d: Disk, at: nat, limit: nat): (end: nat)
    ensures at <= end <= Max(at, |d.bytes|)
    decreases |d.bytes| - at
  {
    if Recoverable(d, at, limit) then LogEnd(d, EndAt(d.bytes, at), limit) else at
  }

  /** The records of that run. */
  function Records(d: Disk, at: nat, limit: nat): (rs: seq<Rec>)
    decreases |d.bytes| - at
  {
    if Recoverable(d, at, limit)
    then [Rec(at, PayloadAt(d.bytes, at))] + Records(d, EndAt(d.bytes, at), limit)
    else []
  }

  function Cut(d: Disk, len: nat): (c: Disk)
    requires len <= |d.bytes|
    ensures |c.bytes| == len && forall p :: 0 <= p < len ==> c.bytes[p] == d.bytes[p]
    ensures forall p :: 0 <= p < len ==> (p in c.holes <==> p in d.holes) && (p in c.faults <==> p in d.faults)
    ensures d.faults == {} ==> c.faults == {}
  {
    Disk(d.bytes[..len], set p | p in d.holes && p < len, set p | p in d.faults && p < len)
  }

  /** A positioned write: the bytes written can be read back. */
  function Patched(d: Disk, offset: nat, bytes: seq<byte>): Disk {
    var end := offset + |bytes|;
    Disk(Written(d.bytes, offset, bytes),
         set p | p in d.holes && !(offset <= p < end),
         set p | p in d.faults && !(offset <= p < end))
  }

  /** The backing store. `refuses` is a medium on which truncation fails. */
  class LogStore {
    var disk: Disk
    const refuses: bool

    constructor (disk: Disk, refuses: bool)
      ensures this.disk == disk && this.refuses == refuses
    {
      this.disk := disk;
      this.refuses := refuses;
    }

    /** `torn` is what a failed write left behind; none if the write goes through. */
    method WriteAt(offset: nat, bytes: seq<byte>, torn: Option<Disk>) returns (r: Result<()>)
      modifies this
      ensures torn.None? ==> r == Ok(()) && disk == Patched(old(disk), offset, bytes)
      ensures torn.Some? ==> r == Err(Io) && disk == torn.value
    {
      if torn.Some? {
        disk := torn.value;
        return Err(Io);
      }
      disk := Patched(disk, offset, bytes);
      r := Ok(());
    }

    method Truncate(len: nat) returns (r: Result<()>)
      requires len <= |disk.bytes|
      modifies this
      ensures refuses ==> r == Err(Io) && disk == old(disk)
      ensures !refuses ==> r == Ok(()) && disk == Cut(old(disk), len)
    {
      if refuses {
        return Err(Io);
      }
      disk := Cut(disk, len);
      r := Ok(());
    }
  }

  /** Walk the records from `head`. */
  method ScanRecords(d: Disk, limit: nat, head: nat) returns (r: Result<nat>)
    requires |d.bytes| <= U64_MAX
    ensures r.Ok? ==> r.value == LogEnd(d, head, limit)
    ensures r.Err? ==> r == Err(Io) && d.faults != {}
  {
    hide ParseHeader, Verify;
    var physical := |d.bytes|;
    var offset := head;
    while offset < physical
      invariant head <= offset <= Max(head, physical)
      invariant LogEnd(d, offset, limit) == LogEnd(d, head, limit)
      decreases physical - offset
    {
      var header := d.Read(offset, HEADER_LEN);
      if header.Err? {
        return Err(header.error);
      }
      if |header.value| < HEADER_LEN {
        assert !Recoverable(d, offset, limit);
        break;
      }
      var parsed := ParseHeader(header.value);
      assert header.value == HeaderAt(d.bytes, offset);
      if parsed.len > limit {
        assert !Recoverable(d, offset, limit);
        break;
      }
      var payloadStart := offset + HEADER_LEN;
      if payloadStart > U64_MAX {
        break;
      }
      var payload := d.Read(payloadStart, parsed.len);
      if payload.Err? {
        return Err(payload.error);
      }
      if |payload.value| < parsed.len {
        assert !Recoverable(d, offset, limit);
        break;
      }
      assert payload.value == PayloadAt(d.bytes, offset);
      if !Verify(header.value, payload.value, parsed.crc) {
        assert !Recoverable(d, offset, limit);
        break;
      }
      if payloadStart + parsed.len > U64_MAX {
        break;
      }
      offset := payloadStart + parsed.len;
    }
    r := Ok(offset);
  }

  /** A record lies where a strict open must not cut: one too long at `stop`, or any after it. */
  ghost predicate RecordLost(bytes: seq<byte>, limit: nat, stop: nat) {
    TooLongAt(bytes, limit, stop) || RecordAfter(bytes, limit, stop)
  }

  lemma TornLosesNothing(bytes: seq<byte>, limit: nat, stop: nat)
    ensures NaiveTail(bytes, limit, stop) == Torn <==> !RecordLost(bytes, limit, stop)
  {
    hide TooLongAt, RecordAfter, NaiveTail;
    TailMeans(bytes, limit, stop);
  }

  /** Scan `store` from `head`, then cut what follows the last intact record. A strict open does so
      only if no record is lost, and on a store that reads back from there on exactly then. */
  method Recover(store: LogStore, limit: nat, policy: OpenPolicy, head: nat) returns (r: Result<Recovered>)
    requires |store.disk.bytes| <= U64_MAX
    modifies store
    ensures var d, stop := old(store.disk), LogEnd(old(store.disk), head, limit);
            && (r.Ok? ==> r.value == Recovered(stop, SaturatingSub(|d.bytes|, stop)))
            && (r.Ok? ==> store.disk == if stop < |d.bytes| then Cut(d, stop) else d)
            && (r.Ok? && policy == StrictOpen && stop < |d.bytes| ==>
                  forall b :: d.Completes(b) ==> !RecordLost(b, limit, stop))
            && (r.Err? ==> store.disk == d)
            && (r.Err? ==> r.error == Io || (policy == StrictOpen && stop < |d.bytes| && r.error == Corruption(stop)))
            && (r == Err(Io) ==> store.refuses || d.faults != {})
            && (d.ReadableFrom(stop) && !store.refuses ==>
                  (r == Err(Corruption(stop)) <==> r.Err?)
                  && (r.Err? <==> policy == StrictOpen && stop < |d.bytes| && RecordLost(d.bytes, limit, stop)))
  {
    hide NaiveTail, RecordLost, TooLongAt, RecordAfter;
    ghost var d := store.disk;
    assert d.Completes(d.bytes);
    var physical := |store.disk.bytes|;
    var scan := ScanRecords(store.disk, limit, head);
    if scan.Err? {
      return Err(scan.error);
    }
    var offset := scan.value;
    if offset < physical {
      if policy == StrictOpen {
        var tail := Classify(store.disk, limit, offset, physical);
        if tail.Err? {
          return Err(tail.error);
        }
        forall b
          ensures NaiveTail(b, limit, offset) == Torn <==> !RecordLost(b, limit, offset)
        {
          TornLosesNothing(b, limit, offset);
        }
        if tail.value != Torn {
          return Err(Corruption(offset));
        }
      }
      var cut := store.Truncate(offset);
      if cut.Err? {
        return Err(cut.error);
      }
    }
    r := Ok(Recovered(offset, SaturatingSub(physical, offset)));
  }

  /** The scan steps over a framed record. */
  lemma ScanPassesFrame(d: Disk, at: nat, payload: seq<byte>, limit: nat)
    requires |payload| < WORD && |payload| <= limit && FramedAt(d.bytes, at, payload)
    requires d.Clear(at, at + FramedLen(|payload|))
    ensures LogEnd(d, at, limit) == LogEnd(d, at + FramedLen(|payload|), limit)
    ensures Records(d, at, limit) == [Rec(at, payload)] + Records(d, at + FramedLen(|payload|), limit)
  {
    hide ParseHeader, Verify, Frame;
    FramedIsIntact(d.bytes, at, payload);
  }

  /** The scan decides from the bytes it has accepted and those at the place it stops. */
  lemma {:induction false} ScanIsLocal(a: Disk, b: Disk, at: nat, limit: nat)
    requires LogEnd(a, at, limit) <= |b.bytes|
    requires forall p :: at <= p < LogEnd(a, at, limit) ==> a.bytes[p] == b.bytes[p]
    requires b.Clear(at, LogEnd(a, at, limit))
    ensures LogEnd(b, at, limit) == LogEnd(b, LogEnd(a, at, limit), limit)
    ensures Records(b, at, limit) == Records(a, at, limit) + Records(b, LogEnd(a, at, limit), limit)
    decreases |a.bytes| - at
  {
    hide ParseHeader, Verify, Frame;
    if Recoverable(a, at, limit) {
      var next := EndAt(a.bytes, at);
      var payload := PayloadAt(a.bytes, at);
      IntactIsFramed(a.bytes, at, limit, |a.bytes|);
      assert b.bytes[at..next] == a.bytes[at..next];
      ScanPassesFrame(b, at, payload, limit);
      ScanIsLocal(a, b, next, limit);
    }
  }

  /** Opening again cuts nothing more: the recovered log is its own recovery. */
  lemma ReopenIsClean(d: Disk, head: nat, limit: nat)
    requires head <= |d.bytes|
    ensures var c := Cut(d, LogEnd(d, head, limit));
            LogEnd(c, head, limit) == |c.bytes| && Records(c, head, limit) == Records(d, head, limit)
  {
    hide IntactAt;
    var end := LogEnd(d, head, limit);
    var c := Cut(d, end);
    ScanClears(d, head, limit);
    ScanIsLocal(d, c, head, limit);
    assert !Recoverable(c, end, limit) by {
      PastTheEnd(c, limit);
    }
  }

  /** A stretch of nine unreadable bytes at the place where the scan stops could hide a record, so
      a strict open, which has to rule that out for every completion, does not succeed. */
  lemma HoleMayHide(d: Disk, limit: nat, stop: nat) returns (b: seq<byte>)
    requires stop + 1 + HEADER_LEN <= |d.bytes| && forall p :: stop < p <= stop + HEADER_LEN ==> p in d.holes
    ensures d.Completes(b) && RecordLost(b, limit, stop)
  {
    hide Frame, ParseHeader, Verify, ChecksumHoldsAt;
    var at, frame := stop + 1, Frame([]);
    b := d.bytes[..at] + frame + d.bytes[at + HEADER_LEN..];
    assert b[at..at + FramedLen(0)] == frame;
    assert RecordAt(b, at, 0, limit);
  }

  lemma PastTheEnd(d: Disk, limit: nat)
    ensures !Recoverable(d, |d.bytes|, limit)
  {
  }

  lemma {:induction false} ScanClears(d: Disk, at: nat, limit: nat)
    ensures d.Clear(at, LogEnd(d, at, limit))
    decreases |d.bytes| - at
  {
    hide ChecksumHoldsAt;
    if Recoverable(d, at, limit) {
      ScanClears(d, EndAt(d.bytes, at), limit);
    }
  }
}
