/** Two classifiers of what follows the place where recovery stopped. `NaiveTail` puts the
    question to every offset; `Classify` reads each byte a bounded number of times, from a
    buffered part of the store or by subtracting one prefix checksum from another. They are
    proved to agree, for every way the bytes that cannot be read might be filled in. */
module Strict {
  import opened Crc32c
  import opened Record
  import opened Store
  import ZeroShift

  const WINDOW: nat := 65536
  const MARK_INTERVAL: nat := 4096

  datatype Tail = Torn | IntactAfter | Unreadable | Oversized

  /** The record at `at` is intact apart from being longer than `limit`. */
  predicate OversizedAt(bytes: seq<byte>, at: nat, limit: nat, end: nat)
    requires end <= |bytes|
  {
    FitsAt(bytes, at, end) && LenAt(bytes, at) > limit && ChecksumHoldsAt(bytes, at)
  }

  /** Some offset after `damaged` starts an intact record within the limit. */
  predicate IntactFollows(bytes: seq<byte>, damaged: nat, limit: nat, end: nat)
    requires end <= |bytes|
  {
    exists at | damaged < at < end :: IntactAt(bytes, at, limit, end)
  }

  /** The naive classification, on a store that holds exactly `bytes`. */
  function NaiveTail(bytes: seq<byte>, limit: nat, damaged: nat): Tail {
    if OversizedAt(bytes, damaged, limit, |bytes|) then Oversized
    else if IntactFollows(bytes, damaged, limit, |bytes|) then IntactAfter
    else Torn
  }

  /** Some payload of a length from `least` to `most` is framed at `at`. */
  ghost predicate RecordAt(bytes: seq<byte>, at: nat, least: nat, most: nat) {
    exists payload :: FramedAt(bytes, at, payload) && least <= |payload| <= most && |payload| < WORD
  }

  /** A record longer than the limit lies where recovery stopped. */
  ghost predicate TooLongAt(bytes: seq<byte>, limit: nat, stop: nat) {
    RecordAt(bytes, stop, limit + 1, WORD)
  }

  /** A record within the limit lies after that place. */
  ghost predicate RecordAfter(bytes: seq<byte>, limit: nat, stop: nat) {
    exists at :: stop < at && RecordAt(bytes, at, 0, limit)
  }

  lemma ChecksumMeansRecord(bytes: seq<byte>, at: nat, least: nat, most: nat)
    ensures RecordAt(bytes, at, least, most)
       <==> FitsAt(bytes, at, |bytes|) && least <= LenAt(bytes, at) <= most && ChecksumHoldsAt(bytes, at)
  {
    hide Frame, ParseHeader, Verify, FramedAt;
    IntactIsFramed(bytes, at, most, |bytes|);
    forall payload | FramedAt(bytes, at, payload) && |payload| < WORD
      ensures FitsAt(bytes, at, |bytes|) && ChecksumHoldsAt(bytes, at) && LenAt(bytes, at) == |payload|
    {
      FramedIsIntact(bytes, at, payload);
    }
  }

  /** The naive classification in terms of records. */
  lemma TailMeans(bytes: seq<byte>, limit: nat, damaged: nat)
    ensures NaiveTail(bytes, limit, damaged)
         == if TooLongAt(bytes, limit, damaged) then Oversized
            else if RecordAfter(bytes, limit, damaged) then IntactAfter
            else Torn
  {
    hide ParseHeader, ChecksumHoldsAt, RecordAt;
    ChecksumMeansRecord(bytes, damaged, limit + 1, WORD);
    forall at: nat
      ensures RecordAt(bytes, at, 0, limit) <==> IntactAt(bytes, at, limit, |bytes|)
    {
      ChecksumMeansRecord(bytes, at, 0, limit);
    }
    assert IntactFollows(bytes, damaged, limit, |bytes|) <==> RecordAfter(bytes, limit, damaged);
  }

  lemma SliceOfStore(b: seq<byte>, lo: nat, hi: nat, from: nat, to: nat)
    requires lo <= from <= to <= hi <= |b|
    ensures b[lo..hi][from - lo..to - lo] == b[from..to]
  {
    var part, whole := b[lo..hi][from - lo..to - lo], b[from..to];
    assert forall k :: 0 <= k < |part| ==> part[k] == whole[k];
  }

  /** The buffered part of the store; `Mirrors` ties it to the bytes it stands for. */
  class Window {
    var start: nat
    var bytes: seq<byte>

    constructor (first: nat)
      ensures start == first && bytes == []
    {
      start := first;
      bytes := [];
    }

    function End(): nat
      reads this
    {
      start + |bytes|
    }

    /** The window is a faithful copy of a readable part of the store. */
    ghost predicate Mirrors(d: Disk)
      reads this
    {
      End() <= |d.bytes| && bytes == d.bytes[start..End()] && d.Clear(start, End())
    }

    /** No refill is due before `at` is examined. `End() - at` is a natural number because the
        loop invariant of `ScanAfter` keeps `at` within the buffer. */
    predicate Covers(at: nat, end: nat)
      requires at <= End()
      reads this
    {
      at >= start && (End() >= end || End() - at >= WINDOW / 2)
    }

    method Fill(d: Disk, at: nat, end: nat) returns (r: Result<bool>)
      requires at + HEADER_LEN <= end == |d.bytes|
      modifies this
      ensures start == at
      ensures r == Ok(true) ==> Mirrors(d) && End() == Min(end, at + WINDOW)
      ensures r == Ok(false) ==> !d.Clear(at, end)
      ensures r.Err? ==> r == Err(Io) && d.faults != {}
    {
      var len := Min(end - at, WINDOW);
      start := at;
      var got := d.Read(at, len);
      if got.Err? {
        return Err(got.error);
      }
      bytes := got.value;
      r := Ok(|got.value| == len);
    }

    function Header(at: nat): (h: seq<byte>)
      requires start <= at && at + HEADER_LEN <= End()
      reads this
      ensures |h| == HEADER_LEN
      ensures forall d: Disk :: Mirrors(d) ==> h == HeaderAt(d.bytes, at)
    {
      assert forall d: Disk :: Mirrors(d) ==> bytes[at - start..at - start + HEADER_LEN] == HeaderAt(d.bytes, at) by {
        forall d: Disk | Mirrors(d) {
          SliceOfStore(d.bytes, start, End(), at, at + HEADER_LEN);
        }
      }
      bytes[at - start..at - start + HEADER_LEN]
    }

    /** `Some` exactly when the range is buffered in full, and then equal to the store's range. */
    function Slice(from: nat, to: nat): (s: Option<seq<byte>>)
      requires from <= to
      reads this
      ensures s.Some? <==> start <= from && to <= End()
      ensures forall d: Disk :: s.Some? && Mirrors(d) ==> s.value == d.bytes[from..to] && d.Clear(from, to)
    {
      if from < start || to > End() then None
      else
        assert forall d: Disk :: Mirrors(d) ==> bytes[from - start..to - start] == d.bytes[from..to] by {
          forall d: Disk | Mirrors(d) {
            SliceOfStore(d.bytes, start, End(), from, to);
          }
        }
        Some(bytes[from - start..to - start])
    }
  }

  /** A growing table whose entry `i` is `Crc` of the store from `base` up to `MarkAt(i)`; every
      method keeps all entries exact. */
  class Prefix {
    const base: nat
    var marks: seq<nat>

    constructor (base: nat)
      ensures this.base == base && marks == [0]
    {
      this.base := base;
      marks := [0];
    }

    /** Where mark `i` ends. */
    function MarkAt(i: nat): nat {
      base + i * MARK_INTERVAL
    }

    /** Every mark is the checksum of the readable bytes from the base up to it. */
    ghost predicate Mirrors(d: Disk)
      reads this
    {
      && |marks| > 0
      && MarkAt(|marks| - 1) <= |d.bytes|
      && d.Clear(base, MarkAt(|marks| - 1))
      && forall i :: 0 <= i < |marks| ==> marks[i] == Crc(d.bytes[base..MarkAt(i)])
    }

    /** Continue the checksum of `[base, from)` over the next `len` bytes. */
    method Extend(d: Disk, crc: nat, from: nat, len: nat) returns (r: Result<Option<nat>>)
      requires base <= from && from + len <= |d.bytes| && crc == Crc(d.bytes[base..from])
      ensures r.Ok? && r.value.Some? ==> r.value.value == Crc(d.bytes[base..from + len]) && d.Clear(from, from + len)
      ensures r == Ok(None) ==> !d.Clear(from, from + len)
      ensures r.Err? ==> r == Err(Io) && d.faults != {}
    {
      hide Crc, Append;
      var got := d.Read(from, len);
      if got.Err? {
        return Err(got.error);
      }
      if |got.value| < len {
        return Ok(None);
      }
      assert got.value == d.bytes[from..from + len];
      assert d.bytes[base..from + len] == d.bytes[base..from] + d.bytes[from..from + len];
      AppendContinues(d.bytes[base..from], got.value);
      r := Ok(Some(Append(crc, got.value)));
    }

    /** The checksum of `[base, at)`. */
    method UpTo(d: Disk, at: nat) returns (r: Result<Option<nat>>)
      requires Mirrors(d) && base <= at <= |d.bytes|
      modifies this
      ensures Mirrors(d)
      ensures r.Ok? && r.value.Some? ==> r.value.value == Crc(d.bytes[base..at]) && d.Clear(base, at)
      ensures r == Ok(None) ==> !d.Clear(base, at)
      ensures r.Err? ==> r == Err(Io) && d.faults != {}
    {
      hide Crc;
      var index := (at - base) / MARK_INTERVAL;
      while |marks| <= index
        invariant Mirrors(d)
        decreases index + 1 - |marks|
      {
        var last := |marks| - 1;
        var crc := Extend(d, marks[last], MarkAt(last), MARK_INTERVAL);
        if crc.Err? || crc.value.None? {
          return crc;
        }
        marks := marks + [crc.value.value];
      }
      var from := MarkAt(index);
      r := Extend(d, marks[index], from, at - from);
    }

    /** The checksum of `[from, to)`, derived from two prefix checksums. */
    method Span(d: Disk, ops: seq<ZeroShift.Matrix>, from: nat, to: nat) returns (r: Result<Option<nat>>)
      requires ZeroShift.IsTable(ops)
      requires Mirrors(d) && base <= from <= to <= |d.bytes| && to - from < Pow2(64)
      modifies this
      ensures Mirrors(d)
      ensures r.Ok? && r.value.Some? ==> r.value.value == Crc(d.bytes[from..to]) && d.Clear(from, to)
      ensures r == Ok(None) ==> !d.Clear(base, to)
      ensures r.Err? ==> r == Err(Io) && d.faults != {}
    {
      hide Crc, ZeroBytes, Xor;
      var before := UpTo(d, from);
      if before.Err? || before.value.None? {
        return before;
      }
      var through := UpTo(d, to);
      if through.Err? || through.value.None? {
        return through;
      }
      CrcIsWord(d.bytes[base..from]);
      var shifted := ZeroShift.ZeroShift(ops, before.value.value, to - from);
      SpanFromPrefixes(d.bytes, base, from, to);
      r := Ok(Some(Xor(through.value.value, shifted)));
    }
  }

  lemma SpanFromPrefixes(bytes: seq<byte>, base: nat, from: nat, to: nat)
    requires base <= from <= to <= |bytes|
    ensures Xor(Crc(bytes[base..to]), ZeroBytes(Crc(bytes[base..from]), to - from)) == Crc(bytes[from..to])
  {
    hide Crc, ZeroBytes;
    var a, b := bytes[base..from], bytes[from..to];
    assert bytes[base..to] == a + b;
    CrcOfConcat(a, b);
    XorCommutes(ZeroBytes(Crc(a), |b|), Crc(b));
    XorCancels(Crc(b), ZeroBytes(Crc(a), |b|));
  }

  /** A record's own bytes decide, in every completion of the holes, whether it verifies. */
  lemma HeaderIsCertain(d: Disk, b: seq<byte>, at: nat)
    requires d.Completes(b) && at + HEADER_LEN <= |b| && d.Clear(at, at + HEADER_LEN)
    ensures HeaderAt(b, at) == HeaderAt(d.bytes, at)
  {
  }

  lemma RecordIsCertain(d: Disk, b: seq<byte>, at: nat)
    requires d.Completes(b) && FitsAt(d.bytes, at, |b|) && d.Clear(at, EndAt(d.bytes, at))
    ensures FitsAt(b, at, |b|) && LenAt(b, at) == LenAt(d.bytes, at)
    ensures ChecksumHoldsAt(b, at) == ChecksumHoldsAt(d.bytes, at)
  {
    hide Verify, ParseHeader;
    HeaderIsCertain(d, b, at);
    d.ClearPartsAgree(b, at + HEADER_LEN, EndAt(d.bytes, at));
  }

  /** The checksum test on a record, as one checksum over its length and payload. */
  lemma ChecksumOfRecord(bytes: seq<byte>, at: nat)
    requires FitsAt(bytes, at, |bytes|)
    ensures ChecksumHoldsAt(bytes, at)
        <==> Crc(bytes[at + LEN_OFFSET..EndAt(bytes, at)]) == ParseHeader(HeaderAt(bytes, at)).crc
  {
    hide Crc, Append, ParseHeader;
    var field, payload := HeaderAt(bytes, at)[LEN_OFFSET..], PayloadAt(bytes, at);
    assert bytes[at + LEN_OFFSET..EndAt(bytes, at)] == field + payload;
    AppendContinues(field, payload);
  }

  /** Stream the checksum of `[base, from)` on to `[base, to)` in chunks. */
  method StreamChecksum(d: Disk, crc: nat, base: nat, start: nat, to: nat) returns (r: Result<Option<nat>>)
    requires base <= start <= to <= |d.bytes| && crc == Crc(d.bytes[base..start])
    ensures r.Ok? && r.value.Some? ==> r.value.value == Crc(d.bytes[base..to]) && d.Clear(start, to)
    ensures r == Ok(None) ==> !d.Clear(start, to)
    ensures r.Err? ==> r == Err(Io) && d.faults != {}
  {
    hide Crc, Append;
    var sum, from := crc, start;
    while from < to
      invariant start <= from <= to && d.Clear(start, from)
      invariant sum == Crc(d.bytes[base..from])
    {
      var len := Min(to - from, MARK_INTERVAL);
      var chunk := d.Read(from, len);
      if chunk.Err? {
        return Err(chunk.error);
      }
      if |chunk.value| < len {
        return Ok(None);
      }
      AppendContinues(d.bytes[base..from], chunk.value);
      assert d.bytes[base..from] + chunk.value == d.bytes[base..from + len];
      sum := Append(sum, chunk.value);
      from := from + len;
    }
    r := Ok(Some(sum));
  }

  /** The header alone rules a record out as oversized, in every completion. */
  lemma NotOversizedByHeader(d: Disk, at: nat, limit: nat)
    requires at + HEADER_LEN <= |d.bytes| && d.Clear(at, at + HEADER_LEN)
    requires LenAt(d.bytes, at) <= limit || EndAt(d.bytes, at) > |d.bytes|
    ensures forall b :: d.Completes(b) ==> !OversizedAt(b, at, limit, |d.bytes|)
  {
    forall b | d.Completes(b)
      ensures !OversizedAt(b, at, limit, |d.bytes|)
    {
      HeaderIsCertain(d, b, at);
    }
  }

  lemma OversizedByChecksum(d: Disk, at: nat, limit: nat)
    requires FitsAt(d.bytes, at, |d.bytes|) && d.Clear(at, EndAt(d.bytes, at)) && LenAt(d.bytes, at) > limit
    ensures forall b :: d.Completes(b) ==> OversizedAt(b, at, limit, |d.bytes|) == ChecksumHoldsAt(d.bytes, at)
  {
    forall b | d.Completes(b)
      ensures OversizedAt(b, at, limit, |d.bytes|) == ChecksumHoldsAt(d.bytes, at)
    {
      RecordIsCertain(d, b, at);
    }
  }

  /** Decides `OversizedAt`, for every completion of the unreadable bytes at once. */
  method ClassifyOversized(d: Disk, limit: nat, at: nat, end: nat) returns (r: Result<Option<Tail>>)
    requires end == |d.bytes| <= U64_MAX
    ensures r == Ok(None) ==> forall b :: d.Completes(b) ==> !OversizedAt(b, at, limit, end)
    ensures r.Ok? && r.value.Some? ==> r.value.value in {Oversized, Unreadable}
    ensures r == Ok(Some(Oversized)) ==> forall b :: d.Completes(b) ==> OversizedAt(b, at, limit, end)
    ensures r == Ok(Some(Unreadable)) ==> !d.Clear(at, end)
    ensures r.Err? ==> r == Err(Io) && d.faults != {}
  {
    hide Crc, ParseHeader, ChecksumHoldsAt;
    if SaturatingSub(end, at) < HEADER_LEN {
      return Ok(None);
    }
    var header := d.Read(at, HEADER_LEN);
    if header.Err? {
      return Err(header.error);
    }
    if |header.value| < HEADER_LEN {
      return Ok(Some(Unreadable));
    }
    assert header.value == HeaderAt(d.bytes, at);
    var parsed := ParseHeader(header.value);
    var payloadStart := at + HEADER_LEN;
    if parsed.len <= limit || parsed.len > end - payloadStart {
      NotOversizedByHeader(d, at, limit);
      return Ok(None);
    }
    var recordEnd := payloadStart + parsed.len;
    assert header.value[LEN_OFFSET..] == d.bytes[at + LEN_OFFSET..payloadStart];
    var crc := StreamChecksum(d, Crc(header.value[LEN_OFFSET..]), at + LEN_OFFSET, payloadStart, recordEnd);
    if crc.Err? {
      return Err(crc.error);
    }
    if crc.value.None? {
      return Ok(Some(Unreadable));
    }
    ChecksumOfRecord(d.bytes, at);
    OversizedByChecksum(d, at, limit);
    r := Ok(if crc.value.value == parsed.crc then Some(Oversized) else None);
  }

  /** Whether the candidate at `at` is intact, from the window or from prefix checksums. */
  method CheckCandidate(d: Disk, ops: seq<ZeroShift.Matrix>, window: Window, prefix: Prefix, at: nat)
    returns (r: Result<Option<bool>>)
    requires ZeroShift.IsTable(ops)
    requires FitsAt(d.bytes, at, |d.bytes|) && prefix.base <= at
    requires window.Mirrors(d) && window.start <= at && at + HEADER_LEN <= window.End()
    requires prefix.Mirrors(d)
    modifies prefix
    ensures prefix.Mirrors(d)
    ensures r.Ok? && r.value.Some? ==> r.value.value == ChecksumHoldsAt(d.bytes, at) && d.Clear(at, EndAt(d.bytes, at))
    ensures r == Ok(None) ==> !d.Clear(prefix.base, EndAt(d.bytes, at))
    ensures r.Err? ==> r == Err(Io) && d.faults != {}
  {
    hide Crc, Append, ParseHeader;
    var header := window.Header(at);
    var parsed := ParseHeader(header);
    var payloadStart := at + HEADER_LEN;
    var recordEnd := payloadStart + parsed.len;
    assert recordEnd == EndAt(d.bytes, at);
    assert d.Clear(at, payloadStart);
    var slice := window.Slice(payloadStart, recordEnd);
    if slice.Some? {
      assert slice.value == PayloadAt(d.bytes, at);
      return Ok(Some(Verify(header, slice.value, parsed.crc)));
    }
    SpanFits(recordEnd - (at + LEN_OFFSET));
    var crc := prefix.Span(d, ops, at + LEN_OFFSET, recordEnd);
    if crc.Err? {
      return Err(crc.error);
    }
    if crc.value.None? {
      return Ok(None);
    }
    ChecksumOfRecord(d.bytes, at);
    r := Ok(Some(crc.value.value == parsed.crc));
  }

  lemma SpanFits(n: nat)
    requires n < WORD + HEADER_LEN
    ensures n < Pow2(64)
  {
    WordIsPow2();
    assert Pow2(33) == 2 * WORD;
    ZeroShift.Pow2Grows(33, 64);
  }

  /** Some offset from `first` on starts an intact record, all of it readable. */
  ghost predicate FoundIntact(d: Disk, first: nat, limit: nat) {
    exists at :: first <= at < |d.bytes| && IntactAt(d.bytes, at, limit, |d.bytes|) && d.Clear(at, EndAt(d.bytes, at))
  }

  /** No offset from `first` on starts an intact record, and wherever a header fits the bytes
      were all read. */
  ghost predicate RuledOut(d: Disk, first: nat, limit: nat) {
    && (forall o :: first <= o < |d.bytes| ==> !IntactAt(d.bytes, o, limit, |d.bytes|))
    && (first + HEADER_LEN <= |d.bytes| ==> d.Clear(first, |d.bytes|))
  }

  lemma FoundIsCertain(d: Disk, b: seq<byte>, first: nat, limit: nat)
    requires d.Completes(b) && FoundIntact(d, first, limit)
    ensures exists at :: first <= at < |b| && IntactAt(b, at, limit, |b|)
  {
    hide ChecksumHoldsAt, ParseHeader;
    var at :| first <= at < |d.bytes| && IntactAt(d.bytes, at, limit, |d.bytes|) && d.Clear(at, EndAt(d.bytes, at));
    RecordIsCertain(d, b, at);
    assert IntactAt(b, at, limit, |b|);
  }

  /** Ruling every offset out is final: the windows cover every byte a header could use. */
  lemma RuledOutIsCertain(d: Disk, b: seq<byte>, first: nat, limit: nat, o: nat)
    requires d.Completes(b) && RuledOut(d, first, limit) && first <= o < |b|
    ensures !IntactAt(b, o, limit, |b|)
  {
    hide ChecksumHoldsAt, ParseHeader;
    if o + HEADER_LEN <= |b| {
      HeaderIsCertain(d, b, o);
      assert !IntactAt(d.bytes, o, limit, |d.bytes|);
      if FitsAt(d.bytes, o, |b|) {
        RecordIsCertain(d, b, o);
      }
    }
  }

  /** Whether the offset `at`, whose header is in the window, starts an intact record. */
  method TryOffset(d: Disk, limit: nat, ops: seq<ZeroShift.Matrix>, window: Window, prefix: Prefix, at: nat)
    returns (r: Result<Option<bool>>)
    requires ZeroShift.IsTable(ops) && prefix.base <= at && at + HEADER_LEN <= |d.bytes|
    requires window.Mirrors(d) && window.start <= at && at + HEADER_LEN <= window.End()
    requires prefix.Mirrors(d)
    modifies prefix
    ensures prefix.Mirrors(d)
    ensures r.Ok? && r.value.Some? ==> r.value.value == IntactAt(d.bytes, at, limit, |d.bytes|)
    ensures r == Ok(Some(true)) ==> d.Clear(at, EndAt(d.bytes, at))
    ensures r == Ok(None) ==> !d.Clear(prefix.base, |d.bytes|)
    ensures r.Err? ==> r == Err(Io) && d.faults != {}
  {
    hide Crc, ParseHeader, ChecksumHoldsAt;
    assert window.Header(at) == HeaderAt(d.bytes, at);
    var parsed := ParseHeader(window.Header(at));
    var room := |d.bytes| - at - HEADER_LEN;
    if parsed.len > limit || parsed.len > room {
      return Ok(Some(false));
    }
    r := CheckCandidate(d, ops, window, prefix, at);
  }

  lemma NoRoomForHeader(bytes: seq<byte>, at: nat, limit: nat)
    ensures at + HEADER_LEN > |bytes| ==> !IntactAt(bytes, at, limit, |bytes|)
  {
  }

  /** Try every offset from `first` on as a record start. */
  method ScanAfter(d: Disk, limit: nat, first: nat, end: nat) returns (r: Result<Tail>)
    requires end == |d.bytes|
    ensures r.Ok? ==> r.value in {Torn, IntactAfter, Unreadable}
    ensures r == Ok(IntactAfter) ==> FoundIntact(d, first, limit)
    ensures r == Ok(Torn) ==> RuledOut(d, first, limit)
    ensures r == Ok(Unreadable) ==> !d.Clear(first, end)
    ensures r.Err? ==> r == Err(Io) && d.faults != {}
  {
    hide Crc, ParseHeader, ChecksumHoldsAt, IntactAt;
    var ops := ZeroShift.ZeroByteOperators();
    var window := new Window(first);
    var prefix := new Prefix(first);
    CrcOfNothing();
    var at := first;
    while SaturatingSub(end, at) >= HEADER_LEN
      invariant prefix.base == first <= window.start <= at <= window.End()
      invariant first < end ==> window.Mirrors(d) && prefix.Mirrors(d) && d.Clear(first, window.End())
      invariant at > first ==> window.End() >= end || window.End() - (at - 1) >= WINDOW / 2
      invariant forall o :: first <= o < at ==> !IntactAt(d.bytes, o, limit, end)
      decreases SaturatingSub(end, at)
    {
      if !window.Covers(at, end) {
        var filled := window.Fill(d, at, end);
        if filled.Err? {
          return Err(filled.error);
        }
        if !filled.value {
          return Ok(Unreadable);
        }
      }
      var intact := TryOffset(d, limit, ops, window, prefix, at);
      if intact.Err? {
        return Err(intact.error);
      }
      if intact.value.None? {
        return Ok(Unreadable);
      }
      if intact.value.value {
        return Ok(IntactAfter);
      }
      at := at + 1;
    }
    forall o: nat | at <= o < end
      ensures !IntactAt(d.bytes, o, limit, end)
    {
      NoRoomForHeader(d.bytes, o, limit);
    }
    r := Ok(Torn);
  }

  /** Refines `NaiveTail`: equal to it on a store that reads back from the damage on, and on any
      other store, unless it answers `Unreadable`, equal to it for all completions. On a store
      that reads back the answer says which records are there. */
  method Classify(d: Disk, limit: nat, damaged: nat, end: nat) returns (r: Result<Tail>)
    requires end == |d.bytes| <= U64_MAX
    ensures d.ReadableFrom(damaged) ==> r == Ok(NaiveTail(d.bytes, limit, damaged))
    ensures d.ReadableFrom(damaged) ==>
              && (r == Ok(Oversized) <==> TooLongAt(d.bytes, limit, damaged))
              && (r == Ok(Torn) <==> !TooLongAt(d.bytes, limit, damaged) && !RecordAfter(d.bytes, limit, damaged))
    ensures r.Ok? && r.value != Unreadable ==> forall b :: d.Completes(b) ==> r.value == NaiveTail(b, limit, damaged)
    ensures r == Ok(Unreadable) ==> !d.Clear(damaged, end)
    ensures r.Err? ==> r == Err(Io) && d.faults != {}
  {
    hide OversizedAt, IntactAt, TooLongAt, RecordAfter;
    assert d.Completes(d.bytes);
    TailMeans(d.bytes, limit, damaged);
    var over := ClassifyOversized(d, limit, damaged, end);
    if over.Err? {
      return Err(over.error);
    }
    if over.value.Some? {
      return Ok(over.value.value);
    }
    if damaged + 1 > U64_MAX {
      return Ok(Torn);
    }
    r := ScanAfter(d, limit, damaged + 1, end);
    forall b | d.Completes(b)
      ensures r == Ok(IntactAfter) ==> NaiveTail(b, limit, damaged) == IntactAfter
      ensures r == Ok(Torn) ==> NaiveTail(b, limit, damaged) == Torn
    {
      if r == Ok(IntactAfter) {
        FoundIsCertain(d, b, damaged + 1, limit);
      } else if r == Ok(Torn) {
        forall o | damaged < o < |b|
          ensures !IntactAt(b, o, limit, |b|)
        {
          RuledOutIsCertain(d, b, damaged + 1, limit, o);
        }
      }
    }
  }
}
