/** What becomes of a record of which some bytes have changed since it was written. */
module Damage {
  import opened Crc32c
  import opened Record
  import opened Store
  import opened Recovery
  import opened TornWrite
  import opened Iteration
  import opened Detection
  import LE = LittleEndian

  /** As many bytes as the checksum has. */
  const WIDTH: nat := 4

  /** `damaged` differs from `bytes` at most in the four bytes from `from` on. */
  ghost predicate ChangedWithin(bytes: seq<byte>, damaged: seq<byte>, from: nat) {
    |damaged| == |bytes| && forall p :: 0 <= p < |bytes| && !(from <= p < from + WIDTH) ==> damaged[p] == bytes[p]
  }

  /** The length field of the record at `at` lies outside those four bytes. */
  predicate SparesLength(at: nat, from: nat) {
    from + WIDTH <= at + LEN_OFFSET || at + HEADER_LEN <= from
  }

  /** `s` with `n` bytes from `at` on set apart. */
  lemma ThreeParts(s: seq<byte>, at: nat, n: nat)
    requires at + n <= |s|
    ensures s == s[..at] + s[at..at + n] + s[at + n..]
  {
  }

  lemma Prefixed(length: seq<byte>, a: seq<byte>, x: seq<byte>, c: seq<byte>)
    ensures length + (a + x + c) == length + a + x + c
  {
  }

  /** Two payloads of one length that differ within four bytes have different checksums in their
      framings. */
  lemma ChecksumsDiffer(p: seq<byte>, q: seq<byte>, from: nat)
    requires |p| == |q| && p != q && forall k :: 0 <= k < |p| && !(from <= k < from + WIDTH) ==> p[k] == q[k]
    ensures Frame(p)[..LEN_OFFSET] != Frame(q)[..LEN_OFFSET]
  {
    hide Crc, LE.Encode, Frame;
    var lo := Min(from, |p|);
    var n := Min(from + WIDTH, |p|) - lo;
    var length := LE.Encode(|p|, FIELD);
    var a, x, y, c := p[..lo], p[lo..lo + n], q[lo..lo + n], p[lo + n..];
    assert a == q[..lo] && c == q[lo + n..];
    ThreeParts(p, lo, n);
    ThreeParts(q, lo, n);
    Prefixed(length, a, x, c);
    Prefixed(length, a, y, c);
    WindowIsDetected(length + a, x, y, c);
    CrcIsWord(length + p);
    CrcIsWord(length + q);
    EncodeOnce(Crc(length + p), Crc(length + q));
    ChecksumLeads(p);
    ChecksumLeads(q);
  }

  lemma ChecksumLeads(payload: seq<byte>)
    ensures Frame(payload)[..LEN_OFFSET] == LE.Encode(Crc(LE.Encode(|payload|, FIELD) + payload), FIELD)
  {
    hide Crc, LE.Encode;
  }

  lemma EncodeOnce(a: nat, b: nat)
    requires a < WORD && b < WORD && a != b
    ensures LE.Encode(a, FIELD) != LE.Encode(b, FIELD)
  {
    FieldHoldsWord();
    LE.DecodeEncode(a, FIELD);
    LE.DecodeEncode(b, FIELD);
  }

  /** A record changed within four bytes, its length field spared, is intact if and only if
      nothing in it has changed at all. */
  lemma DamageIsDetected(bytes: seq<byte>, damaged: seq<byte>, at: nat, payload: seq<byte>, from: nat, limit: nat)
    requires |payload| < WORD && |payload| <= limit && FramedAt(bytes, at, payload)
    requires ChangedWithin(bytes, damaged, from) && SparesLength(at, from)
    ensures IntactAt(damaged, at, limit, |damaged|)
       <==> damaged[at..at + FramedLen(|payload|)] == bytes[at..at + FramedLen(|payload|)]
  {
    hide Frame, ParseHeader, Verify;
    var end := at + FramedLen(|payload|);
    if damaged[at..end] == bytes[at..end] {
      FramedIsIntact(damaged, at, payload);
    }
    FramedIsIntact(bytes, at, payload);
    SameLength(bytes, damaged, at);
    if IntactAt(damaged, at, limit, |damaged|) {
      IntactIsFramed(damaged, at, limit, |damaged|);
      SamePayload(bytes, damaged, at, payload, PayloadAt(damaged, at), from);
    }
  }

  lemma SamePayload(bytes: seq<byte>, damaged: seq<byte>, at: nat, p: seq<byte>, q: seq<byte>, from: nat)
    requires |p| == |q| && FramedAt(bytes, at, p) && FramedAt(damaged, at, q)
    requires ChangedWithin(bytes, damaged, from) && SparesLength(at, from)
    ensures p == q
  {
    hide Frame;
    var end := at + FramedLen(|p|);
    var f, g := bytes[at..end], damaged[at..end];
    PayloadFollows(p);
    PayloadFollows(q);
    assert forall k :: 0 <= k < |p| ==> p[k] == f[HEADER_LEN + k] && q[k] == g[HEADER_LEN + k];
    if at + HEADER_LEN <= from && p != q {
      assert f[..LEN_OFFSET] == g[..LEN_OFFSET];
      ChecksumsDiffer(p, q, from - at - HEADER_LEN);
    }
  }

  lemma PayloadFollows(payload: seq<byte>)
    ensures Frame(payload)[HEADER_LEN..] == payload
  {
  }

  lemma SameLength(bytes: seq<byte>, damaged: seq<byte>, at: nat)
    requires at + HEADER_LEN <= |bytes| == |damaged|
    requires forall p :: at + LEN_OFFSET <= p < at + HEADER_LEN ==> damaged[p] == bytes[p]
    ensures LenAt(damaged, at) == LenAt(bytes, at)
  {
    assert HeaderAt(damaged, at)[LEN_OFFSET..] == HeaderAt(bytes, at)[LEN_OFFSET..];
  }

  /** Where record `k` of a log that starts at `head` lies. */
  function StartOf(head: nat, payloads: seq<seq<byte>>, k: nat): nat
    requires k <= |payloads|
  {
    head + |FrameAll(payloads[..k])|
  }

  /** Records are where they were as long as no byte of theirs has changed. */
  lemma {:induction false} PrefixStaysTiled(bytes: seq<byte>, damaged: seq<byte>, at: nat, payloads: seq<seq<byte>>, k: nat)
    requires Tiled(bytes, at, payloads) && k <= |payloads| && |damaged| == |bytes|
    requires forall p :: at <= p < StartOf(at, payloads, k) && p < |bytes| ==> damaged[p] == bytes[p]
    ensures Tiled(damaged, at, payloads[..k])
    decreases k
  {
    hide Frame;
    if k > 0 {
      var next := at + FramedLen(|payloads[0]|);
      assert payloads[..k][1..] == payloads[1..][..k - 1];
      assert StartOf(at, payloads, k) == StartOf(next, payloads[1..], k - 1);
      PrefixStaysTiled(bytes, damaged, next, payloads[1..], k - 1);
      assert damaged[at..next] == bytes[at..next];
    }
  }

  /** Some byte of record `k` has changed, within four bytes and not in its length; nothing before
      it has. */
  ghost predicate RecordDamaged(bytes: seq<byte>, damaged: seq<byte>, head: nat, payloads: seq<seq<byte>>, k: nat, from: nat)
    requires k < |payloads|
  {
    var start := StartOf(head, payloads, k);
    var end := start + FramedLen(|payloads[k]|);
    && ChangedWithin(bytes, damaged, from) && SparesLength(start, from)
    && (forall p :: 0 <= p < start && p < |bytes| ==> damaged[p] == bytes[p])
    && exists p :: start <= p < end && p < |bytes| && damaged[p] != bytes[p]
  }

  lemma DamagedIsNotIntact(bytes: seq<byte>, damaged: seq<byte>, head: nat, payloads: seq<seq<byte>>, k: nat, from: nat, limit: nat)
    requires Tiled(bytes, head, payloads) && WithinLimit(payloads, limit) && k < |payloads|
    requires RecordDamaged(bytes, damaged, head, payloads, k, from)
    ensures !IntactAt(damaged, StartOf(head, payloads, k), limit, |damaged|)
  {
    hide Frame, IntactAt;
    var start := StartOf(head, payloads, k);
    var end := start + FramedLen(|payloads[k]|);
    IterFromBoundary(bytes, head, payloads, k);
    assert FramedAt(bytes, start, payloads[k]);
    DamageIsDetected(bytes, damaged, start, payloads[k], from, limit);
    var p :| start <= p < end && p < |bytes| && damaged[p] != bytes[p];
    assert damaged[start..end][p - start] != bytes[start..end][p - start];
  }

  /** A recovery stops at the damaged record and returns exactly the records before it. */
  lemma DamageStopsRecovery(bytes: seq<byte>, damaged: seq<byte>, head: nat, payloads: seq<seq<byte>>, k: nat, from: nat, limit: nat)
    requires Tiled(bytes, head, payloads) && WithinLimit(payloads, limit) && k < |payloads|
    requires RecordDamaged(bytes, damaged, head, payloads, k, from)
    ensures ScanYields(Whole(damaged), head, payloads[..k], limit)
  {
    hide Frame, IntactAt, Tiled, FrameAll, RecordDamaged, LogEnd, Records, Laid;
    var start := StartOf(head, payloads, k);
    assert |damaged| == |bytes| && forall p :: head <= p < start && p < |bytes| ==> damaged[p] == bytes[p] by {
      DamageIsLater(bytes, damaged, head, payloads, k, from);
    }
    PrefixStaysTiled(bytes, damaged, head, payloads, k);
    TiledScan(Whole(damaged), head, payloads[..k], limit);
    DamagedIsNotIntact(bytes, damaged, head, payloads, k, from, limit);
    ScanYieldsNothing(Whole(damaged), start, limit);
    NoneLaid(start);
  }

  lemma NoneLaid(at: nat)
    ensures Laid([], at) == [] && FrameAll([]) == []
  {
  }

  lemma DamageIsLater(bytes: seq<byte>, damaged: seq<byte>, head: nat, payloads: seq<seq<byte>>, k: nat, from: nat)
    requires k < |payloads| && RecordDamaged(bytes, damaged, head, payloads, k, from)
    ensures |damaged| == |bytes|
    ensures forall p :: 0 <= p < StartOf(head, payloads, k) && p < |bytes| ==> damaged[p] == bytes[p]
  {
  }

  // The iterator.

  /** An undamaged log: every record is read. */
  lemma {:induction false} TiledVerdicts(bytes: seq<byte>, at: nat, payloads: seq<seq<byte>>, limit: nat)
    requires Tiled(bytes, at, payloads) && WithinLimit(payloads, limit)
    ensures Shaped(bytes, at, payloads) && Verdicts(bytes, at, payloads) == Oks(Laid(payloads, at))
    decreases |payloads|
  {
    hide Frame, FramedAt, ParseHeader, ChecksumHoldsAt;
    if payloads != [] {
      FramedIsIntact(bytes, at, payloads[0]);
      TiledVerdicts(bytes, at + FramedLen(|payloads[0]|), payloads[1..], limit);
    }
  }

  /** Nothing outside record `k` has changed, nor its length field. */
  ghost predicate OnlyRecord(bytes: seq<byte>, damaged: seq<byte>, at: nat, payloads: seq<seq<byte>>, k: nat)
    requires k < |payloads|
  {
    var start := StartOf(at, payloads, k);
    && |damaged| == |bytes|
    && (forall p :: at <= p < |bytes| && !(start <= p < start + FramedLen(|payloads[k]|)) ==> damaged[p] == bytes[p])
    && (forall p :: start + LEN_OFFSET <= p < start + HEADER_LEN && p < |bytes| ==> damaged[p] == bytes[p])
  }

  lemma OnlyLater(bytes: seq<byte>, damaged: seq<byte>, at: nat, payloads: seq<seq<byte>>, k: nat)
    requires 0 < k < |payloads| && OnlyRecord(bytes, damaged, at, payloads, k) && FramedAt(bytes, at, payloads[0])
    ensures StartOf(at, payloads, k) == StartOf(at + FramedLen(|payloads[0]|), payloads[1..], k - 1)
    ensures OnlyRecord(bytes, damaged, at + FramedLen(|payloads[0]|), payloads[1..], k - 1)
    ensures FramedAt(damaged, at, payloads[0])
  {
    hide Frame;
    var next := at + FramedLen(|payloads[0]|);
    assert payloads[..k][1..] == payloads[1..][..k - 1];
    assert payloads[..k][0] == payloads[0];
    assert StartOf(at, payloads, k) == StartOf(next, payloads[1..], k - 1);
    assert damaged[at..next] == bytes[at..next];
  }

  lemma StaysTiled(bytes: seq<byte>, damaged: seq<byte>, at: nat, payloads: seq<seq<byte>>)
    requires Tiled(bytes, at, payloads) && |damaged| == |bytes|
    requires forall p :: at <= p < |bytes| ==> damaged[p] == bytes[p]
    ensures Tiled(damaged, at, payloads)
  {
    PrefixStaysTiled(bytes, damaged, at, payloads, |payloads|);
    assert payloads[..|payloads|] == payloads;
  }

  /** With the damage in one record, one verdict changes. */
  lemma {:induction false} DamagedVerdicts(bytes: seq<byte>, damaged: seq<byte>, at: nat, payloads: seq<seq<byte>>, k: nat, limit: nat)
    requires Tiled(bytes, at, payloads) && WithinLimit(payloads, limit) && k < |payloads|
    requires OnlyRecord(bytes, damaged, at, payloads, k)
    requires !IntactAt(damaged, StartOf(at, payloads, k), limit, |damaged|)
    ensures Shaped(damaged, at, payloads)
    ensures Verdicts(damaged, at, payloads) == Oks(Laid(payloads, at))[k := Err(Corruption(StartOf(at, payloads, k)))]
    decreases k
  {
    hide Frame, FramedAt, ParseHeader, ChecksumHoldsAt;
    var next := at + FramedLen(|payloads[0]|);
    FramedIsIntact(bytes, at, payloads[0]);
    if k > 0 {
      OnlyLater(bytes, damaged, at, payloads, k);
      FramedIsIntact(damaged, at, payloads[0]);
      DamagedVerdicts(bytes, damaged, next, payloads[1..], k - 1, limit);
    } else {
      assert StartOf(at, payloads, 0) == at by { NoneLaid(at); assert payloads[..0] == []; }
      SameLength(bytes, damaged, at);
      StaysTiled(bytes, damaged, next, payloads[1..]);
      TiledVerdicts(damaged, next, payloads[1..], limit);
    }
  }

  /** Damage to one record, as above, is seen by every reader: skipping reports it at its own
      offset and reads all the other records; stopping reads those before it and reports it. */
  lemma DamageIsReported(bytes: seq<byte>, damaged: seq<byte>, head: nat, payloads: seq<seq<byte>>, k: nat, from: nat, limit: nat)
    requires |bytes| <= U64_MAX && Tiled(bytes, head, payloads) && WithinLimit(payloads, limit) && k < |payloads|
    requires RecordDamaged(bytes, damaged, head, payloads, k, from) && OnlyRecord(bytes, damaged, head, payloads, k)
    ensures var d, end, error := Whole(damaged), head + |FrameAll(payloads)|, Err(Corruption(StartOf(head, payloads, k)));
            && Items(d, Cursor(head, false), end, limit, SkipBadRecords) == Oks(Laid(payloads, head))[k := error]
            && Items(d, Cursor(head, false), end, limit, StopAtFirstError) == Oks(Laid(payloads, head))[..k] + [error]
  {
    hide Frame, IntactAt, RecordDamaged, OnlyRecord, Items, Tiled, Shaped, Verdicts, FrameAll, Laid, StartOf;
    DamagedIsNotIntact(bytes, damaged, head, payloads, k, from, limit);
    assert |damaged| == |bytes| by { DamageIsLater(bytes, damaged, head, payloads, k, from); }
    DamagedVerdicts(bytes, damaged, head, payloads, k, limit);
    SkippingContainsDamage(Whole(damaged), head, payloads, limit);
    StoppingReportsDamage(Whole(damaged), head, payloads, limit);
    FirstErrorAt(Oks(Laid(payloads, head)), k, Corruption(StartOf(head, payloads, k)));
  }

  lemma FirstErrorAt(items: seq<Result<Rec>>, k: nat, error: Error)
    requires k < |items| && forall i :: 0 <= i < |items| ==> items[i].Ok?
    ensures UpToFirstError(items[k := Err(error)]) == items[..k] + [Err(error)]
  {
    hide UpToFirstError;
    var all := items[k := Err(error)];
    var r := UpToFirstError(all);
    assert r == all[..|r|] && all[k] == Err(error);
    assert all[..k + 1] == items[..k] + [Err(error)];
  }
}
