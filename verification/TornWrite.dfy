/** Torn writes: a log cut at any byte recovers exactly the records wholly before the cut.
    Short reads alone decide this; nothing is assumed about checksum collisions. */
module TornWrite {
  import opened Crc32c
  import opened Record
  import opened Store
  import opened Recovery

  /** The on-disk form of a sequence of payloads. */
  function FrameAll(payloads: seq<seq<byte>>): seq<byte> {
    if payloads == [] then [] else Frame(payloads[0]) + FrameAll(payloads[1..])
  }

  /** How many payloads are framed wholly within the first `cut` bytes. */
  function WholeWithin(payloads: seq<seq<byte>>, cut: nat): (n: nat)
    ensures n <= |payloads|
  {
    if payloads == [] || FramedLen(|payloads[0]|) > cut then 0
    else 1 + WholeWithin(payloads[1..], cut - FramedLen(|payloads[0]|))
  }

  ghost predicate WithinLimit(payloads: seq<seq<byte>>, limit: nat) {
    forall i :: 0 <= i < |payloads| ==> |payloads[i]| <= limit && |payloads[i]| < WORD
  }

  /** The records of `payloads` laid out from `at`. */
  function Laid(payloads: seq<seq<byte>>, at: nat): (rs: seq<Rec>)
    ensures |rs| == |payloads|
    decreases |payloads|
  {
    if payloads == [] then []
    else [Rec(at, payloads[0])] + Laid(payloads[1..], at + FramedLen(|payloads[0]|))
  }

  /** The framings of `payloads` lie one after another from `at`. */
  predicate Tiled(bytes: seq<byte>, at: nat, payloads: seq<seq<byte>>)
    decreases |payloads|
  {
    payloads == []
    || (FramedAt(bytes, at, payloads[0]) && Tiled(bytes, at + FramedLen(|payloads[0]|), payloads[1..]))
  }

  /** The scan walks over tiled records and carries on after them. */
  lemma {:induction false} TiledScan(d: Disk, at: nat, payloads: seq<seq<byte>>, limit: nat)
    requires Tiled(d.bytes, at, payloads) && WithinLimit(payloads, limit) && d.Clear(at, at + |FrameAll(payloads)|)
    ensures LogEnd(d, at, limit) == LogEnd(d, at + |FrameAll(payloads)|, limit)
    ensures Records(d, at, limit) == Laid(payloads, at) + Records(d, at + |FrameAll(payloads)|, limit)
    decreases |payloads|
  {
    hide Frame, FramedAt, LogEnd, Records;
    if payloads != [] {
      FramedWithin(d.bytes, at, payloads[0]);
      ScanPassesFrame(d, at, payloads[0], limit);
      TiledScan(d, at + FramedLen(|payloads[0]|), payloads[1..], limit);
    }
  }

  lemma FramedWithin(bytes: seq<byte>, at: nat, payload: seq<byte>)
    requires FramedAt(bytes, at, payload)
    ensures at + FramedLen(|payload|) <= |bytes|
  {
  }

  /** A record whose framing is cut short is not recoverable: either its header is
      incomplete, or the header is whole and declares more payload than remains. */
  lemma CutFrameIsDamaged(bytes: seq<byte>, at: nat, payload: seq<byte>, limit: nat)
    requires |payload| < WORD && at <= |bytes| < at + FramedLen(|payload|)
    requires bytes[at..] == Frame(payload)[..|bytes| - at]
    ensures !IntactAt(bytes, at, limit, |bytes|)
  {
    hide ChecksumHoldsAt;
    if at + HEADER_LEN <= |bytes| {
      FrameRoundTrip(payload);
      assert HeaderAt(bytes, at) == bytes[at..][..HEADER_LEN] == Frame(payload)[..HEADER_LEN];
    }
  }

  /** The scan of `d` from `at` returns exactly the records of `kept`, and ends after them. */
  ghost predicate ScanYields(d: Disk, at: nat, kept: seq<seq<byte>>, limit: nat) {
    LogEnd(d, at, limit) == at + |FrameAll(kept)| && Records(d, at, limit) == Laid(kept, at)
  }

  lemma ScanYieldsMore(d: Disk, at: nat, first: seq<byte>, kept: seq<seq<byte>>, limit: nat)
    requires |first| < WORD && |first| <= limit && FramedAt(d.bytes, at, first)
    requires d.Clear(at, at + FramedLen(|first|))
    requires ScanYields(d, at + FramedLen(|first|), kept, limit)
    ensures ScanYields(d, at, [first] + kept, limit)
  {
    hide Frame, FramedAt, LogEnd, Records, Laid, FrameAll;
    ScanPassesFrame(d, at, first, limit);
    LaidFirst(first, kept, at);
  }

  lemma LaidFirst(first: seq<byte>, rest: seq<seq<byte>>, at: nat)
    ensures FrameAll([first] + rest) == Frame(first) + FrameAll(rest)
    ensures Laid([first] + rest, at) == [Rec(at, first)] + Laid(rest, at + FramedLen(|first|))
  {
    hide Frame;
    assert ([first] + rest)[1..] == rest;
  }

  lemma ScanYieldsNothing(d: Disk, at: nat, limit: nat)
    requires !Recoverable(d, at, limit)
    ensures ScanYields(d, at, [], limit)
  {
  }

  /** Recovery is all and only: for every sequence of payloads and every cut, the scan ends
      after the last record wholly before the cut and returns those records. */
  lemma {:induction false} TornWriteRecovery(prefix: seq<byte>, payloads: seq<seq<byte>>, cut: nat, limit: nat)
    requires WithinLimit(payloads, limit) && cut <= |FrameAll(payloads)|
    ensures var kept := payloads[..WholeWithin(payloads, cut)];
            && ScanYields(Whole(prefix + FrameAll(payloads)[..cut]), |prefix|, kept, limit)
            && |FrameAll(kept)| <= cut
    decreases |payloads|
  {
    hide Frame, IntactAt, ScanYields;
    var log := FrameAll(payloads);
    var d := Whole(prefix + log[..cut]);
    if payloads == [] {
      NothingIsCut(d, limit);
      ScanYieldsNothing(d, |prefix|, limit);
    } else if FramedLen(|payloads[0]|) > cut {
      assert d.bytes[|prefix|..] == Frame(payloads[0])[..cut];
      CutFrameIsDamaged(d.bytes, |prefix|, payloads[0], limit);
      ScanYieldsNothing(d, |prefix|, limit);
      assert payloads[..0] == [];
    } else {
      var f := Frame(payloads[0]);
      var rest := FrameAll(payloads[1..]);
      assert prefix + log[..cut] == (prefix + f) + rest[..cut - |f|];
      assert d.bytes[|prefix|..|prefix| + |f|] == f;
      TornWriteRecovery(prefix + f, payloads[1..], cut - |f|, limit);
      var n := WholeWithin(payloads[1..], cut - |f|);
      ScanYieldsMore(d, |prefix|, payloads[0], payloads[1..][..n], limit);
      assert payloads[..n + 1] == [payloads[0]] + payloads[1..][..n];
      assert ([payloads[0]] + payloads[1..][..n])[1..] == payloads[1..][..n];
    }
  }

  lemma NothingIsCut(d: Disk, limit: nat)
    ensures !IntactAt(d.bytes, |d.bytes|, limit, |d.bytes|)
  {
  }

  /** The open scan of a torn log keeps every whole record and counts exactly the rest. */
  lemma TornOpen(payloads: seq<seq<byte>>, cut: nat, limit: nat)
    requires WithinLimit(payloads, limit) && cut <= |FrameAll(payloads)|
    ensures var kept := payloads[..WholeWithin(payloads, cut)];
            LogEnd(Whole(FrameAll(payloads)[..cut]), 0, limit) == |FrameAll(kept)|
    ensures cut == |FrameAll(payloads)| ==> WholeWithin(payloads, cut) == |payloads|
    ensures WholeWithin(payloads, cut) < |payloads| ==> cut < |FrameAll(payloads[..WholeWithin(payloads, cut) + 1])|
  {
    if WholeWithin(payloads, cut) < |payloads| {
      WithinIsMaximal(payloads, cut);
    }
    TornWriteRecovery([], payloads, cut, limit);
    assert [] + FrameAll(payloads)[..cut] == FrameAll(payloads)[..cut];
    if cut == |FrameAll(payloads)| {
      AllWithin(payloads);
    }
  }

  /** One record more would not be whole. */
  lemma {:induction false} WithinIsMaximal(payloads: seq<seq<byte>>, cut: nat)
    requires WholeWithin(payloads, cut) < |payloads|
    ensures cut < |FrameAll(payloads[..WholeWithin(payloads, cut) + 1])|
  {
    hide Frame;
    var n := WholeWithin(payloads, cut);
    if n > 0 {
      WithinIsMaximal(payloads[1..], cut - FramedLen(|payloads[0]|));
      assert payloads[..n + 1][1..] == payloads[1..][..n];
    }
  }

  lemma {:induction false} AllWithin(payloads: seq<seq<byte>>)
    ensures WholeWithin(payloads, |FrameAll(payloads)|) == |payloads|
  {
    if payloads != [] {
      AllWithin(payloads[1..]);
    }
  }

  /** What a recovery finds in any store: records laid end to end from the head, all readable and
      within the limit, and after the last of them no further such record. */
  lemma {:induction false} RecoveryIsMaximal(d: Disk, head: nat, limit: nat) returns (payloads: seq<seq<byte>>)
    ensures Tiled(d.bytes, head, payloads) && WithinLimit(payloads, limit) && ScanYields(d, head, payloads, limit)
    ensures d.Clear(head, LogEnd(d, head, limit))
    ensures forall payload :: FramedAt(d.bytes, LogEnd(d, head, limit), payload) && |payload| <= limit && |payload| < WORD ==>
              !d.Clear(LogEnd(d, head, limit), LogEnd(d, head, limit) + FramedLen(|payload|))
    decreases |d.bytes| - head
  {
    hide Frame, FramedAt, ParseHeader, Verify, ChecksumHoldsAt, ScanYields;
    if Recoverable(d, head, limit) {
      var first := PayloadAt(d.bytes, head);
      IntactIsFramed(d.bytes, head, limit, |d.bytes|);
      var rest := RecoveryIsMaximal(d, EndAt(d.bytes, head), limit);
      payloads := [first] + rest;
      ScanYieldsMore(d, head, first, rest, limit);
    } else {
      payloads := [];
      ScanYieldsNothing(d, head, limit);
      forall payload | FramedAt(d.bytes, head, payload) && |payload| <= limit && |payload| < WORD
        ensures !d.Clear(head, head + FramedLen(|payload|))
      {
        FramedIsIntact(d.bytes, head, payload);
      }
    }
  }
}
