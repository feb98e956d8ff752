/** Reading the log back: the iterator walks from its start to the watermark it was created
    with, and the recovery policy decides what happens at a damaged record. */
module Iteration {
  import opened Crc32c
  import opened Record
  import opened Store
  import opened Recovery
  import opened TornWrite

  datatype RecoveryPolicy = StopAtFirstError | SkipBadRecords

  /** The outcome of reading at the cursor. */
  datatype Step =
    | Read(rec: Rec, next: nat)
    | Damaged(error: Error, skipTo: Option<nat>)
    | End

  /** What a step of the iterator meets at `at`. */
  function StepAt(d: Disk, at: nat, limit: nat): (s: Result<Step>)
    ensures s.Ok? && s.value.Read? ==> s.value.next >= at + HEADER_LEN
    ensures s.Ok? && s.value.Damaged? && s.value.skipTo.Some? ==> s.value.skipTo.value >= at + HEADER_LEN
  {
    var header := d.Read(at, HEADER_LEN);
    if header.Err? then Err(header.error)
    else if |header.value| < HEADER_LEN then Ok(End)
    else
      var parsed := ParseHeader(header.value);
      if parsed.len > limit then Ok(Damaged(Corruption(at), None))
      else if at + HEADER_LEN > U64_MAX then Err(Corruption(at))
      else
        var payload := d.Read(at + HEADER_LEN, parsed.len);
        if payload.Err? then Err(payload.error)
        else if |payload.value| < parsed.len then Ok(End)
        else
          var next := at + HEADER_LEN + parsed.len;
          if next > U64_MAX then Err(Corruption(at))
          else if !Verify(header.value, payload.value, parsed.crc) then Ok(Damaged(Corruption(at), Some(next)))
          else Ok(Read(Rec(at, payload.value), next))
  }

  /** The cursor after one call to `Next`, and the item it yields. */
  datatype Cursor = Cursor(offset: nat, done: bool)

  function Advance(d: Disk, c: Cursor, end: nat, limit: nat, policy: RecoveryPolicy): (Cursor, Option<Result<Rec>>) {
    if c.done || c.offset >= end then (c, None)
    else
      match StepAt(d, c.offset, limit)
      case Ok(Read(rec, next)) => (Cursor(next, false), Some(Ok(rec)))
      case Ok(Damaged(error, skipTo)) =>
        (if policy == SkipBadRecords && skipTo.Some? then Cursor(skipTo.value, false) else Cursor(c.offset, true), Some(Err(error)))
      case Ok(End) => (Cursor(c.offset, true), None)
      case Err(error) => (Cursor(c.offset, true), Some(Err(error)))
  }

  /** Everything the iterator yields from `c` on, on a store that does not change. */
  function Items(d: Disk, c: Cursor, end: nat, limit: nat, policy: RecoveryPolicy): seq<Result<Rec>>
    decreases !c.done, SaturatingSub(end, c.offset)
  {
    if c.done || c.offset >= end then []
    else
      var (next, item) := Advance(d, c, end, limit, policy);
      if item.None? then [] else [item.value] + Items(d, next, end, limit, policy)
  }

  /** One call peels one item off, and brings the end closer. */
  lemma ItemsStep(d: Disk, c: Cursor, end: nat, limit: nat, policy: RecoveryPolicy)
    ensures var (next, item) := Advance(d, c, end, limit, policy);
            && Items(d, c, end, limit, policy)
               == (if item.None? then [] else [item.value] + Items(d, next, end, limit, policy))
            && (item.Some? && !next.done ==> !c.done && c.offset < end && c.offset + HEADER_LEN <= next.offset)
            && (item.Some? ==> !c.done)
  {
  }

  class WalIter {
    var offset: nat
    const end: nat
    var done: bool
    const limit: nat
    const policy: RecoveryPolicy

    /** `iter_from`: never below the head, never past the watermark. */
    constructor (from: nat, head: nat, committed: nat, limit: nat, policy: RecoveryPolicy)
      ensures offset == Min(Max(from, head), committed) && end == committed && !done
      ensures this.limit == limit && this.policy == policy
    {
      offset := Min(Max(from, head), committed);
      end := committed;
      done := false;
      this.limit := limit;
      this.policy := policy;
    }

    function At(): Cursor
      reads this
    {
      Cursor(offset, done)
    }

    method Next(d: Disk) returns (item: Option<Result<Rec>>)
      modifies this
      ensures (At(), item) == Advance(d, old(At()), end, limit, policy)
      ensures old(offset) <= offset
      ensures item.Some? && !done ==> old(offset) + HEADER_LEN <= offset
      ensures item.None? ==> At() == old(At()) || done
    {
      if done || offset >= end {
        return None;
      }
      var step := StepAt(d, offset, limit);
      if step.Err? {
        done := true;
        return Some(Err(step.error));
      }
      match step.value {
        case Read(rec, next) =>
          offset := next;
          item := Some(Ok(rec));
        case Damaged(error, skipTo) =>
          if policy == SkipBadRecords && skipTo.Some? {
            offset := skipTo.value;
          } else {
            done := true;
          }
          item := Some(Err(error));
        case End =>
          done := true;
          item := None;
      }
    }

    /** Drain the iterator: it always stops, having yielded exactly `Items`. */
    method Collect(d: Disk) returns (items: seq<Result<Rec>>)
      modifies this
      ensures items == Items(d, old(At()), end, limit, policy)
    {
      hide Advance, Items;
      items := [];
      var more := true;
      ghost var rest := Items(d, At(), end, limit, policy);
      while more
        invariant Items(d, old(At()), end, limit, policy) == items + rest
        invariant rest == if more then Items(d, At(), end, limit, policy) else []
        decreases more, !done, SaturatingSub(end, offset)
      {
        ItemsStep(d, At(), end, limit, policy);
        var item := Next(d);
        if item.None? {
          more, rest := false, [];
        } else {
          rest := rest[1..];
          items := items + [item.value];
        }
      }
    }
  }

  /** `items` up to and including the first error. */
  function UpToFirstError(items: seq<Result<Rec>>): (r: seq<Result<Rec>>)
    ensures r <= items && (forall i :: 0 <= i < |r| - 1 ==> r[i].Ok?)
    ensures |r| < |items| ==> r != [] && r[|r| - 1].Err?
  {
    if items == [] || items[0].Err? then items[..Min(1, |items|)] else [items[0]] + UpToFirstError(items[1..])
  }

  /** On any store, stopping at the first error yields what skipping yields up to and including
      the first error, and all of it if there is none. */
  lemma {:induction false} StopIsPrefixOfSkip(d: Disk, c: Cursor, end: nat, limit: nat)
    ensures Items(d, c, end, limit, StopAtFirstError) == UpToFirstError(Items(d, c, end, limit, SkipBadRecords))
    decreases !c.done, SaturatingSub(end, c.offset)
  {
    hide StepAt;
    if !c.done && c.offset < end {
      var (stop, item) := Advance(d, c, end, limit, StopAtFirstError);
      var (skip, same) := Advance(d, c, end, limit, SkipBadRecords);
      assert item == same;
      if item.Some? && item.value.Ok? {
        StopIsPrefixOfSkip(d, stop, end, limit);
      }
    }
  }

  ghost predicate FaultIn(d: Disk, from: nat, to: nat) {
    exists p :: from <= p < to && p in d.faults
  }

  /** A read that fails, of the header or of the payload, is reported, whatever the policy, and
      ends the iteration. */
  lemma FaultIsReported(d: Disk, at: nat, end: nat, limit: nat, policy: RecoveryPolicy)
    requires at < end && at + HEADER_LEN <= |d.bytes| <= U64_MAX && d.Clear(at, at + HEADER_LEN)
    requires FaultIn(d, at, at + HEADER_LEN) || (LenAt(d.bytes, at) <= limit && FaultIn(d, at + HEADER_LEN, EndAt(d.bytes, at)))
    ensures Items(d, Cursor(at, false), end, limit, policy) == [Err(Io)]
  {
    hide ParseHeader, Verify;
    assert StepAt(d, at, limit) == Err(Io) by {
      if FaultIn(d, at, at + HEADER_LEN) {
        assert d.Read(at, HEADER_LEN) == Err(Io);
      } else {
        assert d.Read(at, HEADER_LEN) == Ok(HeaderAt(d.bytes, at));
        assert d.Read(at + HEADER_LEN, LenAt(d.bytes, at)) == Err(Io);
      }
    }
  }

  /** Where a framing lies, the step is a `Read` of its payload that ends with the framing. */
  lemma StepYieldsFrame(d: Disk, at: nat, payload: seq<byte>, limit: nat)
    requires |payload| < WORD && |payload| <= limit && at + FramedLen(|payload|) <= U64_MAX
    requires FramedAt(d.bytes, at, payload) && d.Clear(at, at + FramedLen(|payload|)) && d.faults == {}
    ensures StepAt(d, at, limit) == Ok(Read(Rec(at, payload), at + FramedLen(|payload|)))
  {
    hide ParseHeader, Verify, Frame;
    FramedIsIntact(d.bytes, at, payload);
    assert d.Read(at, HEADER_LEN) == Ok(HeaderAt(d.bytes, at));
    assert d.Read(at + HEADER_LEN, |payload|) == Ok(payload);
  }

  /** A store an iterator can read from `at` on: nothing refuses to read, and offsets fit. */
  ghost predicate Usable(d: Disk, at: nat) {
    d.ReadableFrom(at) && |d.bytes| <= U64_MAX
  }

  /** What the iterator yields when each call meets the store as it is by then:
      the k-th call reads `stores[k]`. */
  function ItemsOver(stores: seq<Disk>, c: Cursor, end: nat, limit: nat, policy: RecoveryPolicy): seq<Option<Result<Rec>>>
    decreases |stores|
  {
    if stores == [] then []
    else
      var (next, item) := Advance(stores[0], c, end, limit, policy);
      [item] + ItemsOver(stores[1..], next, end, limit, policy)
  }

  /** The records of `rs`, one per call, and nothing after them. */
  function OneByOne(rs: seq<Rec>, calls: nat): (items: seq<Option<Result<Rec>>>)
    ensures |items| == calls
  {
    seq(calls, i requires 0 <= i < calls => if i < |rs| then Some(Ok(rs[i])) else None)
  }

  /** An iterator yields exactly the records committed when it was created, in order, however
      the store grows between its calls and whatever the policy. */
  lemma {:induction false} IteratorIsStable(stores: seq<Disk>, at: nat, payloads: seq<seq<byte>>, limit: nat, policy: RecoveryPolicy)
    requires WithinLimit(payloads, limit)
    requires forall k :: 0 <= k < |stores| ==> Usable(stores[k], at) && Tiled(stores[k].bytes, at, payloads)
    ensures ItemsOver(stores, Cursor(at, false), at + |FrameAll(payloads)|, limit, policy)
         == OneByOne(Laid(payloads, at), |stores|)
    decreases |stores|
  {
    hide StepAt, Frame, FramedAt;
    if stores != [] {
      var end := at + |FrameAll(payloads)|;
      if payloads == [] {
        IteratorIsStable(stores[1..], at, payloads, limit, policy);
      } else {
        var next := at + FramedLen(|payloads[0]|);
        FramedWithin(stores[0].bytes, at, payloads[0]);
        StepYieldsFrame(stores[0], at, payloads[0], limit);
        forall k | 0 <= k < |stores[1..]|
          ensures Usable(stores[1..][k], next) && Tiled(stores[1..][k].bytes, next, payloads[1..])
        {
          assert stores[1..][k] == stores[k + 1];
        }
        assert next + |FrameAll(payloads[1..])| == end;
        IteratorIsStable(stores[1..], next, payloads[1..], limit, policy);
      }
    }
  }

  /** Starting at the boundary of record `k` yields the matching suffix. */
  lemma {:induction false} IterFromBoundary(bytes: seq<byte>, at: nat, payloads: seq<seq<byte>>, k: nat)
    requires Tiled(bytes, at, payloads) && k <= |payloads|
    ensures var from := at + |FrameAll(payloads[..k])|;
            && Tiled(bytes, from, payloads[k..])
            && from + |FrameAll(payloads[k..])| == at + |FrameAll(payloads)|
            && Laid(payloads[k..], from) == Laid(payloads, at)[k..]
    decreases k, |payloads|
  {
    hide Frame, FramedAt;
    if k > 0 {
      IterFromBoundary(bytes, at + FramedLen(|payloads[0]|), payloads[1..], k - 1);
      assert payloads[..k][1..] == payloads[1..][..k - 1];
      assert payloads[k..] == payloads[1..][k - 1..];
    } else {
      assert payloads[..0] == [] && payloads[0..] == payloads;
    }
  }

  // Damage.

  /** What a step does, by the bytes it meets: a record is read exactly when it is intact, and
      damage can be skipped exactly when only the checksum fails. */
  lemma StepDecides(d: Disk, at: nat, limit: nat)
    requires Usable(d, at)
    ensures at + HEADER_LEN > |d.bytes| ==> StepAt(d, at, limit) == Ok(End)
    ensures at + HEADER_LEN <= |d.bytes| && LenAt(d.bytes, at) > limit ==>
              StepAt(d, at, limit) == Ok(Damaged(Corruption(at), None))
    ensures at + HEADER_LEN <= |d.bytes| && LenAt(d.bytes, at) <= limit && EndAt(d.bytes, at) > |d.bytes| ==>
              StepAt(d, at, limit) == Ok(End)
    ensures FitsAt(d.bytes, at, |d.bytes|) && LenAt(d.bytes, at) <= limit ==>
              StepAt(d, at, limit)
              == Ok(if ChecksumHoldsAt(d.bytes, at) then Read(Rec(at, PayloadAt(d.bytes, at)), EndAt(d.bytes, at))
                    else Damaged(Corruption(at), Some(EndAt(d.bytes, at))))
  {
    hide ParseHeader, Verify;
    ReadsBack(d, at, HEADER_LEN);
    if at + HEADER_LEN <= |d.bytes| {
      assert ReadBack(d.bytes, at, HEADER_LEN) == HeaderAt(d.bytes, at);
      ReadsBack(d, at + HEADER_LEN, LenAt(d.bytes, at));
      if FitsAt(d.bytes, at, |d.bytes|) {
        assert ReadBack(d.bytes, at + HEADER_LEN, LenAt(d.bytes, at)) == PayloadAt(d.bytes, at);
      }
    }
  }

  /** Without holes or faults ahead a read is the flat read. */
  lemma ReadsBack(d: Disk, at: nat, n: nat)
    requires d.ReadableFrom(at)
    ensures d.Read(at, n) == Ok(ReadBack(d.bytes, at, n))
  {
    var k := d.Run(at, n);
    assert k == |ReadBack(d.bytes, at, n)|;
  }

  /** Records whose headers are in place, whatever has become of their payloads. */
  ghost predicate Shaped(bytes: seq<byte>, at: nat, payloads: seq<seq<byte>>)
    decreases |payloads|
  {
    payloads == []
    || (&& at + FramedLen(|payloads[0]|) <= |bytes|
        && LenAt(bytes, at) == |payloads[0]|
        && Shaped(bytes, at + FramedLen(|payloads[0]|), payloads[1..]))
  }

  /** One item per record: what the bytes hold if they verify, and the damage if not. */
  ghost function Verdicts(bytes: seq<byte>, at: nat, payloads: seq<seq<byte>>): (items: seq<Result<Rec>>)
    requires Shaped(bytes, at, payloads)
    ensures |items| == |payloads|
    decreases |payloads|
  {
    if payloads == [] then []
    else
      [if ChecksumHoldsAt(bytes, at) then Ok(Rec(at, PayloadAt(bytes, at))) else Err(Corruption(at))]
      + Verdicts(bytes, at + FramedLen(|payloads[0]|), payloads[1..])
  }

  lemma NoMoreItems(d: Disk, at: nat, limit: nat)
    ensures Items(d, Cursor(at, false), at, limit, SkipBadRecords) == []
  {
  }

  /** Over a header in place, one item and on to the record's end. */
  lemma SkipStep(d: Disk, at: nat, end: nat, limit: nat)
    requires Usable(d, at) && FitsAt(d.bytes, at, |d.bytes|) && LenAt(d.bytes, at) <= limit && at < end
    ensures Items(d, Cursor(at, false), end, limit, SkipBadRecords)
         == [if ChecksumHoldsAt(d.bytes, at) then Ok(Rec(at, PayloadAt(d.bytes, at))) else Err(Corruption(at))]
            + Items(d, Cursor(EndAt(d.bytes, at), false), end, limit, SkipBadRecords)
  {
    hide StepAt, ChecksumHoldsAt, ParseHeader, Items;
    StepDecides(d, at, limit);
    ItemsStep(d, Cursor(at, false), end, limit, SkipBadRecords);
  }

  /** Skipping bad records reports each damaged payload at its own offset and loses nothing
      else: every other record is still read. */
  lemma {:induction false} SkippingContainsDamage(d: Disk, at: nat, payloads: seq<seq<byte>>, limit: nat)
    requires Usable(d, at) && Shaped(d.bytes, at, payloads) && WithinLimit(payloads, limit)
    ensures Items(d, Cursor(at, false), at + |FrameAll(payloads)|, limit, SkipBadRecords) == Verdicts(d.bytes, at, payloads)
    decreases |payloads|
  {
    hide Items, Frame, ChecksumHoldsAt, ParseHeader;
    if payloads == [] {
      NoMoreItems(d, at, limit);
    } else {
      var next := at + FramedLen(|payloads[0]|);
      SkipStep(d, at, at + |FrameAll(payloads)|, limit);
      SkippingContainsDamage(d, next, payloads[1..], limit);
    }
  }

  /** What the verdicts say of each record. */
  lemma {:induction false} VerdictsAreFair(bytes: seq<byte>, at: nat, payloads: seq<seq<byte>>, limit: nat, k: nat)
    requires Shaped(bytes, at, payloads) && WithinLimit(payloads, limit) && k < |payloads|
    ensures var verdict, rec := Verdicts(bytes, at, payloads)[k], Laid(payloads, at)[k];
            && (verdict.Ok? ==>
                  && verdict.value.lsn == rec.lsn && |verdict.value.data| == |rec.data|
                  && FramedAt(bytes, rec.lsn, verdict.value.data))
            && (verdict.Err? ==> verdict.error == Corruption(rec.lsn))
            && (FramedAt(bytes, rec.lsn, rec.data) ==> verdict == Ok(rec))
    decreases |payloads|
  {
    hide Frame, ChecksumHoldsAt, ParseHeader;
    if k > 0 {
      VerdictsAreFair(bytes, at + FramedLen(|payloads[0]|), payloads[1..], limit, k - 1);
    } else {
      IntactIsFramed(bytes, at, limit, |bytes|);
      if FramedAt(bytes, at, payloads[0]) {
        FramedIsIntact(bytes, at, payloads[0]);
      }
    }
  }

  /** Stopping at the first error reads every record before the first damaged one, reports that
      one, and ends. */
  lemma StoppingReportsDamage(d: Disk, at: nat, payloads: seq<seq<byte>>, limit: nat)
    requires Usable(d, at) && Shaped(d.bytes, at, payloads) && WithinLimit(payloads, limit)
    ensures Items(d, Cursor(at, false), at + |FrameAll(payloads)|, limit, StopAtFirstError)
         == UpToFirstError(Verdicts(d.bytes, at, payloads))
  {
    hide Items, Frame, Shaped, Verdicts, UpToFirstError;
    SkippingContainsDamage(d, at, payloads, limit);
    StopIsPrefixOfSkip(d, Cursor(at, false), at + |FrameAll(payloads)|, limit);
  }

  // The iterator and recovery.

  function Oks(rs: seq<Rec>): (items: seq<Result<Rec>>)
    ensures |items| == |rs| && forall i :: 0 <= i < |rs| ==> items[i] == Ok(rs[i])
  {
    seq(|rs|, i requires 0 <= i < |rs| => Ok(rs[i]))
  }

  /** A whole header lies at `at`, and what it declares is too long or lies there whole. */
  predicate ShowsDamage(bytes: seq<byte>, at: nat, limit: nat) {
    at + HEADER_LEN <= |bytes| && (LenAt(bytes, at) > limit || EndAt(bytes, at) <= |bytes|)
  }

  /** The iterator and the open scan agree on any bytes whatever that can be read: read to the end of the store,
      the iterator yields the records a recovery finds, and then one error if and only if what
      stopped the recovery is not a record cut short. */
  lemma {:induction false} IteratorMatchesRecovery(d: Disk, at: nat, limit: nat)
    requires Usable(d, at) && at <= |d.bytes|
    ensures var stop := LogEnd(d, at, limit);
            Items(d, Cursor(at, false), |d.bytes|, limit, StopAtFirstError)
            == Oks(Records(d, at, limit)) + (if ShowsDamage(d.bytes, stop, limit) then [Err(Corruption(stop))] else [])
    decreases |d.bytes| - at
  {
    hide ChecksumHoldsAt, ParseHeader, StepAt, Items;
    StepDecides(d, at, limit);
    ItemsStep(d, Cursor(at, false), |d.bytes|, limit, StopAtFirstError);
    if Recoverable(d, at, limit) {
      var next := EndAt(d.bytes, at);
      IteratorMatchesRecovery(d, next, limit);
      assert Oks(Records(d, at, limit)) == [Ok(Rec(at, PayloadAt(d.bytes, at)))] + Oks(Records(d, next, limit));
    } else {
      assert Oks(Records(d, at, limit)) == [];
      NoMoreAfterEnd(d, at, |d.bytes|, limit);
    }
  }

  lemma NoMoreAfterEnd(d: Disk, at: nat, end: nat, limit: nat)
    ensures Items(d, Cursor(at, true), end, limit, StopAtFirstError) == []
  {
  }
}
