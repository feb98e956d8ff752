/** The log object: appending one record and cutting the log after one, as single calls over a
    store and a commit coordinator. Concurrent calls are the steps of the protocol model. */
module Wal {
  import opened Crc32c
  import opened Record
  import opened Store
  import opened Commit
  import opened Recovery

  const U64_SIZE: nat := U64_MAX + 1

  /** A framing written at `at` is a record there, and nothing else has changed. */
  lemma AppendLands(d: Disk, at: nat, record: seq<byte>, limit: nat)
    requires |record| <= limit < WORD
    ensures var e := Patched(d, at, Frame(record));
            && FramedAt(e.bytes, at, record) && e.Clear(at, at + FramedLen(|record|))
            && Recoverable(e, at, limit) && EndAt(e.bytes, at) == at + FramedLen(|record|)
            && |d.bytes| <= |e.bytes|
            && (forall p :: 0 <= p < |d.bytes| && !(at <= p < at + FramedLen(|record|)) ==>
                  e.bytes[p] == d.bytes[p] && (p in e.holes <==> p in d.holes))
  {
    hide Frame, ParseHeader, Verify, Written;
    var e := Patched(d, at, Frame(record));
    FramedIsIntact(e.bytes, at, record);
  }

  class Log {
    const store: LogStore
    const commit: Commit
    const limit: nat
    var tail: nat

    constructor (store: LogStore, commit: Commit, limit: nat, recovered: nat)
      ensures this.store == store && this.commit == commit && this.limit == limit && tail == recovered
    {
      this.store, this.commit, this.limit := store, commit, limit;
      tail := recovered;
    }

    /** Reserve, frame, write and record the outcome. The reservation wraps at 64 bits; one that
        does not fit poisons the log where it starts. `torn` is the outcome of the write. */
    method Append(record: seq<byte>, torn: Option<Disk>) returns (r: Result<nat>)
      requires limit < WORD && tail <= U64_MAX
      modifies this, store, commit
      ensures |record| > limit ==>
                && r == Err(RecordTooLarge(|record|, limit)) && tail == old(tail)
                && store.disk == old(store.disk) && commit.State() == old(commit.State())
      ensures |record| <= limit ==> tail == (old(tail) + FramedLen(|record|)) % U64_SIZE
      ensures |record| <= limit && old(tail) + FramedLen(|record|) > U64_MAX ==>
                && r == Err(Io) && store.disk == old(store.disk)
                && commit.State() == Poisoned(old(commit.State()), old(tail))
      ensures |record| <= limit && old(tail) + FramedLen(|record|) <= U64_MAX && torn.None? ==>
                && r == Ok(old(tail))
                && store.disk == Patched(old(store.disk), old(tail), Frame(record))
                && FramedAt(store.disk.bytes, old(tail), record) && store.disk.Clear(old(tail), old(tail) + FramedLen(|record|))
                && Recoverable(store.disk, old(tail), limit) && EndAt(store.disk.bytes, old(tail)) == tail
                && |old(store.disk).bytes| <= |store.disk.bytes|
                && (forall p :: 0 <= p < |old(store.disk).bytes| && !(old(tail) <= p < old(tail) + FramedLen(|record|)) ==>
                      && store.disk.bytes[p] == old(store.disk).bytes[p]
                      && (p in store.disk.holes <==> p in old(store.disk).holes))
                && commit.State() == Marked(old(commit.State()), old(tail), old(tail) + FramedLen(|record|))
      ensures |record| <= limit && old(tail) + FramedLen(|record|) <= U64_MAX && torn.Some? ==>
                && r == Err(Io) && store.disk == torn.value
                && commit.State() == Poisoned(old(commit.State()), old(tail))
    {
      hide Frame, Patched, Marked, Poisoned, Recoverable, FramedAt;
      if |record| > limit {
        return Err(RecordTooLarge(|record|, limit));
      }
      var frameLen := FramedLen(|record|);
      var start := tail;
      tail := (tail + frameLen) % U64_SIZE;
      if start + frameLen > U64_MAX {
        var _ := commit.MarkFailed(start);
        return Err(Io);
      }
      var buffer := new FrameBuffer();
      buffer.Encode(record);
      var written := store.WriteAt(start, buffer.bytes, torn);
      if written.Err? {
        var _ := commit.MarkFailed(start);
        return Err(written.error);
      }
      var _ := commit.MarkWritten(start, start + frameLen);
      AppendLands(old(store.disk), start, record, limit);
      r := Ok(start);
    }

    /** Keep the log through the record at `lsn`. `flushed` is whether the store's flush after
        the cut succeeds; if it does not, the store is already cut while the log still believes
        its old end. */
    method TruncateAfter(lsn: nat, flushed: bool) returns (r: Result<()>)
      requires lsn <= U64_MAX && |store.disk.bytes| <= U64_MAX
      modifies this, store, commit
      ensures r == Err(Corruption(lsn)) ==> !Recoverable(old(store.disk), lsn, limit)
      ensures old(store.disk).faults == {} && !Recoverable(old(store.disk), lsn, limit) ==> r == Err(Corruption(lsn))
      ensures r.Err? ==> tail == old(tail) && commit.State() == old(commit.State())
      ensures r.Err? && (!Recoverable(old(store.disk), lsn, limit) || store.refuses || flushed) ==> store.disk == old(store.disk)
      ensures r.Ok? ==> Recoverable(old(store.disk), lsn, limit) && !store.refuses && flushed
      ensures old(store.disk).faults == {} && Recoverable(old(store.disk), lsn, limit) ==>
                && (!store.refuses ==> store.disk == Cut(old(store.disk), EndAt(old(store.disk).bytes, lsn)))
                && (r.Ok? <==> !store.refuses && flushed)
      ensures r.Ok? ==>
                var end := EndAt(old(store.disk).bytes, lsn);
                && store.disk == Cut(old(store.disk), end) && tail == end
                && commit.State() == Reset(old(commit.State()), end)
    {
      hide ParseHeader, Verify, Reset;
      var d := store.disk;
      var header := d.Read(lsn, HEADER_LEN);
      if header.Err? {
        return Err(header.error);
      }
      if |header.value| < HEADER_LEN {
        assert !Recoverable(d, lsn, limit);
        return Err(Corruption(lsn));
      }
      assert header.value == HeaderAt(d.bytes, lsn);
      var parsed := ParseHeader(header.value);
      if parsed.len > limit {
        return Err(Corruption(lsn));
      }
      var payloadStart := lsn + HEADER_LEN;
      var payload := d.Read(payloadStart, parsed.len);
      if payload.Err? {
        return Err(payload.error);
      }
      if |payload.value| < parsed.len {
        assert !Recoverable(d, lsn, limit);
        return Err(Corruption(lsn));
      }
      assert payload.value == PayloadAt(d.bytes, lsn);
      if !Verify(header.value, payload.value, parsed.crc) {
        return Err(Corruption(lsn));
      }
      assert Recoverable(d, lsn, limit);
      var newEnd := payloadStart + parsed.len;
      var cut := store.Truncate(newEnd);
      if cut.Err? {
        return Err(cut.error);
      }
      if !flushed {
        return Err(Io);
      }
      tail := newEnd;
      commit.ResetTo(newEnd);
      r := Ok(());
    }
  }
}
