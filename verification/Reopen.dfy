/** Closing the loop: opening whatever a crash left behind is again a starting state of the
    protocol, and it holds every record a sync promised. */
module Reopen {
  import opened Crc32c
  import opened Record
  import opened Store
  import opened Commit
  import opened Recovery
  import opened Protocol
  import opened Durability

  /** The records an open finds from `at`, by offset. */
  function Found(bytes: seq<byte>, at: nat, limit: nat): map<nat, Entry>
    decreases |bytes| - at
  {
    if Recoverable(Whole(bytes), at, limit)
    then Found(bytes, EndAt(bytes, at), limit)[at := Entry(PayloadAt(bytes, at), Done)]
    else map[]
  }

  /** The log opened on `bytes`: a head past the end is clamped to it, the recovered tail is
      cut, and what was found on disk is taken as stable. */
  function Reopened(bytes: seq<byte>, head: nat, limit: nat): World {
    var from := Min(head, |bytes|);
    var end := LogEnd(Whole(bytes), from, limit);
    World(from, end, limit, Found(bytes, from, limit), Opened(end), [],
          bytes[..end], {}, map p: nat | p < end :: bytes[p])
  }

  function FoundEnd(found: map<nat, Entry>, s: nat): nat
    requires s in found
  {
    s + FramedLen(|found[s].payload|)
  }

  /** The record at `s` ends where another starts, or at `end`. */
  ghost predicate Follows(found: map<nat, Entry>, end: nat, s: nat)
    requires s in found
  {
    FoundEnd(found, s) == end || FoundEnd(found, s) in found
  }

  /** The records found lie one after another from `at` to `end`. */
  ghost predicate FoundOk(bytes: seq<byte>, at: nat, limit: nat, end: nat, found: map<nat, Entry>) {
    && (at == end || at in found)
    && (forall s :: s in found ==>
          && at <= s && FoundEnd(found, s) <= end
          && |found[s].payload| <= limit && |found[s].payload| < WORD
          && found[s].status == Done && FramedAt(bytes, s, found[s].payload))
    && (forall s, t :: s in found && t in found && s < t ==> FoundEnd(found, s) <= t)
    && (forall s {:trigger Follows(found, end, s)} :: s in found ==> Follows(found, end, s))
  }

  lemma RecoverableIsFramed(bytes: seq<byte>, at: nat, limit: nat)
    requires Recoverable(Whole(bytes), at, limit)
    ensures FramedAt(bytes, at, PayloadAt(bytes, at))
    ensures EndAt(bytes, at) == at + FramedLen(|PayloadAt(bytes, at)|) <= |bytes|
    ensures |PayloadAt(bytes, at)| <= limit && |PayloadAt(bytes, at)| < WORD
  {
    hide Verify, Frame;
    IntactIsFramed(bytes, at, limit, |bytes|);
  }

  lemma FoundExtends(bytes: seq<byte>, at: nat, payload: seq<byte>, limit: nat, end: nat, found: map<nat, Entry>)
    requires FramedAt(bytes, at, payload) && |payload| <= limit && |payload| < WORD
    requires at + FramedLen(|payload|) <= end
    requires FoundOk(bytes, at + FramedLen(|payload|), limit, end, found)
    ensures FoundOk(bytes, at, limit, end, found[at := Entry(payload, Done)])
  {
    hide FramedAt;
    var more := found[at := Entry(payload, Done)];
    assert at !in found;
    assert forall s :: s in found ==> more[s] == found[s] && FoundEnd(more, s) == FoundEnd(found, s) && at < s;
    FollowsOn(at, payload, end, found);
    forall s, t | s in more && t in more && s < t
      ensures FoundEnd(more, s) <= t
    {
      if s == at {
        assert t in found;
      } else {
        assert s in found && t in found;
      }
    }
  }

  lemma FollowsOn(at: nat, payload: seq<byte>, end: nat, found: map<nat, Entry>)
    requires at !in found && (at + FramedLen(|payload|) == end || at + FramedLen(|payload|) in found)
    requires forall s {:trigger Follows(found, end, s)} :: s in found ==> Follows(found, end, s)
    ensures var more := found[at := Entry(payload, Done)];
            forall s {:trigger Follows(more, end, s)} :: s in more ==> Follows(more, end, s)
  {
    var more := found[at := Entry(payload, Done)];
    forall s | s in more
      ensures Follows(more, end, s)
    {
      if s != at {
        assert Follows(found, end, s);
      }
    }
  }

  lemma {:induction false} FoundTiles(bytes: seq<byte>, at: nat, limit: nat)
    ensures FoundOk(bytes, at, limit, LogEnd(Whole(bytes), at, limit), Found(bytes, at, limit))
    decreases |bytes| - at
  {
    hide Recoverable, FoundOk, FramedAt;
    if Recoverable(Whole(bytes), at, limit) {
      RecoverableIsFramed(bytes, at, limit);
      var next := EndAt(bytes, at);
      FoundTiles(bytes, next, limit);
      FoundExtends(bytes, at, PayloadAt(bytes, at), limit, LogEnd(Whole(bytes), next, limit), Found(bytes, next, limit));
    } else {
      NothingFound(bytes, at, limit);
    }
  }

  lemma NothingFound(bytes: seq<byte>, at: nat, limit: nat)
    ensures FoundOk(bytes, at, limit, at, map[])
  {
  }

  /** What an open finds is what the scan returns. */
  lemma {:induction false} FoundIsRecords(bytes: seq<byte>, at: nat, limit: nat, r: Rec)
    requires r in Records(Whole(bytes), at, limit)
    ensures at <= r.lsn && r.lsn in Found(bytes, at, limit) && Found(bytes, at, limit)[r.lsn].payload == r.data
    decreases |bytes| - at
  {
    hide Recoverable;
    RecordsUnfold(bytes, at, limit);
    if r != Rec(at, PayloadAt(bytes, at)) {
      FoundIsRecords(bytes, EndAt(bytes, at), limit, r);
    }
  }

  lemma RecordsUnfold(bytes: seq<byte>, at: nat, limit: nat)
    requires Records(Whole(bytes), at, limit) != []
    ensures Recoverable(Whole(bytes), at, limit)
    ensures at + HEADER_LEN <= EndAt(bytes, at) <= |bytes|
    ensures Records(Whole(bytes), at, limit)
         == [Rec(at, PayloadAt(bytes, at))] + Records(Whole(bytes), EndAt(bytes, at), limit)
  {
    hide ChecksumHoldsAt;
  }

  /** Whatever bytes are found, opening them is a starting state of the protocol. */
  lemma ReopenedIsInit(bytes: seq<byte>, head: nat, limit: nat)
    requires |bytes| <= U64_MAX
    ensures Init(Reopened(bytes, head, limit))
  {
    hide Found, LogEnd, FramedAt, Tiles;
    var w := Reopened(bytes, head, limit);
    FoundTiles(bytes, w.head, limit);
    ReopenedTiles(bytes, w);
    forall s | s in w.regions
      ensures FramedAt(w.image, s, w.regions[s].payload)
    {
      assert FoundEnd(w.regions, s) == w.EndOf(s) <= w.tail;
      CutKeepsFrame(bytes, w.tail, s, w.regions[s].payload);
    }
  }

  lemma ReopenedTiles(bytes: seq<byte>, w: World)
    requires FoundOk(bytes, w.head, w.limit, w.tail, w.regions) && w.head <= w.tail <= U64_MAX
    ensures Tiles(w)
  {
    hide FramedAt;
    assert forall s :: s in w.regions ==> FoundEnd(w.regions, s) == w.EndOf(s);
    forall s | s in w.regions
      ensures Linked(w, s)
    {
      assert Follows(w.regions, w.tail, s);
    }
  }

  lemma CutKeepsFrame(bytes: seq<byte>, end: nat, s: nat, payload: seq<byte>)
    requires FramedAt(bytes, s, payload) && s + FramedLen(|payload|) <= end <= |bytes|
    ensures FramedAt(bytes[..end], s, payload)
  {
    hide Frame;
    assert bytes[..end][s..s + FramedLen(|payload|)] == bytes[s..s + FramedLen(|payload|)];
  }

  /** End-to-end durability across a crash and a reopen: the log opened on any crash image is
      a starting state, and it holds every record below a synced target, at its sequence
      number and with its payload. */
  lemma SyncedRecordsReopen(
    origin: World, before: seq<Label>, w: World, i: nat, after: seq<Label>, v: World, c: seq<byte>, limit: nat)
    requires Init(origin) && Runs(origin, before, w)
    requires i < |w.syncers| && w.syncers[i].phase == Returned(Synced)
    requires Runs(w, after, v) && NoTruncation(after)
    requires CrashImage(v, c) && |c| <= U64_MAX && w.limit <= limit
    ensures var next := Reopened(c, w.head, limit);
            && Init(next) && (w.head <= |c| ==> next.tail >= w.syncers[i].target)
            && forall s :: s in w.regions && s < w.syncers[i].target ==>
                 HasStatus(next, s, Done) && next.regions[s].payload == w.regions[s].payload
  {
    hide Init, Runs, CrashImage, LogEnd, Records, Found;
    ReopenedIsInit(c, w.head, limit);
    SyncedRecordsSurvive(origin, before, w, i, after, v, c, limit);
    forall s | s in w.regions && s < w.syncers[i].target
      ensures HasStatus(Reopened(c, w.head, limit), s, Done)
           && Reopened(c, w.head, limit).regions[s].payload == w.regions[s].payload
    {
      SurvivorIsFound(c, w.head, limit, Rec(s, w.regions[s].payload));
    }
  }

  lemma SurvivorIsFound(c: seq<byte>, head: nat, limit: nat, r: Rec)
    requires r in Records(Whole(c), head, limit)
    ensures var found := Found(c, Min(head, |c|), limit);
            r.lsn in found && found[r.lsn] == Entry(r.data, Done)
  {
    hide Records, Found, FramedAt, Recoverable;
    RecordsUnfold(c, head, limit);
    FoundIsRecords(c, head, limit, r);
    FoundTiles(c, head, limit);
  }
}
