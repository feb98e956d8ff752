/** The coordinator of group commit. `Core` is its state as a value; class `Commit` is the object,
    one method per critical section, each tied to a function on `Core` from which the protocol
    model builds its steps. */
module Commit {
  import opened Store

  datatype Core = Core(
    committed: nat,
    durable: nat,
    pending: map<nat, nat>,
    syncing: bool,
    waiters: nat,
    poison: Option<nat>,
    flushFailed: bool)

  /** A watermark and the completed regions not yet contiguous with it. */
  datatype Mark = Mark(at: nat, pending: map<nat, nat>)

  /** Advance across every pending region that is contiguous. */
  function Drain(pending: map<nat, nat>, at: nat): Mark
    decreases |pending|
  {
    if at in pending then Drain(pending - {at}, pending[at]) else Mark(at, pending)
  }

  /** The mark after the region `[start, end)` has completed. */
  function Insert(m: Mark, start: nat, end: nat): Mark {
    if start == m.at then Drain(m.pending, end) else Mark(m.at, m.pending[start := end])
  }

  function Opened(recovered: nat): Core {
    Core(recovered, recovered, map[], false, 0, None, false)
  }

  function Marked(c: Core, start: nat, end: nat): Core {
    var m := Insert(Mark(c.committed, c.pending), start, end);
    c.(committed := m.at, pending := m.pending)
  }

  function Poisoned(c: Core, start: nat): Core {
    c.(poison := Some(if c.poison.Some? then Min(c.poison.value, start) else start))
  }

  function Reset(c: Core, offset: nat): Core {
    c.(committed := offset,
       durable := if c.flushFailed then Min(c.durable, offset) else offset,
       pending := map[],
       poison := None)
  }

  /** What a caller of `sync_to` does at the top of its loop. */
  datatype Verdict = Durable | Corrupt(offset: nat) | FlushBroken | Lead(flushTo: nat) | Wait

  function Decide(c: Core, target: nat): Verdict {
    if c.poison.Some? && target > c.poison.value then Corrupt(c.poison.value)
    else if c.durable >= target then Durable
    else if c.flushFailed then FlushBroken
    else if c.committed >= target && !c.syncing then Lead(c.committed)
    else Wait
  }

  /** The state change that goes with the verdict. */
  function Enter(c: Core, v: Verdict): Core {
    match v
    case Lead(_) => c.(syncing := true)
    case Wait => c.(waiters := c.waiters + 1)
    case _ => c
  }

  /** The leader is back from its flush. */
  function FlushEnded(c: Core, flushTo: nat, ok: bool): Core {
    if ok then c.(syncing := false, durable := Max(c.durable, flushTo))
    else c.(syncing := false, flushFailed := true)
  }

  class Commit {
    var committed: nat
    var durable: nat
    var pending: map<nat, nat>
    var syncing: bool
    var waiters: nat
    var poison: Option<nat>
    var flushFailed: bool

    function State(): Core
      reads this
    {
      Core(committed, durable, pending, syncing, waiters, poison, flushFailed)
    }

    constructor (recovered: nat)
      ensures State() == Opened(recovered)
    {
      committed, durable, pending := recovered, recovered, map[];
      syncing, waiters, poison, flushFailed := false, 0, None, false;
    }

    method InsertRegion(start: nat, end: nat)
      modifies this`committed, this`pending
      ensures State() == Marked(old(State()), start, end)
    {
      if start == committed {
        committed := end;
        while committed in pending
          invariant Drain(pending, committed) == Drain(old(pending), end)
          decreases |pending|
        {
          var nextEnd := pending[committed];
          pending := pending - {committed};
          committed := nextEnd;
        }
      } else {
        pending := pending[start := end];
      }
    }

    /** `notify` is whether the waiters were notified. */
    method MarkWritten(start: nat, end: nat) returns (notify: bool)
      modifies this`committed, this`pending
      ensures State() == Marked(old(State()), start, end)
      ensures notify == (waiters > 0)
    {
      InsertRegion(start, end);
      notify := waiters > 0;
    }

    method MarkFailed(start: nat) returns (notify: bool)
      modifies this`poison
      ensures State() == Poisoned(old(State()), start)
      ensures notify == (waiters > 0)
    {
      if poison.Some? && poison.value <= start {
        poison := Some(poison.value);
      } else {
        poison := Some(start);
      }
      notify := waiters > 0;
    }

    method ResetTo(offset: nat)
      modifies this
      ensures State() == Reset(old(State()), offset)
    {
      committed := offset;
      if !flushFailed {
        durable := offset;
      } else if durable > offset {
        durable := offset;
      }
      pending := map[];
      poison := None;
    }

    /** The top of the `sync_to` loop, under the lock. */
    method Check(target: nat) returns (v: Verdict)
      modifies this`syncing, this`waiters
      ensures v == Decide(old(State()), target)
      ensures State() == Enter(old(State()), v)
    {
      if poison.Some? && target > poison.value {
        return Corrupt(poison.value);
      }
      if durable >= target {
        return Durable;
      }
      if flushFailed {
        return FlushBroken;
      }
      if committed >= target && !syncing {
        syncing := true;
        return Lead(committed);
      }
      waiters := waiters + 1;
      v := Wait;
    }

    method EndFlush(flushTo: nat, ok: bool)
      modifies this`syncing, this`durable, this`flushFailed
      ensures State() == FlushEnded(old(State()), flushTo, ok)
    {
      syncing := false;
      if ok {
        if durable < flushTo {
          durable := flushTo;
        }
      } else {
        flushFailed := true;
      }
    }

    method Resume()
      requires waiters > 0
      modifies this`waiters
      ensures State() == old(State()).(waiters := old(waiters) - 1)
    {
      waiters := waiters - 1;
    }
  }

  // The watermark, whatever the order of completions.

  /** Folding in a region commutes with draining: the watermark after any completions is the
      drain of the completed set. */
  lemma {:induction false} InsertIntoDrain(done: map<nat, nat>, base: nat, start: nat, end: nat)
    requires start !in done
    ensures Insert(Drain(done, base), start, end) == Drain(done[start := end], base)
    decreases |done|
  {
    if base in done {
      InsertIntoDrain(done - {base}, done[base], start, end);
      assert done[start := end] - {base} == (done - {base})[start := end];
    } else if start == base {
      assert done[start := end] - {base} == done;
    }
  }

  datatype Region = Region(start: nat, end: nat)

  /** The watermark after the completions `rs`, in that order. */
  function InsertAll(base: nat, rs: seq<Region>): Mark {
    if rs == [] then Mark(base, map[])
    else Insert(InsertAll(base, rs[..|rs| - 1]), rs[|rs| - 1].start, rs[|rs| - 1].end)
  }

  ghost predicate DistinctStarts(rs: seq<Region>) {
    forall i, j :: 0 <= i < j < |rs| ==> rs[i].start != rs[j].start
  }

  function Completed(rs: seq<Region>): map<nat, nat> {
    if rs == [] then map[] else Completed(rs[..|rs| - 1])[rs[|rs| - 1].start := rs[|rs| - 1].end]
  }

  ghost predicate StartsIn(rs: seq<Region>, s: nat) {
    exists i :: 0 <= i < |rs| && rs[i].start == s
  }

  lemma {:induction false} CompletedStarts(rs: seq<Region>, s: nat)
    ensures s in Completed(rs) <==> StartsIn(rs, s)
  {
    if rs != [] {
      var front, last := rs[..|rs| - 1], rs[|rs| - 1];
      CompletedStarts(front, s);
      if StartsIn(front, s) {
        var i :| 0 <= i < |front| && front[i].start == s;
        assert rs[i].start == s;
      }
      if StartsIn(rs, s) && s != last.start {
        var i :| 0 <= i < |rs| && rs[i].start == s;
        assert front[i].start == s;
      }
    }
  }

  lemma {:induction false} CompletedEnds(rs: seq<Region>, i: nat)
    requires DistinctStarts(rs) && i < |rs|
    ensures rs[i].start in Completed(rs) && Completed(rs)[rs[i].start] == rs[i].end
  {
    if i < |rs| - 1 {
      CompletedEnds(rs[..|rs| - 1], i);
    }
  }

  lemma {:induction false} InsertAllDrains(base: nat, rs: seq<Region>)
    requires DistinctStarts(rs)
    ensures InsertAll(base, rs) == Drain(Completed(rs), base)
  {
    if rs != [] {
      var front, last := rs[..|rs| - 1], rs[|rs| - 1];
      InsertAllDrains(base, front);
      CompletedStarts(front, last.start);
      InsertIntoDrain(Completed(front), base, last.start, last.end);
    }
  }

  lemma SameSetSameMap(xs: seq<Region>, ys: seq<Region>)
    requires DistinctStarts(xs) && DistinctStarts(ys) && forall r :: r in xs <==> r in ys
    ensures Completed(xs) == Completed(ys)
  {
    hide Completed, DistinctStarts;
    var m, n := Completed(xs), Completed(ys);
    SameStarts(xs, ys);
    forall s | s in m
      ensures m[s] == n[s]
    {
      CompletedStarts(xs, s);
      var i :| 0 <= i < |xs| && xs[i].start == s;
      assert xs[i] in ys;
      var j :| 0 <= j < |ys| && ys[j] == xs[i];
      CompletedEnds(xs, i);
      CompletedEnds(ys, j);
    }
  }

  lemma SameStarts(xs: seq<Region>, ys: seq<Region>)
    requires forall r :: r in xs <==> r in ys
    ensures Completed(xs).Keys == Completed(ys).Keys
  {
    hide Completed;
    forall s: nat
      ensures s in Completed(xs) <==> s in Completed(ys)
    {
      CompletedStarts(xs, s);
      CompletedStarts(ys, s);
      assert StartsIn(xs, s) <==> exists r :: r in xs && r.start == s;
      assert StartsIn(ys, s) <==> exists r :: r in ys && r.start == s;
    }
  }

  /** Any two completion orders of the same regions give the same watermark and the same
      pending regions. */
  lemma OrderIndependence(base: nat, xs: seq<Region>, ys: seq<Region>)
    requires DistinctStarts(xs) && DistinctStarts(ys) && multiset(xs) == multiset(ys)
    ensures InsertAll(base, xs) == InsertAll(base, ys)
  {
    hide InsertAll, Completed, Drain;
    InsertAllDrains(base, xs);
    InsertAllDrains(base, ys);
    forall r: Region
      ensures r in xs <==> r in ys
    {
      assert r in xs <==> r in multiset(xs);
      assert r in ys <==> r in multiset(ys);
    }
    SameSetSameMap(xs, ys);
  }

  /** The regions of `done` lie at or above `base`, are not empty and do not overlap. */
  ghost predicate Disjoint(done: map<nat, nat>, base: nat) {
    && (forall s :: s in done ==> base <= s < done[s])
    && (forall s, t :: s in done && t in done && s < t ==> done[s] <= t)
  }

  ghost predicate Covered(done: map<nat, nat>, offset: nat) {
    exists s :: s in done && s <= offset < done[s]
  }

  /** `m` is a watermark for `done` from `base`: the least offset no completed region covers,
      with exactly the completed regions above it still pending. */
  ghost predicate IsWatermark(done: map<nat, nat>, base: nat, m: Mark) {
    && base <= m.at
    && (forall o :: base <= o < m.at ==> Covered(done, o))
    && !Covered(done, m.at)
    && (m.at == base || exists s :: s in done && done[s] == m.at)
    && m.pending == map s | s in done && m.at < s :: done[s]
  }

  /** What one region more covers. */
  lemma CoveredToo(done: map<nat, nat>, base: nat, o: nat)
    requires base in done
    ensures Covered(done, o) <==> base <= o < done[base] || Covered(done - {base}, o)
  {
    var rest := done - {base};
    if Covered(done, o) && !(base <= o < done[base]) {
      var s :| s in done && s <= o < done[s];
      assert s in rest && rest[s] == done[s];
    }
    if Covered(rest, o) {
      var s :| s in rest && s <= o < rest[s];
      assert s in done;
    }
  }

  lemma WatermarkExtendsDown(done: map<nat, nat>, base: nat, m: Mark)
    requires Disjoint(done, base) && base in done
    requires IsWatermark(done - {base}, done[base], m)
    ensures IsWatermark(done, base, m)
  {
    hide Covered;
    var rest, next := done - {base}, done[base];
    forall o: nat | base <= o <= m.at
      ensures Covered(done, o) <==> o < next || Covered(rest, o)
    {
      CoveredToo(done, base, o);
    }
    if m.at != next {
      var s :| s in rest && rest[s] == m.at;
      assert s in done;
    }
  }

  lemma WatermarkAtGap(done: map<nat, nat>, base: nat)
    requires Disjoint(done, base) && base !in done
    ensures IsWatermark(done, base, Mark(base, done))
  {
  }

  lemma DisjointAfter(done: map<nat, nat>, base: nat)
    requires Disjoint(done, base) && base in done
    ensures Disjoint(done - {base}, done[base])
  {
  }

  /** Draining computes the watermark. */
  lemma {:induction false} DrainIsWatermark(done: map<nat, nat>, base: nat)
    requires Disjoint(done, base)
    ensures IsWatermark(done, base, Drain(done, base))
    decreases |done|
  {
    hide IsWatermark, Disjoint;
    if base in done {
      DisjointAfter(done, base);
      DrainIsWatermark(done - {base}, done[base]);
      WatermarkExtendsDown(done, base, Drain(done, base));
    } else {
      WatermarkAtGap(done, base);
    }
  }
}
