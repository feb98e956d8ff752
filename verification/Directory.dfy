/** A directory as a crash finds it: the names on stable storage, and changes to them that no
    flush has covered yet. A crash may keep any of those and lose the others. */
module Directory {
  import opened Crc32c
  import opened Store

  /** The segment files that have a name, and the content of the marker file. */
  datatype Names = Names(present: set<nat>, marker: Option<seq<byte>>)

  /** A change to the directory. A renamed file whose own content was not `synced` may turn up
      holding anything. */
  datatype DirOp = Create(index: nat) | Remove(index: nat) | Rename(content: seq<byte>, synced: bool)

  datatype Journal = Journal(durable: Names, pending: seq<DirOp>)

  function Done(n: Names, op: DirOp): Names {
    match op
    case Create(i) => n.(present := n.present + {i})
    case Remove(i) => n.(present := n.present - {i})
    case Rename(content, _) => n.(marker := Some(content))
  }

  /** Before the last pending change. */
  function Earlier(j: Journal): Journal
    requires j.pending != []
  {
    j.(pending := j.pending[..|j.pending| - 1])
  }

  function Latest(j: Journal): DirOp
    requires j.pending != []
  {
    j.pending[|j.pending| - 1]
  }

  /** The directory as the running process sees it. */
  function Live(j: Journal): Names
    decreases |j.pending|
  {
    if j.pending == [] then j.durable
    else Done(Live(Earlier(j)), Latest(j))
  }

  /** `op` has reached stable storage after `n`. */
  ghost predicate Persisted(n: Names, op: DirOp, m: Names) {
    match op
    case Rename(content, synced) => m.present == n.present && m.marker.Some? && (synced ==> m.marker.value == content)
    case _ => m == Done(n, op)
  }

  /** A crash may leave `m`: some of the pending changes persisted, the others did not. */
  ghost predicate Crash(j: Journal, m: Names)
    decreases |j.pending|
  {
    if j.pending == [] then m == j.durable
    else exists n :: Crash(Earlier(j), n) && (m == n || Persisted(n, Latest(j), m))
  }

  function Noted(j: Journal, op: DirOp): Journal {
    j.(pending := j.pending + [op])
  }

  /** The renames among `ops` whose content was not flushed; a directory flush does not help them. */
  function Loose(ops: seq<DirOp>): seq<DirOp> {
    if ops == [] then []
    else
      var last := ops[|ops| - 1];
      Loose(ops[..|ops| - 1]) + if last.Rename? && !last.synced then [last] else []
  }

  /** The directory has been flushed. */
  function DirFlushed(j: Journal): Journal {
    Journal(Live(j), Loose(j.pending))
  }

  lemma LiveAfter(j: Journal, op: DirOp)
    ensures Live(Noted(j, op)) == Done(Live(j), op)
  {
    assert Earlier(Noted(j, op)) == j;
  }

  lemma CrashAfter(j: Journal, op: DirOp, m: Names)
    requires Crash(Noted(j, op), m)
    ensures exists n :: Crash(j, n) && (m == n || Persisted(n, op, m))
  {
    var k := Noted(j, op);
    assert Earlier(k) == j && Latest(k) == op;
  }

  ghost predicate NoLoose(ops: seq<DirOp>) {
    forall k :: 0 <= k < |ops| && ops[k].Rename? ==> ops[k].synced
  }

  lemma {:induction false} NothingLoose(ops: seq<DirOp>)
    requires NoLoose(ops)
    ensures Loose(ops) == []
  {
    if ops != [] {
      NothingLoose(ops[..|ops| - 1]);
    }
  }

  /** A crash may lose nothing. */
  lemma {:induction false} LiveMayCrash(j: Journal)
    ensures Crash(j, Live(j))
    decreases |j.pending|
  {
    if j.pending != [] {
      LiveMayCrash(Earlier(j));
    }
  }

  ghost predicate NoCreate(ops: seq<DirOp>) {
    forall k :: 0 <= k < |ops| ==> !ops[k].Create?
  }

  /** With no creation pending, no crash loses a name. */
  lemma {:induction false} NamesSurvive(j: Journal, m: Names)
    requires NoCreate(j.pending) && Crash(j, m)
    ensures Live(j).present <= m.present
    decreases |j.pending|
  {
    if j.pending != [] {
      var front, op := Earlier(j), Latest(j);
      var n :| Crash(front, n) && (m == n || Persisted(n, op, m));
      NamesSurvive(front, n);
      assert !op.Create?;
    }
  }

  /** Only removals below `keepFrom` are pending. */
  ghost predicate OnlyDrops(ops: seq<DirOp>, keepFrom: nat) {
    forall k :: 0 <= k < |ops| ==> ops[k].Remove? && ops[k].index < keepFrom
  }

  lemma {:induction false} DropsCrash(j: Journal, keepFrom: nat, m: Names)
    requires OnlyDrops(j.pending, keepFrom) && Crash(j, m)
    ensures m.marker == j.durable.marker && m.present <= j.durable.present
    ensures forall i :: i in j.durable.present && i >= keepFrom ==> i in m.present
    decreases |j.pending|
  {
    if j.pending != [] {
      var front, op := Earlier(j), Latest(j);
      var n :| Crash(front, n) && (m == n || Persisted(n, op, m));
      DropsCrash(front, keepFrom, n);
      assert op.Remove? && op.index < keepFrom;
    }
  }

  /** The names of dropped segments may come back, and nothing else. */
  lemma {:induction false} DropsLive(j: Journal, keepFrom: nat)
    requires OnlyDrops(j.pending, keepFrom)
    ensures Live(j).marker == j.durable.marker && Live(j).present <= j.durable.present
    ensures forall i :: i in j.durable.present && i >= keepFrom ==> i in Live(j).present
    decreases |j.pending|
  {
    if j.pending != [] {
      DropsLive(Earlier(j), keepFrom);
      assert Latest(j).Remove? && Latest(j).index < keepFrom;
    }
  }
}
