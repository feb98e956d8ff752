/** The storage contract the log is written against: a growing flat array of bytes with
    zero-filled gaps, positioned reads that stop short only where the store ends, and
    truncation. `Disk` is the read side as the open scan meets it, including stores that
    cannot read back everything they claim to hold. */
module Store {
  import opened Crc32c

  const U64_MAX: nat := 0xFFFF_FFFF_FFFF_FFFF

  datatype Option<+T> = None | Some(value: T)

  datatype Error = Io | Corruption(offset: nat) | RecordTooLarge(len: nat, max: nat)

  datatype Result<+T> = Ok(value: T) | Err(error: Error)

  function Min(a: nat, b: nat): nat {
    if a <= b then a else b
  }

  function Max(a: nat, b: nat): nat {
    if a >= b then a else b
  }

  function SaturatingSub(a: nat, b: nat): nat {
    if a >= b then a - b else 0
  }

  function Zeros(n: nat): (z: seq<byte>)
    ensures |z| == n && forall i :: 0 <= i < n ==> z[i] == 0
  {
    seq(n, _ => 0)
  }

  /** The flat array after a positioned write: grown with zeros to reach the write's end. */
  function Written(data: seq<byte>, offset: nat, bytes: seq<byte>): (r: seq<byte>)
    ensures |r| == Max(|data|, offset + |bytes|)
    ensures r[offset..offset + |bytes|] == bytes
    ensures forall p :: 0 <= p < |r| && !(offset <= p < offset + |bytes|) ==>
              r[p] == if p < |data| then data[p] else 0
  {
    var grown := data + Zeros(SaturatingSub(offset + |bytes|, |data|));
    grown[..offset] + bytes + grown[offset + |bytes|..]
  }

  /** What a read of `n` bytes at `offset` returns: everything the array has there, up to `n`. */
  function ReadBack(data: seq<byte>, offset: nat, n: nat): (r: seq<byte>)
    ensures |r| == Min(n, SaturatingSub(|data|, offset))
    ensures forall k :: 0 <= k < |r| ==> r[k] == data[offset + k]
  {
    if offset >= |data| then [] else data[offset..Min(offset + n, |data|)]
  }

  /** The in-memory store. */
  class MemStore {
    var data: seq<byte>

    constructor (bytes: seq<byte>)
      ensures data == bytes
    {
      data := bytes;
    }

    method WriteAt(offset: nat, bytes: seq<byte>) returns (r: Result<()>)
      modifies this
      ensures offset + |bytes| <= U64_MAX ==> r == Ok(()) && data == Written(old(data), offset, bytes)
      ensures offset + |bytes| > U64_MAX ==> r == Err(Io) && data == old(data)
    {
      var end := offset + |bytes|;
      if end > U64_MAX {
        return Err(Io);
      }
      if |data| < end {
        data := data + Zeros(end - |data|);
      }
      data := data[..offset] + bytes + data[end..];
      r := Ok(());
    }

    method ReadAt(offset: nat, n: nat) returns (r: Result<seq<byte>>)
      ensures r == Ok(ReadBack(data, offset, n))
    {
      if offset >= |data| {
        return Ok([]);
      }
      var available := data[offset..];
      var count := if |available| <= n then |available| else n;
      assert available[..count] == data[offset..offset + count];
      r := Ok(available[..count]);
    }

    method Truncate(len: nat) returns (r: Result<()>)
      modifies this
      ensures r == Ok(()) && data == old(data)[..Min(len, |old(data)|)]
    {
      if len < |data| {
        data := data[..len];
      }
      r := Ok(());
    }
  }

  /** A store at open: `bytes` is as long as the store claims to be, a position in `holes`
      cannot be read back (a missing segment file, say), one in `faults` makes a read fail. */
  datatype Disk = Disk(bytes: seq<byte>, holes: set<nat>, faults: set<nat>) {

    /** Length of the readable run at `offset`, up to `n`. */
    function Run(offset: nat, n: nat): (k: nat)
      ensures k <= n && (k > 0 ==> offset + k <= |bytes|)
      ensures forall p :: offset <= p < offset + k ==> p !in holes
      ensures k < n ==> offset + k >= |bytes| || offset + k in holes
      decreases n
    {
      if n == 0 || offset >= |bytes| || offset in holes then 0 else 1 + Run(offset + 1, n - 1)
    }

    function Read(offset: nat, n: nat): (r: Result<seq<byte>>)
      ensures r.Ok? ==> |r.value| <= n
      ensures r.Ok? && |r.value| == n > 0 ==>
                offset + n <= |bytes| && r.value == bytes[offset..offset + n] && Clear(offset, offset + n)
      ensures r.Ok? && |r.value| < n && offset + n <= |bytes| ==> !Clear(offset, offset + n)
      ensures r.Err? ==> r == Err(Io) && faults != {}
    {
      if exists p | offset <= p < offset + n :: p in faults then Err(Io)
      else
        var k := Run(offset, n);
        Ok(if k == 0 then [] else bytes[offset..offset + k])
    }

    /** Every byte of `[from, to)` can be read back. */
    predicate Clear(from: nat, to: nat) {
      forall p | from <= p < to :: p !in holes
    }

    /** Nothing stands in the way of reading all from `at` on. */
    predicate ReadableFrom(at: nat) {
      Clear(at, |bytes|) && faults == {}
    }

    /** `b` could be what the store really holds: it differs at most in the holes. */
    ghost predicate Completes(b: seq<byte>) {
      |b| == |bytes| && forall p :: 0 <= p < |b| && p !in holes ==> b[p] == bytes[p]
    }

    lemma ClearPartsAgree(b: seq<byte>, from: nat, to: nat)
      requires Completes(b) && from <= to <= |bytes| && Clear(from, to)
      ensures b[from..to] == bytes[from..to]
    {
    }
  }

  /** A flat array as a store that reads back everything. */
  function Whole(data: seq<byte>): (d: Disk)
    ensures d.ReadableFrom(0)
  {
    Disk(data, {}, {})
  }
}
