/** One flat byte space striped over fixed-size segments: what is at each position, and how
    writes and truncations move it. A segment file never filled up to a position simply does
    not have it, unlike a flat array, whose gaps read as zeros. */
module Segments {
  import opened Crc32c
  import opened Store
  import opened Division

  type Files = map<nat, seq<byte>>

  // Positions and segments.

  /** The segment of `p`. */
  function IndexOf(p: nat, size: nat): nat
    requires size > 0
  {
    p / size
  }

  /** How many bytes are left in the segment of `p`, from `p` on. */
  function Room(p: nat, size: nat): (r: nat)
    requires size > 0
    ensures 0 < r <= size
  {
    Splits(p, size);
    size - p % size
  }

  /** Moving on within a segment. */
  lemma SameSegment(p: nat, k: nat, size: nat)
    requires size > 0 && p % size + k < size
    ensures (p + k) / size == p / size && (p + k) % size == p % size + k
  {
    Splits(p, size);
    Locates(p / size, p % size + k, size);
  }

  /** Moving on to the end of a segment. */
  lemma NextSegment(p: nat, size: nat)
    requires size > 0
    ensures var q := p + (size - p % size); q / size == p / size + 1 && q % size == 0
  {
    Splits(p, size);
    Multiples(p / size, p / size, size);
    Locates(p / size + 1, 0, size);
  }

  lemma Monotone(a: nat, x: nat, b: nat, y: nat, size: nat)
    requires x < size && y < size && a * size + x <= b * size + y
    ensures a <= b
  {
    if b < a {
      Multiples(b + 1, a, size);
    }
  }

  /** Later positions are in later segments, or further along in the same one. */
  lemma Ordered(p: nat, q: nat, size: nat)
    requires size > 0 && p <= q
    ensures p / size <= q / size
    ensures p / size == q / size ==> q % size == p % size + (q - p)
  {
    Splits(p, size);
    Splits(q, size);
    Monotone(p / size, p % size, q / size, q % size, size);
    assert p / size == q / size ==> p / size * size == q / size * size;
  }

  /** The byte at `p`, if the segment that holds `p` reaches it. */
  function At(files: Files, size: nat, p: nat): Option<byte>
    requires size > 0
  {
    var i, local := p / size, p % size;
    if i in files && local < |files[i]| then Some(files[i][local]) else None
  }

  function Segment(files: Files, i: nat): seq<byte> {
    if i in files then files[i] else []
  }

  // Writes.

  /** A write that stays within the segment of `pos`. */
  function Put(files: Files, size: nat, pos: nat, chunk: seq<byte>): Files
    requires size > 0
  {
    files[pos / size := Written(Segment(files, pos / size), pos % size, chunk)]
  }

  /** A write split at the segment boundaries. */
  function WriteAll(files: Files, size: nat, pos: nat, bytes: seq<byte>): Files
    requires size > 0
    decreases |bytes|
  {
    if bytes == [] then files
    else
      var take := Min(|bytes|, Room(pos, size));
      WriteAll(Put(files, size, pos, bytes[..take]), size, pos + take, bytes[take..])
  }

  /** What a position holds after a write: the written byte, what it held before, or a zero if
      the segment the write starts in was too short to reach it. */
  function Overlaid(files: Files, size: nat, pos: nat, bytes: seq<byte>, p: nat): Option<byte>
    requires size > 0
  {
    if pos <= p < pos + |bytes| then Some(bytes[p - pos])
    else if At(files, size, p).Some? then At(files, size, p)
    else if bytes != [] && p < pos && p / size == pos / size then Some(0)
    else None
  }

  lemma PutAt(files: Files, size: nat, pos: nat, chunk: seq<byte>, p: nat)
    requires size > 0 && chunk != [] && pos % size + |chunk| <= size
    ensures At(Put(files, size, pos, chunk), size, p) == Overlaid(files, size, pos, chunk, p)
  {
    hide Written;
    var i, local := pos / size, pos % size;
    var seg := Written(Segment(files, i), local, chunk);
    if pos <= p < pos + |chunk| {
      SameSegment(pos, p - pos, size);
      assert seg[local..local + |chunk|][p - pos] == chunk[p - pos];
    } else if p / size == i {
      if p < pos {
        Ordered(p, pos, size);
      } else {
        Ordered(pos, p, size);
      }
      assert !(local <= p % size < local + |chunk|);
    }
  }

  /** Splitting at the boundaries changes nothing: every position ends up as if the write had
      been made in one piece. */
  lemma {:induction false} WriteAllAt(files: Files, size: nat, pos: nat, bytes: seq<byte>, p: nat)
    requires size > 0
    ensures At(WriteAll(files, size, pos, bytes), size, p) == Overlaid(files, size, pos, bytes, p)
    decreases |bytes|
  {
    hide Put, At;
    if bytes != [] {
      var take := Min(|bytes|, size - pos % size);
      var rest := bytes[take..];
      PutAt(files, size, pos, bytes[..take], p);
      WriteAllAt(Put(files, size, pos, bytes[..take]), size, pos + take, rest, p);
      if rest != [] && p < pos + take {
        NextSegment(pos, size);
        StartsSegment(p, pos + take, size);
      }
    }
  }

  /** Nothing before the start of a segment lies in it. */
  lemma StartsSegment(p: nat, q: nat, size: nat)
    requires size > 0 && p < q && q % size == 0
    ensures p / size != q / size
  {
  }

  // Truncation.

  /** `set_len`: cut, or extend with zeros. */
  function Resized(f: seq<byte>, len: nat): (r: seq<byte>)
    ensures |r| == len
  {
    if len <= |f| then f[..len] else f + Zeros(len - |f|)
  }

  /** Segments past the new end are removed, the one that straddles it is resized. */
  function CutFiles(files: Files, size: nat, len: nat): Files
    requires size > 0
  {
    map i | i in files && i <= len / size :: if i < len / size then files[i] else Resized(files[i], len % size)
  }

  lemma CutAt(files: Files, size: nat, len: nat, p: nat)
    requires size > 0
    ensures p >= len ==> At(CutFiles(files, size, len), size, p) == None
    ensures p < len && At(files, size, p).Some? ==> At(CutFiles(files, size, len), size, p) == At(files, size, p)
    ensures p < len && At(files, size, p).None? && !(p / size == len / size && len / size in files) ==>
              At(CutFiles(files, size, len), size, p) == None
    ensures p < len && At(files, size, p).None? && p / size == len / size && len / size in files ==>
              At(CutFiles(files, size, len), size, p) == Some(0)
  {
    if p < len {
      Ordered(p, len, size);
    } else {
      Ordered(len, p, size);
    }
  }

  // Agreement with a flat array.

  /** From `base` on, every byte the segments have is the flat array's byte, and where they
      have none the flat array was never written either. */
  ghost predicate Mirrors(files: Files, size: nat, base: nat, flat: seq<byte>)
    requires size > 0
  {
    forall p: nat :: base <= p ==>
      match At(files, size, p)
      case Some(b) => p < |flat| && b == flat[p]
      case None => p < |flat| ==> flat[p] == 0
  }

  /** Every position of `[lo, hi)` is there. */
  ghost predicate Present(files: Files, size: nat, lo: nat, hi: nat)
    requires size > 0
  {
    forall p: nat :: lo <= p < hi ==> At(files, size, p).Some?
  }

  /** From `base` on, the segments hold exactly the flat array: no gap, nothing past its end. */
  ghost predicate Gapless(files: Files, size: nat, base: nat, flat: seq<byte>)
    requires size > 0
  {
    Mirrors(files, size, base, flat) && Present(files, size, base, |flat|)
  }

  lemma WriteMirrors(files: Files, size: nat, base: nat, flat: seq<byte>, pos: nat, bytes: seq<byte>)
    requires size > 0 && Mirrors(files, size, base, flat)
    ensures Mirrors(WriteAll(files, size, pos, bytes), size, base, Written(flat, pos, bytes))
    ensures Present(WriteAll(files, size, pos, bytes), size, pos, pos + |bytes|)
    ensures forall p: nat :: At(files, size, p).Some? ==> At(WriteAll(files, size, pos, bytes), size, p).Some?
  {
    hide WriteAll, At, Written;
    var after, whole := WriteAll(files, size, pos, bytes), Written(flat, pos, bytes);
    forall p: nat
      ensures At(after, size, p) == Overlaid(files, size, pos, bytes, p)
      ensures pos <= p < pos + |bytes| ==> whole[p] == bytes[p - pos]
    {
      WriteAllAt(files, size, pos, bytes, p);
      assert pos <= p < pos + |bytes| ==> whole[pos..pos + |bytes|][p - pos] == bytes[p - pos];
    }
  }

  /** A write that starts at or before the end leaves no gap. */
  lemma WriteGapless(files: Files, size: nat, base: nat, flat: seq<byte>, pos: nat, bytes: seq<byte>)
    requires size > 0 && Gapless(files, size, base, flat) && base <= pos <= |flat|
    ensures Gapless(WriteAll(files, size, pos, bytes), size, base, Written(flat, pos, bytes))
  {
    hide WriteAll, At, Written, Mirrors;
    WriteMirrors(files, size, base, flat, pos, bytes);
  }

  /** Truncation to no more than the length is truncation of the flat array, gaps or not. */
  lemma CutMirrors(files: Files, size: nat, base: nat, flat: seq<byte>, len: nat)
    requires size > 0 && Mirrors(files, size, base, flat) && len <= |flat|
    ensures Mirrors(CutFiles(files, size, len), size, base, flat[..len])
    ensures Gapless(files, size, base, flat) ==> Gapless(CutFiles(files, size, len), size, base, flat[..len])
  {
    hide CutFiles, At;
    forall p: nat
      ensures p < len && At(files, size, p).Some? ==> At(CutFiles(files, size, len), size, p) == At(files, size, p)
      ensures p < len && At(files, size, p).None? && At(CutFiles(files, size, len), size, p).Some? ==>
                At(CutFiles(files, size, len), size, p) == Some(0)
      ensures p >= len ==> At(CutFiles(files, size, len), size, p) == None
    {
      CutAt(files, size, len, p);
    }
  }

  // After any writes, in any order.

  datatype Write = Write(pos: nat, bytes: seq<byte>)

  function FilesAfter(files: Files, size: nat, ws: seq<Write>): Files
    requires size > 0
  {
    if ws == [] then files
    else WriteAll(FilesAfter(files, size, ws[..|ws| - 1]), size, ws[|ws| - 1].pos, ws[|ws| - 1].bytes)
  }

  function FlatAfter(flat: seq<byte>, ws: seq<Write>): seq<byte> {
    if ws == [] then flat
    else Written(FlatAfter(flat, ws[..|ws| - 1]), ws[|ws| - 1].pos, ws[|ws| - 1].bytes)
  }

  ghost predicate Hits(w: Write, p: nat) {
    w.pos <= p < w.pos + |w.bytes|
  }

  lemma {:induction false} WritesMirror(files: Files, size: nat, base: nat, flat: seq<byte>, ws: seq<Write>)
    requires size > 0 && Mirrors(files, size, base, flat)
    ensures Mirrors(FilesAfter(files, size, ws), size, base, FlatAfter(flat, ws))
    ensures forall p: nat :: At(files, size, p).Some? ==> At(FilesAfter(files, size, ws), size, p).Some?
    ensures forall p: nat, w :: w in ws && Hits(w, p) ==> At(FilesAfter(files, size, ws), size, p).Some?
  {
    hide At, WriteAll, Written, Mirrors;
    if ws != [] {
      var front, last := ws[..|ws| - 1], ws[|ws| - 1];
      assert ws == front + [last];
      WritesMirror(files, size, base, flat, front);
      WriteMirrors(FilesAfter(files, size, front), size, base, FlatAfter(flat, front), last.pos, last.bytes);
    }
  }

  /** A read: the bytes from `offset` up to the first position that is missing. */
  ghost predicate IsRead(files: Files, size: nat, offset: nat, n: nat, r: seq<byte>)
    requires size > 0
  {
    && |r| <= n
    && (forall k :: 0 <= k < |r| ==> At(files, size, offset + k) == Some(r[k]))
    && (|r| < n ==> At(files, size, offset + |r|) == None)
  }

  /** Segmented refines flat, for every segment size: after any writes in any order, a read of
      a fully written range returns the flat array's bytes. */
  lemma SegmentsRefineFlat(files: Files, size: nat, base: nat, flat: seq<byte>, ws: seq<Write>, offset: nat, n: nat, r: seq<byte>)
    requires size > 0 && Mirrors(files, size, base, flat)
    requires base <= offset && IsRead(FilesAfter(files, size, ws), size, offset, n, r)
    requires forall p: nat :: offset <= p < offset + n ==> At(files, size, p).Some? || exists w :: w in ws && Hits(w, p)
    ensures n > 0 ==> offset + n <= |FlatAfter(flat, ws)|
    ensures n > 0 ==> r == FlatAfter(flat, ws)[offset..offset + n]
  {
    hide At, FilesAfter, FlatAfter;
    WritesMirror(files, size, base, flat, ws);
    assert |r| == n;
    if n > 0 {
      assert At(FilesAfter(files, size, ws), size, offset + (n - 1)) == Some(r[n - 1]);
    }
  }

  /** In a gap-free state a read is the flat read, short reads included. */
  lemma GaplessRead(files: Files, size: nat, base: nat, flat: seq<byte>, offset: nat, n: nat, r: seq<byte>)
    requires size > 0 && Gapless(files, size, base, flat) && base <= offset && IsRead(files, size, offset, n, r)
    ensures r == ReadBack(flat, offset, n)
  {
    hide At;
    var want := ReadBack(flat, offset, n);
    if |r| > 0 {
      assert At(files, size, offset + (|r| - 1)) == Some(r[|r| - 1]);
    }
    assert |r| == |want|;
    assert forall k :: 0 <= k < |r| ==> At(files, size, offset + k) == Some(r[k]);
  }

  /** The segments as the open scan meets them: as long as `len`, holes where nothing is. */
  function View(files: Files, size: nat, len: nat): Disk
    requires size > 0
  {
    Disk(seq(len, p requires 0 <= p < len => if At(files, size, p).Some? then At(files, size, p).value else 0),
         set p: nat | p < len && At(files, size, p).None?,
         {})
  }

  /** A segmented read is a read of that view. */
  lemma ReadIsView(files: Files, size: nat, len: nat, offset: nat, n: nat, r: seq<byte>)
    requires size > 0 && IsRead(files, size, offset, n, r)
    requires forall p: nat :: At(files, size, p).Some? ==> p < len
    ensures View(files, size, len).Read(offset, n) == Ok(r)
  {
    hide At;
    var d := View(files, size, len);
    var k := d.Run(offset, n);
    forall p: nat | offset <= p < offset + |r|
      ensures p < len && p !in d.holes
    {
      assert At(files, size, offset + (p - offset)) == Some(r[p - offset]);
    }
    assert |r| < n && offset + |r| < len ==> offset + |r| in d.holes;
    assert offset + k !in d.holes && k < |r| ==> offset + k < len;
    assert k == |r|;
    if k > 0 {
      forall j | 0 <= j < k
        ensures d.bytes[offset..offset + k][j] == r[j]
      {
        assert At(files, size, offset + j) == Some(r[j]);
      }
      assert d.bytes[offset..offset + k] == r;
    }
  }

  // The length recomputed on open.

  /** The highest segment. */
  ghost predicate IsHighest(files: Files, h: nat) {
    h in files && forall i :: i in files ==> i <= h
  }

  /** The length recomputed on open from the highest segment of a gap-free log: never too short,
      and right unless that segment is empty and starts past the end. A write that has overtaken
      an unwritten one and fails as soon as its segment is created leaves such a segment behind;
      one that starts at the end of the log does not. */
  lemma HighestEndsTheLog(files: Files, size: nat, base: nat, flat: seq<byte>, h: nat)
    requires size > 0 && Gapless(files, size, base, flat) && IsHighest(files, h) && |files[h]| <= size
    requires base < |flat| || base <= h * size + |files[h]|
    requires base <= |flat|
    ensures h * size + |files[h]| >= |flat|
    ensures h * size + |files[h]| == |flat| <==> !(files[h] == [] && h * size > |flat|)
  {
    hide Mirrors, Present;
    var end := h * size + |files[h]|;
    NothingAfter(files, size, h);
    if base < |flat| {
      BaseIsBelow(files, size, base, flat, h);
    }
    assert end < |flat| ==> At(files, size, end).Some? by {
      assert Present(files, size, base, |flat|);
      PresentAt(files, size, base, |flat|, end);
    }
    if files[h] != [] && base <= end - 1 {
      Locates(h, |files[h]| - 1, size);
      MirroredAt(files, size, base, flat, end - 1);
    }
  }

  lemma NothingAfter(files: Files, size: nat, h: nat)
    requires size > 0 && IsHighest(files, h) && |files[h]| <= size
    ensures At(files, size, h * size + |files[h]|) == None
  {
    if |files[h]| < size {
      Locates(h, |files[h]|, size);
    } else {
      Multiples(h, h, size);
      Locates(h + 1, 0, size);
    }
  }

  lemma BaseIsBelow(files: Files, size: nat, base: nat, flat: seq<byte>, h: nat)
    requires size > 0 && Present(files, size, base, |flat|) && base < |flat| && IsHighest(files, h)
    ensures base < h * size + |files[h]|
  {
    assert At(files, size, base).Some?;
    Splits(base, size);
    if base / size < h {
      Multiples(base / size + 1, h, size);
      Multiples(base / size, base / size, size);
    }
  }

  lemma PresentAt(files: Files, size: nat, lo: nat, hi: nat, p: nat)
    requires size > 0 && Present(files, size, lo, hi)
    ensures lo <= p < hi ==> At(files, size, p).Some?
  {
  }

  lemma MirroredAt(files: Files, size: nat, base: nat, flat: seq<byte>, p: nat)
    requires size > 0 && Mirrors(files, size, base, flat) && base <= p && At(files, size, p).Some?
    ensures p < |flat|
  {
  }
}
