/** How a payload is laid out in the store, and the proof that the checksum test accepts exactly
    the byte strings laid out that way. */
module Record {
  import opened Crc32c
  import ZeroWord
  import LE = LittleEndian

  const HEADER_LEN: nat := 8
  const LEN_OFFSET: nat := 4

  /** What the first eight bytes of a record say; nothing follows from `len` before `Verify`. */
  datatype Header = Header(crc: nat, len: nat)

  /** Width of the checksum and of the length field. */
  const FIELD: nat := 4

  lemma FieldHoldsWord()
    ensures LE.Limit(FIELD) == WORD
  {
  }

  function FramedLen(payloadLen: nat): nat {
    HEADER_LEN + payloadLen
  }

  /** The on-disk form of `payload`. */
  function Frame(payload: seq<byte>): (f: seq<byte>)
    ensures |f| == FramedLen(|payload|)
  {
    LE.Encode(Crc(LE.Encode(|payload|, FIELD) + payload), FIELD) + LE.Encode(|payload|, FIELD) + payload
  }

  function ParseHeader(bytes: seq<byte>): (h: Header)
    requires |bytes| == HEADER_LEN
    ensures h.crc < WORD && h.len < WORD
  {
    FieldHoldsWord();
    LE.DecodeIsBounded(bytes[..LEN_OFFSET]);
    LE.DecodeIsBounded(bytes[LEN_OFFSET..]);
    Header(LE.Decode(bytes[..LEN_OFFSET]), LE.Decode(bytes[LEN_OFFSET..]))
  }

  /** The test that decides whether `header` and `payload` make up a record. */
  predicate Verify(header: seq<byte>, payload: seq<byte>, expected: nat)
    requires |header| == HEADER_LEN
  {
    Append(Crc(header[LEN_OFFSET..]), payload) == expected
  }

  /** The reusable buffer an append frames its record into. */
  class FrameBuffer {
    var bytes: seq<byte>

    constructor ()
      ensures bytes == []
    {
      bytes := [];
    }

    /** Replace whatever the buffer held by the framed `payload`: a checksum placeholder, the
        length, the payload, and then the checksum patched in place. */
    method Encode(payload: seq<byte>)
      requires |payload| < WORD
      modifies this
      ensures bytes == Frame(payload)
    {
      bytes := [];
      bytes := bytes + [0, 0, 0, 0];
      bytes := bytes + LE.Encode(|payload|, FIELD);
      bytes := bytes + payload;
      assert bytes[LEN_OFFSET..] == LE.Encode(|payload|, FIELD) + payload;
      var crc := Crc(bytes[LEN_OFFSET..]);
      bytes := LE.Encode(crc, FIELD) + bytes[LEN_OFFSET..];
    }
  }

  /** The layout, byte by byte: the checksum of all that follows it, the length, both with the
      least significant byte first, and the payload. */
  lemma FrameLayout(payload: seq<byte>, k: nat)
    requires k < FIELD
    ensures Frame(payload)[k] as nat == Crc(Frame(payload)[4..]) / LE.Limit(k) % 256
    ensures Frame(payload)[4 + k] as nat == |payload| / LE.Limit(k) % 256
    ensures Frame(payload)[8..] == payload
  {
    hide Crc, LE.Encode;
    var f := Frame(payload);
    assert f[4..] == LE.Encode(|payload|, FIELD) + payload;
    LE.EncodeAt(Crc(f[4..]), FIELD, k);
    LE.EncodeAt(|payload|, FIELD, k);
  }

  /** A record parses back to its payload's length and verifies. */
  lemma FrameRoundTrip(payload: seq<byte>)
    requires |payload| < WORD
    ensures ParseHeader(Frame(payload)[..HEADER_LEN]).len == |payload|
    ensures Frame(payload)[HEADER_LEN..] == payload
    ensures Verify(Frame(payload)[..HEADER_LEN], payload, ParseHeader(Frame(payload)[..HEADER_LEN]).crc)
  {
    var h := Frame(payload)[..HEADER_LEN];
    assert h[LEN_OFFSET..] == LE.Encode(|payload|, FIELD);
    assert h[..LEN_OFFSET] == LE.Encode(Crc(LE.Encode(|payload|, FIELD) + payload), FIELD);
    FieldHoldsWord();
    LE.DecodeEncode(|payload|, FIELD);
    CrcIsWord(LE.Encode(|payload|, FIELD) + payload);
    LE.DecodeEncode(Crc(LE.Encode(|payload|, FIELD) + payload), FIELD);
    AppendContinues(LE.Encode(|payload|, FIELD), payload);
  }

  /** The converse: bytes whose length matches and whose checksum verifies are exactly the
      framing of their payload, so verification accepts framed records and nothing else. */
  lemma VerifiedIsFrame(header: seq<byte>, payload: seq<byte>)
    requires |header| == HEADER_LEN && ParseHeader(header).len == |payload|
    ensures Verify(header, payload, ParseHeader(header).crc) <==> header + payload == Frame(payload)
  {
    LE.EncodeDecode(header[..LEN_OFFSET]);
    LE.EncodeDecode(header[LEN_OFFSET..]);
    AppendContinues(header[LEN_OFFSET..], payload);
    assert header == header[..LEN_OFFSET] + header[LEN_OFFSET..];
    if header + payload == Frame(payload) {
      FrameRoundTrip(payload);
      assert header == (header + payload)[..HEADER_LEN];
    }
  }

  /** The eight bytes from `at` on. */
  function HeaderAt(bytes: seq<byte>, at: nat): seq<byte>
    requires at + HEADER_LEN <= |bytes|
  {
    bytes[at..at + HEADER_LEN]
  }

  /** The length the header at `at` declares. */
  function LenAt(bytes: seq<byte>, at: nat): nat
    requires at + HEADER_LEN <= |bytes|
  {
    ParseHeader(HeaderAt(bytes, at)).len
  }

  /** Where the record at `at` would end. */
  function EndAt(bytes: seq<byte>, at: nat): nat
    requires at + HEADER_LEN <= |bytes|
  {
    at + HEADER_LEN + LenAt(bytes, at)
  }

  /** A header at `at` whose whole declared payload lies before `end`. */
  predicate FitsAt(bytes: seq<byte>, at: nat, end: nat)
    requires end <= |bytes|
  {
    at + HEADER_LEN <= end && EndAt(bytes, at) <= end
  }

  /** The payload the header at `at` declares. */
  function PayloadAt(bytes: seq<byte>, at: nat): seq<byte>
    requires FitsAt(bytes, at, |bytes|)
  {
    bytes[at + HEADER_LEN..EndAt(bytes, at)]
  }

  predicate ChecksumHoldsAt(bytes: seq<byte>, at: nat)
    requires FitsAt(bytes, at, |bytes|)
  {
    Verify(HeaderAt(bytes, at), PayloadAt(bytes, at), ParseHeader(HeaderAt(bytes, at)).crc)
  }

  /** An intact record starts at `at`, is no longer than `limit` and ends by `end`. */
  predicate IntactAt(bytes: seq<byte>, at: nat, limit: nat, end: nat)
    requires end <= |bytes|
  {
    FitsAt(bytes, at, end) && LenAt(bytes, at) <= limit && ChecksumHoldsAt(bytes, at)
  }

  /** `payload`'s framing lies at `at`. */
  predicate FramedAt(bytes: seq<byte>, at: nat, payload: seq<byte>) {
    at + FramedLen(|payload|) <= |bytes| && bytes[at..at + FramedLen(|payload|)] == Frame(payload)
  }

  /** Intact means framed: the checksum test decides exactly whether the bytes at `at` are
      the framing of the payload they hold. */
  lemma IntactIsFramed(bytes: seq<byte>, at: nat, limit: nat, end: nat)
    requires end <= |bytes|
    ensures IntactAt(bytes, at, limit, end)
            ==> FramedAt(bytes, at, PayloadAt(bytes, at)) && |PayloadAt(bytes, at)| <= limit
  {
    hide Verify, Frame;
    if IntactAt(bytes, at, limit, end) {
      var h, p := HeaderAt(bytes, at), PayloadAt(bytes, at);
      VerifiedIsFrame(h, p);
      assert bytes[at..at + FramedLen(|p|)] == h + p;
    }
  }

  /** The converse: wherever a framing lies, an intact record with that payload is found. */
  lemma FramedIsIntact(bytes: seq<byte>, at: nat, payload: seq<byte>)
    requires |payload| < WORD && FramedAt(bytes, at, payload)
    ensures FitsAt(bytes, at, |bytes|) && EndAt(bytes, at) == at + FramedLen(|payload|)
    ensures PayloadAt(bytes, at) == payload
    ensures ChecksumHoldsAt(bytes, at)
  {
    var f := bytes[at..at + FramedLen(|payload|)];
    assert HeaderAt(bytes, at) == f[..HEADER_LEN];
    FrameRoundTrip(payload);
    assert PayloadAt(bytes, at) == f[HEADER_LEN..];
  }

  /** A header of zeros is never intact: it declares an empty payload whose checksum would
      have to be zero. */
  lemma ZeroHeaderIsDamaged(bytes: seq<byte>, at: nat, limit: nat, end: nat)
    requires at + HEADER_LEN <= end <= |bytes|
    requires forall p :: at <= p < at + HEADER_LEN ==> bytes[p] == 0
    ensures !IntactAt(bytes, at, limit, end)
  {
    var h := HeaderAt(bytes, at);
    assert h[..LEN_OFFSET] == [0, 0, 0, 0] && h[LEN_OFFSET..] == [0, 0, 0, 0];
    LE.DecodeZeros(h[..LEN_OFFSET]);
    LE.DecodeZeros(h[LEN_OFFSET..]);
    assert LenAt(bytes, at) == 0 && PayloadAt(bytes, at) == [];
    AppendContinues(h[LEN_OFFSET..], []);
    assert h[LEN_OFFSET..] + [] == [0, 0, 0, 0];
    ZeroWord.CrcOfZeroWord();
  }
}
