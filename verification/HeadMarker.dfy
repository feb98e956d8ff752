/** The head marker: the log's lowest surviving offset and a checksum of it. */
module HeadMarker {
  import opened Crc32c
  import opened Store
  import LE = LittleEndian

  const OFFSET_LEN: nat := 8
  const CRC_LEN: nat := 4
  const HEAD_FILE_LEN: nat := 12

  function EncodeHead(head: nat): (b: seq<byte>)
    ensures |b| == HEAD_FILE_LEN
  {
    LE.Encode(head, OFFSET_LEN) + LE.Encode(Crc(LE.Encode(head, OFFSET_LEN)), CRC_LEN)
  }

  /** The offset a marker records, if it is long enough and its checksum holds. */
  function DecodeHead(bytes: seq<byte>): Option<nat> {
    if |bytes| < HEAD_FILE_LEN then None
    else if Crc(bytes[..OFFSET_LEN]) == LE.Decode(bytes[OFFSET_LEN..HEAD_FILE_LEN]) then Some(LE.Decode(bytes[..OFFSET_LEN]))
    else None
  }

  /** The head an open takes from the marker file; without a good marker it is 0. */
  function HeadOf(marker: Option<seq<byte>>): nat {
    if marker.Some? && DecodeHead(marker.value).Some? then DecodeHead(marker.value).value else 0
  }

  lemma FieldLimits()
    ensures LE.Limit(OFFSET_LEN) == U64_MAX + 1 && LE.Limit(CRC_LEN) == WORD
  {
  }

  /** The layout: the offset in eight bytes and their checksum in four, the least significant byte
      first in both. */
  lemma MarkerLayout(head: nat, k: nat)
    requires k < OFFSET_LEN
    ensures EncodeHead(head)[k] as nat == head / LE.Limit(k) % 256
    ensures k < CRC_LEN ==> EncodeHead(head)[8 + k] as nat == Crc(EncodeHead(head)[..8]) / LE.Limit(k) % 256
  {
    hide LE.Encode, Crc;
    var field := LE.Encode(head, OFFSET_LEN);
    assert EncodeHead(head)[..8] == field;
    LE.EncodeAt(head, OFFSET_LEN, k);
    if k < CRC_LEN {
      LE.EncodeAt(Crc(field), CRC_LEN, k);
    }
  }

  /** A marker is trusted if and only if it begins with exactly what is written for its offset. */
  lemma MarkerRoundTrip(bytes: seq<byte>, head: nat)
    requires head <= U64_MAX
    ensures DecodeHead(bytes) == Some(head) <==> EncodeHead(head) <= bytes
  {
    hide LE.Encode, LE.Decode, Crc;
    FieldLimits();
    LE.DecodeEncode(head, OFFSET_LEN);
    CrcIsWord(LE.Encode(head, OFFSET_LEN));
    LE.DecodeEncode(Crc(LE.Encode(head, OFFSET_LEN)), CRC_LEN);
    if |bytes| >= HEAD_FILE_LEN {
      var field, check := bytes[..OFFSET_LEN], bytes[OFFSET_LEN..HEAD_FILE_LEN];
      LE.EncodeDecode(field);
      LE.EncodeDecode(check);
      assert field + check == bytes[..HEAD_FILE_LEN];
      if EncodeHead(head) <= bytes {
        assert field == EncodeHead(head)[..OFFSET_LEN] && check == EncodeHead(head)[OFFSET_LEN..];
      }
    }
  }

  /** What an open takes for the head: the offset whose marker the file begins with, and 0 if
      there is no file or it begins with no marker at all. */
  lemma HeadIsMarked(marker: Option<seq<byte>>)
    ensures HeadOf(marker) <= U64_MAX
    ensures forall h: nat :: h <= U64_MAX && marker.Some? && EncodeHead(h) <= marker.value ==> HeadOf(marker) == h
    ensures HeadOf(marker) != 0 ==> marker.Some? && EncodeHead(HeadOf(marker)) <= marker.value
  {
    hide EncodeHead, LE.Decode, Crc;
    if marker.Some? {
      forall h: nat | h <= U64_MAX
        ensures DecodeHead(marker.value) == Some(h) <==> EncodeHead(h) <= marker.value
      {
        MarkerRoundTrip(marker.value, h);
      }
      if |marker.value| >= HEAD_FILE_LEN {
        FieldLimits();
        LE.DecodeIsBounded(marker.value[..OFFSET_LEN]);
      }
    }
  }

  lemma WrittenMarkerIsRead(head: nat)
    requires head <= U64_MAX
    ensures HeadOf(Some(EncodeHead(head))) == head
  {
    hide EncodeHead, DecodeHead;
    MarkerRoundTrip(EncodeHead(head), head);
  }
}
