/** What the checksum detects. Absorbing a string is one shift of the register xored with the
    number the string spells, and on words a shift loses nothing: so two strings of one length
    that differ only within 32 consecutive bits never have the same checksum. */
module Detection {
  import opened Crc32c
  import opened Record
  import LE = LittleEndian

  // Numbers and powers of two.

  lemma {:induction false} Pow2Adds(j: nat, k: nat)
    ensures Pow2(j + k) == Pow2(j) * Pow2(k)
  {
    if j > 0 {
      Pow2Adds(j - 1, k);
    }
  }

  lemma {:induction false} LimitIsPow2(width: nat)
    ensures LE.Limit(width) == Pow2(BYTE_BITS * width)
  {
    if width > 0 {
      LimitIsPow2(width - 1);
      Pow2Adds(BYTE_BITS, BYTE_BITS * (width - 1));
      assert Pow2(BYTE_BITS) == 256;
    }
  }

  lemma {:induction false} Pow2Grows(j: nat, k: nat)
    requires j <= k
    ensures Pow2(j) <= Pow2(k)
  {
    if j < k {
      Pow2Grows(j, k - 1);
    }
  }

  lemma HalfOfMultiple(k: nat, m: nat, b: nat)
    requires k > 0
    ensures (b + Pow2(k) * m) / 2 == b / 2 + Pow2(k - 1) * m
    ensures (b + Pow2(k) * m) % 2 == b % 2
  {
    hide Pow2;
    Doubled(k, m);
  }

  /** Bits that do not overlap add up. */
  lemma {:induction false} XorDisjoint(b: nat, m: nat, k: nat)
    requires b < Pow2(k)
    ensures Xor(b, Pow2(k) * m) == b + Pow2(k) * m
    decreases k
  {
    if k > 0 {
      HalfOfMultiple(k, m, b);
      HalfOfMultiple(k, m, 0);
      XorDisjoint(b / 2, m, k - 1);
    }
  }

  lemma {:induction false} XorOfMultiples(k: nat, p: nat, q: nat)
    ensures Xor(Pow2(k) * p, Pow2(k) * q) == Pow2(k) * Xor(p, q)
    decreases k
  {
    hide Xor;
    if k > 0 {
      Doubled(k, p);
      Doubled(k, q);
      Doubled(k, Xor(p, q));
      XorOfMultiples(k - 1, p, q);
      XorOfDoubles(Pow2(k - 1) * p, Pow2(k - 1) * q);
    }
  }

  lemma Doubled(k: nat, m: nat)
    requires k > 0
    ensures Pow2(k) * m == 2 * (Pow2(k - 1) * m)
  {
  }

  lemma XorOfDoubles(a: nat, b: nat)
    ensures Xor(2 * a, 2 * b) == 2 * Xor(a, b)
  {
  }

  lemma XorIsZero(a: nat, b: nat)
    ensures Xor(a, b) == 0 <==> a == b
  {
    XorCancels(a, b);
    XorCancels(b, a);
    XorCommutes(0, b);
  }

  // The register.

  /** Zero bits below a number are shifted out one by one. */
  lemma {:induction false} ShiftDrops(m: nat, k: nat)
    ensures Shift(Pow2(k) * m, k) == m
    decreases k
  {
    if k > 0 {
      HalfOfMultiple(k, m, 0);
      ShiftDrops(m, k - 1);
    }
  }

  /** No word but zero is shifted to zero: the polynomial has the top bit. */
  lemma {:induction false} ShiftKeepsNonzero(r: nat, bits: nat)
    requires 0 < r < WORD
    ensures Shift(r, bits) != 0
    decreases bits
  {
    if bits > 0 {
      XorIsZero(r / 2, POLY);
      ShiftStaysWord(r, 1);
      assert Shift(r, 1) == BitStep(r) by { assert Shift(BitStep(r), 0) == BitStep(r); }
      ShiftKeepsNonzero(BitStep(r), bits - 1);
    }
  }

  /** One byte, with the rest of the number above it. */
  lemma AbsorbStep(r: nat, b: nat, m: nat)
    requires b < 256
    ensures Shift(Xor(r, b + 256 * m), BYTE_BITS) == Xor(Shift(Xor(r, b), BYTE_BITS), m)
  {
    assert Pow2(BYTE_BITS) == 256;
    XorDisjoint(b, m, BYTE_BITS);
    XorAssociates(r, b, 256 * m);
    ShiftIsLinear(Xor(r, b), 256 * m, BYTE_BITS);
    ShiftDrops(m, BYTE_BITS);
  }

  /** Absorbing a string is one long shift: its first byte enters lowest. */
  lemma {:induction false} AbsorbIsShift(r: nat, s: seq<byte>)
    ensures Absorb(r, s) == Shift(Xor(r, LE.Decode(s)), BYTE_BITS * |s|)
    decreases |s|
  {
    hide Xor, Shift;
    if s == [] {
      XorCommutes(r, 0);
      NoShift(r);
    } else {
      var b, m := s[0] as nat, LE.Decode(s[1..]);
      AbsorbIsShift(Shift(Xor(r, b), BYTE_BITS), s[1..]);
      AbsorbStep(r, b, m);
      ShiftsCompose(Xor(r, b + 256 * m), BYTE_BITS, BYTE_BITS * (|s| - 1));
    }
  }

  lemma NoShift(r: nat)
    ensures Xor(0, r) == r && Shift(r, 0) == r
  {
  }

  /** So the checksums of two strings of one length differ by the shifted difference. */
  lemma CrcDifference(s: seq<byte>, t: seq<byte>)
    requires |s| == |t|
    ensures Xor(Crc(s), Crc(t)) == Shift(Xor(LE.Decode(s), LE.Decode(t)), BYTE_BITS * |s|)
  {
    hide Xor, Shift, Absorb;
    var a, b, n := LE.Decode(s), LE.Decode(t), BYTE_BITS * |s|;
    AbsorbIsShift(ONES, s);
    AbsorbIsShift(ONES, t);
    XorRegroups(Absorb(ONES, s), ONES, Absorb(ONES, t), ONES);
    XorCancels(ONES, ONES);
    ShiftIsLinear(Xor(ONES, a), Xor(ONES, b), n);
    XorRegroups(ONES, a, ONES, b);
    NoShift(Xor(a, b));
    XorCommutes(Xor(Absorb(ONES, s), Absorb(ONES, t)), 0);
    NoShift(Xor(Absorb(ONES, s), Absorb(ONES, t)));
  }

  /** Every burst of at most 32 bits is detected, wherever it lies. */
  lemma BurstIsDetected(s: seq<byte>, t: seq<byte>, j: nat, e: nat)
    requires |s| == |t| && 0 < e < WORD && Xor(LE.Decode(s), LE.Decode(t)) == Pow2(j) * e
    ensures Crc(s) != Crc(t)
  {
    hide Xor, Shift, Crc, LE.Decode;
    var n := BYTE_BITS * |s|;
    CrcDifference(s, t);
    XorIsZero(Crc(s), Crc(t));
    LE.DecodeIsBounded(s);
    LE.DecodeIsBounded(t);
    LimitIsPow2(|s|);
    XorStaysBelow(LE.Decode(s), LE.Decode(t), n);
    BurstIsInside(j, e, n);
    ShiftsCompose(Pow2(j) * e, j, n - j);
    ShiftDrops(e, j);
    ShiftKeepsNonzero(e, n - j);
  }

  lemma BurstIsInside(j: nat, e: nat, n: nat)
    requires e > 0 && Pow2(j) * e < Pow2(n)
    ensures j <= n
  {
    hide Pow2;
    AtLeast(Pow2(j), e);
    if n < j {
      Pow2Grows(n, j);
    }
  }

  lemma AtLeast(p: nat, e: nat)
    requires e > 0
    ensures p <= p * e
  {
  }

  // Bytes.

  lemma {:induction false} DecodeConcat(a: seq<byte>, b: seq<byte>)
    ensures LE.Decode(a + b) == LE.Decode(a) + Pow2(BYTE_BITS * |a|) * LE.Decode(b)
    decreases |a|
  {
    if a == [] {
      assert a + b == b;
    } else {
      assert (a + b)[1..] == a[1..] + b;
      DecodeConcat(a[1..], b);
      Pow2Adds(BYTE_BITS, BYTE_BITS * (|a| - 1));
      assert Pow2(BYTE_BITS) == 256;
      Distributes(LE.Decode(a[1..]), Pow2(BYTE_BITS * (|a| - 1)), LE.Decode(b));
    }
  }

  lemma Distributes(x: nat, p: nat, y: nat)
    ensures 256 * (x + p * y) == 256 * x + 256 * p * y
  {
  }

  lemma DecodeOnce(a: seq<byte>, b: seq<byte>)
    requires |a| == |b| && LE.Decode(a) == LE.Decode(b)
    ensures a == b
  {
    LE.EncodeDecode(a);
    LE.EncodeDecode(b);
  }

  /** The `k` bits of `low`, and `high` above them. */
  function Above(low: nat, k: nat, high: nat): nat {
    low + Pow2(k) * high
  }

  lemma AboveIsXor(low: nat, k: nat, high: nat)
    requires low < Pow2(k)
    ensures Above(low, k, high) == Xor(low, Above(0, k, high))
  {
    XorDisjoint(low, high, k);
  }

  lemma AboveIsLinear(k: nat, p: nat, q: nat)
    ensures Xor(Above(0, k, p), Above(0, k, q)) == Above(0, k, Xor(p, q))
  {
    XorOfMultiples(k, p, q);
  }

  /** What two numbers share above drops out of their difference, */
  lemma SharedAbove(x: nat, y: nat, k: nat, high: nat)
    requires x < Pow2(k) && y < Pow2(k)
    ensures Xor(Above(x, k, high), Above(y, k, high)) == Xor(x, y)
  {
    hide Xor, Pow2, Above;
    var h := Above(0, k, high);
    AboveIsXor(x, k, high);
    AboveIsXor(y, k, high);
    XorRegroups(x, h, y, h);
    XorCancels(h, h);
    XorCommutes(Xor(x, y), 0);
    NoShift(Xor(x, y));
  }

  /** and what they share below leaves zeros. */
  lemma SharedBelow(low: nat, k: nat, p: nat, q: nat)
    requires low < Pow2(k)
    ensures Xor(Above(low, k, p), Above(low, k, q)) == Above(0, k, Xor(p, q))
  {
    hide Xor, Pow2, Above;
    AboveIsXor(low, k, p);
    AboveIsXor(low, k, q);
    XorRegroups(low, Above(0, k, p), low, Above(0, k, q));
    XorCancels(low, low);
    NoShift(Xor(Above(0, k, p), Above(0, k, q)));
    AboveIsLinear(k, p, q);
  }

  /** Changing up to four consecutive bytes always changes the checksum. */
  lemma WindowIsDetected(a: seq<byte>, x: seq<byte>, y: seq<byte>, c: seq<byte>)
    requires |x| == |y| <= 4 && x != y
    ensures Crc(a + x + c) != Crc(a + y + c)
  {
    hide Xor, Pow2, Crc, LE.Decode;
    var j, k := BYTE_BITS * |a|, BYTE_BITS * |x|;
    var dx, dy := LE.Decode(x), LE.Decode(y);
    assert a + x + c == a + (x + c) && a + y + c == a + (y + c);
    DecodeConcat(a, x + c);
    DecodeConcat(a, y + c);
    DecodeConcat(x, c);
    DecodeConcat(y, c);
    LE.DecodeIsBounded(a);
    LE.DecodeIsBounded(x);
    LE.DecodeIsBounded(y);
    LimitIsPow2(|a|);
    LimitIsPow2(|x|);
    SharedBelow(LE.Decode(a), j, Above(dx, k, LE.Decode(c)), Above(dy, k, LE.Decode(c)));
    SharedAbove(dx, dy, k, LE.Decode(c));
    XorIsZero(dx, dy);
    if dx == dy {
      DecodeOnce(x, y);
    }
    XorStaysBelow(dx, dy, k);
    Pow2Grows(k, 32);
    WordIsPow2();
    BurstIsDetected(a + x + c, a + y + c, j, Xor(dx, dy));
  }
}
