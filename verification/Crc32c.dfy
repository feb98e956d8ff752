/** CRC32C (Castagnoli, section 12.1 of RFC 3720) as a bit-serial reflected register:
    polynomial 0x82F63B78, initial value and final xor 0xFFFFFFFF.

    Machine words are natural numbers and exclusive-or is defined bit by bit, so every fact
    below is proved from that definition: the register step is linear over xor, a checksum
    can be continued over further bytes, and the checksum of a concatenation is the
    zero-shifted checksum of the first part xor that of the second. */
module Crc32c {

  newtype byte = x: int | 0 <= x < 256

  /** The polynomial, bit-reflected. */
  const POLY: nat := 0x82F6_3B78
  /** The initial register, which is also the final xor. */
  const ONES: nat := 0xFFFF_FFFF
  /** Words lie below this. */
  const WORD: nat := 0x1_0000_0000
  const BYTE_BITS: nat := 8

  function Xor(a: nat, b: nat): nat
  {
    if a == 0 then b
    else if b == 0 then a
    else 2 * Xor(a / 2, b / 2) + (if a % 2 == b % 2 then 0 else 1)
  }

  /** The register after one input bit of zero. */
  function BitStep(r: nat): nat {
    if r % 2 == 1 then Xor(r / 2, POLY) else r / 2
  }

  /** `bits` zero bits through the register. */
  function Shift(r: nat, bits: nat): nat
    decreases bits, r
  {
    if bits == 0 then r else Shift(BitStep(r), bits - 1)
  }

  /** `n` zero bytes through the register. */
  function ZeroBytes(r: nat, n: nat): nat
    decreases n, r
  {
    if n == 0 then r else ZeroBytes(Shift(r, BYTE_BITS), n - 1)
  }

  /** The register after absorbing `s`, byte by byte. */
  function Absorb(r: nat, s: seq<byte>): nat
    decreases |s|, r
  {
    if s == [] then r else Absorb(Shift(Xor(r, s[0] as nat), BYTE_BITS), s[1..])
  }

  /** The checksum of `s`. */
  function Crc(s: seq<byte>): nat {
    Xor(Absorb(ONES, s), ONES)
  }

  /** Continue the finished checksum `crc` over `s`. */
  function Append(crc: nat, s: seq<byte>): nat {
    Xor(Absorb(Xor(crc, ONES), s), ONES)
  }

  lemma {:induction false} XorCommutes(a: nat, b: nat)
    ensures Xor(a, b) == Xor(b, a)
  {
    if a != 0 && b != 0 {
      XorCommutes(a / 2, b / 2);
    }
  }

  lemma {:induction false} XorBits(a: nat, b: nat)
    ensures Xor(a, b) / 2 == Xor(a / 2, b / 2)
    ensures Xor(a, b) % 2 == if a % 2 == b % 2 then 0 else 1
  {
  }

  lemma {:induction false} XorAssociates(a: nat, b: nat, c: nat)
    ensures Xor(Xor(a, b), c) == Xor(a, Xor(b, c))
  {
    XorBits(a, b);
    XorBits(b, c);
    XorBits(Xor(a, b), c);
    XorBits(a, Xor(b, c));
    if a != 0 && b != 0 && c != 0 {
      XorAssociates(a / 2, b / 2, c / 2);
    }
  }

  lemma {:induction false} XorCancels(a: nat, b: nat)
    ensures Xor(a, a) == 0
    ensures Xor(Xor(a, b), b) == a
  {
    XorWithSelf(a);
    XorWithSelf(b);
    XorAssociates(a, b, b);
  }

  lemma {:induction false} XorWithSelf(a: nat)
    ensures Xor(a, a) == 0
  {
    if a != 0 {
      XorWithSelf(a / 2);
    }
  }

  lemma {:induction false} XorStaysBelow(a: nat, b: nat, k: nat)
    requires a < Pow2(k) && b < Pow2(k)
    ensures Xor(a, b) < Pow2(k)
  {
    if a != 0 && b != 0 {
      XorStaysBelow(a / 2, b / 2, k - 1);
    }
  }

  function Pow2(k: nat): (p: nat)
    ensures p > 0
  {
    if k == 0 then 1 else 2 * Pow2(k - 1)
  }

  lemma WordIsPow2()
    ensures Pow2(32) == WORD
  {
    assert Pow2(8) == 0x100;
    assert Pow2(16) == 0x1_0000;
    assert Pow2(24) == 0x100_0000;
  }

  /** Xor regroups like addition: (a+b)+(c+d) = (a+c)+(b+d). */
  lemma XorRegroups(a: nat, b: nat, c: nat, d: nat)
    ensures Xor(Xor(a, b), Xor(c, d)) == Xor(Xor(a, c), Xor(b, d))
  {
    XorAssociates(a, b, Xor(c, d));
    XorAssociates(b, c, d);
    XorCommutes(b, c);
    XorAssociates(c, b, d);
    XorAssociates(a, c, Xor(b, d));
  }

  lemma BitStepIsLinear(a: nat, b: nat)
    ensures BitStep(Xor(a, b)) == Xor(BitStep(a), BitStep(b))
  {
    XorBits(a, b);
    XorRegroups(a / 2, if a % 2 == 1 then POLY else 0, b / 2, if b % 2 == 1 then POLY else 0);
    XorWithSelf(POLY);
    XorCommutes(a / 2, 0);
    XorCommutes(b / 2, 0);
    XorCommutes(Xor(a / 2, b / 2), 0);
  }

  /** Shifting in zero bits is a linear operator on the register. */
  lemma {:induction false} ShiftIsLinear(a: nat, b: nat, bits: nat)
    ensures Shift(Xor(a, b), bits) == Xor(Shift(a, bits), Shift(b, bits))
    decreases bits
  {
    if bits != 0 {
      BitStepIsLinear(a, b);
      ShiftIsLinear(BitStep(a), BitStep(b), bits - 1);
    }
  }

  lemma {:induction false} ShiftOfZero(bits: nat)
    ensures Shift(0, bits) == 0
    decreases bits
  {
    if bits != 0 {
      ShiftOfZero(bits - 1);
    }
  }

  /** Shifts compose by adding their bit counts. */
  lemma {:induction false} ShiftsCompose(r: nat, m: nat, n: nat)
    ensures Shift(Shift(r, m), n) == Shift(r, m + n)
    decreases m
  {
    if m != 0 {
      ShiftsCompose(BitStep(r), m - 1, n);
    }
  }

  lemma {:induction false} ZeroBytesAsBits(r: nat, n: nat)
    ensures ZeroBytes(r, n) == Shift(r, BYTE_BITS * n)
    decreases n
  {
    if n != 0 {
      ZeroBytesAsBits(Shift(r, BYTE_BITS), n - 1);
      ShiftsCompose(r, BYTE_BITS, BYTE_BITS * (n - 1));
    }
  }

  lemma {:induction false} ShiftStaysWord(r: nat, bits: nat)
    requires r < WORD
    ensures Shift(r, bits) < WORD
    decreases bits
  {
    if bits != 0 {
      WordIsPow2();
      XorStaysBelow(r / 2, POLY, 32);
      ShiftStaysWord(BitStep(r), bits - 1);
    }
  }

  lemma {:induction false} AbsorbStaysWord(r: nat, s: seq<byte>)
    requires r < WORD
    ensures Absorb(r, s) < WORD
    decreases |s|
  {
    if s != [] {
      WordIsPow2();
      XorStaysBelow(r, s[0] as nat, 32);
      ShiftStaysWord(Xor(r, s[0] as nat), BYTE_BITS);
      AbsorbStaysWord(Shift(Xor(r, s[0] as nat), BYTE_BITS), s[1..]);
    }
  }

  /** A checksum fits the four bytes a header has for it. */
  lemma CrcIsWord(s: seq<byte>)
    ensures Crc(s) < WORD
  {
    AbsorbStaysWord(ONES, s);
    WordIsPow2();
    XorStaysBelow(Absorb(ONES, s), ONES, 32);
  }

  lemma {:induction false} AbsorbConcat(r: nat, a: seq<byte>, b: seq<byte>)
    ensures Absorb(r, a + b) == Absorb(Absorb(r, a), b)
    decreases |a|
  {
    if a == [] {
      assert a + b == b;
    } else {
      assert (a + b)[1..] == a[1..] + b;
      AbsorbConcat(Shift(Xor(r, a[0] as nat), BYTE_BITS), a[1..], b);
    }
  }

  lemma StepPerturbed(r: nat, d: nat, b: nat, bits: nat)
    ensures Shift(Xor(Xor(r, d), b), bits) == Xor(Shift(Xor(r, b), bits), Shift(d, bits))
  {
    XorAssociates(r, d, b);
    XorCommutes(d, b);
    XorAssociates(r, b, d);
    ShiftIsLinear(Xor(r, b), d, bits);
  }

  /** A perturbation of the register is carried through any data as a pure zero shift. */
  lemma {:induction false} AbsorbPerturbed(r: nat, d: nat, s: seq<byte>)
    ensures Absorb(Xor(r, d), s) == Xor(Absorb(r, s), ZeroBytes(d, |s|))
    decreases |s|
  {
    hide Xor, Shift;
    if s != [] {
      StepPerturbed(r, d, s[0] as nat, BYTE_BITS);
      AbsorbPerturbed(Shift(Xor(r, s[0] as nat), BYTE_BITS), Shift(d, BYTE_BITS), s[1..]);
    }
  }

  /** Streaming: continuing a finished checksum gives the checksum of the concatenation. */
  lemma AppendContinues(a: seq<byte>, b: seq<byte>)
    ensures Append(Crc(a), b) == Crc(a + b)
  {
    XorCancels(Absorb(ONES, a), ONES);
    AbsorbConcat(ONES, a, b);
  }

  /** The checksum of a concatenation, from the two checksums and the second length alone. */
  lemma CrcOfConcat(a: seq<byte>, b: seq<byte>)
    ensures Crc(a + b) == Xor(ZeroBytes(Crc(a), |b|), Crc(b))
  {
    var d, z := Crc(a), ZeroBytes(Crc(a), |b|);
    AbsorbConcat(ONES, a, b);
    XorCancels(Absorb(ONES, a), ONES);
    XorCommutes(ONES, d);
    AbsorbPerturbed(ONES, d, b);
    XorCommutes(Absorb(ONES, b), z);
    XorAssociates(z, Absorb(ONES, b), ONES);
  }

  lemma CrcOfNothing()
    ensures Crc([]) == 0
  {
    XorWithSelf(ONES);
  }
}
