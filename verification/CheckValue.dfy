/** The check value of CRC32C, by which implementations of it are told apart. */
module CheckValue {
  import opened Crc32c
  import opened ZeroWord

  /** `v` is the word `r`. */
  ghost predicate Same(v: bv32, r: nat) {
    r < WORD && Agree(v, r, 32)
  }

  /** `v` has no bits from bit `n` on. */
  predicate Short(v: bv32, n: nat)
    decreases n
  {
    if n == 0 then v == 0 else Short(Half(v), n - 1)
  }

  lemma ShortByte(v: bv32, n: nat)
    requires Short(v >> 8, n)
    ensures Short(v, n + 8)
  {
    hide Short;
    var h := Half(v);
    var two := Half(h);
    var three := Half(two);
    var four := Half(three);
    var five := Half(four);
    var six := Half(five);
    var seven := Half(six);
    assert Half(seven) == v >> 8;
    ShortOne(seven, n);
    ShortOne(six, n + 1);
    ShortOne(five, n + 2);
    ShortOne(four, n + 3);
    ShortOne(three, n + 4);
    ShortOne(two, n + 5);
    ShortOne(h, n + 6);
    ShortOne(v, n + 7);
  }

  lemma ShortOne(v: bv32, n: nat)
    requires Short(Half(v), n)
    ensures Short(v, n + 1)
  {
  }

  lemma EveryWordIsShort(v: bv32)
    ensures Short(v, 32)
  {
    hide Short;
    assert Short(0, 0) by { ShortZero(); }
    assert (((v >> 8) >> 8) >> 8) >> 8 == 0;
    ShortByte(((v >> 8) >> 8) >> 8, 0);
    ShortByte((v >> 8) >> 8, 8);
    ShortByte(v >> 8, 16);
    ShortByte(v, 24);
  }

  lemma ShortZero()
    ensures Short(0, 0)
  {
  }

  lemma {:induction false} ZeroAgrees(n: nat)
    ensures Agree(0, 0, n)
  {
    if n > 0 {
      ZeroAgrees(n - 1);
      assert Half(0) == 0;
    }
  }

  /** Past its last bit a word goes on with zeros. */
  lemma {:induction false} AgreeBeyond(v: bv32, r: nat, n: nat, m: nat)
    requires Short(v, n) && r < Pow2(n) && Agree(v, r, n) && n <= m
    ensures Agree(v, r, m)
    decreases n
  {
    if n > 0 {
      AgreeBeyond(Half(v), r / 2, n - 1, m - 1);
    } else {
      ZeroAgrees(m);
    }
  }

  lemma {:induction false} AgreeOnce(v: bv32, r: nat, s: nat, n: nat)
    requires r < Pow2(n) && s < Pow2(n) && Agree(v, r, n) && Agree(v, s, n)
    ensures r == s
    decreases n
  {
    if n > 0 {
      AgreeOnce(Half(v), r / 2, s / 2, n - 1);
    }
  }

  lemma StepIsSame(v: bv32, r: nat)
    requires Same(v, r)
    ensures Same(Step(v), BitStep(r))
  {
    hide Agree, Step, BitStep, Short;
    WordIsPow2();
    EveryWordIsShort(v);
    AgreeBeyond(v, r, 32, 33);
    StepAgrees(v, r, 32);
    ShiftStaysWord(r, 1);
    ShiftOnce(r, 0);
    ShiftDone(BitStep(r));
  }

  lemma ShiftOnce(r: nat, bits: nat)
    ensures Shift(r, bits + 1) == Shift(BitStep(r), bits)
  {
  }

  lemma ShiftDone(r: nat)
    ensures Shift(r, 0) == r
  {
  }

  lemma {:induction false} StepsAreSame(v: bv32, r: nat, steps: nat)
    requires Same(v, r)
    ensures Same(Steps(v, steps), Shift(r, steps))
    decreases steps
  {
    hide Same, Step, BitStep;
    if steps > 0 {
      StepIsSame(v, r);
      StepsAreSame(Step(v), BitStep(r), steps - 1);
    }
  }

  /** One byte through either register. */
  lemma FeedByte(v: bv32, r: nat, b: bv32, c: nat)
    requires Same(v, r) && Same(b, c)
    ensures Same(ByteStep(v ^ b), Shift(Xor(r, c), BYTE_BITS))
  {
    hide Agree, Step, Steps, Shift, Xor, ByteStep, IsXor;
    WordIsPow2();
    XorStaysBelow(r, c, 32);
    XorIsXor(v ^ b, v, b, 32);
    XorAgrees(v ^ b, v, b, r, c, 32);
    StepsAreSame(v ^ b, Xor(r, c), 8);
    EightSteps(v ^ b, 0);
    NoSteps(ByteStep(v ^ b));
  }

  lemma NoSteps(v: bv32)
    ensures Steps(v, 0) == v
  {
  }

  /** The register after the bytes `s`, as a bit-vector. */
  function Fed(v: bv32, s: seq<bv32>): bv32
    decreases |s|
  {
    if s == [] then v else Fed(ByteStep(v ^ s[0]), s[1..])
  }

  lemma {:induction false} FedIsAbsorbed(v: bv32, r: nat, s: seq<bv32>, t: seq<byte>)
    requires Same(v, r) && |s| == |t| && forall i :: 0 <= i < |s| ==> Same(s[i], t[i] as nat)
    ensures Same(Fed(v, s), Absorb(r, t))
    decreases |s|
  {
    hide Same, ByteStep, Shift, Xor;
    if s != [] {
      FeedByte(v, r, s[0], t[0] as nat);
      FedIsAbsorbed(ByteStep(v ^ s[0]), Shift(Xor(r, t[0] as nat), BYTE_BITS), s[1..], t[1..]);
    }
  }

  // The nine digits.

  /** The bytes of the string "123456789". */
  function Digits(): seq<byte> {
    [49, 50, 51, 52, 53, 54, 55, 56, 57]
  }

  function DigitWords(): seq<bv32> {
    [49, 50, 51, 52, 53, 54, 55, 56, 57]
  }

  lemma DigitsAreSame(i: nat)
    requires i < |Digits()|
    ensures Same(DigitWords()[i], Digits()[i] as nat)
  {
    var v, c := DigitWords()[i], Digits()[i] as nat;
    assert Pow2(6) == 64;
    assert Short(v, 6) && Agree(v, c, 6);
    AgreeBeyond(v, c, 6, 32);
  }

  lemma FeedDigits()
    ensures ByteStep(0xFFFF_FFFF ^ 49) == 0x6F0A_661C
    ensures ByteStep(0x6F0A_661C ^ 50) == 0x8CAA_3B9F
    ensures ByteStep(0x8CAA_3B9F ^ 51) == 0xEF84_D04D
    ensures ByteStep(0xEF84_D04D ^ 52) == 0x09C5_0B11
    ensures ByteStep(0x09C5_0B11 ^ 53) == 0xE72E_DCCA
    ensures ByteStep(0xE72E_DCCA ^ 54) == 0xBECA_8E79
    ensures ByteStep(0xBECA_8E79 ^ 55) == 0xEDBD_6815
    ensures ByteStep(0xEDBD_6815 ^ 56) == 0x9F78_7F65
    ensures ByteStep(0x9F78_7F65 ^ 57) == 0x1CF9_6D7C
  {
  }

  lemma DigitsFed()
    ensures Fed(0xFFFF_FFFF, DigitWords()) == 0x1CF9_6D7C
  {
    hide ByteStep;
    FeedDigits();
    var w := DigitWords();
    FedFirst(0xFFFF_FFFF, w[0..]);
    FedFirst(0x6F0A_661C, w[1..]);
    FedFirst(0x8CAA_3B9F, w[2..]);
    FedFirst(0xEF84_D04D, w[3..]);
    FedFirst(0x09C5_0B11, w[4..]);
    FedFirst(0xE72E_DCCA, w[5..]);
    FedFirst(0xBECA_8E79, w[6..]);
    FedFirst(0xEDBD_6815, w[7..]);
    FedFirst(0x9F78_7F65, w[8..]);
  }

  lemma FedFirst(v: bv32, s: seq<bv32>)
    requires s != []
    ensures Fed(v, s) == Fed(ByteStep(v ^ s[0]), s[1..])
  {
  }

  lemma CheckValueAgrees()
    ensures Same(0xE306_9283, 0xE306_9283)
  {
    assert Agree(0xE, 0xE, 4);
    assert Agree(0xE3, 0xE3, 8);
    assert Agree(0xE30, 0xE30, 12);
    assert Agree(0xE306, 0xE306, 16);
    assert Agree(0xE_3069, 0xE_3069, 20);
    assert Agree(0xE3_0692, 0xE3_0692, 24);
    assert Agree(0xE30_6928, 0xE30_6928, 28);
  }

  /** CRC32C of the nine digits is 0xE3069283. */
  lemma CrcOfDigits()
    ensures Crc(Digits()) == 0xE306_9283
  {
    hide Agree, Absorb, Fed, Xor, IsXor;
    var r := Absorb(ONES, Digits());
    WordIsPow2();
    OnesAgree();
    AgreesOnFewer(0xFFFF_FFFF, ONES, 32, 33);
    forall i | 0 <= i < |Digits()|
      ensures Same(DigitWords()[i], Digits()[i] as nat)
    {
      DigitsAreSame(i);
    }
    FedIsAbsorbed(0xFFFF_FFFF, ONES, DigitWords(), Digits());
    DigitsFed();
    XorStaysBelow(r, ONES, 32);
    XorIsXor(0xE306_9283, 0x1CF9_6D7C, 0xFFFF_FFFF, 32);
    XorAgrees(0xE306_9283, 0x1CF9_6D7C, 0xFFFF_FFFF, r, ONES, 32);
    CheckValueAgrees();
    AgreeOnce(0xE306_9283, Crc(Digits()), 0xE306_9283, 32);
  }
}
