/** The checksum of four zero bytes, evaluated. The register is run as a bit-vector and
    related bit by bit to the arithmetic register of `Crc32c`. */
module ZeroWord {
  import opened Crc32c
  import opened Store

  function Half(v: bv32): bv32 { v >> 1 }

  predicate Low(v: bv32) { v & 1 == 1 }

  /** The register step on bit-vectors. */
  function Step(v: bv32): bv32 {
    if Low(v) then Half(v) ^ 0x82F6_3B78 else Half(v)
  }

  /** `v` and `r` agree on their `n` low bits. */
  predicate Agree(v: bv32, r: nat, n: nat)
    decreases n
  {
    n == 0 || (Low(v) == (r % 2 == 1) && Agree(Half(v), r / 2, n - 1))
  }

  /** `x` is the xor of `v` and `w` on their `n` low bits. */
  predicate IsXor(x: bv32, v: bv32, w: bv32, n: nat)
    decreases n
  {
    n == 0 || (Low(x) == (Low(v) != Low(w)) && IsXor(Half(x), Half(v), Half(w), n - 1))
  }

  lemma HalvesOfXor(x: bv32, v: bv32, w: bv32)
    requires x == v ^ w
    ensures Half(x) == Half(v) ^ Half(w)
    ensures Low(x) == (Low(v) != Low(w))
  {
  }

  lemma {:induction false} XorIsXor(x: bv32, v: bv32, w: bv32, n: nat)
    requires x == v ^ w
    ensures IsXor(x, v, w, n)
    decreases n
  {
    if n > 0 {
      HalvesOfXor(x, v, w);
      XorIsXor(Half(x), Half(v), Half(w), n - 1);
    }
  }

  lemma {:induction false} XorAgrees(x: bv32, v: bv32, w: bv32, r: nat, s: nat, n: nat)
    requires IsXor(x, v, w, n) && Agree(v, r, n) && Agree(w, s, n)
    ensures Agree(x, Xor(r, s), n)
    decreases n
  {
    if n > 0 {
      XorBits(r, s);
      XorAgrees(Half(x), Half(v), Half(w), r / 2, s / 2, n - 1);
    }
  }

  lemma {:induction false} AgreesOnFewer(v: bv32, r: nat, m: nat, n: nat)
    requires m <= n && Agree(v, r, n)
    ensures Agree(v, r, m)
    decreases n
  {
    if m > 0 {
      AgreesOnFewer(Half(v), r / 2, m - 1, n - 1);
    }
  }

  lemma PolynomialAgrees()
    ensures Agree(0x82F6_3B78, POLY, 32)
  {
    assert Agree(0x8, 0x8, 4);
    assert Agree(0x82, 0x82, 8);
    assert Agree(0x82F, 0x82F, 12);
    assert Agree(0x82F6, 0x82F6, 16);
    assert Agree(0x8_2F63, 0x8_2F63, 20);
    assert Agree(0x82_F63B, 0x82_F63B, 24);
    assert Agree(0x82F_63B7, 0x82F_63B7, 28);
  }

  lemma OnesAgree()
    ensures Agree(0xFFFF_FFFF, ONES, 33)
  {
    assert Agree(0x7, 0x7, 4);
    assert Agree(0x7F, 0x7F, 8);
    assert Agree(0x7FF, 0x7FF, 12);
    assert Agree(0x7FFF, 0x7FFF, 16);
    assert Agree(0x7_FFFF, 0x7_FFFF, 20);
    assert Agree(0x7F_FFFF, 0x7F_FFFF, 24);
    assert Agree(0x7FF_FFFF, 0x7FF_FFFF, 28);
    assert Agree(0x7FFF_FFFF, 0x7FFF_FFFF, 32);
  }

  lemma StepAgrees(v: bv32, r: nat, n: nat)
    requires n <= 32 && Agree(v, r, n + 1)
    ensures Agree(Step(v), BitStep(r), n)
  {
    PolynomialAgrees();
    AgreesOnFewer(0x82F6_3B78, POLY, n, 32);
    if Low(v) {
      XorIsXor(Step(v), Half(v), 0x82F6_3B78, n);
      XorAgrees(Step(v), Half(v), 0x82F6_3B78, r / 2, POLY, n);
    }
  }

  lemma {:induction false} StepsAgree(v: bv32, r: nat, n: nat, steps: nat)
    requires n + steps <= 33 && Agree(v, r, n + steps)
    ensures Agree(Steps(v, steps), Shift(r, steps), n)
    decreases steps
  {
    if steps > 0 {
      StepAgrees(v, r, n + steps - 1);
      StepsAgree(Step(v), BitStep(r), n, steps - 1);
    }
  }

  function Steps(v: bv32, steps: nat): bv32
    decreases steps
  {
    if steps == 0 then v else Steps(Step(v), steps - 1)
  }

  function ByteStep(v: bv32): bv32 {
    Step(Step(Step(Step(Step(Step(Step(Step(v))))))))
  }

  lemma OneStep(v: bv32, n: nat)
    ensures Steps(v, n + 1) == Steps(Step(v), n)
  {
  }

  lemma EightSteps(v: bv32, n: nat)
    ensures Steps(v, n + 8) == Steps(ByteStep(v), n)
  {
    hide Step, Steps;
    var two := Step(Step(v));
    var four := Step(Step(two));
    var six := Step(Step(four));
    OneStep(v, n + 7);
    OneStep(Step(v), n + 6);
    OneStep(two, n + 5);
    OneStep(Step(two), n + 4);
    OneStep(four, n + 3);
    OneStep(Step(four), n + 2);
    OneStep(six, n + 1);
    OneStep(Step(six), n);
  }

  lemma ByteSteps()
    ensures ByteStep(0xFFFF_FFFF) == 0xAD82_ACAE
    ensures ByteStep(0xAD82_ACAE) == 0x0E9E_882D
    ensures ByteStep(0x0E9E_882D) == 0x9F9B_5C85
    ensures ByteStep(0x9F9B_5C85) == 0xB798_B438
  {
  }

  lemma RunFromOnes()
    ensures Steps(0xFFFF_FFFF, 32) == 0xB798_B438
  {
    ByteSteps();
    EightSteps(0xFFFF_FFFF, 24);
    EightSteps(0xAD82_ACAE, 16);
    EightSteps(0x0E9E_882D, 8);
    EightSteps(0x9F9B_5C85, 0);
  }

  lemma {:induction false} AbsorbZeros(r: nat, n: nat)
    ensures Absorb(r, Zeros(n)) == ZeroBytes(r, n)
    decreases n
  {
    if n > 0 {
      assert Zeros(n)[1..] == Zeros(n - 1);
      XorCommutes(r, 0);
      AbsorbZeros(Shift(r, BYTE_BITS), n - 1);
    }
  }

  /** The length field of a zero-filled header does not have checksum zero. */
  lemma CrcOfZeroWord()
    ensures Crc([0, 0, 0, 0]) != 0
  {
    assert Zeros(4) == [0, 0, 0, 0];
    AbsorbZeros(ONES, 4);
    ZeroBytesAsBits(ONES, 4);
    var r := Shift(ONES, 32);
    OnesAgree();
    StepsAgree(0xFFFF_FFFF, ONES, 1, 32);
    RunFromOnes();
    assert r % 2 == 0;
    XorCancels(r, ONES);
  }
}
