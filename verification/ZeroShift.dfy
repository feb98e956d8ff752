/** The zero-shift operator of the strict-open scan: advancing a checksum over `len` zero
    bytes with one GF(2) matrix product per set bit of `len`, from a table of the operators
    for 1, 2, 4, ... zero bytes built by repeated squaring. */
module ZeroShift {
  import opened Crc32c

  /** A linear map on 32-bit words, given by where it takes each power of two. */
  type Matrix = seq<nat>

  const TABLE_LEN: nat := 64

  /** `v` with `i` zero bits appended below it. */
  function Up(v: nat, i: nat): nat {
    if i == 0 then v else 2 * Up(v, i - 1)
  }

  /** The matrix-vector product over columns `i` and up. */
  function Product(m: Matrix, v: nat, i: nat): nat
    decreases v
  {
    if v == 0 || i >= |m| then 0
    else Xor(if v % 2 == 1 then m[i] else 0, Product(m, v / 2, i + 1))
  }

  /** `m` is the operator that feeds `bits` zero bits. */
  ghost predicate Feeds(m: Matrix, bits: nat) {
    |m| == 32 && forall i :: 0 <= i < 32 ==> m[i] == Shift(Up(1, i), bits)
  }

  /** Every column is a machine word. */
  predicate Words(m: Matrix) {
    |m| == 32 && forall i :: 0 <= i < 32 ==> m[i] < WORD
  }

  /** The zero bits entry `k` of the table feeds: 2^k bytes of them. */
  function TableBits(k: nat): nat {
    if k == 0 then BYTE_BITS else 2 * TableBits(k - 1)
  }

  lemma {:induction false} TableBitsArePowers(k: nat)
    ensures TableBits(k) == BYTE_BITS * Pow2(k)
  {
    if k != 0 {
      TableBitsArePowers(k - 1);
    }
  }

  /** The table the scan uses. */
  ghost predicate IsTable(ops: seq<Matrix>) {
    |ops| == TABLE_LEN && forall k :: 0 <= k < TABLE_LEN ==> Words(ops[k]) && Feeds(ops[k], TableBits(k))
  }

  lemma {:induction false} UpOfDouble(v: nat, i: nat)
    ensures Up(2 * v, i) == Up(v, i + 1)
  {
    if i != 0 {
      UpOfDouble(v, i - 1);
    }
  }

  lemma {:induction false} UpOfSum(a: nat, b: nat, i: nat)
    ensures Up(a + b, i) == Up(a, i) + Up(b, i)
  {
    if i != 0 {
      UpOfSum(a, b, i - 1);
    }
  }

  lemma {:induction false} UpOfOne(i: nat)
    ensures Up(1, i) == Pow2(i) && Up(0, i) == 0
  {
    if i != 0 {
      UpOfOne(i - 1);
    }
  }

  lemma XorOfDoubles(a: nat, b: nat)
    ensures Xor(2 * a, 2 * b) == 2 * Xor(a, b)
  {
  }

  lemma {:induction false} UpOfXor(a: nat, b: nat, i: nat)
    ensures Up(Xor(a, b), i) == Xor(Up(a, i), Up(b, i))
  {
    if i != 0 {
      UpOfXor(a, b, i - 1);
      XorOfDoubles(Up(a, i - 1), Up(b, i - 1));
    }
  }

  lemma SplitLowBit(v: nat)
    ensures v == Xor(v % 2, 2 * (v / 2))
  {
  }

  /** The product with an operator's matrix applies the operator. */
  lemma {:induction false} ProductIsShift(m: Matrix, v: nat, i: nat, bits: nat)
    requires Feeds(m, bits) && i <= 32 && v < Pow2(32 - i)
    ensures Product(m, v, i) == Shift(Up(v, i), bits)
    decreases v
  {
    if v == 0 {
      UpOfOne(i);
      ShiftOfZero(bits);
    } else {
      ProductIsShift(m, v / 2, i + 1, bits);
      SplitLowBit(v);
      UpOfXor(v % 2, 2 * (v / 2), i);
      UpOfDouble(v / 2, i);
      UpOfOne(i);
      ShiftIsLinear(Up(v % 2, i), Up(v / 2, i + 1), bits);
      ShiftOfZero(bits);
    }
  }

  lemma {:induction false} ProductIsWord(m: Matrix, v: nat, i: nat)
    requires Words(m)
    ensures Product(m, v, i) < WORD
    decreases v
  {
    if v != 0 && i < |m| {
      ProductIsWord(m, v / 2, i + 1);
      WordIsPow2();
      XorStaysBelow(if v % 2 == 1 then m[i] else 0, Product(m, v / 2, i + 1), 32);
    }
  }

  /** Squaring a matrix composes the operator with itself. */
  lemma SquareFeedsTwice(m: Matrix, out: Matrix, bits: nat)
    requires Words(m) && Feeds(m, bits)
    requires |out| == 32 && forall n :: 0 <= n < 32 ==> out[n] == Product(m, m[n], 0)
    ensures Words(out) && Feeds(out, 2 * bits)
  {
    WordIsPow2();
    forall n | 0 <= n < 32
      ensures out[n] < WORD && out[n] == Shift(Up(1, n), 2 * bits)
    {
      ProductIsWord(m, m[n], 0);
      ProductIsShift(m, m[n], 0, bits);
      ShiftsCompose(Up(1, n), bits, bits);
    }
  }

  /** Multiply `matrix` by `vector`. */
  method Gf2Times(matrix: Matrix, vector: nat) returns (sum: nat)
    requires |matrix| == 32 && vector < WORD
    ensures sum == Product(matrix, vector, 0)
    ensures forall bits: nat :: Feeds(matrix, bits) ==> sum == Shift(vector, bits)
  {
    sum := 0;
    var v: nat, i: nat := vector, 0;
    WordIsPow2();
    while v != 0
      invariant i <= 32 && v < Pow2(32 - i)
      invariant Xor(sum, Product(matrix, v, i)) == Product(matrix, vector, 0)
    {
      XorAssociates(sum, matrix[i], Product(matrix, v / 2, i + 1));
      if v % 2 == 1 {
        sum := Xor(sum, matrix[i]);
      }
      v := v / 2;
      i := i + 1;
    }
    XorCommutes(sum, 0);
    forall bits: nat | Feeds(matrix, bits)
      ensures sum == Shift(vector, bits)
    {
      ProductIsShift(matrix, vector, 0, bits);
    }
  }

  /** If `matrix` stands for feeding `bits` zero bits, the result stands for twice as many. */
  method Gf2Square(matrix: Matrix) returns (square: Matrix)
    requires Words(matrix)
    ensures |square| == 32 && forall n :: 0 <= n < 32 ==> square[n] == Product(matrix, matrix[n], 0)
    ensures forall bits: nat :: Feeds(matrix, bits) ==> Words(square) && Feeds(square, 2 * bits)
  {
    var out := new nat[32];
    var n := 0;
    while n < 32
      invariant 0 <= n <= 32
      invariant forall j :: 0 <= j < n ==> out[j] == Product(matrix, matrix[j], 0)
    {
      out[n] := Gf2Times(matrix, matrix[n]);
      n := n + 1;
    }
    square := out[..];
    forall bits: nat | Feeds(matrix, bits)
      ensures Words(square) && Feeds(square, 2 * bits)
    {
      SquareFeedsTwice(matrix, square, bits);
    }
  }

  lemma {:induction false} Pow2Grows(i: nat, j: nat)
    requires i <= j
    ensures Pow2(i) <= Pow2(j)
    decreases j
  {
    if i < j {
      Pow2Grows(i, j - 1);
    }
  }

  /** These entries stand for feeding a single zero bit. */
  lemma OneBitMatrix(m: Matrix)
    requires |m| == 32 && m[0] == POLY && forall n :: 1 <= n < 32 ==> m[n] == Pow2(n - 1)
    ensures Words(m) && Feeds(m, 1)
  {
    WordIsPow2();
    forall n | 0 <= n < 32
      ensures m[n] < WORD && m[n] == Shift(Up(1, n), 1)
    {
      UpOfOne(n);
      Pow2Grows(n, 32);
      assert Shift(Pow2(n), 1) == Shift(BitStep(Pow2(n)), 0) == BitStep(Pow2(n));
      XorCommutes(0, POLY);
    }
  }

  /** Builds those entries. */
  method OneBitOperator() returns (m: Matrix)
    ensures Words(m) && Feeds(m, 1)
  {
    var oneBit := new nat[32];
    oneBit[0] := POLY;
    var n := 1;
    while n < 32
      invariant 1 <= n <= 32 && oneBit[0] == POLY
      invariant forall j :: 1 <= j < n ==> oneBit[j] == Pow2(j - 1)
    {
      oneBit[n] := Pow2(n - 1);
      n := n + 1;
    }
    m := oneBit[..];
    OneBitMatrix(m);
  }

  /** One zero byte: the one-bit operator squared three times. */
  method OneByteOperator() returns (m: Matrix)
    ensures Words(m) && Feeds(m, TableBits(0))
  {
    ghost var bits: nat := 1;
    var oneBit := OneBitOperator();
    assert Feeds(oneBit, bits);
    var twoBits := Gf2Square(oneBit);
    assert Feeds(twoBits, 2 * bits);
    var fourBits := Gf2Square(twoBits);
    assert Feeds(fourBits, 2 * (2 * bits));
    m := Gf2Square(fourBits);
    assert Feeds(m, 2 * (2 * (2 * bits)));
  }

  /** Build the table of zero-byte operators by repeated squaring. */
  method ZeroByteOperators() returns (ops: seq<Matrix>)
    ensures IsTable(ops)
  {
    var first := OneByteOperator();
    ops := [first];
    var k := 1;
    while k < TABLE_LEN
      invariant 1 <= k == |ops| <= TABLE_LEN
      invariant forall j :: 0 <= j < k ==> Words(ops[j]) && Feeds(ops[j], TableBits(j))
    {
      var next := Gf2Square(ops[k - 1]);
      assert Feeds(next, 2 * TableBits(k - 1));
      ops := ops + [next];
      k := k + 1;
    }
  }

  /** Peeling the low bit of `rest` off a shift by `rest` times 2^k bytes. */
  lemma ShiftByLowBit(r: nat, rest: nat, k: nat)
    ensures Shift(r, BYTE_BITS * Up(rest, k))
         == Shift(if rest % 2 == 1 then Shift(r, TableBits(k)) else r, BYTE_BITS * Up(rest / 2, k + 1))
  {
    UpOfSum(rest % 2, 2 * (rest / 2), k);
    UpOfDouble(rest / 2, k);
    UpOfOne(k);
    TableBitsArePowers(k);
    ShiftsCompose(r, TableBits(k), BYTE_BITS * Up(rest / 2, k + 1));
  }

  /** Advance `crc` over `len` zero bytes. */
  method ZeroShift(ops: seq<Matrix>, crc: nat, len: nat) returns (shifted: nat)
    requires IsTable(ops) && crc < WORD && len < Pow2(TABLE_LEN)
    ensures shifted == ZeroBytes(crc, len)
  {
    shifted := crc;
    var rest: nat, k: nat := len, 0;
    while rest != 0
      invariant k <= TABLE_LEN && rest < Pow2(TABLE_LEN - k)
      invariant shifted < WORD
      invariant Shift(shifted, BYTE_BITS * Up(rest, k)) == Shift(crc, BYTE_BITS * len)
    {
      ShiftByLowBit(shifted, rest, k);
      if rest % 2 == 1 {
        ShiftStaysWord(shifted, TableBits(k));
        shifted := Gf2Times(ops[k], shifted);
      }
      rest := rest / 2;
      k := k + 1;
    }
    UpOfOne(k);
    ZeroBytesAsBits(crc, len);
  }
}
