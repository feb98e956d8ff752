/** Segment file names: twenty zero-padded decimal digits and an extension. */
module SegmentNames {
  import opened Store
  import opened Division

  const NAME_DIGITS: nat := 20
  const NAME_SUFFIX: string := ".wal"

  function DigitChar(d: nat): char
    requires d < 10
  {
    '0' + d as char
  }

  /** `n` in `width` decimal digits, most significant first; higher digits are dropped. */
  function Digits(n: nat, width: nat): (s: string)
    ensures |s| == width
    decreases width
  {
    if width == 0 then "" else Digits(n / 10, width - 1) + [DigitChar(n % 10)]
  }

  function SegmentName(index: nat): string {
    Digits(index, NAME_DIGITS) + NAME_SUFFIX
  }

  predicate IsDigit(c: char) {
    '0' <= c <= '9'
  }

  predicate AllDigits(s: string) {
    forall i :: 0 <= i < |s| ==> IsDigit(s[i])
  }

  /** The number a string of digits spells. */
  function Value(s: string): nat
    requires AllDigits(s)
  {
    if s == "" then 0 else Value(s[..|s| - 1]) * 10 + (s[|s| - 1] - '0') as nat
  }

  function StripSuffix(name: string, suffix: string): Option<string> {
    if |name| >= |suffix| && name[|name| - |suffix|..] == suffix then Some(name[..|name| - |suffix|]) else None
  }

  /** `Some(i)` exactly for the printed form of a u64 index `i`; see `NamesRoundTrip`. */
  function ParseSegmentName(name: string): Option<nat> {
    var stem := StripSuffix(name, NAME_SUFFIX);
    if stem.None? || |stem.value| != NAME_DIGITS || !AllDigits(stem.value) then None
    else if Value(stem.value) > U64_MAX then None
    else Some(Value(stem.value))
  }

  function Pow10(k: nat): (p: nat)
    ensures p > 0
  {
    if k == 0 then 1 else 10 * Pow10(k - 1)
  }

  /** Printing and reading back keeps a number that fits. */
  lemma {:induction false} DigitsSpell(n: nat, width: nat)
    requires n < Pow10(width)
    ensures AllDigits(Digits(n, width)) && Value(Digits(n, width)) == n
    decreases width
  {
    if width > 0 {
      DigitsSpell(n / 10, width - 1);
      var s := Digits(n, width);
      assert s[..|s| - 1] == Digits(n / 10, width - 1);
    }
  }

  /** A string of digits is the printed form of what it spells. */
  lemma {:induction false} DigitsAreSpelt(s: string)
    requires AllDigits(s)
    ensures Digits(Value(s), |s|) == s && Value(s) < Pow10(|s|)
  {
    if s != "" {
      DigitsAreSpelt(s[..|s| - 1]);
    }
  }

  /** Digit `k` from the left has weight 10 to the number of digits after it. */
  lemma {:induction false} DigitsAt(n: nat, width: nat, k: nat)
    requires k < width
    ensures Digits(n, width)[k] as nat == 48 + n / Pow10(width - 1 - k) % 10
    decreases width
  {
    if k < width - 1 {
      DigitsAt(n / 10, width - 1, k);
      DivideTwice(n, 10, Pow10(width - 2 - k));
    }
  }

  /** A name is twenty decimal digits, the most significant first, and ".wal". */
  lemma NameLayout(index: nat, k: nat)
    requires k < 20
    ensures SegmentName(index)[k] as nat == 48 + index / Pow10(19 - k) % 10
    ensures SegmentName(index)[20..] == ".wal"
  {
    hide Digits, Pow10;
    DigitsAt(index, NAME_DIGITS, k);
  }

  lemma IndexFits()
    ensures U64_MAX < Pow10(NAME_DIGITS)
  {
    assert Pow10(4) == 10_000;
    assert Pow10(8) == 100_000_000;
    assert Pow10(12) == 1_000_000_000_000;
    assert Pow10(16) == 10_000_000_000_000_000;
    assert Pow10(20) == 100_000_000_000_000_000_000;
  }

  lemma NameStrips(index: nat)
    ensures StripSuffix(SegmentName(index), NAME_SUFFIX) == Some(Digits(index, NAME_DIGITS))
  {
  }

  /** Names round-trip exactly: a name parses to `index` if and only if it is the printed form
      of that u64 index. */
  lemma NamesRoundTrip(name: string, index: nat)
    ensures ParseSegmentName(name) == Some(index) <==> index <= U64_MAX && name == SegmentName(index)
  {
    hide Digits, Value, Pow10;
    IndexFits();
    if index <= U64_MAX {
      NameStrips(index);
      DigitsSpell(index, NAME_DIGITS);
    }
    if ParseSegmentName(name) == Some(index) {
      var stem := StripSuffix(name, NAME_SUFFIX).value;
      DigitsAreSpelt(stem);
      assert name == stem + NAME_SUFFIX;
    }
  }

  // Order.

  /** Lexical order of strings. */
  predicate LexLess(a: string, b: string) {
    b != "" && (a == "" || a[0] < b[0] || (a[0] == b[0] && LexLess(a[1..], b[1..])))
  }

  /** For strings of one length, what is appended decides only between equals. */
  lemma {:induction false} LexAppend(a: string, b: string, x: string, y: string)
    requires |a| == |b|
    ensures LexLess(a + x, b + y) <==> LexLess(a, b) || (a == b && LexLess(x, y))
  {
    if a == "" {
      assert a + x == x && b + y == y;
    } else {
      LexAppend(a[1..], b[1..], x, y);
      assert (a + x)[1..] == a[1..] + x && (b + y)[1..] == b[1..] + y;
    }
  }

  lemma {:induction false} LexIrreflexive(a: string)
    ensures !LexLess(a, a)
  {
    if a != "" {
      LexIrreflexive(a[1..]);
    }
  }

  lemma DigitOrder(c: nat, d: nat)
    requires c < 10 && d < 10
    ensures LexLess([DigitChar(c)], [DigitChar(d)]) <==> c < d
  {
  }

  lemma {:induction false} DigitsInOrder(i: nat, j: nat, width: nat)
    requires i < Pow10(width) && j < Pow10(width)
    ensures LexLess(Digits(i, width), Digits(j, width)) <==> i < j
    decreases width
  {
    hide LexLess;
    if width == 0 {
      LexIrreflexive("");
    } else {
      DigitsInOrder(i / 10, j / 10, width - 1);
      LexAppend(Digits(i / 10, width - 1), Digits(j / 10, width - 1), [DigitChar(i % 10)], [DigitChar(j % 10)]);
      DigitOrder(i % 10, j % 10);
      DigitsSpell(i / 10, width - 1);
      DigitsSpell(j / 10, width - 1);
      assert i == i / 10 * 10 + i % 10 && j == j / 10 * 10 + j % 10;
    }
  }

  /** Lexical order of names is numeric order of indices. */
  lemma NamesInOrder(i: nat, j: nat)
    requires i <= U64_MAX && j <= U64_MAX
    ensures LexLess(SegmentName(i), SegmentName(j)) <==> i < j
  {
    hide Digits, LexLess, Pow10;
    IndexFits();
    DigitsInOrder(i, j, NAME_DIGITS);
    LexAppend(Digits(i, NAME_DIGITS), Digits(j, NAME_DIGITS), NAME_SUFFIX, NAME_SUFFIX);
    LexIrreflexive(NAME_SUFFIX);
  }
}
