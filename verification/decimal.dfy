/**
 Decimal digit strings over ASCII bytes: which bytes are digits, the value a
 digit string denotes, and the facts about that value the parsers rely on.
 */
module Decimal {
  import opened Wrappers

  /** ASCII code of '0'. */
  const AsciiZero: byte := 48
  /** ASCII code of '9'. */
  const AsciiNine: byte := 57

  predicate IsDigit(b: byte) {
    AsciiZero <= b <= AsciiNine
  }

  predicate AllDigits(s: seq<byte>) {
    forall i :: 0 <= i < |s| ==> IsDigit(s[i])
  }

  function DigitValue(b: byte): (v: nat)
    requires IsDigit(b)
    ensures v < 10
    ensures b == AsciiZero + v
  {
    b - AsciiZero
  }

  function Pow10(n: nat): (p: nat)
    ensures p >= 1
  {
    if n == 0 then 1 else 10 * Pow10(n - 1)
  }

  /**
   The value of an all-digit string read left to right: the last digit is
   added to ten times the value of everything before it. A string of n
   digits denotes a value below 10^n.
   */
  function DecValue(s: seq<byte>): (v: nat)
    requires AllDigits(s)
    ensures v < Pow10(|s|)
    decreases |s|
  {
    if |s| == 0 then 0 else DecValue(s[..|s| - 1]) * 10 + DigitValue(s[|s| - 1])
  }

  /**
   An independent reading of a digit string: each digit weighted by the
   power of ten of its position, counted from the right.
   */
  function PositionalValue(s: seq<byte>): (v: nat)
    requires AllDigits(s)
  {
    if |s| == 0 then 0 else DigitValue(s[0]) * Pow10(|s| - 1) + PositionalValue(s[1..])
  }

  /** Reading a concatenation: the left part is shifted by the length of the right part. */
  lemma {:induction false} DecValueAppend(a: seq<byte>, b: seq<byte>)
    requires AllDigits(a) && AllDigits(b)
    ensures AllDigits(a + b)
    ensures DecValue(a + b) == DecValue(a) * Pow10(|b|) + DecValue(b)
  {
    if |b| == 0 {
      assert a + b == a;
    } else {
      var b' := b[..|b| - 1];
      assert (a + b)[..|a + b| - 1] == a + b';
      assert (a + b)[|a + b| - 1] == b[|b| - 1];
      DecValueAppend(a, b');
      var va, vb', p, d := DecValue(a), DecValue(b'), Pow10(|b'|), DigitValue(b[|b| - 1]);
      assert Pow10(|b|) == 10 * p;
      assert DecValue(b) == vb' * 10 + d;
      assert DecValue(a + b) == (va * p + vb') * 10 + d;
      var pb := Pow10(|b|);
      ShiftByOneDigit(va, p, pb, vb', d);
      assert DecValue(a + b) == va * pb + DecValue(b);
    }
  }

  /** The arithmetic of one more digit on the right: the left part's weight grows tenfold. */
  lemma ShiftByOneDigit(va: int, p: int, pb: int, vb: int, d: int)
    requires pb == 10 * p
    ensures (va * p + vb) * 10 + d == va * pb + (vb * 10 + d)
  {
  }

  /** A prefix of a digit string never denotes more than the whole string. */
  lemma DecValuePrefix(s: seq<byte>, i: nat)
    requires AllDigits(s) && i <= |s|
    ensures AllDigits(s[..i])
    ensures DecValue(s[..i]) <= DecValue(s)
  {
    var a, b := s[..i], s[i..];
    assert a + b == s;
    DecValueAppend(a, b);
    ScaleAtLeast(DecValue(a), Pow10(|b|));
  }

  lemma ScaleAtLeast(v: nat, p: nat)
    requires p >= 1
    ensures v * p >= v
  {
  }

  /** The left-to-right fold and the positional sum agree on every digit string. */
  lemma {:induction false} DecValueIsPositional(s: seq<byte>)
    requires AllDigits(s)
    ensures DecValue(s) == PositionalValue(s)
  {
    if |s| > 0 {
      var t := s[1..];
      assert s == [s[0]] + t;
      DecValueAppend([s[0]], t);
      assert [s[0]][..0] == [];
      assert DecValue([s[0]]) == DigitValue(s[0]);
      DecValueIsPositional(t);
    }
  }

  /** Leading '0' bytes do not change the value. */
  lemma LeadingZeroIgnored(s: seq<byte>)
    requires AllDigits(s)
    ensures AllDigits([AsciiZero] + s)
    ensures DecValue([AsciiZero] + s) == DecValue(s)
  {
    DecValueAppend([AsciiZero], s);
    assert [AsciiZero][..0] == [];
  }

  /** The shortest decimal spelling of n, most significant digit first. */
  function ToDigits(n: nat): (s: seq<byte>)
    ensures |s| >= 1
    ensures AllDigits(s)
  {
    if n < 10 then [AsciiZero + n] else ToDigits(n / 10) + [AsciiZero + n % 10]
  }

  /** Every natural number is the value of some digit string: reading its spelling gives it back. */
  lemma {:induction false} DecValueOfToDigits(n: nat)
    ensures DecValue(ToDigits(n)) == n
  {
    var s := ToDigits(n);
    if n < 10 {
      assert s[..0] == [];
    } else {
      DecValueOfToDigits(n / 10);
      assert s[..|s| - 1] == ToDigits(n / 10);
    }
  }

  /** Longer digit strings have a larger bound. */
  lemma {:induction false} Pow10Monotone(i: nat, j: nat)
    requires i <= j
    ensures Pow10(i) <= Pow10(j)
    decreases j
  {
    if i < j {
      Pow10Monotone(i, j - 1);
    }
  }
}
