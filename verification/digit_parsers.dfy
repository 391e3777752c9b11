/**
 The fast decimal parsers `parseSize` (Go `int`) and `parseInt64` (Go
 `int64`) of server/util.go. Both return -1 for an empty input or for any
 byte that is not an ASCII digit, and otherwise fold the digits with
 `n = n*10 + digit` in machine arithmetic, which wraps silently.
 */
module DigitParsers {
  import opened Wrappers
  import opened Decimal
  import opened MachineInt

  /** The value both parsers return to signal an error. */
  const Sentinel: int := -1

  /** Width of Go's `int64`. */
  const Int64Bits: nat := 64

  /** Go's `int` is 32 bits wide on 32-bit platforms and 64 bits wide on 64-bit ones. */
  predicate IsGoIntWidth(bits: nat) {
    bits == 32 || bits == 64
  }

  /** Digit strings of at most 9 bytes fit a 32-bit `int`, those of at most 18 an `int64`. */
  lemma DigitLimitsFit()
    ensures Pow10(9) <= Pow2(31)
    ensures Pow10(18) <= Pow2(63)
  {
    assert Pow10(9) == 1000000000;
    assert Pow10(18) == 1000000000000000000;
    GoIntPowers();
  }

  /** The powers of two that bound Go's 32- and 64-bit integers. */
  lemma GoIntPowers()
    ensures Pow2(31) == 2147483648
    ensures Pow2(63) == 9223372036854775808
    ensures Pow2(64) == 18446744073709551616
  {
    assert Pow2(8) == 256;
    assert Pow2(16) == 65536;
    assert Pow2(24) == 16777216;
    assert Pow2(31) == 2147483648;
    assert Pow2(39) == 549755813888;
    assert Pow2(47) == 140737488355328;
    assert Pow2(55) == 36028797018963968;
    assert Pow2(63) == 9223372036854775808;
  }

  /** A Go `int` of either width holds every value of at most 9 digits. */
  lemma GoIntFitsNineDigits(bits: nat)
    requires IsGoIntWidth(bits)
    ensures Pow10(9) <= Pow2(bits - 1)
  {
    DigitLimitsFit();
    Pow2Monotone(31, bits - 1);
  }

  /** A digit string no longer than maxDigits has a value below 2^(bits-1) when 10^maxDigits does not exceed it. */
  lemma ShortDigitsFit(s: seq<byte>, bits: nat, maxDigits: nat)
    requires bits >= 1 && AllDigits(s) && |s| <= maxDigits
    requires Pow10(maxDigits) <= Pow2(bits - 1)
    ensures DecValue(s) < Pow2(bits - 1)
  {
    Pow10Monotone(|s|, maxDigits);
  }

  /** An all-digit string whose value is in range is parsed without wrapping. */
  lemma ExactWhenInRange(s: seq<byte>, bits: nat)
    requires bits >= 1 && AllDigits(s)
    requires DecValue(s) < Pow2(bits - 1)
    ensures WrapSigned(DecValue(s), bits) == DecValue(s)
  {
    WrapSignedRange(DecValue(s), bits);
  }

  /** One iteration of the fold: the wrapped accumulator followed by digit d[i] gives the wrapped value of d[..i+1]. */
  lemma FoldStep(d: seq<byte>, i: nat, bits: nat)
    requires bits >= 1 && i < |d| && AllDigits(d[..i]) && IsDigit(d[i])
    ensures AllDigits(d[..i + 1])
    ensures WrapSigned(WrapSigned(DecValue(d[..i]), bits) * 10 + (d[i] - AsciiZero), bits)
         == WrapSigned(DecValue(d[..i + 1]), bits)
  {
    assert d[..i + 1][..i] == d[..i];
    assert DecValue(d[..i + 1]) == DecValue(d[..i]) * 10 + (d[i] - AsciiZero);
    WrapSignedStep(DecValue(d[..i]), d[i] - AsciiZero, bits);
  }

  /**
   Model of `parseSize`: a loop over the bytes by index that stops with the
   sentinel at the first non-digit. Go writes it with `goto` so that the
   function can be inlined; the loop below is that do-while, entered only
   when the input is not empty.
   */
  method ParseSize(d: seq<byte>, intBits: nat) returns (n: int)
    requires IsGoIntWidth(intBits)
    ensures |d| == 0 ==> n == Sentinel
    ensures !AllDigits(d) ==> n == Sentinel
    ensures |d| > 0 && AllDigits(d) ==> n == WrapSigned(DecValue(d), intBits)
    ensures |d| > 0 && AllDigits(d) && |d| <= 9 ==> n == DecValue(d)
  {
    if |d| == 0 {
      return Sentinel;
    }
    WrapSignedRange(0, intBits);
    n := 0;
    var i := 0;
    while i < |d|
      invariant 0 <= i <= |d|
      invariant AllDigits(d[..i])
      invariant n == WrapSigned(DecValue(d[..i]), intBits)
    {
      var dec := d[i];
      if dec < AsciiZero || dec > AsciiNine {
        return Sentinel;
      }
      FoldStep(d, i, intBits);
      n := WrapSigned(n * 10 + (dec - AsciiZero), intBits);
      i := i + 1;
    }
    assert d[..i] == d;
    assert n == WrapSigned(DecValue(d), intBits);
    if |d| <= 9 {
      GoIntFitsNineDigits(intBits);
      ShortDigitsFit(d, intBits, 9);
      ExactWhenInRange(d, intBits);
    }
  }

  /** Model of `parseInt64`: the same fold written as a range loop over the bytes. */
  method ParseInt64(d: seq<byte>) returns (n: int)
    ensures |d| == 0 ==> n == Sentinel
    ensures !AllDigits(d) ==> n == Sentinel
    ensures |d| > 0 && AllDigits(d) ==> n == WrapSigned(DecValue(d), Int64Bits)
    ensures |d| > 0 && AllDigits(d) && |d| <= 18 ==> n == DecValue(d)
  {
    if |d| == 0 {
      return Sentinel;
    }
    WrapSignedRange(0, Int64Bits);
    n := 0;
    for i := 0 to |d|
      invariant AllDigits(d[..i])
      invariant n == WrapSigned(DecValue(d[..i]), Int64Bits)
    {
      var dec := d[i];
      if dec < AsciiZero || dec > AsciiNine {
        return Sentinel;
      }
      FoldStep(d, i, Int64Bits);
      n := WrapSigned(n * 10 + (dec - AsciiZero), Int64Bits);
    }
    assert d[..|d|] == d;
    if |d| <= 18 {
      DigitLimitsFit();
      ShortDigitsFit(d, Int64Bits, 18);
      ExactWhenInRange(d, Int64Bits);
    }
  }

  /**
   On a 64-bit platform the two parsers return the same value for every
   input. This is a method rather than a lemma only because it has to call
   the two parser methods, which a lemma cannot do.
   */
  method ParsersAgree(d: seq<byte>) returns (size: int, size64: int)
    ensures size == size64
  {
    size := ParseSize(d, 64);
    size64 := ParseInt64(d);
  }

  /**
   As written, an all-digit input can come back as the error sentinel: the
   digits of 2^bits - 1 wrap to -1, and those of 2^(bits-1) to the most
   negative value, for any width.
   */
  lemma DigitsCanWrapToSentinel(bits: nat)
    requires bits >= 1
    ensures AllDigits(ToDigits(Pow2(bits) - 1))
    ensures WrapSigned(DecValue(ToDigits(Pow2(bits) - 1)), bits) == Sentinel
    ensures WrapSigned(DecValue(ToDigits(Pow2(bits - 1))), bits) < 0
  {
    var m, h := Pow2(bits), Pow2(bits - 1);
    DecValueOfToDigits(m - 1);
    DecValueOfToDigits(h);
    ModShift(h - 1, (m - 1) + h, 1, m);
    SmallMod(h - 1, m);
    ModShift(0, h + h, 1, m);
    SmallMod(0, m);
  }

  /**
   Worse, a too-long digit string can wrap to a wrong value that looks valid:
   the digits of 2^bits + k parse as k for every k the width holds, so
   `18446744073709551621` reads as 5 in 64 bits.
   */
  lemma DigitsCanWrapToWrongValue(bits: nat, k: nat)
    requires bits >= 1 && k < Pow2(bits - 1)
    ensures AllDigits(ToDigits(Pow2(bits) + k))
    ensures DecValue(ToDigits(Pow2(bits) + k)) != k
    ensures WrapSigned(DecValue(ToDigits(Pow2(bits) + k)), bits) == k
  {
    DecValueOfToDigits(Pow2(bits) + k);
    WrapSignedPeriodic(k, 1, bits);
    WrapSignedRange(k, bits);
  }

  /** The example above: in 64 bits the 20 digits of 2^64 + 5 fold to 5. */
  lemma WrapExample64()
    ensures WrapSigned(DecValue(ToDigits(18446744073709551621)), Int64Bits) == 5
  {
    GoIntPowers();
    DigitsCanWrapToWrongValue(Int64Bits, 5);
  }

  /**
   The intended parser: before each step, check that `n*10 + digit` still
   fits the width, and return the sentinel instead of wrapping. It accepts
   exactly the digit strings whose value the width can hold.
   */
  method ParseDecimalChecked(d: seq<byte>, bits: nat) returns (n: int)
    requires bits >= 1
    ensures n == Sentinel || (0 < |d| && AllDigits(d) && n == DecValue(d))
    ensures n >= 0 <==> 0 < |d| && AllDigits(d) && DecValue(d) < Pow2(bits - 1)
  {
    if |d| == 0 {
      return Sentinel;
    }
    var max := Pow2(bits - 1) - 1;
    n := 0;
    var i := 0;
    while i < |d|
      invariant 0 <= i <= |d|
      invariant AllDigits(d[..i])
      invariant n == DecValue(d[..i]) <= max
    {
      var dec := d[i];
      if dec < AsciiZero || dec > AsciiNine {
        return Sentinel;
      }
      var digit := dec - AsciiZero;
      assert d[..i + 1][..i] == d[..i];
      assert DecValue(d[..i + 1]) == n * 10 + digit;
      if n > (max - digit) / 10 {
        assert n * 10 + digit > max;
        if AllDigits(d) {
          DecValuePrefix(d, i + 1);
        }
        return Sentinel;
      }
      ExactWhenInRange(d[..i + 1], bits);
      n := WrapSigned(n * 10 + digit, bits);
      i := i + 1;
    }
    assert d[..i] == d;
  }

  /** Corrected `parseSize`: -1 or the exact value, which every string of at most 9 digits gets. */
  method ParseSizeChecked(d: seq<byte>, intBits: nat) returns (n: int)
    requires IsGoIntWidth(intBits)
    ensures n == Sentinel || n >= 0
    ensures n >= 0 <==> 0 < |d| && AllDigits(d) && DecValue(d) < Pow2(intBits - 1)
    ensures n >= 0 ==> n == DecValue(d)
    ensures 0 < |d| <= 9 && AllDigits(d) ==> n == DecValue(d)
  {
    n := ParseDecimalChecked(d, intBits);
    if 0 < |d| <= 9 && AllDigits(d) {
      GoIntFitsNineDigits(intBits);
      ShortDigitsFit(d, intBits, 9);
    }
  }

  /** Corrected `parseInt64`: -1 or the exact value, which every value below 2^63 gets. */
  method ParseInt64Checked(d: seq<byte>) returns (n: int)
    ensures n == Sentinel || n >= 0
    ensures n >= 0 <==> 0 < |d| && AllDigits(d) && DecValue(d) < Pow2(63)
    ensures n >= 0 ==> n == DecValue(d)
    ensures 0 < |d| <= 18 && AllDigits(d) ==> n == DecValue(d)
  {
    n := ParseDecimalChecked(d, Int64Bits);
    if 0 < |d| <= 18 && AllDigits(d) {
      DigitLimitsFit();
      ShortDigitsFit(d, Int64Bits, 18);
    }
  }
}
