/**
 Two's-complement machine integers, for Go's silent wrap-around on `int`
 and `int64` arithmetic.
 */
module MachineInt {

  function Pow2(n: nat): (p: nat)
    ensures p >= 1
  {
    if n == 0 then 1 else 2 * Pow2(n - 1)
  }

  /** Smallest value of a signed integer of the given width. */
  function MinSigned(bits: nat): (lo: int)
    requires bits >= 1
  {
    -(Pow2(bits - 1) as int)
  }

  /** One past the largest value of a signed integer of the given width. */
  function MaxSignedExclusive(bits: nat): (hi: int)
    requires bits >= 1
  {
    Pow2(bits - 1)
  }

  /** A positive multiple of a positive number is at least that number. */
  lemma MulAtLeast(c: int, m: int)
    requires c >= 1 && m > 0
    ensures c * m >= m
  {
  }

  /** Quotient and remainder are unique: the basis of every congruence fact below. */
  lemma DivModUnique(a: int, m: int, q: int, r: int)
    requires m > 0 && 0 <= r < m
    requires a == q * m + r
    ensures a % m == r && a / m == q
  {
    var q', r' := a / m, a % m;
    assert a == q' * m + r';
    var d := q - q';
    assert d * m == q * m - q' * m;
    assert d * m == r' - r;
    if d >= 1 {
      MulAtLeast(d, m);
      assert false;
    } else if d <= -1 {
      MulAtLeast(-d, m);
      assert false;
    }
  }

  /** Euclidean division splits a into quotient and remainder. */
  lemma DivModSplit(a: int, m: int)
    requires m > 0
    ensures a == (a / m) * m + a % m
    ensures 0 <= a % m < m
  {
  }

  /** A value already in [0, m) is its own remainder. */
  lemma SmallMod(a: int, m: int)
    requires m > 0
    ensures 0 <= a < m ==> a % m == a
  {
    if 0 <= a < m {
      DivModUnique(a, m, 0, a);
    }
  }

  /** Adding a multiple of m does not change the remainder modulo m. */
  lemma ModShift(a: int, b: int, k: int, m: int)
    requires m > 0 && b == a + k * m
    ensures b % m == a % m
  {
    DivModSplit(a, m);
    var q, r := a / m, a % m;
    assert (q + k) * m == q * m + k * m;
    DivModUnique(b, m, q + k, r);
  }

  /**
   The signed integer of the given width that x truncates to: the unique
   value in range that is congruent to x modulo 2^bits. The contract states
   the range; the congruence is `WrapSignedShift` below, kept apart because
   stating it here makes every unfolding of this function costly.
   */
  function WrapSigned(x: int, bits: nat): (r: int)
    requires bits >= 1
    ensures MinSigned(bits) <= r < MaxSignedExclusive(bits)
  {
    ((x + Pow2(bits - 1)) % Pow2(bits)) - Pow2(bits - 1)
  }

  /** A value already in the signed range of the width is left alone. */
  lemma WrapSignedRange(x: int, bits: nat)
    requires bits >= 1
    ensures MinSigned(bits) <= x < MaxSignedExclusive(bits) ==> WrapSigned(x, bits) == x
  {
    var m, h := Pow2(bits), Pow2(bits - 1);
    assert m == 2 * h;
    DivModSplit(x + h, m);
    SmallMod(x + h, m);
  }

  /** The wrapped value differs from x by a whole number of 2^bits. */
  lemma WrapSignedShift(x: int, bits: nat) returns (k: int)
    requires bits >= 1
    ensures WrapSigned(x, bits) == x + k * Pow2(bits)
  {
    var m, h := Pow2(bits), Pow2(bits - 1);
    DivModSplit(x + h, m);
    var q := (x + h) / m;
    k := -q;
    assert k * m == -(q * m);
  }

  /** Adding a multiple of 2^bits does not change the wrapped value. */
  lemma WrapSignedPeriodic(x: int, k: int, bits: nat)
    requires bits >= 1
    ensures WrapSigned(x + k * Pow2(bits), bits) == WrapSigned(x, bits)
  {
    var m, h := Pow2(bits), Pow2(bits - 1);
    var y := x + k * m;
    ModShift(x + h, y + h, k, m);
    WrapSignedCongruent(x, y, bits);
  }

  /** Values with the same remainder after the offset wrap to the same machine value. */
  lemma WrapSignedCongruent(x: int, y: int, bits: nat)
    requires bits >= 1
    requires (x + Pow2(bits - 1)) % Pow2(bits) == (y + Pow2(bits - 1)) % Pow2(bits)
    ensures WrapSigned(x, bits) == WrapSigned(y, bits)
  {
  }

  /**
   One step of Go's `n = n*10 + digit` on wrapped operands gives the same
   machine value as the step on exact operands, so wrapping once at the end
   is the same as wrapping after every step.
   */
  lemma WrapSignedStep(n: int, d: int, bits: nat)
    requires bits >= 1
    ensures WrapSigned(WrapSigned(n, bits) * 10 + d, bits) == WrapSigned(n * 10 + d, bits)
  {
    var k := WrapSignedShift(n, bits);
    var m := Pow2(bits);
    assert WrapSigned(n, bits) * 10 + d == (n * 10 + d) + (10 * k) * m;
    WrapSignedPeriodic(n * 10 + d, 10 * k, bits);
  }

  /** Wider integers have a larger range. */
  lemma {:induction false} Pow2Monotone(i: nat, j: nat)
    requires i <= j
    ensures Pow2(i) <= Pow2(j)
    decreases j
  {
    if i < j {
      Pow2Monotone(i, j - 1);
    }
  }
}
