/**
 * The part of IEEE 754 double-precision arithmetic the widget runs into:
 * which natural numbers a JavaScript number holds exactly, how a larger
 * integer is rounded (to nearest, ties to even, with a 53-bit significand),
 * and where `Number()` gives up and returns `Infinity`.
 */
module Doubles {

  /** `2^k`. */
  function Pow2(k: nat): (p: nat)
    ensures p >= 1
  {
    if k == 0 then 1 else 2 * Pow2(k - 1)
  }

  /** The number of binary digits of `n`; 0 has none. */
  function BitLength(n: nat): nat {
    if n == 0 then 0 else 1 + BitLength(n / 2)
  }

  /** Bits of precision in a double's significand. */
  const Precision: nat := 53

  /** 2^53: every natural number below it is a double, and so is 2^53 itself. */
  const SafeLimit: nat := Pow2(Precision)

  /**
   * The least natural number that a decimal literal or `Number()` reads as
   * `Infinity`: halfway between the largest double, 2^1024 - 2^971, and
   * 2^1024, since that tie rounds to the even neighbour 2^1024.
   */
  const NumberOverflow: int := Pow2(1024) - Pow2(970)

  /**
   * The double nearest to `n`, ties to even: `n` itself when it has at most
   * 53 bits, otherwise `n` rounded to a multiple of 2^(bits - 53). Meant for
   * `n` below NumberOverflow; larger values are `Infinity` in JavaScript.
   */
  function RoundToDouble(n: nat): nat {
    if BitLength(n) <= Precision then n
    else ScaleUp(RoundShift(n, BitLength(n) - Precision, false), BitLength(n) - Precision)
  }

  /**
   * `n / 2^s` rounded to nearest, ties to even. `sticky` records whether a
   * lower bit already shifted out was set: the last bit shifted out decides
   * the rounding, and only when it is set with nothing below it is there a tie.
   */
  function RoundShift(n: nat, s: nat, sticky: bool): nat
    decreases s
  {
    if s == 0 then n
    else if s == 1 then
      if n % 2 == 0 then n / 2
      else if sticky || (n / 2) % 2 == 1 then n / 2 + 1
      else n / 2
    else RoundShift(n / 2, s - 1, sticky || n % 2 == 1)
  }

  /** `q * 2^s`. */
  function ScaleUp(q: nat, s: nat): nat {
    if s == 0 then q else 2 * ScaleUp(q, s - 1)
  }

  /** A number below 2^k has at most k bits. */
  lemma {:induction false} BitLengthBelow(n: nat, k: nat)
    requires n < Pow2(k)
    ensures BitLength(n) <= k
  {
    if n > 0 {
      assert k > 0;
      BitLengthBelow(n / 2, k - 1);
    }
  }

  /** A number in [2^k, 2^(k+1)) has exactly k + 1 bits. */
  lemma {:induction false} BitLengthOf(n: nat, k: nat)
    requires Pow2(k) <= n < Pow2(k + 1)
    ensures BitLength(n) == k + 1
  {
    if k > 0 {
      BitLengthOf(n / 2, k - 1);
    } else {
      assert n == 1;
      assert BitLength(0) == 0;
    }
  }

  /** Every natural number below 2^53 is a double: rounding leaves it alone. */
  lemma ExactBelowPrecision(n: nat)
    requires n < SafeLimit
    ensures RoundToDouble(n) == n
  {
    BitLengthBelow(n, Precision);
  }

  /** 2^53 is a double, but 2^53 + 1 is not: it is a tie, and rounds down to the even 2^53. */
  lemma FirstGap()
    ensures RoundToDouble(SafeLimit) == SafeLimit
    ensures RoundToDouble(SafeLimit + 1) == SafeLimit
  {
    GapAt(SafeLimit, Precision);
  }

  /** The rounding of p = 2^k and p + 1 when 2^k has 54 bits: the unit is 2. */
  lemma GapAt(p: nat, k: nat)
    requires k >= 2 && p == Pow2(k) && k + 1 == Precision + 1
    ensures RoundToDouble(p) == p && RoundToDouble(p + 1) == p
  {
    PowerParity(k);
    BitLengthOf(p, k);
    BitLengthOf(p + 1, k);
    GapOf(p);
  }

  /** A multiple of four with 54 bits, whose successor also has 54 bits, is a double, and so is the rounding of that successor. */
  lemma GapOf(p: nat)
    requires BitLength(p) == Precision + 1 && BitLength(p + 1) == Precision + 1
    requires p % 2 == 0 && (p + 1) % 2 == 1 && ((p + 1) / 2) % 2 == 0
    ensures RoundToDouble(p) == p && RoundToDouble(p + 1) == p
  {
    RoundWithUnitTwo(p);
    RoundWithUnitTwo(p + 1);
  }

  /** For k >= 2, 2^k and its half are even, and 2^k + 1 is odd with an even half; 2^k + 1 < 2^(k+1). */
  lemma PowerParity(k: nat)
    requires k >= 2
    ensures Pow2(k) % 2 == 0 && (Pow2(k) / 2) % 2 == 0
    ensures (Pow2(k) + 1) % 2 == 1 && ((Pow2(k) + 1) / 2) % 2 == 0
    ensures Pow2(k) + 1 < Pow2(k + 1)
  {
    var q := Pow2(k - 2);
    assert Pow2(k) == 4 * q;
    MultipleOfFour(q);
  }

  /** The parities of 4q, 4q + 1 and their halves. */
  lemma MultipleOfFour(q: nat)
    ensures (4 * q) % 2 == 0 && ((4 * q) / 2) % 2 == 0
    ensures (4 * q + 1) % 2 == 1 && ((4 * q + 1) / 2) % 2 == 0
  {
    assert 4 * q == 2 * (2 * q) && (4 * q) / 2 == 2 * q;
    assert 4 * q + 1 == 2 * (2 * q) + 1 && (4 * q + 1) / 2 == 2 * q;
  }

  /** With 54 bits, rounding goes to an even neighbour: an odd number moves to whichever of n - 1, n + 1 has an even half. */
  lemma RoundWithUnitTwo(n: nat)
    requires BitLength(n) == Precision + 1
    ensures n % 2 == 0 ==> RoundToDouble(n) == n
    ensures n % 2 == 1 && (n / 2) % 2 == 0 ==> RoundToDouble(n) == n - 1
    ensures n % 2 == 1 && (n / 2) % 2 == 1 ==> RoundToDouble(n) == n + 1
  {
    assert BitLength(n) - Precision == 1;
  }

  /** A larger power of two is at least twice a smaller one. */
  lemma {:induction false} Pow2Grows(a: nat, b: nat)
    requires a < b
    ensures 2 * Pow2(a) <= Pow2(b)
  {
    if a + 1 < b {
      Pow2Grows(a, b - 1);
    }
  }

  /** Every integer up to 2^53 is finite as a JavaScript number. */
  lemma PrecisionBelowOverflow()
    ensures SafeLimit < NumberOverflow
  {
    PowersBelowOverflow(Precision, 970, 1024);
  }

  /** Every integer up to 2^54 is finite as a JavaScript number. */
  lemma TwiceLimitBelowOverflow()
    ensures 2 * SafeLimit < NumberOverflow
  {
    PowersBelowOverflow(Precision + 1, 970, 1024);
  }

  /** For k < j < m, 2^k < 2^m - 2^j: stated over variables so that no power is evaluated. */
  lemma PowersBelowOverflow(k: nat, j: nat, m: nat)
    requires k < j < m
    ensures Pow2(k) < Pow2(m) - Pow2(j)
  {
    Pow2Grows(j, m);
    Pow2Grows(k, j);
  }

  /**
   * Up to 2^54 no multiple of ten other than p itself rounds to the double p.
   * `String(p)` prints the shortest decimal that reads back as p, and for an
   * integer every decimal shorter than p's own digits is a multiple of ten,
   * so up to 2^54 `String(p)` prints every digit of p.
   */
  lemma NoShorterDecimal(p: nat, q: nat)
    requires p <= 2 * SafeLimit
    requires q % 10 == 0 && RoundToDouble(q) == p
    ensures q == p
  {
    if q < SafeLimit {
      ExactBelowPrecision(q);
    } else if q < 2 * SafeLimit {
      EvenWithUnitTwo(q, Precision);
    } else {
      RoundsAboveTwiceLimit(q, Precision);
    }
  }

  /** Between 2^53 and 2^54 the doubles are the even numbers. */
  lemma EvenWithUnitTwo(q: nat, k: nat)
    requires k == Precision && Pow2(k) <= q < 2 * Pow2(k) && q % 2 == 0
    ensures RoundToDouble(q) == q
  {
    BitLengthOf(q, k);
    RoundWithUnitTwo(q);
  }

  /** A multiple of ten from 2^54 on rounds to a double above 2^54. */
  lemma RoundsAboveTwiceLimit(q: nat, k: nat)
    requires k == Precision && 2 * Pow2(k) <= q && q % 10 == 0
    ensures RoundToDouble(q) > 2 * Pow2(k)
  {
    BitLengthAbove(q, k + 1);
    var b := BitLength(q);
    RoundingLoss(q);
    if b == k + 2 {
      NearTwiceLimit(q, RoundToDouble(q), k);
    } else {
      FarAboveTwiceLimit(q, RoundToDouble(q), b, k, b - Precision);
    }
  }

  /** Rounding a number of more than 53 bits loses less than its unit 2^(bits - 53). */
  lemma RoundingLoss(q: nat)
    requires BitLength(q) > Precision
    ensures RoundToDouble(q) + Pow2(BitLength(q) - Precision) > q
  {
    ScaledShiftAbove(q, BitLength(q) - Precision, false);
  }

  /** With 55 bits the unit is 4, and a multiple of ten at or above 2^54, which ends in 4, is at least 2^54 + 6. */
  lemma NearTwiceLimit(q: nat, r: nat, k: nat)
    requires k == Precision && 2 * Pow2(k) <= q && q % 10 == 0
    requires r + Pow2(k + 2 - Precision) > q
    ensures r > 2 * Pow2(k)
  {
    assert Pow2(k + 2 - Precision) == 4;
    var m := (k - 1) / 4;
    assert 4 * m + 2 == k + 1;
    Pow2Mod10(m);
    MultipleOfTenAbove(q, Pow2(k + 1));
  }

  /** A multiple of ten at or above a number ending in 4 is at least 6 more. */
  lemma MultipleOfTenAbove(q: nat, t: nat)
    requires t % 10 == 4 && t <= q && q % 10 == 0
    ensures q >= t + 6
  {
    var c := t / 10;
    var d := q / 10;
    assert t == 10 * c + 4;
    assert q == 10 * d;
  }

  /** A number of b bits, b >= k + 3, is at least 2^(b-1), so losing less than 2^u for u < b - 2 leaves more than 2^(k+1). */
  lemma FarAboveTwiceLimit(q: nat, r: nat, b: nat, k: nat, u: nat)
    requires b == BitLength(q) && b >= k + 3 && u < b - 2
    requires r + Pow2(u) > q
    ensures r > 2 * Pow2(k)
  {
    TopBit(q);
    assert Pow2(b - 1) == 2 * Pow2(b - 2);
    Pow2Grows(u, b - 2);
    if k + 1 < b - 2 {
      Pow2Grows(k + 1, b - 2);
    }
  }

  /** Rounding `n / 2^s` and scaling back up loses less than 2^s. */
  lemma {:induction false} ScaledShiftAbove(n: nat, s: nat, sticky: bool)
    ensures ScaleUp(RoundShift(n, s, sticky), s) + Pow2(s) > n
    decreases s
  {
    if s == 1 {
      assert ScaleUp(RoundShift(n, 1, sticky), 1) == 2 * RoundShift(n, 1, sticky);
    } else if s >= 2 {
      ScaledShiftAbove(n / 2, s - 1, sticky || n % 2 == 1);
    }
  }

  /** A positive number is at least 2^(bits - 1). */
  lemma {:induction false} TopBit(n: nat)
    requires n > 0
    ensures Pow2(BitLength(n) - 1) <= n
  {
    if n > 1 {
      TopBit(n / 2);
    }
  }

  /** A number is below 2^(its bits). */
  lemma {:induction false} BelowNextBit(n: nat)
    ensures n < Pow2(BitLength(n))
  {
    if n > 0 {
      BelowNextBit(n / 2);
    }
  }

  /** A number of at least 2^k has more than k bits. */
  lemma BitLengthAbove(n: nat, k: nat)
    requires Pow2(k) <= n
    ensures BitLength(n) >= k + 1
  {
    BelowNextBit(n);
    if BitLength(n) < k {
      Pow2Grows(BitLength(n), k);
    }
  }

  /** 2^(4m + 2) ends in the digit 4. */
  lemma {:induction false} Pow2Mod10(m: nat)
    ensures Pow2(4 * m + 2) % 10 == 4
  {
    if m > 0 {
      Pow2Mod10(m - 1);
      var x := Pow2(4 * m - 2);
      assert Pow2(4 * m + 2) == 16 * x by {
        assert Pow2(4 * m - 1) == 2 * x;
        assert Pow2(4 * m) == 4 * x;
        assert Pow2(4 * m + 1) == 8 * x;
      }
      var a := x / 10;
      assert 16 * x == 10 * (16 * a + 6) + 4;
    }
  }
}
