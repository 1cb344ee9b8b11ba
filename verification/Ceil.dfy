/** ceil on the two words of a double, in units of 2^-1074. */
module Ceil {
  import opened Arithmetic
  import opened Bytes
  import opened Float
  import opened FmodDouble

  function One(): (r: int)
    ensures r >= 1
  {
    Pow2(1074)
  }

  /** v is an integral number of ones, and the least one that is not below x. */
  ghost predicate LeastIntegral(x: int, v: int) {
    v % One() == 0 && x <= v < x + One()
  }

  /** Nothing integral lies between. */
  lemma LeastIntegralIsLeast(x: int, v: int, other: int)
    requires LeastIntegral(x, v) && other % One() == 0 && other >= x
    ensures v <= other
  {
    var one := One();
    Euclid(v, one);
    Euclid(other, one);
    assert other - v == one * (other / one - v / one);
    Multiple(one, other / one - v / one);
  }

  /**
   * With exponent j, the low 52 - j bits of the pattern are the fraction. d is their weight: clearing them
   * rounds the magnitude down to an integral number, and adding d then rounds it up, whether or not the
   * addition carries into the exponent.
   */
  lemma Truncated(w: nat, j: nat, d: int)
    requires j <= 51 && w / DOUBLE == j + 1023 && d == Pow2(52 - j)
    ensures 0 <= w % d < d && w - w % d >= DOUBLE
    ensures Val(DOUBLE, w) - Val(DOUBLE, w - w % d) == (w % d) * Pow2(j + 1022)
    ensures Val(DOUBLE, w - w % d + d) - Val(DOUBLE, w - w % d) == One()
    ensures Val(DOUBLE, w - w % d) % One() == 0
    ensures d * Pow2(j + 1022) == One()
  {
    var f, s := w % DOUBLE, Pow2(j + 1022);
    Weights(j, d);
    FractionBits(j + 1023, f, d, Pow2(j));
    var m := DOUBLE + f;
    var t := m - m % d;
    Shift(m, j + 1022, w);
    Shift(t, j + 1022, w - w % d);
    Shift(t + d, j + 1022, w - w % d + d);
    WholeUnits(m, d, s);
  }

  lemma Weights(j: nat, d: int)
    requires j <= 51 && d == Pow2(52 - j)
    ensures d * Pow2(j) == DOUBLE && d * Pow2(j + 1022) == One()
  {
    DoubleIsPower();
    Pow2Add(52 - j, j);
    Pow2Add(52 - j, j + 1022);
  }

  lemma Shift(m: nat, e: nat, w: nat)
    requires DOUBLE <= m <= 2 * DOUBLE && w == m + e * DOUBLE
    ensures Val(DOUBLE, w) == m * Pow2(e)
  {
    ValShift(DOUBLE, m, e);
    if m == 2 * DOUBLE {
      Doubled(DOUBLE, DOUBLE, m);
    }
  }

  /** The fraction bits of the pattern are those of the significand. */
  lemma FractionBits(e: nat, f: nat, d: int, c: int)
    requires d >= 1 && c >= 1 && d * c == DOUBLE && f < DOUBLE
    ensures (e * DOUBLE + f) % d == (DOUBLE + f) % d == f % d
    ensures DOUBLE <= DOUBLE + f - f % d && DOUBLE + f - f % d + d <= 2 * DOUBLE
  {
    Euclid(f, d);
    var q, r := f / d, f % d;
    DivMod(DOUBLE + f, d, c + q, r);
    assert e * DOUBLE == d * (c * e);
    DivMod(e * DOUBLE + f, d, c * e + q, r);
    MulMono(0, q, d);
    if q >= c {
      MulMono(c, q, d);
    }
    MulMono(q + 1, c, d);
  }

  lemma WholeUnits(m: int, d: int, s: int)
    requires d >= 1 && s >= 1
    ensures d * s >= 1
    ensures m * s - (m - m % d) * s == (m % d) * s
    ensures (m - m % d + d) * s - (m - m % d) * s == d * s
    ensures ((m - m % d) * s) % (d * s) == 0
  {
    Euclid(m, d);
    var q := m / d;
    assert m - m % d == q * d;
    Associate(q, d, s);
    DivMod(q * d * s, d * s, q, 0);
  }

  lemma Fraction(whole: int, part: int)
    requires whole % One() == 0 && 0 < part < One()
    ensures (whole + part) % One() != 0 && (-(whole + part)) % One() != 0
    ensures (whole + One()) % One() == 0 && (-whole) % One() == 0
  {
    var one := One();
    Euclid(whole, one);
    var q := whole / one;
    DivMod(whole + part, one, q, part);
    assert -(whole + part) == one * (-q - 1) + (one - part) by {
      assert one * (-q - 1) == -(one * q) - one;
    }
    DivMod(-(whole + part), one, -q - 1, one - part);
    assert one * (q + 1) == one * q + one && one * -q == -(one * q);
    DivMod(whole + one, one, q + 1, 0);
    DivMod(-whole, one, -q, 0);
  }

  /** The pattern r that the source makes from one with fraction bits left. */
  lemma FractionRounded(negative: bool, w: nat, j: nat, d: int, r: nat)
    requires j <= 51 && w / DOUBLE == j + 1023 && d == Pow2(52 - j) && w % d != 0
    requires r == if negative then w - w % d else w - w % d + d
    ensures LeastIntegral(SignedVal(negative, w), SignedVal(negative, r))
    ensures SignedVal(negative, w) % One() != 0
  {
    Truncated(w, j, d);
    MulMono(1, w % d, Pow2(j + 1022));
    MulStrict(w % d, d, Pow2(j + 1022));
    RoundedOff(negative, Val(DOUBLE, w), Val(DOUBLE, w - w % d), (w % d) * Pow2(j + 1022), Val(DOUBLE, r));
  }

  lemma RoundedOff(negative: bool, v: nat, whole: nat, part: int, r: nat)
    requires whole % One() == 0 && 0 < part < One() && v == whole + part
    requires r == if negative then whole else whole + One()
    ensures LeastIntegral(WithSign(negative, v), WithSign(negative, r)) && WithSign(negative, v) % One() != 0
  {
    Fraction(whole, part);
  }

  lemma Integral(negative: bool, w: nat, j: nat, d: int)
    requires j <= 51 && w / DOUBLE == j + 1023 && d == Pow2(52 - j) && w % d == 0
    ensures LeastIntegral(SignedVal(negative, w), SignedVal(negative, w))
  {
    Truncated(w, j, d);
    Negated(Val(DOUBLE, w));
  }

  lemma Negated(v: int)
    requires v % One() == 0
    ensures (-v) % One() == 0
  {
    var one := One();
    Euclid(v, one);
    assert one * -(v / one) == -(one * (v / one));
    DivMod(-v, one, -(v / one), 0);
  }

  lemma WholeMultiple(m: int, k: int, one: int)
    requires one >= 1
    ensures (m * (k * one)) % one == 0
  {
    Associate(m, k, one);
    DivMod(m * (k * one), one, m * k, 0);
  }

  /** Beyond 2^52 there are no fraction bits. */
  lemma LargeIsIntegral(negative: bool, w: nat)
    requires w / DOUBLE >= 1023 + 52
    ensures LeastIntegral(SignedVal(negative, w), SignedVal(negative, w))
  {
    var e, f := w / DOUBLE - 1, w % DOUBLE;
    ValFields(DOUBLE, e + 1, f);
    Pow2Add(e - 1074, 1074);
    WholeMultiple(DOUBLE + f, Pow2(e - 1074), One());
    Negated(Val(DOUBLE, w));
  }

  /** The pattern of 1.0. */
  lemma OnePattern(e: nat, w: nat)
    requires e == 1023 && w == e * DOUBLE
    ensures Val(DOUBLE, w) == One()
  {
    DoubleIsPower();
    ValFields(DOUBLE, e, 0);
    Pow2Add(52, e - 1);
  }

  /** Below one in magnitude. */
  lemma BelowOne(negative: bool, w: nat, one: nat)
    requires w < one == 1023 * DOUBLE
    ensures Val(DOUBLE, one) == One()
    ensures negative ==> LeastIntegral(SignedVal(negative, w), 0)
    ensures !negative && w != 0 ==> LeastIntegral(SignedVal(negative, w), One())
    ensures w != 0 ==> SignedVal(negative, w) % One() != 0
    ensures w == 0 ==> LeastIntegral(SignedVal(negative, w), SignedVal(negative, w))
  {
    OnePattern(1023, one);
    ValOrder(DOUBLE, w, one);
    DivMod(0, One(), 0, 0);
    DivMod(One(), One(), 1, 0);
    if w != 0 {
      Fraction(0, Val(DOUBLE, w));
    }
  }

  lemma RemainderAtMost(x: nat, d: int)
    requires d >= 1
    ensures 0 <= x % d <= x
  {
    Euclid(x, d);
    MulMono(0, x / d, d);
  }

  /** x & mask, for a mask of the lowest bits. */
  function Masked(x: u32, mask: u32): (r: u32)
    ensures r <= x
  {
    RemainderAtMost(x, mask + 1);
    x % (mask + 1)
  }

  /** The low bits of a number do not see multiples of their weight. */
  lemma SameLowBits(x: int, d: int, k: int, y: int)
    requires d >= 1 && y == x + d * k
    ensures y % d == x % d && 0 <= x % d < d
  {
    Euclid(x, d);
    assert d * (x / d) + d * k == d * (x / d + k);
    DivMod(y, d, x / d + k, x % d);
  }

  /** A mask of ones shifted right, and a single one, for the place of exponent j. */
  lemma Mask(b: nat, j: nat)
    requires j <= b
    ensures (Pow2(b) - 1) / Pow2(j) == Pow2(b - j) - 1 && Pow2(b) / Pow2(j) == Pow2(b - j)
  {
    Pow2Add(b - j, j);
    var c := Pow2(j);
    DivMod(Pow2(b), c, Pow2(b - j), 0);
    assert c * (Pow2(b - j) - 1) == Pow2(b) - c;
    DivMod(Pow2(b) - 1, c, Pow2(b - j) - 1, c - 1);
  }

  lemma HighMask(j: nat, d: int)
    requires j < 20 && d == Pow2(20 - j)
    ensures 1 <= d <= HIGH && Shr(HIGH - 1, j) == d - 1 && Shr(HIGH, j) == d
    ensures Pow2(52 - j) == d * WORD && d * Pow2(11 + j) == SIGN
  {
    DoubleIsPower();
    Mask(20, j);
    Pow2Add(20 - j, 32);
    Pow2Add(20 - j, 11 + j);
    if j > 0 {
      Pow2Mono(20 - j, 20);
    }
  }

  lemma HighPlace(h: u32, l: u32, d: int, c: int)
    requires d >= 1 && d * c == SIGN
    ensures d * WORD >= 1 && Magnitude64(h, l) % (d * WORD) == (h % d) * WORD + l
    ensures (h + d) % d == h % d && 0 <= h % d < d && h % d <= Magnitude(h)
  {
    var m := Magnitude(h);
    SameLowBits(m, d, if Negative(h) then c else 0, h);
    SameLowBits(h, d, 1, h + d);
    PairLowBits(m, l, d);
    RemainderAtMost(m, d);
  }

  lemma PairLowBits(h: nat, l: u32, d: int)
    requires d >= 1
    ensures d * WORD >= 1 && (h * WORD + l) % (d * WORD) == (h % d) * WORD + l
  {
    Euclid(h, d);
    assert h * WORD == (d * WORD) * (h / d) + (h % d) * WORD;
    MulMono(h % d + 1, d, WORD);
    DivMod(h * WORD + l, d * WORD, h / d, (h % d) * WORD + l);
  }

  lemma LowMask(j: nat, d: int)
    requires 20 <= j <= 51 && d == Pow2(52 - j)
    ensures 1 <= d <= WORD && (j == 20 <==> d == WORD) && Shr(WORD - 1, j - 20) == d - 1
    ensures j > 20 ==> Shl(1, 52 - j) == d
    ensures d * Pow2(j - 20) == WORD
  {
    DoubleIsPower();
    Mask(32, j - 20);
    Pow2Add(52 - j, j - 20);
    if j > 20 {
      Pow2Mono(52 - j, 32);
    }
  }

  lemma LowPlace(h: u32, l: u32, d: int, c: int)
    requires d >= 1 && d * c == WORD
    ensures Magnitude64(h, l) % d == l % d && 0 <= l % d <= l
    ensures (l + d) % d == l % d && (l + d - WORD) % d == l % d
  {
    assert Magnitude(h) * WORD == d * (c * Magnitude(h)) by {
      Associate(d, c, Magnitude(h));
    }
    SameLowBits(l, d, c * Magnitude(h), Magnitude64(h, l));
    SameLowBits(l, d, 1, l + d);
    assert d * (1 - c) == d - WORD;
    SameLowBits(l, d, 1 - c, l + d - WORD);
    RemainderAtMost(l, d);
  }

  /** What ceil promises of a finite x and the words it returns for it. */
  ghost predicate CeilOf(h: u32, l: u32, rh: u32, rl: u32) {
    && LeastIntegral(Signed64(h, l), Signed64(rh, rl))
    && (Signed64(h, l) % One() == 0 ==> rh == h && rl == l)
    && SignBit(h) == SignBit(rh)
  }

  lemma HighRounded(h: u32, l: u32, j: nat, d: int, rh: u32)
    requires j < 20 && Magnitude64(h, l) / DOUBLE == j + 1023 && d == Pow2(20 - j)
    requires h % d != 0 || l != 0
    requires rh == h - h % d + (if h < SIGN then d else 0)
    ensures CeilOf(h, l, rh, 0)
  {
    HighMask(j, d);
    HighPlace(h, l, d, Pow2(11 + j));
    FiniteHigh(h, l, j);
    SameSign(h, l, rh, 0);
    FractionRounded(Negative(h), Magnitude64(h, l), j, d * WORD, Magnitude64(rh, 0));
  }

  lemma FiniteHigh(h: u32, l: u32, j: nat)
    requires j <= 51 && Magnitude64(h, l) / DOUBLE == j + 1023
    ensures 1023 * HIGH <= Magnitude(h) < 1100 * HIGH
  {
  }

  /** 2^0 <= |x| < 2^20: the fraction starts in the high word. */
  method CeilHigh(h: u32, l: u32, j0: nat) returns (rh: u32, rl: u32)
    requires j0 < 20 && Magnitude64(h, l) / DOUBLE == j0 + 1023
    ensures CeilOf(h, l, rh, rl)
  {
    ghost var d := Pow2(20 - j0);
    HighMask(j0, d);
    HighPlace(h, l, d, Pow2(11 + j0));
    var i := Shr(0xF_FFFF, j0);
    if Masked(h, i) == 0 && l == 0 {
      Integral(Negative(h), Magnitude64(h, l), j0, d * WORD);
      return h, l;
    }
    rh := h;
    if h < SIGN {
      rh := rh + Shr(HIGH, j0);
    }
    rh := rh - Masked(rh, i);
    rl := 0;
    HighRounded(h, l, j0, d, rh);
  }

  lemma LowRounded(h: u32, l: u32, j: nat, d: int, rh: u32, rl: u32)
    requires 20 <= j <= 51 && Magnitude64(h, l) / DOUBLE == j + 1023 && d == Pow2(52 - j) && l % d != 0
    requires rh * WORD + rl == h * WORD + l - l % d + (if h < SIGN then d else 0)
    ensures CeilOf(h, l, rh, rl)
  {
    LowMask(j, d);
    LowPlace(h, l, d, Pow2(j - 20));
    FiniteHigh(h, l, j);
    SameSign(h, l, rh, rl);
    FractionRounded(Negative(h), Magnitude64(h, l), j, d, Magnitude64(rh, rl));
  }

  lemma SameSign(h: u32, l: u32, rh: u32, rl: u32)
    requires 1023 * HIGH <= Magnitude(h) < 1100 * HIGH
    requires h < SIGN ==> h * WORD + l <= rh * WORD + rl <= h * WORD + l + HIGH * WORD
    requires h >= SIGN ==> (h - HIGH) * WORD <= rh * WORD + rl <= h * WORD + l
    ensures SignBit(rh) == SignBit(h)
    ensures Magnitude64(rh, rl) - Magnitude64(h, l) == (rh * WORD + rl) - (h * WORD + l)
  {
  }

  /** 2^20 <= |x| < 2^52: the fraction lies in the low word, and rounding may carry into the high one. */
  method CeilLow(h: u32, l: u32, j0: nat) returns (rh: u32, rl: u32)
    requires 20 <= j0 <= 51 && Magnitude64(h, l) / DOUBLE == j0 + 1023
    ensures CeilOf(h, l, rh, rl)
  {
    ghost var d := Pow2(52 - j0);
    LowMask(j0, d);
    LowPlace(h, l, d, Pow2(j0 - 20));
    var i := Shr(0xFFFF_FFFF, j0 - 20);
    if Masked(l, i) == 0 {
      Integral(Negative(h), Magnitude64(h, l), j0, d);
      return h, l;
    }
    rh, rl := h, l;
    if h < SIGN {
      rh, rl := AddPlace(h, l, j0, d);
    }
    rl := rl - Masked(rl, i);
    LowRounded(h, l, j0, d, rh, rl);
  }

  /** A sum that wraps is below either part. */
  lemma SumOfWords(l: u32, d: int)
    requires 1 <= d < WORD
    ensures (l + d) % WORD == if l + d < WORD then l + d else l + d - WORD
    ensures (l + d) % WORD < l <==> l + d >= WORD
  {
  }

  /** Adds one at the lowest integral place; below the low word's top that carries when the word wraps. */
  method AddPlace(h: u32, l: u32, j0: nat, ghost d: int) returns (rh: u32, rl: u32)
    requires 20 <= j0 <= 51 && h < SIGN && 1 <= d <= WORD
    requires (j0 == 20 <==> d == WORD) && (j0 > 20 ==> Shl(1, 52 - j0) == d)
    requires (l + d) % d == l % d && (l + d - WORD) % d == l % d
    ensures rh * WORD + rl == h * WORD + l + d && rl % d == l % d
  {
    rh, rl := h, l;
    if j0 == 20 {
      rh := rh + 1;
    } else {
      var j := (l + Shl(1, 52 - j0)) % WORD;
      SumOfWords(l, d);
      if j < l {
        rh := rh + 1;
      }
      rl := j;
    }
  }

  lemma SmallNegative(h: u32, l: u32)
    requires Magnitude64(h, l) < 1023 * DOUBLE && h >= SIGN
    ensures CeilOf(h, l, SIGN, 0)
  {
    BelowOne(true, Magnitude64(h, l), 1023 * DOUBLE);
    assert Magnitude64(SIGN, 0) == 0;
  }

  lemma OneWords(high: u32, one: nat)
    requires high == 0x3FF0_0000 && one == 1023 * DOUBLE
    ensures Magnitude64(high, 0) == one && SignBit(high) == 0 && !Negative(high)
  {
  }

  lemma PositiveWords(h: u32, l: u32)
    requires h < SIGN && (h != 0 || l != 0)
    ensures Magnitude64(h, l) != 0 && SignBit(h) == 0 && !Negative(h)
  {
  }

  lemma SmallPositive(h: u32, l: u32, high: u32, one: nat)
    requires Magnitude64(h, l) < one == 1023 * DOUBLE && h < SIGN && (h != 0 || l != 0) && high == 0x3FF0_0000
    ensures CeilOf(h, l, high, 0)
  {
    OneWords(high, one);
    PositiveWords(h, l);
    BelowOne(false, Magnitude64(h, l), one);
  }

  lemma SmallZero(h: u32, l: u32)
    requires h == 0 && l == 0
    ensures CeilOf(h, l, h, l)
  {
    BelowOne(false, 0, 1023 * DOUBLE);
  }

  /** |x| < 1: the answer is a zero of x's sign, or one. */
  method CeilSmall(h: u32, l: u32) returns (rh: u32, rl: u32)
    requires Magnitude64(h, l) < 1023 * DOUBLE
    ensures CeilOf(h, l, rh, rl)
  {
    rh, rl := h, l;
    if h >= SIGN {
      SmallNegative(h, l);
      rh, rl := SIGN, 0;
    } else if h != 0 || l != 0 {
      rh, rl := 0x3FF0_0000, 0;
      SmallPositive(h, l, rh, 1023 * DOUBLE);
    } else {
      SmallZero(h, l);
    }
  }

  /** The exponent without its bias, from the high word. */
  lemma Exponent(h: u32, l: u32)
    ensures h / HIGH % 2048 == Magnitude64(h, l) / DOUBLE == Magnitude(h) / HIGH
    ensures Magnitude64(h, l) / DOUBLE < 2048
  {
  }

  /** huge + x > 0 holds for every finite x, so the branches that raise the inexact flag are always taken. */
  method Ceil(h: u32, l: u32) returns (r: Double)
    ensures r.Double? <==> Magnitude64(h, l) <= DOUBLE_INF
    ensures Magnitude64(h, l) == DOUBLE_INF ==> r == Double(h, l)
    ensures Magnitude64(h, l) < DOUBLE_INF ==> CeilOf(h, l, r.high, r.low)
  {
    var j0 := h / HIGH % 2048 - 0x3FF;
    Exponent(h, l);
    var rh, rl := h, l;
    if j0 < 20 {
      if j0 < 0 {
        rh, rl := CeilSmall(h, l);
      } else {
        rh, rl := CeilHigh(h, l, j0);
      }
    } else if j0 > 51 {
      if j0 == 0x400 {
        return if Magnitude(h) == HIGH_INF && l == 0 then Double(h, l) else DoubleNaN;
      }
      LargeIsIntegral(Negative(h), Magnitude64(h, l));
      return Double(h, l);
    } else {
      rh, rl := CeilLow(h, l, j0);
    }
    return Double(rh, rl);
  }
}
