/** sqrt on doubles: the recurrence of SqrtFloat carried out on pairs of words. */
module SqrtDouble {
  import opened Arithmetic
  import opened Bytes
  import opened Float
  import opened FmodFloat
  import opened FmodDouble
  import opened SqrtFloat

  predicate PositiveDouble(h: u32, l: u32) {
    0 < h * WORD + l < DOUBLE_INF
  }

  /** Shifts out whole zero high words, 21 bits at a time. */
  method SkipHigh(h: u32, l: u32) returns (ix0: u32, ix1: u32, n: nat)
    requires h < HIGH && 0 < h * WORD + l
    ensures 0 < ix0 < 2 * HIGH && ix0 * WORD + ix1 == (h * WORD + l) * Pow2(n)
  {
    ix0, ix1, n := h, l, 0;
    while ix0 == 0
      invariant n >= 0 && ix0 < 2 * HIGH && 0 < ix0 * WORD + ix1 == (h * WORD + l) * Pow2(n)
      decreases 2 * DOUBLE - (ix0 * WORD + ix1)
    {
      Pow2Add(n, 21);
      assert Pow2(21) == 0x20_0000 && Pow2(11) == 0x800;
      Associate(h * WORD + l, Pow2(n), Pow2(21));
      ShlWord(ix1, 21);
      ix0 := Or(ix0, Shr(ix1, 11), 2 * HIGH);
      ix1 := Shl(ix1, 21);
      n := n + 21;
    }
  }

  /** The high word shifted until its leading bit is in place. */
  method ShiftHigh(h: u32) returns (ix0: u32, i: nat)
    requires 0 < h < 2 * HIGH
    ensures HIGH <= ix0 < 2 * HIGH && ix0 == h * Pow2(i)
  {
    assert Pow2(0) == 1;
    ix0, i := h, 0;
    while LeadingBitClear(ix0)
      invariant i >= 0 && 0 < ix0 < 2 * HIGH && ix0 == h * Pow2(i)
      decreases 2 * HIGH - ix0
    {
      LeadingBitIff(ix0);
      Twice(h, Pow2(i));
      ix0 := 2 * ix0 % WORD;
      i := i + 1;
    }
    LeadingBitIff(ix0);
  }

  /** (ix0 & 0x00100000) == 0 */
  predicate LeadingBitClear(ix0: u32)
  {
    ix0 / HIGH % 2 == 0
  }

  lemma LeadingBitIff(ix0: u32)
    requires ix0 < 2 * HIGH
    ensures LeadingBitClear(ix0) <==> ix0 < HIGH
  {
  }

  /** The low word follows by the same number of places. */
  method ShiftLow(ghost h: u32, ix0: u32, l: u32, i: nat) returns (r0: u32, r1: u32)
    requires HIGH <= ix0 < 2 * HIGH && ix0 == h * Pow2(i)
    ensures r0 * WORD + r1 == (h * WORD + l) * Pow2(i)
    ensures HIGH <= r0 < 2 * HIGH
  {
    PairInPlace(h, l, i);
    ShiftedLeft(h, l, i);
    ShlFits(h, i);
    r0 := Or(ix0, Shr(l, 32 - i), Pow2(i));
    r1 := Shl(l, i);
  }

  /**
   * A subnormal operand. The source shifts the low word by 32 - i, which is 32 when the high word needs no
   * shift; that is read as shifting everything out.
   */
  method NormalizeSubnormal(h: u32, l: u32) returns (ix0: u32, ix1: u32, m: int)
    requires PositiveDouble(h, l) && h < HIGH
    ensures -51 <= m <= 0 && HIGH <= ix0 < 2 * HIGH
    ensures Scaled(DOUBLE, h * WORD + l, ix0 * WORD + ix1, m + 51)
  {
    var n: nat, i: nat;
    ix0, ix1, n := SkipHigh(h, l);
    m := 0 - n;
    ghost var high, low := ix0, ix1;
    ix0, i := ShiftHigh(ix0);
    ix0, ix1 := ShiftLow(high, ix0, ix1, i);
    m := m - (i - 1);
    TwoShifts(h * WORD + l, n, i);
    DoubleIsPower();
    SubnormalOperand(DOUBLE, DOUBLE_BITS, h * WORD + l, n + i);
  }

  lemma TwoShifts(w: int, n: nat, i: nat)
    ensures w * Pow2(n) * Pow2(i) == w * Pow2(n + i)
  {
    Pow2Add(n, i);
    Associate(w, Pow2(n), Pow2(i));
  }

  /** The significand with its leading bit in place and the exponent without its bias. */
  method NormalizeOperand(h: u32, l: u32) returns (ix0: u32, ix1: u32, m: int)
    requires PositiveDouble(h, l)
    ensures -1074 <= m <= 1023 && Scaled(DOUBLE, h * WORD + l, ix0 * WORD + ix1, m + 1074)
  {
    m := h / HIGH;
    if m == 0 {
      ix0, ix1, m := NormalizeSubnormal(h, l);
    } else {
      NormalWords(h, l);
      ix0, ix1 := h, l;
    }
    m := m - 1023;
    ix0 := Or(HIGH, ix0 % HIGH, HIGH);
  }

  /** What the high half keeps: the root so far is q words, and r words is the moving bit. */
  ghost predicate HighHalf(c: int, q: int, s0: int, ix0: int, ix1: u32, r: u32, k: nat) {
    && 32 <= k <= 54 && r == (if k == 32 then 0 else Pow2(k - 33))
    && s0 == 2 * q
    && q * WORD + Pow2(k) <= 4 * DOUBLE
    && Rooting(c, q * WORD, ix0 * WORD + ix1, k)
  }

  /** The words after a taken bit, as whole numbers. */
  lemma TakenWords(q: int, s0: int, ix0: int, ix1: int, r: int, w: int)
    requires s0 == 2 * q
    ensures (q + r) * w == q * w + r * w
    ensures (ix0 - (s0 + r)) * w + ix1 == ix0 * w + ix1 - (2 * (q * w) + r * w)
  {
  }

  method HighStep(q: i32, s0: i32, ix0: i32, ix1: u32, r: u32, ghost c: int, ghost k: nat)
    returns (p: i32, u0: i32, y0: i32, y1: u32)
    requires k >= 33 && HighHalf(c, q, s0, ix0, ix1, r, k)
    ensures HighHalf(c, p, u0, y0, y1, r / 2, k - 1)
  {
    ghost var fullRoot, fullRest := q * WORD, ix0 * WORD + ix1;
    RemainderBound(c, fullRoot, fullRest, k);
    HighBit(k, r);
    p, u0, y0, y1 := q, s0, ix0, ix1;
    var t: i32 := s0 + r;
    if t <= ix0 {
      BitTaken(c, fullRoot, fullRest, k);
      u0 := t + r;
      y0 := ix0 - t;
      p := q + r;
      TakenWords(q, s0, ix0, ix1, r, WORD);
    } else {
      BitLeft(c, fullRoot, fullRest, k);
    }
    y0, y1 := DoubleWords(y0, y1);
  }

  lemma HighBit(k: nat, r: int)
    requires k >= 33 && r == Pow2(k - 33)
    ensures Pow2(k - 1) == r * WORD && Pow2(k) == 2 * (r * WORD)
    ensures r / 2 == if k == 33 then 0 else Pow2(k - 34)
  {
    DoubleIsPower();
    Pow2Add(k - 33, 32);
  }

  /** The high half of the root: the low word of the remainder takes no part in the comparison. */
  method HighBits(n0: u32, n1: u32) returns (q: i32, s0: i32, ix0: i32, ix1: u32)
    requires n0 * WORD + n1 < 4 * DOUBLE
    ensures Rooting((n0 * WORD + n1) * (4 * DOUBLE), q * WORD, ix0 * WORD + ix1, 32)
    ensures s0 == 2 * q && 0 <= q * WORD <= 4 * DOUBLE - WORD
  {
    ghost var c := (n0 * WORD + n1) * (4 * DOUBLE);
    ghost var k: nat := 54;
    FirstBit(n0 * WORD + n1);
    ix0, ix1 := DoubleWords(n0, n1);
    q, s0 := 0, 0;
    var r: u32 := 0x20_0000;
    while r != 0
      invariant HighHalf(c, q, s0, ix0, ix1, r, k)
      decreases k
    {
      q, s0, ix0, ix1 := HighStep(q, s0, ix0, ix1, r, c, k);
      r := r / 2;
      k := k - 1;
    }
    DoubleIsPower();
  }

  lemma FirstBit(n: int)
    requires 0 <= n < 4 * DOUBLE
    ensures Pow2(54) == 4 * DOUBLE && Pow2(21) == 0x20_0000
    ensures Rooting(n * (4 * DOUBLE), 0, 2 * n, 54)
  {
    DoubleIsPower();
    Pow2Add(52, 2);
    assert Pow2(2) == 4;
    RootingStarts(DOUBLE, DOUBLE_BITS, n);
  }

  /** The pair times two, while it fits. */
  method DoubleWords(h: i32, l: u32) returns (dh: i32, dl: u32)
    requires 0 <= h < 0x4000_0000
    ensures dh * WORD + dl == 2 * (h * WORD + l) && dh >= 0
  {
    dh := h + (h + l / SIGN);
    dl := (l + l) % WORD;
  }

  /** One taken bit: the trial value is subtracted with borrow, and r is added to it with carry. */
  method TakeLowBit(s0: i32, t1: u32, r: u32, ix0: i32, ix1: u32, ghost q: int, ghost x: int)
    returns (u0: i32, u1: u32, y0: i32, y1: u32)
    requires 0 <= s0 <= ix0 < 0x4000_0000 && s0 * WORD + t1 <= ix0 * WORD + ix1 && 1 <= r <= SIGN
    requires s0 * WORD + t1 == 2 * q + r && ix0 * WORD + ix1 == x
    ensures u0 * WORD + u1 == 2 * (q + r)
    ensures y0 * WORD + y1 == x - (2 * q + r)
    ensures t1 + r < WORD ==> u1 == t1 + r
    ensures t1 + r == WORD ==> u1 == 0
  {
    u0, y0 := s0, ix0;
    u1 := (t1 + r) % WORD;
    if t1 >= SIGN && u1 < SIGN {
      u0 := u0 + 1;
    }
    y0 := y0 - s0;
    if ix1 < t1 {
      y0 := y0 - 1;
    }
    y1 := (ix1 - t1) % WORD;
  }

  /** What the low half keeps: twice the root in s0 and s1, and no overflow of s1 + r still to come. */
  ghost predicate LowHalf(c: int, q: int, q1: u32, s0: int, s1: u32, ix0: int, ix1: u32, r: u32, k: nat) {
    && r == (if k == 0 then 0 else Pow2(k - 1))
    && s0 * WORD + s1 == 2 * (q * WORD + q1)
    && ((k == 32 && s1 == 0) || s1 + 4 * r <= WORD)
    && q1 + Pow2(k) <= WORD
    && Rooting(c, q * WORD + q1, ix0 * WORD + ix1, k)
  }

  method Trial(s0: i32, s1: u32, r: u32, ghost q: int, ghost k: nat) returns (t1: u32)
    requires s0 * WORD + s1 == 2 * q && r <= SIGN && ((k == 32 && s1 == 0) || s1 + 4 * r <= WORD) && r >= 1
    ensures s0 * WORD + t1 == 2 * q + r && t1 == s1 + r
  {
    t1 := (s1 + r) % WORD;
  }

  method LowStep(q: i32, q1: u32, s0: i32, s1: u32, ix0: i32, ix1: u32, r: u32, ghost c: int, ghost k: nat)
    returns (p1: u32, u0: i32, u1: u32, y0: i32, y1: u32)
    requires 1 <= k <= 32 && LowHalf(c, q, q1, s0, s1, ix0, ix1, r, k)
    requires 0 <= q * WORD <= 4 * DOUBLE - WORD
    ensures LowHalf(c, q, p1, u0, u1, y0, y1, r / 2, k - 1)
  {
    ghost var fullRoot, fullRest := q * WORD + q1, ix0 * WORD + ix1;
    RemainderBound(c, fullRoot, fullRest, k);
    LowBit(k, r);
    p1, u0, u1, y0, y1 := q1, s0, s1, ix0, ix1;
    var t1 := Trial(s0, s1, r, fullRoot, k);
    if s0 < ix0 || (s0 == ix0 && t1 <= ix1) {
      BitTaken(c, fullRoot, fullRest, k);
      u0, u1, y0, y1 := TakeLowBit(s0, t1, r, ix0, ix1, fullRoot, fullRest);
      p1 := q1 + r;
      assert q * WORD + p1 == fullRoot + r;
    } else {
      BitLeft(c, fullRoot, fullRest, k);
    }
    y0, y1 := DoubleWords(y0, y1);
  }

  lemma LowBit(k: nat, r: int)
    requires 1 <= k <= 32 && r == Pow2(k - 1)
    ensures Pow2(k) == 2 * r && 1 <= r <= SIGN && (k < 32 ==> 2 * r <= SIGN)
    ensures r / 2 == if k == 1 then 0 else Pow2(k - 2)
    ensures 4 * (r / 2) <= 2 * r && (k == 32 ==> r == SIGN)
  {
    DoubleIsPower();
    if k < 32 {
      Pow2Mono(k - 1, 31);
    }
  }

  /**
   * The low half. Twice the root is kept in s0 and s1; its low word overflows exactly once, when the first
   * bit is taken, and the source carries that into s0.
   */
  method LowBits(q: i32, high: i32, x0: i32, x1: u32, ghost c: int)
    returns (q1: u32, ix0: i32, ix1: u32)
    requires Rooting(c, q * WORD, x0 * WORD + x1, 32)
    requires high == 2 * q && 0 <= q * WORD <= 4 * DOUBLE - WORD
    ensures Rooting(c, q * WORD + q1, ix0 * WORD + ix1, 0)
  {
    DoubleIsPower();
    ghost var k: nat := 32;
    var s0: i32, s1: u32 := high, 0;
    ix0, ix1, q1 := x0, x1, 0;
    var r: u32 := SIGN;
    while r != 0
      invariant k <= 32 && LowHalf(c, q, q1, s0, s1, ix0, ix1, r, k)
      decreases k
    {
      q1, s0, s1, ix0, ix1 := LowStep(q, q1, s0, s1, ix0, ix1, r, c, k);
      r := r / 2;
      k := k - 1;
    }
  }

  method Root(h: u32, l: u32) returns (high: u32, low: u32)
    requires PositiveDouble(h, l)
    ensures high * WORD + low < DOUBLE_INF
    ensures NearestRoot(DOUBLE, 1074, Val(DOUBLE, h * WORD + l), high * WORD + low)
  {
    var n0, n1, m0 := NormalizeOperand(h, l);
    var ix0, ix1 := EvenExponent(n0, n1, m0);
    ghost var a, n := n0 * WORD + n1, ix0 * WORD + ix1;
    var m := m0 / 2;
    var q, q1, y0, y1 := FloorRoot(ix0, ix1);
    ghost var floor, rest := q * WORD + q1, y0 * WORD + y1;
    RootRounded(DOUBLE, n, floor, rest);
    q, q1 := RoundWords(q, q1, y0, y1);
    high, low := PackRoot(q, q1, m, RoundedRoot(floor, rest));
    DoubleIsPower();
    RootIsNearest(DOUBLE, DOUBLE_BITS, 1074, Val(DOUBLE, h * WORD + l), a, m, m0 % 2, floor, rest, high * WORD + low);
  }

  /** An odd exponent is made even by doubling the significand. */
  method EvenExponent(n0: u32, n1: u32, m: int) returns (ix0: i32, ix1: u32)
    requires DOUBLE <= n0 * WORD + n1 < 2 * DOUBLE
    ensures ix0 >= 0 && ix0 * WORD + ix1 == (n0 * WORD + n1) * Pow2(m % 2)
    ensures DOUBLE <= ix0 * WORD + ix1 < 4 * DOUBLE
  {
    assert Pow2(0) == 1 && Pow2(1) == 2;
    ix0, ix1 := n0, n1;
    if m % 2 == 1 {
      ix0, ix1 := DoubleWords(ix0, ix1);
    }
  }

  method FloorRoot(n0: u32, n1: u32) returns (q: i32, q1: u32, ix0: i32, ix1: u32)
    requires n0 * WORD + n1 < 4 * DOUBLE
    ensures Rooting((n0 * WORD + n1) * (4 * DOUBLE), q * WORD + q1, ix0 * WORD + ix1, 0)
    ensures 0 <= q < 0x40_0000 && ix0 >= 0
  {
    var s0: i32;
    q, s0, ix0, ix1 := HighBits(n0, n1);
    q1, ix0, ix1 := LowBits(q, s0, ix0, ix1, (n0 * WORD + n1) * (4 * DOUBLE));
  }

  /** The pattern of a root with significand k, half of the words q and q1, and exponent m. */
  method PackRoot(q: i32, q1: u32, m: int, ghost k: int) returns (high: u32, low: u32)
    requires q >= 0 && k == (q * WORD + q1) / 2 && DOUBLE <= k < 2 * DOUBLE && -537 <= m <= 511
    ensures high * WORD + low == k + (m + 1022) * DOUBLE < DOUBLE_INF
  {
    high := q / 2 + 0x3FE0_0000;
    low := q1 / 2;
    if q % 2 == 1 {
      low := Or(SIGN, low, SIGN);
    }
    high := high + m * HIGH;
  }

  /** Rounding to nearest: one - tiny and one + tiny are both one, so an inexact root moves to even. */
  method RoundWords(q: i32, q1: u32, ix0: i32, ix1: u32) returns (r: i32, r1: u32)
    requires 0 <= q < 0x40_0000 && ix0 >= 0
    ensures (r * WORD + r1) / 2 == RoundedRoot(q * WORD + q1, ix0 * WORD + ix1)
    ensures r >= 0
  {
    r, r1 := q, q1;
    if ix0 != 0 || ix1 != 0 {
      if q1 == 0xFFFF_FFFF {
        r, r1 := r + 1, 0;
      } else {
        r1 := r1 + r1 % 2;
      }
    }
    RoundedWords(q, q1, r, r1, ix0 * WORD + ix1);
  }

  /** Rounding the low word up to an even number rounds the pair up. */
  lemma RoundedWords(q: nat, q1: u32, r: nat, r1: u32, x: nat)
    requires x == 0 ==> r == q && r1 == q1
    requires x > 0 ==> (q1 == 0xFFFF_FFFF && r == q + 1 && r1 == 0) || (r == q && r1 == q1 + q1 % 2)
    ensures (r * WORD + r1) / 2 == RoundedRoot(q * WORD + q1, x)
  {
    LowBitOfWords(q, q1);
    assert x > 0 ==> r * WORD + r1 == q * WORD + q1 + q1 % 2;
  }

  lemma LowBitOfWords(q: nat, q1: u32)
    ensures (q * WORD + q1) % 2 == q1 % 2
  {
    EvenPart(q * 0x8000_0000, q1);
  }

  lemma EvenPart(h: int, low: int)
    ensures (2 * h + low) % 2 == low % 2
  {
  }

  method Sqrt(h: u32, l: u32) returns (r: Double)
    ensures r.Double? <==> Magnitude64(h, l) == 0 || h * WORD + l <= DOUBLE_INF
    ensures Magnitude64(h, l) == 0 || h * WORD + l == DOUBLE_INF ==> r == Double(h, l)
    ensures PositiveDouble(h, l) ==> r.Double? && r.high * WORD + r.low < DOUBLE_INF
    ensures PositiveDouble(h, l) ==>
              NearestRoot(DOUBLE, 1074, Val(DOUBLE, h * WORD + l), r.high * WORD + r.low)
  {
    ExponentField(h);
    OrderOfWords(h, l);
    if NotFinite(h) {
      if h == HIGH_INF && l == 0 {
        return Double(h, l);
      }
      return DoubleNaN;
    }
    if h == 0 || Negative(h) {
      if Magnitude(h) == 0 && l == 0 {
        return Double(h, l);
      } else if Negative(h) {
        return DoubleNaN;
      }
    }
    var high, low := Root(h, l);
    r := Double(high, low);
  }

  /** All bits of the exponent field are set. */
  predicate NotFinite(h: u32)
  {
    h / HIGH % 2048 == 2047
  }

  /** Infinity is told from the rest by the words. */
  lemma OrderOfWords(h: u32, l: u32)
    ensures h * WORD + l < DOUBLE_INF <==> h < HIGH_INF
    ensures h * WORD + l == DOUBLE_INF <==> h == HIGH_INF && l == 0
    ensures !Negative(h) ==> Magnitude(h) == h
    ensures Magnitude64(h, l) == 0 <==> Magnitude(h) == 0 && l == 0
  {
  }

  lemma ExponentField(h: u32)
    ensures NotFinite(h) <==> Magnitude(h) >= HIGH_INF
  {
  }
}
