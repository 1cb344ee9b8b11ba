/** fmod on doubles, each held in a high and a low word. */
module FmodDouble {
  import opened Arithmetic
  import opened Bytes
  import opened Float
  import opened FmodFloat

  const HIGH: int := 0x10_0000
  const HIGH_INF: int := 0x7FF0_0000
  const DOUBLE_BITS: nat := 52

  lemma DoubleIsPower()
    ensures DOUBLE == Pow2(DOUBLE_BITS) && HIGH == Pow2(20) && WORD == Pow2(32) && SIGN == Pow2(31)
  {
    assert Pow2(5) == 32;
    Pow2Add(5, 5);
    Pow2Add(10, 10);
    Pow2Add(20, 10);
    Pow2Add(20, 32);
    assert Pow2(32) == 2 * Pow2(31) && Pow2(31) == 2 * Pow2(30);
  }

  predicate Divides(xh: u32, xl: u32, yh: u32, yl: u32) {
    Magnitude64(yh, yl) != 0 && Magnitude64(xh, xl) < DOUBLE_INF && Magnitude64(yh, yl) <= DOUBLE_INF
  }

  /** Where ilogb's loops stop: the exponent e that brings a subnormal w up to a full significand. */
  ghost predicate Level(w: nat, e: int) {
    if w >= DOUBLE then e == w / DOUBLE - 1023
    else -1074 <= e <= -1023 && DOUBLE <= w * Pow2(-1022 - e) < 2 * DOUBLE
  }

  lemma LowWordLevel(l: u32, e: int)
    requires 0 < l && e <= -1043 && SIGN <= l * Pow2(-1043 - e) < WORD
    ensures Level(l, e)
  {
    DoubleIsPower();
    Pow2Add(-1043 - e, 21);
    assert Pow2(21) == 2 * HIGH;
    Associate(l, Pow2(-1043 - e), Pow2(21));
    if e < -1074 {
      Pow2Mono(31, -1043 - e);
      MulMono(1, l, Pow2(-1043 - e));
    }
  }

  /** A shift that puts the leading bit of the high word in place does so for the pair. */
  lemma PairInPlace(h: u32, l: u32, n: nat)
    requires HIGH <= h * Pow2(n) < 2 * HIGH
    ensures n <= 20 && h * Pow2(n) + Pow2(n) <= 2 * HIGH
    ensures DOUBLE <= (h * WORD + l) * Pow2(n) < 2 * DOUBLE
  {
    DoubleIsPower();
    assert Pow2(21) == 2 * HIGH;
    if n > 20 {
      Pow2Mono(20, n);
      MulMono(1, h, Pow2(n));
    }
    Pow2Add(n, 21 - n);
    BelowNext(h, Pow2(n), Pow2(21 - n));
    Distribute(h, 1, Pow2(n));
    MulStrict(h * WORD + l, (h + 1) * WORD, Pow2(n));
    MulMono(h * WORD, h * WORD + l, Pow2(n));
    Rearrange(h, WORD, Pow2(n));
    Rearrange(h + 1, WORD, Pow2(n));
  }

  lemma HighWordLevel(h: u32, l: u32, e: int)
    requires 0 < h < HIGH && e <= -1022 && SIGN <= 2048 * (h * Pow2(-1022 - e)) < WORD
    ensures Level(h * WORD + l, e)
  {
    assert Pow2(0) == 1;
    PairInPlace(h, l, -1022 - e);
  }

  /** A multiple of a below a * b leaves room for one more. */
  lemma BelowNext(h: int, a: int, b: int)
    requires a >= 1 && h * a < a * b
    ensures (h + 1) * a <= a * b
  {
    if h >= b {
      MulMono(b, h, a);
    }
    MulMono(h + 1, b, a);
  }

  lemma Rearrange(a: int, b: int, c: int)
    ensures (a * b) * c == (a * c) * b
  {
  }

  method Ilogb(h: u32, l: u32) returns (e: int)
    requires 0 < h * WORD + l < DOUBLE_INF
    ensures Level(h * WORD + l, e)
  {
    if h < HIGH {
      if h == 0 {
        e := IlogbLow(l);
      } else {
        e := IlogbHigh(h, l);
      }
    } else {
      e := h / HIGH - 1023;
    }
  }

  /** The loop for a subnormal number whose high word is zero. */
  method IlogbLow(l: u32) returns (e: int)
    requires 0 < l
    ensures Level(l, e)
  {
    assert Pow2(0) == 1;
    var i: u32 := l;
    e := -1043;
    while 0 < i < SIGN
      invariant e <= -1043 && 0 < i == l * Pow2(-1043 - e)
      decreases WORD - i
    {
      Twice(l, Pow2(-1043 - e));
      i := 2 * i % WORD;
      e := e - 1;
    }
    LowWordLevel(l, e);
  }

  /** The loop for the other subnormal numbers. */
  method IlogbHigh(h: u32, l: u32) returns (e: int)
    requires 0 < h < HIGH
    ensures Level(h * WORD + l, e)
  {
    assert Pow2(0) == 1;
    var i: u32 := h * 2048;
    e := -1022;
    while 0 < i < SIGN
      invariant e <= -1022 && 0 < i == 2048 * (h * Pow2(-1022 - e))
      decreases WORD - i
    {
      Twice(h, Pow2(-1022 - e));
      i := 2 * i % WORD;
      e := e - 1;
    }
    HighWordLevel(h, l, e);
  }

  /** The bits that a left shift by n moves out of a word, and those that stay. */
  lemma ShlWord(l: u32, n: nat)
    requires n <= 32
    ensures Shr(l, 32 - n) < Pow2(n) && l * Pow2(n) == WORD * Shr(l, 32 - n) + Shl(l, n)
  {
    DoubleIsPower();
    Pow2Add(n, 32 - n);
    SplitWord(l, Pow2(n), Pow2(32 - n));
  }

  lemma SplitWord(l: u32, a: int, b: int)
    requires a >= 1 && b >= 1 && a * b == WORD
    ensures 0 <= l / b < a && l * a == WORD * (l / b) + l * a % WORD
  {
    Euclid(l, b);
    var d, e := l / b, l % b;
    Associate(d, b, a);
    MulStrict(e, b, a);
    MulMono(0, e, a);
    DivMod(l * a, WORD, d, e * a);
    if d >= a {
      MulMono(a, d, b);
    }
  }

  /** A left shift that loses nothing. */
  lemma ShlFits(h: u32, n: nat)
    requires h * Pow2(n) < WORD
    ensures Shl(h, n) == h * Pow2(n) && Shl(h, n) % Pow2(n) == 0
  {
    MulMono(0, h, Pow2(n));
    DivMod(h * Pow2(n), WORD, 0, h * Pow2(n));
    DivMod(h * Pow2(n), Pow2(n), h, 0);
  }

  /** Shifting a pair of words left by at most a word. */
  lemma ShiftedLeft(h: u32, l: u32, n: nat)
    requires n <= 32 && h * Pow2(n) + Pow2(n) <= WORD
    ensures Shl(h, n) == h * Pow2(n) && Shl(h, n) % Pow2(n) == 0 && Shr(l, 32 - n) < Pow2(n)
    ensures (h * Pow2(n) + Shr(l, 32 - n)) * WORD + Shl(l, n) == (h * WORD + l) * Pow2(n)
  {
    ShlWord(l, n);
    ShlFits(h, n);
    PairTimes(h, l, Pow2(n), Shr(l, 32 - n), Shl(l, n), WORD);
  }

  lemma PairTimes(h: int, l: int, p: int, high: int, low: int, w: int)
    requires l * p == w * high + low
    ensures (h * p + high) * w + low == (h * w + l) * p
  {
    Rearrange(h, w, p);
    Distribute(h * w, l, p);
    Distribute(h * p, high, w);
  }

  lemma RoomInWord(h: u32, l: u32, n: nat)
    requires n <= 31 && (h * WORD + l) * Pow2(n) < 2 * DOUBLE
    ensures h * Pow2(n) + Pow2(n) <= WORD
  {
    DoubleIsPower();
    if n < 31 {
      Pow2Mono(n, 31);
    }
    MulMono(h * WORD, h * WORD + l, Pow2(n));
    Rearrange(h, WORD, Pow2(n));
  }

  lemma Distribute(a: int, b: int, k: int)
    ensures (a + b) * k == a * k + b * k
  {
  }

  /** Shifting by more than a word: the high word is empty. */
  lemma WholeWord(h: u32, l: u32, n: nat)
    requires n >= 32 && (h * WORD + l) * Pow2(n) < 2 * DOUBLE
    ensures Shl(l, n - 32) * WORD == (h * WORD + l) * Pow2(n)
  {
    DoubleIsPower();
    Pow2Add(n - 32, 32);
    var a := Pow2(n - 32);
    if h >= 1 {
      MulMono(WORD, h * WORD + l, Pow2(n));
      MulMono(1, a, WORD);
    }
    Associate(l, a, WORD);
    ShlFits(l, n - 32);
  }

  method Significand(h: u32, l: u32, e: int) returns (mh: u32, ml: u32)
    requires 0 < h * WORD + l < DOUBLE_INF && Level(h * WORD + l, e)
    ensures e >= -1074 && Scaled(DOUBLE, h * WORD + l, mh * WORD + ml, e + 1074)
  {
    ghost var w := h * WORD + l;
    if e >= -1022 {
      mh, ml := Or(HIGH, h % HIGH, HIGH), l;
      NormalWords(h, l);
    } else {
      var n := -1022 - e;
      DoubleIsPower();
      SubnormalScaled(DOUBLE, DOUBLE_BITS, w, n);
      mh, ml := ShiftPair(h, l, n);
    }
  }

  /** The exponent and the significand of a finite nonzero double. */
  method Decompose(h: u32, l: u32) returns (mh: u32, ml: u32, e: int)
    requires 0 < h * WORD + l < DOUBLE_INF
    ensures -1074 <= e <= 1023 && Scaled(DOUBLE, h * WORD + l, mh * WORD + ml, e + 1074)
  {
    e := Ilogb(h, l);
    mh, ml := Significand(h, l, e);
  }

  lemma NormalWords(h: u32, l: u32)
    requires DOUBLE <= h * WORD + l
    ensures (h * WORD + l) / DOUBLE == h / HIGH >= 1
    ensures Scaled(DOUBLE, h * WORD + l, (HIGH + h % HIGH) * WORD + l, h / HIGH + 51)
  {
    DoubleIsPower();
    NormalScaled(DOUBLE, DOUBLE_BITS, h / HIGH, h % HIGH * WORD + l);
  }

  method ShiftPair(h: u32, l: u32, n: nat) returns (mh: u32, ml: u32)
    requires n >= 1 && (h * WORD + l) * Pow2(n) < 2 * DOUBLE
    ensures mh * WORD + ml == (h * WORD + l) * Pow2(n)
  {
    if n <= 31 {
      RoomInWord(h, l, n);
      ShiftedLeft(h, l, n);
      mh := Or(Shl(h, n), Shr(l, 32 - n), Pow2(n));
      ml := Shl(l, n);
    } else {
      WholeWord(h, l, n);
      mh := Shl(l, n - 32);
      ml := 0;
    }
  }

  /** Subtraction with borrow; the sign of the difference is the sign of its high word. */
  method SubtractPair(h: int, l: u32, bh: u32, bl: u32) returns (hz: int, lz: u32)
    ensures hz * WORD + lz == (h * WORD + l) - (bh * WORD + bl)
    ensures hz < 0 <==> h * WORD + l < bh * WORD + bl
  {
    hz, lz := h - bh, (l - bl) % WORD;
    if l < bl {
      hz := hz - 1;
    }
  }

  /** Doubling with carry. */
  method DoublePair(h: int, l: u32) returns (dh: int, dl: u32)
    ensures dh * WORD + dl == 2 * (h * WORD + l)
  {
    dh := h + h + l / SIGN;
    dl := (l + l) % WORD;
  }

  /** The fixed-point loop on two words: as FmodFloat.Reduce, for the numbers that the word pairs make. */
  method Reduce(ah: u32, al: u32, bh: u32, bl: u32, n: nat)
    returns (h: i32, l: u32, zero: bool, t: nat, ghost q: int)
    requires DOUBLE <= ah * WORD + al < 2 * DOUBLE && DOUBLE <= bh * WORD + bl < 2 * DOUBLE
    ensures if zero then h * WORD + l == bh * WORD + bl else t == 0 && h * WORD + l < bh * WORD + bl
    ensures Left(ah * WORD + al, n, bh * WORD + bl, q, h * WORD + l, t)
  {
    h, l, q, t, zero := ah, al, 0, n, false;
    ghost var a, b := ah * WORD + al, bh * WORD + bl;
    while t != 0
      invariant 0 <= t <= n && Left(a, n, b, q, h * WORD + l, t)
    {
      var hz, lz := SubtractPair(h, l, bh, bl);
      if hz < 0 {
        Shifted(a, n, b, q, h * WORD + l, t);
        h, l := DoublePair(h, l);
      } else {
        if hz == 0 && lz == 0 {
          zero := true;
          return;
        }
        Subtracted(a, n, b, q, h * WORD + l, t);
        Shifted(a, n, b, q + Pow2(t), hz * WORD + lz, t);
        q := q + Pow2(t);
        h, l := DoublePair(hz, lz);
      }
      t := t - 1;
    }
    var hz, lz := SubtractPair(h, l, bh, bl);
    if hz >= 0 {
      Subtracted(a, n, b, q, h * WORD + l, t);
      q := q + Pow2(t);
      h, l := hz, lz;
    }
  }

  /** Shifting a pair right by less than a word, when no set bit falls off. */
  lemma ShiftedRight(h: u32, l: u32, n: nat, x: int)
    requires 1 <= n <= 31 && h * WORD + l == x * Pow2(n)
    ensures Shl(h, 32 - n) % Pow2(32 - n) == 0 && Shr(l, n) < Pow2(32 - n)
    ensures Shl(h, 32 - n) + Shr(l, n) < WORD
    ensures Shr(h, n) * WORD + Shl(h, 32 - n) + Shr(l, n) == x
  {
    DoubleIsPower();
    Pow2Add(n, 32 - n);
    ShlWord(h, 32 - n);
    ShlMultiple(h, Pow2(n), Pow2(32 - n));
    ExactShift(h, l, Pow2(n), Pow2(32 - n), x);
  }

  lemma ShlMultiple(h: u32, a: int, b: int)
    requires a >= 1 && b >= 1 && a * b == WORD
    ensures (h * b % WORD) % b == 0 && h * b % WORD + b <= WORD
  {
    ModScale(h, a, b);
    DivMod((h % a) * b, b, h % a, 0);
    Euclid(h, a);
    MulMono(h % a + 1, a, b);
    Distribute(h % a, 1, b);
  }

  lemma ExactShift(h: u32, l: u32, a: int, b: int, x: int)
    requires a >= 1 && b >= 1 && a * b == WORD && h * WORD + l == x * a
    ensures 0 <= l / a < b && x == h * b + l / a
  {
    Euclid(l, a);
    Associate(h, b, a);
    var k := x - h * b - l / a;
    assert l % a == a * k by {
      assert x * a == h * b * a + a * (l / a) + l % a;
      assert (x - h * b - l / a) * a == x * a - h * b * a - (l / a) * a;
    }
    Multiple(a, k);
    if l / a >= b {
      MulMono(b, l / a, a);
    }
  }

  /** Shifting by a word or more. */
  lemma HighOnly(h: u32, l: u32, n: nat, x: int)
    requires n >= 32 && h * WORD + l == x * Pow2(n)
    ensures l == 0 && Shr(h, n - 32) == x
  {
    DoubleIsPower();
    Pow2Add(n - 32, 32);
    Associate(x, Pow2(n - 32), WORD);
    DivMod(x * Pow2(n - 32) * WORD, WORD, x * Pow2(n - 32), 0);
    DivMod(h * WORD + l, WORD, h, l);
    DivMod(h, Pow2(n - 32), x, 0);
  }

  lemma NoHighBits(h: u32, n: nat)
    requires n >= 21 && h < 2 * HIGH
    ensures Shr(h, n) == 0
  {
    DoubleIsPower();
    Pow2Mono(20, n);
    DivMod(h, Pow2(n), 0, h);
  }

  /** Denormalising the result: the right shift of the pair, in the source's three ranges. */
  method ShiftRight(h: u32, l: u32, n: nat, ghost x: nat) returns (rh: u32, rl: u32)
    requires n >= 1 && h < 2 * HIGH && h * WORD + l == x * Pow2(n)
    ensures rh * WORD + rl == x
  {
    if n <= 20 {
      ShiftedRight(h, l, n, x);
      rl := Or(Shl(h, 32 - n), Shr(l, n), Pow2(32 - n));
      rh := Shr(h, n);
    } else if n <= 31 {
      ShiftedRight(h, l, n, x);
      NoHighBits(h, n);
      rl := Or(Shl(h, 32 - n), Shr(l, n), Pow2(32 - n));
      rh := 0;
    } else {
      HighOnly(h, l, n, x);
      rl := Shr(h, n - 32);
      rh := 0;
    }
  }

  method Normalize(h: int, l: u32, e: int, ghost v: nat) returns (hx: int, lx: u32, iy: int)
    requires 0 < h * WORD + l < 2 * DOUBLE && -1074 <= e <= 1023
    requires v >= 1 && v * DOUBLE == (h * WORD + l) * Pow2(e + 1074)
    ensures -1074 <= iy <= 1023 && DOUBLE <= hx * WORD + lx < 2 * DOUBLE
    ensures v * DOUBLE == (hx * WORD + lx) * Pow2(iy + 1074)
  {
    hx, lx, iy := h, l, e;
    while hx < HIGH
      invariant -1074 <= iy <= 1023 && 0 < hx * WORD + lx < 2 * DOUBLE
      invariant v * DOUBLE == (hx * WORD + lx) * Pow2(iy + 1074)
      decreases 2 * DOUBLE - (hx * WORD + lx)
    {
      RoomToShift(DOUBLE, v, hx * WORD + lx, iy + 1074);
      hx, lx := DoublePair(hx, lx);
      iy := iy - 1;
    }
  }

  lemma NormalPattern(v: nat, s: int, e: int, w: int)
    requires DOUBLE <= s < 2 * DOUBLE && -1022 <= e && v * DOUBLE == s * Pow2(e + 1074)
    requires v < Val(DOUBLE, DOUBLE_INF) && w == (e + 1022) * DOUBLE + s
    ensures 0 <= w < DOUBLE_INF && Val(DOUBLE, w) == v
  {
    DoubleIsPower();
    NormalResult(DOUBLE, DOUBLE_BITS, v, s, e + 1074, w);
    ValOrder(DOUBLE, w, DOUBLE_INF);
  }

  lemma SubnormalPattern(v: nat, s: int, e: int)
    requires DOUBLE <= s < 2 * DOUBLE && -1074 <= e < -1022 && v * DOUBLE == s * Pow2(e + 1074)
    ensures s == v * Pow2(-1022 - e) && v < DOUBLE && Val(DOUBLE, v) == v
  {
    DoubleIsPower();
    SubnormalResult(DOUBLE, DOUBLE_BITS, v, s, e + 1074);
  }

  method Pack(h: int, l: u32, e: int, sx: u32, ghost v: nat) returns (rh: u32, rl: u32)
    requires 0 < h * WORD + l < 2 * DOUBLE && -1074 <= e <= 1023 && (sx == 0 || sx == SIGN)
    requires 1 <= v < Val(DOUBLE, DOUBLE_INF) && v * DOUBLE == (h * WORD + l) * Pow2(e + 1074)
    ensures SignBit(rh) == sx && Val(DOUBLE, Magnitude64(rh, rl)) == v
  {
    var hx, lx, iy := Normalize(h, l, e, v);
    if iy >= -1022 {
      rh, rl := PackNormal(hx, lx, iy, sx, v);
    } else {
      SubnormalPattern(v, hx * WORD + lx, iy);
      var dh, dl := ShiftRight(hx, lx, -1022 - iy, v);
      rh, rl := Or(sx, dh, SIGN), dl;
    }
  }

  method PackNormal(h: int, l: u32, e: int, sx: u32, ghost v: nat) returns (rh: u32, rl: u32)
    requires DOUBLE <= h * WORD + l < 2 * DOUBLE && e >= -1022 && (sx == 0 || sx == SIGN)
    requires v < Val(DOUBLE, DOUBLE_INF) && v * DOUBLE == (h * WORD + l) * Pow2(e + 1074)
    ensures SignBit(rh) == sx && Val(DOUBLE, Magnitude64(rh, rl)) == v
  {
    ghost var w := ((e + 1022) * HIGH + h) * WORD + l;
    NormalPattern(v, h * WORD + l, e, w);
    PackedWord(h, l, e, w);
    var hx := Or((e + 1023) * HIGH, h - HIGH, HIGH);
    rh, rl := Or(sx, hx, SIGN), l;
    SignedWord(sx, hx, l);
  }

  lemma PackedWord(h: int, l: u32, e: int, w: int)
    requires DOUBLE <= h * WORD + l < 2 * DOUBLE && w == ((e + 1022) * HIGH + h) * WORD + l && 0 <= w < DOUBLE_INF
    ensures ((e + 1023) * HIGH) % HIGH == 0 && 0 <= h - HIGH < HIGH
    ensures ((e + 1023) * HIGH + (h - HIGH)) * WORD + l == w && 0 <= (e + 1023) * HIGH + (h - HIGH) < SIGN
  {
  }

  lemma SignedWord(sx: u32, h: int, l: u32)
    requires (sx == 0 || sx == SIGN) && 0 <= h < SIGN
    ensures SignBit(sx + h) == sx && Magnitude64(sx + h, l) == h * WORD + l
  {
  }

  /** The part of fmod that divides: y is smaller than x and neither is zero or infinite. */
  method Divide(hx: u32, lx: u32, hy: u32, ly: u32, sx: u32) returns (rh: u32, rl: u32)
    requires 0 < hy * WORD + ly < hx * WORD + lx < DOUBLE_INF && (sx == 0 || sx == SIGN)
    ensures SignBit(rh) == sx
    ensures Val(DOUBLE, Magnitude64(rh, rl)) == Val(DOUBLE, hx * WORD + lx) % Val(DOUBLE, hy * WORD + ly)
  {
    var ah, al, ix := Decompose(hx, lx);
    var bh, bl, iy := Decompose(hy, ly);
    ghost var x, y := hx * WORD + lx, hy * WORD + ly;
    ghost var a, b := ah * WORD + al, bh * WORD + bl;
    ScalesOrdered(DOUBLE, x, a, ix + 1074, y, b, iy + 1074);
    var h, l, zero, t, q := Reduce(ah, al, bh, bl, ix - iy);
    Finished(DOUBLE, x, a, ix + 1074, y, b, iy + 1074, q, h * WORD + l, t, DOUBLE_INF);
    if zero || (h == 0 && l == 0) {
      return sx, 0;
    }
    rh, rl := Pack(h, l, iy, sx, Val(DOUBLE, x) % Val(DOUBLE, y));
  }

  /** The source's test for y = 0, x not finite, or y not a number: (ly | -ly) >> 31 is 1 unless ly is 0. */
  predicate Purged(hx: u32, hy: u32, ly: u32) {
    (hy == 0 && ly == 0) || hx >= HIGH_INF || (if ly != 0 then hy - hy % 2 + 1 else hy) > HIGH_INF
  }

  lemma PurgedIff(xh: u32, xl: u32, yh: u32, yl: u32)
    ensures Purged(Magnitude(xh), Magnitude(yh), yl) <==> !Divides(xh, xl, yh, yl)
  {
    var hx, hy := Magnitude(xh), Magnitude(yh);
    assert hx >= HIGH_INF <==> hx * WORD + xl >= DOUBLE_INF;
    assert hy % 2 == 0 ==> (hy + 1 > HIGH_INF <==> hy >= HIGH_INF);
  }

  /** |x| mod |y| exactly, with the sign of x; subnormal operands and results included. */
  method Fmod(xh: u32, xl: u32, yh: u32, yl: u32) returns (r: Double)
    ensures r.Double? <==> Divides(xh, xl, yh, yl)
    ensures r.Double? ==> SignBit(r.high) == SignBit(xh)
    ensures r.Double? && Magnitude64(yh, yl) == DOUBLE_INF ==> r.high == xh && r.low == xl
    ensures r.Double? && Magnitude64(yh, yl) < DOUBLE_INF ==>
              Val(DOUBLE, Magnitude64(r.high, r.low))
              == Val(DOUBLE, Magnitude64(xh, xl)) % Val(DOUBLE, Magnitude64(yh, yl))
  {
    var sx := SignBit(xh);
    var hx := Magnitude(xh);
    var hy := Magnitude(yh);
    PurgedIff(xh, xl, yh, yl);
    if Purged(hx, hy, yl) {
      return DoubleNaN;
    }
    NoDivision(DOUBLE, hx * WORD + xl, hy * WORD + yl);
    if hx <= hy {
      if hx < hy || xl < yl {
        return Double(xh, xl);
      }
      if xl == yl {
        return Double(sx, 0);
      }
    }
    var rh, rl := Divide(hx, xl, hy, yl, sx);
    return Double(rh, rl);
  }
}
