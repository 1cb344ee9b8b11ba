/** x mod y by shifting and subtracting: the one-word form for floats and the two-word form for doubles. */
module FmodFloat {
  import opened Arithmetic
  import opened Bytes
  import opened Float

  /** m is the significand of w with its leading bit in place, and w is worth m * 2^c / u units. */
  ghost predicate Scaled(u: int, w: nat, m: int, c: nat)
    requires u >= 1
  {
    u <= m < 2 * u && Val(u, w) * u == m * Pow2(c)
  }

  lemma NormalScaled(u: int, p: nat, e: nat, f: nat)
    requires u == Pow2(p) && e >= 1 && f < u
    ensures e * u + f >= 0 && Scaled(u, e * u + f, u + f, e - 1 + p)
  {
    ValFields(u, e, f);
    Pow2Add(e - 1, p);
    Associate(u + f, Pow2(e - 1), u);
  }

  lemma SubnormalScaled(u: int, p: nat, w: nat, n: nat)
    requires u == Pow2(p) && n <= p && u <= w * Pow2(n) < 2 * u && w < u
    ensures Scaled(u, w, w * Pow2(n), p - n)
  {
    Pow2Add(n, p - n);
    Associate(w, Pow2(n), Pow2(p - n));
  }

  /** A larger number has no smaller scale. */
  lemma ScalesOrdered(u: int, v: nat, a: int, c: nat, w: nat, b: int, d: nat)
    requires u >= 1 && Scaled(u, v, a, c) && Scaled(u, w, b, d) && v >= w
    ensures c >= d
  {
    ValOrder(u, w, v);
    if c < d {
      Pow2Mono(c, d);
      MulStrict(a, 2 * u, Pow2(c));
      MulMono(2 * Pow2(c), Pow2(d), u);
      MulMono(u, b, Pow2(d));
      MulMono(Val(u, w), Val(u, v), u);
      Associate(2, Pow2(c), u);
      Associate(2, u, Pow2(c));
    }
  }

  /**
   * What the loop keeps: with t shifts to go, h * 2^t is what is left of a * 2^n after taking away
   * q times b.
   */
  ghost predicate Left(a: int, n: nat, b: int, q: int, h: int, t: nat) {
    a * Pow2(n) == b * q + h * Pow2(t) && 0 <= h < 2 * b
  }

  lemma Shifted(a: int, n: nat, b: int, q: int, h: int, t: nat)
    requires t >= 1 && Left(a, n, b, q, h, t) && h < b
    ensures Left(a, n, b, q, 2 * h, t - 1)
  {
    Twice(h, Pow2(t - 1));
  }

  lemma Subtracted(a: int, n: nat, b: int, q: int, h: int, t: nat)
    requires Left(a, n, b, q, h, t) && h >= b
    ensures Left(a, n, b, q + Pow2(t), h - b, t)
  {
  }

  /** What is left when no shift is to go is the remainder, at y's scale. */
  lemma Remains(u: int, v: nat, a: int, c: nat, w: nat, b: int, d: nat, q: int, h: int)
    requires u >= 1 && Scaled(u, v, a, c) && Scaled(u, w, b, d) && c >= d && w >= 1
    requires a * Pow2(c - d) == b * q + h && 0 <= h < b
    ensures (Val(u, v) % Val(u, w)) * u == h * Pow2(d)
  {
    var x, y := Val(u, v), Val(u, w);
    Pow2Add(c - d, d);
    Associate(a, Pow2(c - d), Pow2(d));
    DivMod(a * Pow2(c - d), b, q, h);
    ModScale(a * Pow2(c - d), b, Pow2(d));
    ModScale(x, y, u);
  }

  /** What the loop's result says about the quotient of the two numbers; top is infinity. */
  lemma Finished(u: int, v: nat, a: int, c: nat, w: nat, b: int, d: nat, q: int, h: int, t: nat, top: nat)
    requires u >= 1 && Scaled(u, v, a, c) && Scaled(u, w, b, d) && c >= d && 0 < w < top
    requires Left(a, c - d, b, q, h, t)
    ensures h == b ==> Val(u, v) % Val(u, w) == 0
    ensures t == 0 && h == 0 ==> Val(u, v) % Val(u, w) == 0
    ensures t == 0 && 0 < h < b ==> (Val(u, v) % Val(u, w)) * u == h * Pow2(d)
    ensures t == 0 && 0 < h < b ==> 1 <= Val(u, v) % Val(u, w) < Val(u, top)
  {
    if h == b {
      Subtracted(a, c - d, b, q, h, t);
      NothingLeft(u, v, a, c, w, b, d, q + Pow2(t));
    } else if t == 0 && h == 0 {
      NothingLeft(u, v, a, c, w, b, d, q);
    } else if t == 0 && h < b {
      SomethingLeft(u, v, a, c, w, b, d, q, h, top);
    }
  }

  lemma SomethingLeft(u: int, v: nat, a: int, c: nat, w: nat, b: int, d: nat, q: int, h: int, top: nat)
    requires u >= 1 && Scaled(u, v, a, c) && Scaled(u, w, b, d) && c >= d && 0 < w < top
    requires a * Pow2(c - d) == b * q + h && 0 < h < b
    ensures (Val(u, v) % Val(u, w)) * u == h * Pow2(d)
    ensures 1 <= Val(u, v) % Val(u, w) < Val(u, top)
  {
    Remains(u, v, a, c, w, b, d, q, h);
    MulMono(1, h, Pow2(d));
    ValOrder(u, w, top);
    Positive(Val(u, v) % Val(u, w), u);
  }

  lemma NothingLeft(u: int, v: nat, a: int, c: nat, w: nat, b: int, d: nat, q: int)
    requires u >= 1 && Scaled(u, v, a, c) && Scaled(u, w, b, d) && c >= d && w >= 1
    requires a * Pow2(c - d) == b * q
    ensures Val(u, v) % Val(u, w) == 0
  {
    Remains(u, v, a, c, w, b, d, q, 0);
    Cancel(Val(u, v) % Val(u, w), 0, u);
  }

  /** Normalising what is left never shifts below the smallest subnormal. */
  lemma RoomToShift(u: int, x: int, h: int, d: nat)
    requires u >= 1 && x >= 1 && x * u == h * Pow2(d) && h < u
    ensures d >= 1 && x * u == (2 * h) * Pow2(d - 1)
  {
    MulMono(1, x, u);
    if d >= 1 {
      Twice(h, Pow2(d - 1));
    }
  }

  /** The pattern of a normal result. */
  lemma NormalResult(u: int, p: nat, x: int, h: int, d: nat, w: int)
    requires u == Pow2(p) && x * u == h * Pow2(d) && u <= h < 2 * u && d >= p
    requires w == (d - p) * u + h
    ensures w >= 0 && Val(u, w) == x
  {
    ValShift(u, h, d - p);
    Pow2Add(d - p, p);
    Associate(h, Pow2(d - p), u);
    Cancel(h * Pow2(d - p), x, u);
  }

  /** A subnormal result: the shift drops no set bit. */
  lemma SubnormalResult(u: int, p: nat, x: int, h: int, d: nat)
    requires u == Pow2(p) && x * u == h * Pow2(d) && u <= h < 2 * u && d < p
    ensures h == x * Pow2(p - d) && h / Pow2(p - d) == x && h % Pow2(p - d) == 0
    ensures 0 <= x < u && Val(u, x) == x
  {
    var k := Pow2(p - d);
    Pow2Add(p - d, d);
    Associate(x, k, Pow2(d));
    Cancel(h, x * k, Pow2(d));
    DivMod(h, k, x, 0);
    Pow2Mono(0, p - d);
    if x >= u {
      MulMono(u, x, k);
      MulMono(2, k, u);
    }
    Positive(x, k);
  }

  lemma Positive(x: int, k: int)
    requires k >= 1 && x * k >= 1
    ensures x >= 1
  {
  }

  // ---- Floats ----

  const FLOAT_BITS: nat := 23

  lemma FloatIsPower()
    ensures FLOAT == Pow2(FLOAT_BITS)
  {
    assert Pow2(5) == 32;
    Pow2Add(5, 5);
    Pow2Add(10, 10);
    Pow2Add(20, 3);
  }

  /** |x| and |y| are those the source divides. */
  predicate DividesFloat(x: u32, y: u32) {
    Magnitude(y) != 0 && Magnitude(x) < FLOAT_INF && Magnitude(y) <= FLOAT_INF
  }

  lemma SubnormalLevel(h: u32, e: int)
    requires 0 < h < FLOAT && e <= -126 && SIGN <= 256 * (h * Pow2(-126 - e)) < WORD
    ensures -149 <= e <= -127
  {
    FloatIsPower();
    assert Pow2(0) == 1;
    if e < -149 {
      Pow2Mono(FLOAT_BITS, -126 - e);
      MulMono(1, h, Pow2(-126 - e));
    }
  }

  /**
   * The exponent of a finite nonzero float. The loops test i > 0 for x and i >= 0 for y; no set bit is lost
   * before the sign is reached, so i is never zero and both stop at the same place.
   */
  method Ilogbf(h: u32) returns (e: int)
    requires 0 < h < FLOAT_INF
    ensures h >= FLOAT ==> e == h / FLOAT - 127
    ensures h < FLOAT ==> -149 <= e <= -127 && FLOAT <= h * Pow2(-126 - e) < 2 * FLOAT
  {
    if h < FLOAT {
      e := IlogbSubnormal(h);
    } else {
      e := h / FLOAT - 127;
    }
  }

  /** The loop for subnormal numbers. */
  method IlogbSubnormal(h: u32) returns (e: int)
    requires 0 < h < FLOAT
    ensures -149 <= e <= -127 && FLOAT <= h * Pow2(-126 - e) < 2 * FLOAT
  {
    assert Pow2(0) == 1;
    var i: u32 := h * 256;
    e := -126;
    while 0 < i < SIGN
      invariant e <= -126 && 0 < i == 256 * (h * Pow2(-126 - e))
      decreases WORD - i
    {
      Twice(h, Pow2(-126 - e));
      i := 2 * i % WORD;
      e := e - 1;
    }
    SubnormalLevel(h, e);
  }

  method Significandf(h: u32, e: int) returns (m: u32)
    requires 0 < h < FLOAT_INF
    requires h >= FLOAT ==> e == h / FLOAT - 127
    requires h < FLOAT ==> -149 <= e <= -127 && FLOAT <= h * Pow2(-126 - e) < 2 * FLOAT
    ensures e >= -149 && Scaled(FLOAT, h, m, e + 149)
  {
    FloatIsPower();
    if e >= -126 {
      m := Or(FLOAT, h % FLOAT, FLOAT);
      NormalScaled(FLOAT, FLOAT_BITS, h / FLOAT, h % FLOAT);
    } else {
      m := Shl(h, -126 - e);
      SubnormalScaled(FLOAT, FLOAT_BITS, h, -126 - e);
    }
  }

  /** The exponent and the significand of a finite nonzero float. */
  method Decomposef(h: u32) returns (m: u32, e: int)
    requires 0 < h < FLOAT_INF
    ensures -149 <= e <= 127 && Scaled(FLOAT, h, m, e + 149)
  {
    e := Ilogbf(h);
    m := Significandf(h, e);
  }

  /** The fixed-point loop: h is what a * 2^n leaves, or found says that it left nothing on the way. */
  method Reduce(a: u32, b: u32, n: nat) returns (h: i32, zero: bool, t: nat, ghost q: int)
    requires FLOAT <= a < 2 * FLOAT && FLOAT <= b < 2 * FLOAT
    ensures if zero then h == b else t == 0 && h < b
    ensures Left(a, n, b, q, h, t)
  {
    h, q, t, zero := a, 0, n, false;
    while t != 0
      invariant 0 <= t <= n && Left(a, n, b, q, h, t)
    {
      var hz: i32 := h - b;
      if hz < 0 {
        Shifted(a, n, b, q, h, t);
        h := h + h;
      } else {
        if hz == 0 {
          zero := true;
          return;
        }
        Subtracted(a, n, b, q, h, t);
        Shifted(a, n, b, q + Pow2(t), hz, t);
        q := q + Pow2(t);
        h := hz + hz;
      }
      t := t - 1;
    }
    var hz: i32 := h - b;
    if hz >= 0 {
      Subtracted(a, n, b, q, h, t);
      q := q + Pow2(t);
      h := hz;
    }
  }

  /** Shifts the leading bit into its place. */
  method ShiftUp(h: int, e: int, ghost v: nat) returns (hx: int, iy: int)
    requires 0 < h < 2 * FLOAT && -149 <= e <= 127 && v >= 1 && v * FLOAT == h * Pow2(e + 149)
    ensures FLOAT <= hx < 2 * FLOAT && -149 <= iy <= 127 && v * FLOAT == hx * Pow2(iy + 149)
  {
    hx, iy := h, e;
    while hx < FLOAT
      invariant -149 <= iy <= 127 && 0 < hx < 2 * FLOAT
      invariant v * FLOAT == hx * Pow2(iy + 149)
      decreases 2 * FLOAT - hx
    {
      RoomToShift(FLOAT, v, hx, iy + 149);
      hx := hx + hx;
      iy := iy - 1;
    }
  }

  /** Puts a nonzero remainder of h * 2^(e + 149) / FLOAT units back into a float pattern. */
  method Packf(h: int, e: int, sx: u32, ghost v: nat) returns (w: u32)
    requires 0 < h < 2 * FLOAT && -149 <= e <= 127 && (sx == 0 || sx == SIGN)
    requires 1 <= v < Val(FLOAT, FLOAT_INF) && v * FLOAT == h * Pow2(e + 149)
    ensures SignBit(w) == sx && Val(FLOAT, Magnitude(w)) == v
  {
    FloatIsPower();
    var hx, iy := ShiftUp(h, e, v);
    if iy >= -126 {
      hx := PackNormalf(hx, iy, v);
    } else {
      SubnormalResult(FLOAT, FLOAT_BITS, v, hx, iy + 149);
      hx := Shr(hx, -126 - iy);
    }
    w := Or(sx, hx, SIGN);
  }

  /** The exponent takes the place of the leading bit. */
  method PackNormalf(h: int, iy: int, ghost v: nat) returns (hx: int)
    requires FLOAT <= h < 2 * FLOAT && -126 <= iy <= 127 && FLOAT == Pow2(FLOAT_BITS)
    requires v < Val(FLOAT, FLOAT_INF) && v * FLOAT == h * Pow2(iy + 149)
    ensures 0 <= hx < FLOAT_INF && Val(FLOAT, hx) == v
  {
    NormalResult(FLOAT, FLOAT_BITS, v, h, iy + 149, (iy + 126) * FLOAT + h);
    ValOrder(FLOAT, (iy + 126) * FLOAT + h, FLOAT_INF);
    hx := Or((iy + 127) * FLOAT, h - FLOAT, FLOAT);
  }

  /** The part of fmodf that divides: y is smaller than x and neither is zero or infinite. */
  method Dividef(hx: u32, hy: u32, sx: u32) returns (w: u32)
    requires 0 < hy < hx < FLOAT_INF && (sx == 0 || sx == SIGN)
    ensures SignBit(w) == sx && Val(FLOAT, Magnitude(w)) == Val(FLOAT, hx) % Val(FLOAT, hy)
  {
    var a, ix := Decomposef(hx);
    var b, iy := Decomposef(hy);
    ScalesOrdered(FLOAT, hx, a, ix + 149, hy, b, iy + 149);
    var h, zero, t, q := Reduce(a, b, ix - iy);
    Finished(FLOAT, hx, a, ix + 149, hy, b, iy + 149, q, h, t, FLOAT_INF);
    if zero || h == 0 {
      return sx;
    }
    w := Packf(h, iy, sx, Val(FLOAT, hx) % Val(FLOAT, hy));
  }

  lemma NoDivision(u: int, v: nat, w: nat)
    requires u >= 1 && w >= 1
    ensures v < w ==> Val(u, v) % Val(u, w) == Val(u, v)
    ensures v == w ==> Val(u, v) % Val(u, w) == 0
  {
    ValOrder(u, v, w);
    if v < w {
      DivMod(Val(u, v), Val(u, w), 0, Val(u, v));
    } else if v == w {
      DivMod(Val(u, v), Val(u, w), 1, 0);
    }
  }

  /** |x| mod |y| exactly, with the sign of x; subnormal operands and results included. */
  method Fmodf(x: u32, y: u32) returns (r: Single)
    ensures r.Single? <==> DividesFloat(x, y)
    ensures r.Single? ==> SignBit(r.word) == SignBit(x)
    ensures r.Single? && Magnitude(y) == FLOAT_INF ==> r.word == x
    ensures r.Single? && Magnitude(y) < FLOAT_INF ==>
              Val(FLOAT, Magnitude(r.word)) == Val(FLOAT, Magnitude(x)) % Val(FLOAT, Magnitude(y))
  {
    var sx := SignBit(x);
    var hx := Magnitude(x);
    var hy := Magnitude(y);
    if hy == 0 || hx >= FLOAT_INF || hy > FLOAT_INF {
      return SingleNaN;
    }
    NoDivision(FLOAT, hx, hy);
    if hx < hy {
      return Single(x);
    }
    if hx == hy {
      return Single(sx);
    }
    var w := Dividef(hx, hy, sx);
    return Single(w);
  }
}
