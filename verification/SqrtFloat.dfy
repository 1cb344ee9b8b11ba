/** Square roots bit by bit: what the digit recurrence keeps, the rounding it ends with, and sqrtf. */
module SqrtFloat {
  import opened Arithmetic
  import opened Bytes
  import opened Float
  import opened FmodFloat

  /**
   * After all but k bits: q is the root so far, x is the remainder scaled by the moving bit, and the root of c
   * lies less than 2^k above q.
   */
  ghost predicate Rooting(c: int, q: int, x: int, k: nat) {
    && q >= 0 && x >= 0
    && x * Pow2(k) == 2 * (c - q * q)
    && c < (q + Pow2(k)) * (q + Pow2(k))
  }

  lemma BitTaken(c: int, q: int, x: int, k: nat)
    requires k >= 1 && Rooting(c, q, x, k) && 2 * q + Pow2(k - 1) <= x
    ensures Rooting(c, q + Pow2(k - 1), 2 * (x - (2 * q + Pow2(k - 1))), k - 1)
  {
    var r := Pow2(k - 1);
    assert Pow2(k) == 2 * r;
    assert 2 * (x - (2 * q + r)) * r == x * (2 * r) - 2 * (2 * q * r + r * r);
    assert (q + r) * (q + r) == q * q + 2 * q * r + r * r;
  }

  lemma BitLeft(c: int, q: int, x: int, k: nat)
    requires k >= 1 && Rooting(c, q, x, k) && 2 * q + Pow2(k - 1) > x
    ensures Rooting(c, q, 2 * x, k - 1)
  {
    assert Pow2(k) == 2 * Pow2(k - 1);
    StillBelow(c, q, x, Pow2(k - 1));
  }

  lemma StillBelow(c: int, q: int, x: int, r: int)
    requires r >= 1 && x * (2 * r) == 2 * (c - q * q) && 2 * q + r > x
    ensures 2 * x * r == 2 * (c - q * q) && c < (q + r) * (q + r)
  {
    assert 2 * x * r == x * (2 * r);
    MulStrict(x, 2 * q + r, 2 * r);
    TrialProducts(q, r);
  }

  lemma TrialProducts(q: int, r: int)
    ensures (2 * q + r) * (2 * r) == 4 * (q * r) + 2 * (r * r)
    ensures (q + r) * (q + r) == q * q + 2 * (q * r) + r * r
  {
  }

  /** The start: nothing but the radicand, whose root is below 4u. */
  lemma RootingStarts(u: int, p: nat, n: int)
    requires u == Pow2(p) && 0 <= n < 4 * u
    ensures Rooting(n * (4 * u), 0, 2 * n, p + 2)
  {
    assert Pow2(p + 2) == 2 * Pow2(p + 1);
    MulStrict(n, 4 * u, 4 * u);
  }

  lemma SquareMono(a: int, b: int)
    requires 0 <= a <= b
    ensures a * a <= b * b
  {
    MulMono(a, b, a);
    MulMono(a, b, b);
  }

  /** The floor root of n * 4u is a proper significand with one guard bit. */
  lemma RootRange(u: int, n: int, q: int, x: int)
    requires u >= 1 && u <= n <= 4 * u - 2 && Rooting(n * (4 * u), q, x, 0)
    ensures 2 * u <= q <= 4 * u - 2 && q * q <= n * (4 * u) < (q + 1) * (q + 1)
    ensures x == 0 <==> q * q == n * (4 * u)
  {
    MulMono(u, n, 4 * u);
    MulMono(n, 4 * u - 2, 4 * u);
    assert (2 * u) * (2 * u) == u * (4 * u);
    assert (4 * u - 1) * (4 * u - 1) == (4 * u - 2) * (4 * u) + 1;
    if q < 2 * u {
      SquareMono(q + 1, 2 * u);
    }
    if q >= 4 * u - 1 {
      SquareMono(4 * u - 1, q);
    }
  }

  /** An odd root is never exact, so rounding half a unit up at q odd always has something to round. */
  lemma OddIsInexact(u: int, n: int, q: int)
    requires q % 2 == 1
    ensures q * q != n * (4 * u)
  {
    var h := q / 2;
    assert q * q == 2 * (2 * h * h + 2 * h) + 1 by {
      assert q == 2 * h + 1;
    }
    assert n * (4 * u) == 2 * (2 * n * u);
  }

  /** The significand the source rounds to. */
  function RoundedRoot(q: int, x: int): (k: int)
  {
    (if x != 0 then q + q % 2 else q) / 2
  }

  /** The rounded root lies strictly between the midpoints around it, and needs no carry into the exponent. */
  lemma RootRounded(u: int, n: int, q: int, x: int)
    requires u >= 1 && u <= n <= 4 * u - 2 && Rooting(n * (4 * u), q, x, 0)
    ensures var k := RoundedRoot(q, x);
            && u <= k < 2 * u
            && (2 * k - 1) * (2 * k - 1) < n * (4 * u) < (2 * k + 1) * (2 * k + 1)
            && (2 * u) * (2 * u) <= n * (4 * u)
  {
    RootRange(u, n, q, x);
    var k := RoundedRoot(q, x);
    MulMono(u, n, 4 * u);
    assert (2 * u) * (2 * u) == u * (4 * u);
    if q % 2 == 0 {
      SquareStrict(2 * k - 1, q);
    } else {
      OddIsInexact(u, n, q);
      SquareStrict(q + 1, 2 * k + 1);
    }
  }

  lemma SquareStrict(a: int, b: int)
    requires 0 <= a < b
    ensures a * a < b * b
  {
    MulMono(a, b, a);
    MulStrict(a, b, b);
  }

  /**
   * w is the correctly rounded root of x units of 2^-e: every other number is on the far side of the midpoint
   * between it and w, and no midpoint is the root itself.
   */
  ghost predicate NearestRoot(u: int, e: nat, x: nat, w: nat)
    requires u >= 1
  {
    && (forall v: nat :: v < w ==> Square(Val(u, v) + Val(u, w)) < 4 * (x * Pow2(e)))
    && (forall v: nat :: v > w ==> Square(Val(u, v) + Val(u, w)) > 4 * (x * Pow2(e)))
  }

  /** At most one number is the correctly rounded root. */
  lemma NearestRootUnique(u: int, e: nat, x: nat, v: nat, w: nat)
    requires u >= 1 && NearestRoot(u, e, x, v) && NearestRoot(u, e, x, w)
    ensures v == w
  {
    var a, b := Val(u, v), Val(u, w);
    assert Square(a + b) == Square(b + a);
  }

  function Square(a: int): int {
    a * a
  }

  /** The spacing around the result k * 2^j. */
  lemma NextAbove(u: int, k: int, j: nat, w: nat)
    requires 1 <= u <= k < 2 * u && w == k + j * u
    ensures Val(u, w) == k * Pow2(j)
    ensures Val(u, w + 1) == (k + 1) * Pow2(j)
  {
    ValShift(u, k, j);
    if k + 1 == 2 * u {
      Doubled(u, u, k + 1);
    }
    ValShift(u, k + 1, j);
  }

  lemma NextBelow(u: int, k: int, j: nat, w: nat)
    requires 1 <= u < k < 2 * u && w == k + j * u
    ensures w >= 1 && Val(u, w - 1) == (k - 1) * Pow2(j)
  {
    ValShift(u, k - 1, j);
  }

  lemma NextBelowPower(u: int, j: nat, w: nat)
    requires u >= 1 && j >= 1 && w == u + j * u
    ensures w >= 1 && Val(u, w - 1) == (2 * u - 1) * Pow2(j - 1)
  {
    ValShift(u, 2 * u - 1, j - 1);
    assert (j - 1) * u + u == j * u;
  }

  lemma ScaledSquares(a: int, b: int, s: int)
    ensures (a * s) * (a * s) == (a * a) * (s * s)
    ensures a * s + b * s == (a + b) * s
  {
    Associate(a, s, a * s);
    Associate(s, a, s);
    assert s * (a * s) == a * (s * s);
    Associate(a, a, s * s);
  }

  lemma AboveMidpoint(u: int, k: int, j: nat, c: int, w: nat, v: nat)
    requires 1 <= u <= k < 2 * u && j >= 1 && w == k + j * u && v > w
    requires c < Square(2 * k + 1)
    ensures Square(Val(u, v) + Val(u, w)) > c * Square(Pow2(j))
  {
    NextAbove(u, k, j, w);
    NotAbove(u, w + 1, v);
    Above(k, Pow2(j), c, Val(u, v), Val(u, w));
  }

  lemma Above(k: int, s: int, c: int, high: nat, low: nat)
    requires k >= 1 && s >= 1 && high >= (k + 1) * s && low == k * s && c < Square(2 * k + 1)
    ensures Square(high + low) > c * Square(s)
  {
    ScaledSquares(k + 1, k, s);
    ScaledSquares(2 * k + 1, 0, s);
    MulMono(0, 2 * k + 1, s);
    SquareMono((2 * k + 1) * s, high + low);
    MulMono(1, s, s);
    MulStrict(c, Square(2 * k + 1), s * s);
  }

  lemma AtMost(a: nat, b: nat, m: int, s: int)
    requires a <= b && b == m * s
    ensures a <= m * s
  {
  }

  lemma BelowPowerMidpoint(u: int, j: nat, c: int, w: nat, v: nat)
    requires u >= 1 && j >= 1 && w == u + j * u && v < w && Val(u, w) == u * Pow2(j) && Val(u, v) <= Val(u, w - 1)
    requires Square(2 * u) <= c
    ensures Square(Val(u, v) + Val(u, w)) < c * Square(Pow2(j))
  {
    NextBelowPower(u, j, w);
    AtMost(Val(u, v), Val(u, w - 1), 2 * u - 1, Pow2(j - 1));
    BelowPower(u, Pow2(j - 1), Pow2(j), c, Val(u, v), Val(u, w));
  }

  lemma BelowMidpoint(u: int, k: int, j: nat, c: int, w: nat, v: nat)
    requires 1 <= u <= k < 2 * u && j >= 1 && w == k + j * u && v < w
    requires Square(2 * k - 1) < c && Square(2 * u) <= c
    ensures Square(Val(u, v) + Val(u, w)) < c * Square(Pow2(j))
  {
    NextAbove(u, k, j, w);
    NotAbove(u, v, w - 1);
    if k > u {
      NextBelow(u, k, j, w);
      AtMost(Val(u, v), Val(u, w - 1), k - 1, Pow2(j));
      BelowInside(k, Pow2(j), c, Val(u, v), Val(u, w));
    } else {
      BelowPowerMidpoint(u, j, c, w, v);
    }
  }

  lemma NotAbove(u: int, a: nat, b: nat)
    requires u >= 1 && a <= b
    ensures Val(u, a) <= Val(u, b)
  {
    ValOrder(u, a, b);
  }

  lemma BelowInside(k: int, s: int, c: int, low: nat, high: nat)
    requires k >= 1 && s >= 1 && low <= (k - 1) * s && high == k * s && Square(2 * k - 1) < c
    ensures Square(low + high) < c * Square(s)
  {
    ScaledSquares(k - 1, k, s);
    ScaledSquares(2 * k - 1, 0, s);
    SquareMono(low + high, (2 * k - 1) * s);
    MulMono(1, s, s);
    MulStrict(Square(2 * k - 1), c, s * s);
  }

  /** Below a power of two the spacing is half as wide. */
  lemma BelowPower(u: int, h: int, s: int, c: int, low: nat, high: nat)
    requires u >= 1 && h >= 1 && s == 2 * h && low <= (2 * u - 1) * h && high == u * s
    requires Square(2 * u) <= c
    ensures Square(low + high) < c * Square(s)
  {
    Twice(u, h);
    ScaledSquares(2 * u - 1, 2 * u, h);
    MulStrict(4 * u - 1, 4 * u, h);
    SquareStrict(low + high, (4 * u) * h);
    ScaledSquares(4 * u, 0, h);
    MulMono(1, h, h);
    MulMono((4 * u) * (4 * u), 4 * c, h * h);
    assert s * s == 4 * (h * h);
  }

  /** The radicand of a normalised operand, in units. */
  lemma Radicand(u: int, p: nat, e: nat, x: nat, a: int, m: int, b: nat, j: nat)
    requires u == Pow2(p) && e >= p && j == m + e - p && 2 * m + b + e >= 0
    requires x * u == a * Pow2(2 * m + b + e)
    ensures x * Pow2(e) == (a * Pow2(b)) * u * (Pow2(j) * Pow2(j))
  {
    var s := Pow2(j);
    Pow2Add(2 * m + b + e, e);
    Pow2Add(b, 2 * j + 2 * p);
    Pow2Add(2 * j, 2 * p);
    Pow2Add(j, j);
    Pow2Add(p, p);
    assert 2 * m + b + e + e == b + (2 * j + 2 * p);
    assert x * u * Pow2(e) == a * (Pow2(b) * ((s * s) * (u * u))) by {
      Associate(a, Pow2(2 * m + b + e), Pow2(e));
    }
    Reorder(x, u, Pow2(e), a, Pow2(b), s * s);
    Cancel(x * Pow2(e), (a * Pow2(b)) * u * (s * s), u);
  }

  lemma Reorder(x: int, u: int, e: int, a: int, b: int, t: int)
    ensures x * u * e == x * e * u
    ensures a * (b * (t * (u * u))) == (a * b) * u * t * u
  {
    Associate(t, u, u);
    assert b * (t * u * u) == b * u * t * u;
    assert a * (b * u * t * u) == (a * b) * u * t * u;
  }

  /** All of it together: k + j * u is the pattern of the correctly rounded root. */
  lemma RootIsNearest(u: int, p: nat, e: nat, x: nat, a: int, m: int, b: nat, q: int, r: int, w: nat)
    requires u == Pow2(p) && e >= p && u <= a < 2 * u && 0 <= b <= 1 && m + e - p >= 1 && 2 * m + b + e >= 0
    requires u >= 2
    requires x * u == a * Pow2(2 * m + b + e)
    requires Rooting(a * Pow2(b) * (4 * u), q, r, 0)
    requires w == RoundedRoot(q, r) + (m + e - p) * u
    ensures NearestRoot(u, e, x, w)
  {
    var n := a * Pow2(b);
    assert Pow2(0) == 1 && Pow2(1) == 2;
    Radicand(u, p, e, x, a, m, b, m + e - p);
    FourTimes(n, u, Pow2(m + e - p) * Pow2(m + e - p));
    RootRounded(u, n, q, r);
    BetweenMidpoints(u, e, x, n * (4 * u), RoundedRoot(q, r), m + e - p, w);
  }

  lemma BetweenMidpoints(u: int, e: nat, x: nat, c: int, k: int, j: nat, w: nat)
    requires 1 <= u <= k < 2 * u && j >= 1 && w == k + j * u
    requires Square(2 * k - 1) < c < Square(2 * k + 1) && Square(2 * u) <= c
    requires 4 * (x * Pow2(e)) == c * Square(Pow2(j))
    ensures NearestRoot(u, e, x, w)
  {
    forall v: nat | v < w ensures Square(Val(u, v) + Val(u, w)) < 4 * (x * Pow2(e)) {
      BelowMidpoint(u, k, j, c, w, v);
    }
    forall v: nat | v > w ensures Square(Val(u, v) + Val(u, w)) > 4 * (x * Pow2(e)) {
      AboveMidpoint(u, k, j, c, w, v);
    }
  }

  lemma FourTimes(n: int, u: int, s: int)
    ensures 4 * (n * u * s) == n * (4 * u) * s
  {
    assert n * (4 * u) == 4 * (n * u);
    assert 4 * (n * u) * s == 4 * (n * u * s);
  }

  /** A subnormal operand shifted until its leading bit is in place. */
  lemma SubnormalOperand(u: int, p: nat, w: nat, n: nat)
    requires u == Pow2(p) && 0 < w < u <= w * Pow2(n) < 2 * u
    ensures 1 <= n <= p && Scaled(u, w, w * Pow2(n), p - n)
  {
    assert Pow2(0) == 1;
    if n > p {
      Pow2Mono(p, n);
      MulMono(1, w, Pow2(n));
    }
    SubnormalScaled(u, p, w, n);
  }

  // ---- Floats ----

  /** The operands that have a root, and for which the source does not answer with the operand itself. */
  predicate PositiveFloat(x: u32) {
    0 < x < FLOAT_INF
  }

  /** A subnormal ix shifted until its leading bit is in place. */
  method NormalizeSubnormalf(x: u32) returns (ix: u32, i: nat)
    requires 0 < x < FLOAT
    ensures FLOAT <= ix < 2 * FLOAT && ix == x * Pow2(i)
  {
    ix, i := x, 0;
    assert Pow2(0) == 1;
    while LeadingBitClear(ix)
      invariant i >= 0 && 0 < ix < 2 * FLOAT && ix == x * Pow2(i)
      decreases 2 * FLOAT - ix
    {
      LeadingBitIff(ix);
      Twice(x, Pow2(i));
      ix := 2 * ix % WORD;
      i := i + 1;
    }
    LeadingBitIff(ix);
  }

  /** (ix & 0x00800000) == 0 */
  predicate LeadingBitClear(ix: u32)
  {
    ix / FLOAT % 2 == 0
  }

  lemma LeadingBitIff(ix: u32)
    requires ix < 2 * FLOAT
    ensures LeadingBitClear(ix) <==> ix < FLOAT
  {
  }

  /** The significand with its leading bit in place and the exponent without its bias. */
  method Normalizef(x: u32) returns (ix: u32, m: int)
    requires PositiveFloat(x)
    ensures -149 <= m <= 127 && Scaled(FLOAT, x, ix, m + 149)
  {
    FloatIsPower();
    m := x / FLOAT;
    if m == 0 {
      var i;
      ix, i := NormalizeSubnormalf(x);
      SubnormalOperand(FLOAT, FLOAT_BITS, x, i);
      LeadingBit(ix);
      m := m - (i - 1);
    } else {
      ix := x;
      NormalScaled(FLOAT, FLOAT_BITS, m, x % FLOAT);
    }
    m := m - 127;
    ix := Or(FLOAT, ix % FLOAT, FLOAT);
  }

  lemma LeadingBit(ix: u32)
    requires FLOAT <= ix < 2 * FLOAT
    ensures FLOAT + ix % FLOAT == ix
  {
  }

  /** The root of n * 2^25, bit by bit. */
  method Bits(n: u32) returns (q: i32, ix: i32)
    requires n < 4 * FLOAT
    ensures Rooting(n * (4 * FLOAT), q, ix, 0)
  {
    FloatIsPower();
    ghost var k: nat := 25;
    RootingStarts(FLOAT, FLOAT_BITS, n);
    assert Pow2(24) == 2 * FLOAT && Pow2(25) == 4 * FLOAT;
    ix := n + n;
    q := 0;
    var s: i32 := 0;
    var r: u32 := 0x100_0000;
    while r != 0
      invariant k <= 25 && r == (if k == 0 then 0 else Pow2(k - 1)) && s == 2 * q
      invariant Rooting(n * (4 * FLOAT), q, ix, k) && q + Pow2(k) <= 4 * FLOAT
      decreases k
    {
      RemainderBound(n * (4 * FLOAT), q, ix, k);
      var t: i32 := s + r;
      if t <= ix {
        BitTaken(n * (4 * FLOAT), q, ix, k);
        s := t + r;
        ix := ix - t;
        q := q + r;
      } else {
        BitLeft(n * (4 * FLOAT), q, ix, k);
      }
      ix := ix + ix;
      r := r / 2;
      k := k - 1;
    }
  }

  /** The remainder stays small enough to be doubled. */
  lemma RemainderBound(c: int, q: int, x: int, k: nat)
    requires Rooting(c, q, x, k)
    ensures x < 4 * q + 2 * Pow2(k)
  {
    var p := Pow2(k);
    assert (q + p) * (q + p) - q * q == (2 * q + p) * p;
    if x >= 4 * q + 2 * p {
      MulMono(4 * q + 2 * p, x, p);
    }
  }

  method Rootf(x: u32) returns (w: u32)
    requires PositiveFloat(x)
    ensures w < FLOAT_INF && NearestRoot(FLOAT, 149, Val(FLOAT, x), w)
  {
    var ix, m := Normalizef(x);
    ghost var a, e := ix, m;
    if m % 2 == 1 {
      ix := ix + ix;
    }
    m := m / 2;
    assert Pow2(0) == 1 && Pow2(1) == 2;
    assert ix == a * Pow2(e % 2);
    var q, rest := Bits(ix);
    ghost var floor := q;
    RootRounded(FLOAT, ix, q, rest);
    if rest != 0 {
      q := q + q % 2;
    }
    FloatIsPower();
    w := q / 2 + 0x3F00_0000 + m * FLOAT;
    RootIsNearest(FLOAT, FLOAT_BITS, 149, Val(FLOAT, x), a, m, e % 2, floor, rest, w);
  }

  /** All bits of the exponent field are set. */
  predicate NotFinite(x: u32)
  {
    x / FLOAT % 256 == 255
  }

  lemma SignOfFloat(x: u32)
    ensures Negative(x) <==> x >= SIGN
    ensures !Negative(x) ==> Magnitude(x) == x
  {
  }

  lemma ExponentField(x: u32)
    ensures NotFinite(x) <==> Magnitude(x) >= FLOAT_INF
  {
  }

  /** Rounding to nearest: one - tiny and one + tiny are both one, so an inexact root moves to even. */
  method Sqrtf(x: u32) returns (r: Single)
    ensures r.Single? <==> Magnitude(x) == 0 || x <= FLOAT_INF
    ensures Magnitude(x) == 0 || x == FLOAT_INF ==> r == Single(x)
    ensures PositiveFloat(x) ==> r.word < FLOAT_INF && NearestRoot(FLOAT, 149, Val(FLOAT, x), r.word)
  {
    ExponentField(x);
    SignOfFloat(x);
    if NotFinite(x) {
      return if x == FLOAT_INF then Single(x) else SingleNaN;
    }
    if x == 0 || Negative(x) {
      if Magnitude(x) == 0 {
        return Single(x);
      }
      return SingleNaN;
    }
    var w := Rootf(x);
    return Single(w);
  }
}
