/**
 * The half-even remainder of doubles, built on fmod. Its last lines clear the sign of the reduced x whenever
 * the high word of that is zero, which is right for a zero only.
 */
module RemainderDouble {
  import opened Arithmetic
  import opened Bytes
  import opened Float
  import opened FmodDouble
  import opened HalfEven

  const DOUBLES: Format := Format(DOUBLE, DOUBLE_INF)

  /** The words of a finite value; an exact zero difference is +0. */
  method Pattern(v: int) returns (h: u32, l: u32)
    requires Finite(DOUBLES, v)
    ensures Magnitude64(h, l) < DOUBLE_INF && Signed64(h, l) == v
    ensures Negative(h) <==> v < 0
  {
    EncodeFinite(DOUBLES, Abs(v));
    var w := Encode(DOUBLE, Abs(v));
    h, l := Assemble(v < 0, w / WORD), w % WORD;
  }

  /** What |x| leaves modulo 2|p|. */
  ghost predicate LeftOf(x: nat, p: nat, v: int)
    requires p > 0
  {
    v == Val(DOUBLE, x) % (2 * Val(DOUBLE, p)) && v < 2 * Val(DOUBLE, p)
  }

  /**
   * a is the remainder of |x| by |p|; its sign survives unless the high word of a negative a is zero, that is,
   * unless a is negative but above -2^32 units.
   */
  ghost predicate SignLost(a: int) {
    -WORD < a < 0
  }

  method Remainder(xh: u32, xl: u32, ph: u32, pl: u32) returns (r: Double, ghost a: int)
    ensures r.Double? <==> Divides(xh, xl, ph, pl)
    ensures r.Double? && Magnitude64(ph, pl) < DOUBLE_INF ==>
              && IsRemainder(Abs(Signed64(xh, xl)), Abs(Signed64(ph, pl)), a)
              && Signed64(r.high, r.low) == WithSign(Negative(xh), if SignLost(a) then -a else a)
              && (IsRemainder(Signed64(xh, xl), Signed64(ph, pl), Signed64(r.high, r.low))
                  <==> !LosesSign(Abs(Signed64(xh, xl)), Abs(Signed64(ph, pl))))
    ensures r.Double? && Magnitude64(ph, pl) == DOUBLE_INF ==> Signed64(r.high, r.low) == Signed64(xh, xl)
    ensures r.Double? && Magnitude64(r.high, r.low) == 0 ==> r == Double(SignBit(xh), 0)
  {
    a := 0;
    var sx, hp, hx := SignBit(xh), Magnitude(ph), Magnitude(xh);
    if hp == 0 && pl == 0 {
      return DoubleNaN, 0;
    }
    if hx >= HIGH_INF || (hp >= HIGH_INF && !(hp - HIGH_INF == 0 && pl == 0)) {
      return DoubleNaN, 0;
    }
    var v := ModuloTwice(xh, xl, ph, pl);
    if hx - hp == 0 && xl == pl {
      ZeroRemainder(Val(DOUBLE, hp * WORD + pl));
      Judged(xh, xl, ph, pl, 0, 0);
      return Double(sx, 0), 0;
    }
    var b := ReduceHalfEven(DOUBLES, v, hp * WORD + pl);
    a := b;
    if hp * WORD + pl < DOUBLE_INF {
      Restored(hx * WORD + xl, hp * WORD + pl, v, a);
    }
    var h, l := SetSign(b, sx);
    r := Double(h, l);
    if hp * WORD + pl < DOUBLE_INF {
      Judged(xh, xl, ph, pl, a, Signed64(h, l));
    }
  }

  lemma Judged(xh: u32, xl: u32, ph: u32, pl: u32, a: int, r: int)
    requires Magnitude64(ph, pl) > 0 && IsRemainder(Abs(Signed64(xh, xl)), Abs(Signed64(ph, pl)), a)
    requires r == WithSign(Negative(xh), if SignLost(a) then -a else a)
    ensures Abs(Signed64(ph, pl)) >= 1
    ensures IsRemainder(Signed64(xh, xl), Signed64(ph, pl), r)
            <==> !LosesSign(Abs(Signed64(xh, xl)), Abs(Signed64(ph, pl)))
  {
    RemainderOfWords(Signed64(xh, xl), Signed64(ph, pl), a, r, Negative(xh));
  }

  lemma ZeroRemainder(p: nat)
    requires p > 0
    ensures IsRemainder(p, p, 0)
  {
    assert RemainderBy(p, p, 0, 1);
  }

  lemma Restored(x: nat, p: nat, v: int, a: int)
    requires p > 0 && LeftOf(x, p, v) && Nearest(v, Val(DOUBLE, p), a)
    ensures IsRemainder(Val(DOUBLE, x), Val(DOUBLE, p), a)
  {
    ModTwice(Val(DOUBLE, x), Val(DOUBLE, p), a);
  }

  /** |x| mod 2|p|, as in the float version. */
  method ModuloTwice(xh: u32, xl: u32, ph: u32, pl: u32) returns (v: int)
    requires Divides(xh, xl, ph, pl)
    ensures v >= 0 && Finite(DOUBLES, v)
    ensures Magnitude64(ph, pl) < DOUBLE_INF ==> LeftOf(Magnitude64(xh, xl), Magnitude64(ph, pl), v)
    ensures Magnitude64(ph, pl) == DOUBLE_INF ==> v == Val(DOUBLE, Magnitude64(xh, xl))
  {
    ghost var x, p := Magnitude64(xh, xl), Magnitude64(ph, pl);
    FiniteVal(DOUBLES, x);
    if Magnitude(ph) <= 0x7FDF_FFFF {
      var yh, yl := AddSelf(ph, pl);
      var r := Fmod(xh, xl, yh, yl);
      v := Val(DOUBLE, Magnitude64(r.high, r.low));
      ValEncode(DOUBLE, Magnitude64(r.high, r.low));
      RemainderShrinks(Val(DOUBLE, x), 2 * Val(DOUBLE, p));
    } else {
      v := Val(DOUBLE, Magnitude64(xh, xl));
      if p < DOUBLE_INF {
        AlreadyReduced(DOUBLES, x, p);
      }
    }
  }

  /** p + p, which does not overflow for these p. */
  method AddSelf(ph: u32, pl: u32) returns (yh: u32, yl: u32)
    requires 0 < Magnitude64(ph, pl) && Magnitude(ph) <= 0x7FDF_FFFF
    ensures 0 < Magnitude64(yh, yl) < DOUBLE_INF
    ensures Val(DOUBLE, Magnitude64(yh, yl)) == 2 * Val(DOUBLE, Magnitude64(ph, pl))
  {
    DoubleIsFinite(DOUBLES, Magnitude64(ph, pl));
    yh, yl := Pattern(Exact(DOUBLES, 2 * Val(DOUBLE, Magnitude64(ph, pl))));
  }

  /** The last three lines: they look at the high word only. */
  method SetSign(a: int, sx: u32) returns (h: u32, l: u32)
    requires Finite(DOUBLES, a) && (sx == 0 || sx == SIGN)
    ensures Signed64(h, l) == WithSign(sx != 0, if SignLost(a) then -a else a)
    ensures Magnitude64(h, l) == 0 ==> h == sx && l == 0
  {
    h, l := Pattern(a);
    HighWordZero(h, l);
    if Magnitude(h) == 0 {
      h := 0;
    }
    if sx != 0 {
      h := Assemble(!Negative(h), Magnitude(h));
    }
  }

  /** The high word is zero just below 2^32 units. */
  lemma HighWordZero(h: u32, l: u32)
    ensures Magnitude(h) == 0 <==> Abs(Signed64(h, l)) < WORD
  {
    ValOrder(DOUBLE, Magnitude64(h, l), WORD);
  }

  /**
   * The operands that lose it, x >= 0 and p > 0: x lies above the middle between two multiples of p, or on it
   * with an odd multiple below, and the multiple above is less than 2^32 units away.
   */
  predicate LosesSign(x: int, p: int)
    requires p >= 1
  {
    var m := x % p;
    (2 * m > p || (2 * m == p && x / p % 2 == 1)) && p - m < WORD
  }

  /** Rounding the quotient up leaves a negative remainder. */
  lemma SignLostIff(x: nat, p: nat, a: int)
    requires p >= 1 && IsRemainder(x, p, a)
    ensures SignLost(a) <==> LosesSign(x, p)
  {
    Euclid(x, p);
    RoundedQuotient(x, p, x % p, x / p, a);
  }

  lemma RoundedQuotient(x: nat, p: nat, m: int, q: int, a: int)
    requires p >= 1 && IsRemainder(x, p, a) && x == p * q + m && 0 <= m < p
    ensures a == if 2 * m > p || (2 * m == p && q % 2 == 1) then m - p else m
  {
    if 2 * m > p || (2 * m == p && q % 2 == 1) {
      assert (q + 1) * p == p * q + p;
      assert RemainderBy(x, p, m - p, q + 1);
      RemainderUnique(x, p, a, m - p);
    } else {
      assert RemainderBy(x, p, m, q);
      RemainderUnique(x, p, a, m);
    }
  }

  /** What the source returns is the remainder of IEEE 754 if and only if the operands do not lose the sign. */
  lemma RemainderIff(x: int, p: int, a: int, r: int)
    requires p != 0 && IsRemainder(Abs(x), Abs(p), a)
    requires r == WithSign(x < 0, if SignLost(a) then -a else a)
    ensures IsRemainder(x, p, r) <==> !LosesSign(Abs(x), Abs(p))
  {
    SignLostIff(Abs(x), Abs(p), a);
    WithSigns(Abs(x), Abs(p), a, x < 0, p < 0);
    if SignLost(a) && IsRemainder(x, p, r) {
      RemainderUnique(x, p, r, WithSign(x < 0, a));
    }
  }

  /** The same, with the sign bit of x, which a zero has too. */
  lemma RemainderOfWords(x: int, p: int, a: int, r: int, negative: bool)
    requires p != 0 && IsRemainder(Abs(x), Abs(p), a) && (x != 0 ==> negative == (x < 0))
    requires r == WithSign(negative, if SignLost(a) then -a else a)
    ensures IsRemainder(x, p, r) <==> !LosesSign(Abs(x), Abs(p))
  {
    if x == 0 {
      assert RemainderBy(0, Abs(p), 0, 0);
      RemainderUnique(0, Abs(p), a, 0);
    }
    RemainderIff(x, p, a, r);
  }

  /** Three units by four: the remainder is -1, and the words that come back say +1. */
  method SignLostAtThreeByFour() returns (r: Double)
    ensures r.Double? && Signed64(r.high, r.low) == 1
    ensures !IsRemainder(3, 4, 1)
  {
    ghost var a;
    r, a := Remainder(0, 3, 0, 4);
    assert RemainderBy(3, 4, -1, 1);
    RemainderUnique(3, 4, a, -1);
    if IsRemainder(3, 4, 1) {
      RemainderUnique(3, 4, 1, -1);
    }
  }
}
