/** The half-even remainder of floats, built on fmodf. */
module RemainderFloat {
  import opened Bytes
  import opened Float
  import opened FmodFloat
  import opened HalfEven

  const FLOATS: Format := Format(FLOAT, FLOAT_INF)

  /** The value of a finite float pattern. */
  function Signed(x: u32): (v: int)
    ensures Abs(v) == Val(FLOAT, Magnitude(x))
  {
    WithSign(Negative(x), Val(FLOAT, Magnitude(x)))
  }

  /** The pattern of a finite value; an exact zero difference is +0. */
  function Pattern(v: int): (w: u32)
    requires Finite(FLOATS, v)
    ensures Magnitude(w) < FLOAT_INF && Signed(w) == v
    ensures v == 0 ==> w == 0
  {
    EncodeFinite(FLOATS, Abs(v));
    Assemble(v < 0, Encode(FLOAT, Abs(v)))
  }

  /** hx ^ sx, for a sign bit sx. */
  function Flip(hx: u32, sx: u32): (w: u32)
    requires sx == 0 || sx == SIGN
    ensures Signed(w) == WithSign(sx != 0, Signed(hx))
    ensures Magnitude(w) == Magnitude(hx)
  {
    if sx == 0 then hx else Assemble(!Negative(hx), Magnitude(hx))
  }

  /** What |x| leaves modulo 2|p|. */
  ghost predicate LeftOf(x: u32, p: u32, v: int)
    requires Magnitude(p) > 0
  {
    && v == Val(FLOAT, Magnitude(x)) % (2 * Val(FLOAT, Magnitude(p)))
    && v < 2 * Val(FLOAT, Magnitude(p))
  }

  /** x - k * p for the k nearest to x / p, ties to even, computed without rounding. */
  method Remainderf(x: u32, p: u32) returns (r: Single)
    ensures r.Single? <==> DividesFloat(x, p)
    ensures r.Single? && Magnitude(p) < FLOAT_INF ==> IsRemainder(Signed(x), Signed(p), Signed(r.word))
    ensures r.Single? && Magnitude(p) == FLOAT_INF ==> Signed(r.word) == Signed(x)
    ensures r.Single? && Magnitude(r.word) == 0 ==> r.word == SignBit(x)
  {
    var sx, hp, hx := SignBit(x), Magnitude(p), Magnitude(x);
    if hp == 0 {
      return SingleNaN;
    }
    if hx >= FLOAT_INF || hp > FLOAT_INF {
      return SingleNaN;
    }
    var v := ModuloTwice(x, p);
    if hx - hp == 0 {
      ZeroRemainder(x, p);
      return Single(sx);
    }
    var a := ReduceHalfEven(FLOATS, v, hp);
    if hp < FLOAT_INF {
      Restored(x, p, v, a);
    }
    var w := SetSign(a, sx);
    return Single(w);
  }

  /** The last three lines: a zero loses its sign, and the sign of x is put in by exclusive or. */
  method SetSign(a: int, sx: u32) returns (w: u32)
    requires Finite(FLOATS, a) && (sx == 0 || sx == SIGN)
    ensures Signed(w) == WithSign(sx != 0, a) && (Magnitude(w) == 0 ==> w == sx)
  {
    w := Pattern(a);
    if Magnitude(w) == 0 {
      w := 0;
    }
    w := Flip(w, sx);
  }

  lemma Restored(x: u32, p: u32, v: int, a: int)
    requires Magnitude(p) > 0 && LeftOf(x, p, v) && Nearest(v, Val(FLOAT, Magnitude(p)), a)
    ensures IsRemainder(Signed(x), Signed(p), WithSign(Negative(x), a))
  {
    ModTwice(Val(FLOAT, Magnitude(x)), Val(FLOAT, Magnitude(p)), a);
    WithSigns(Val(FLOAT, Magnitude(x)), Val(FLOAT, Magnitude(p)), a, Negative(x), Negative(p));
  }

  lemma ZeroRemainder(x: u32, p: u32)
    requires Magnitude(x) == Magnitude(p) && Magnitude(p) != 0
    ensures IsRemainder(Signed(x), Signed(p), 0)
  {
    assert RemainderBy(Signed(x), Signed(p), 0, if Negative(x) == Negative(p) then 1 else -1);
  }

  /** |x| mod 2|p|: by fmodf while 2p is a float, and otherwise because |x| is already less than 2|p|. */
  method ModuloTwice(x: u32, p: u32) returns (v: int)
    requires DividesFloat(x, p)
    ensures v >= 0 && Finite(FLOATS, v)
    ensures Magnitude(p) < FLOAT_INF ==> LeftOf(x, p, v)
    ensures Magnitude(p) == FLOAT_INF ==> v == Val(FLOAT, Magnitude(x))
  {
    var hp, hx := Magnitude(p), Magnitude(x);
    FiniteVal(FLOATS, hx);
    if hp <= 0x7EFF_FFFF {
      var y := AddSelf(p);
      var r := Fmodf(x, y);
      v := Val(FLOAT, Magnitude(r.word));
      ValEncode(FLOAT, Magnitude(r.word));
      RemainderShrinks(Val(FLOAT, hx), 2 * Val(FLOAT, hp));
    } else {
      v := Val(FLOAT, hx);
      if hp < FLOAT_INF {
        AlreadyReduced(FLOATS, hx, hp);
      }
    }
  }

  /** p + p, which does not overflow for these p. */
  method AddSelf(p: u32) returns (y: u32)
    requires 0 < Magnitude(p) <= 0x7EFF_FFFF
    ensures 0 < Magnitude(y) < FLOAT_INF && Val(FLOAT, Magnitude(y)) == 2 * Val(FLOAT, Magnitude(p))
  {
    DoubleIsFinite(FLOATS, Magnitude(p));
    y := Flip(Pattern(Exact(FLOATS, 2 * Val(FLOAT, Magnitude(p)))), SignBit(p));
  }
}
