/**
 * Finite IEEE 754 numbers as integers. The bits below the sign are a natural number w, and u is the weight of
 * the implicit leading bit: 2^23 for a float, 2^52 for a double. Val(u, w) is the magnitude of w in units of
 * the smallest subnormal, 2^-149 or 2^-1074.
 */
module Float {
  import opened Arithmetic
  import opened Bytes

  const FLOAT: int := 0x80_0000
  const DOUBLE: int := 0x10_0000_0000_0000

  /** The first bit pattern that is not finite, below the sign: infinity. */
  const FLOAT_INF: int := 255 * FLOAT
  const DOUBLE_INF: int := 2047 * DOUBLE

  /** Adding u to the bits steps the exponent field, which doubles a number that is not subnormal. */
  function Val(u: int, w: nat): (v: nat)
    requires u >= 1
    ensures w < 2 * u ==> v == w
    ensures w >= u ==> v >= u
    ensures v == 0 <==> w == 0
    decreases w
  {
    if w < 2 * u then w else 2 * Val(u, w - u)
  }

  lemma Doubled(u: int, w: nat, up: nat)
    requires 1 <= u <= w && up == w + u
    ensures Val(u, up) == 2 * Val(u, w)
  {
  }

  lemma {:induction false} ValShift(u: int, w: nat, j: nat)
    requires 1 <= u <= w
    ensures w + j * u >= 0 && Val(u, w + j * u) == Val(u, w) * Pow2(j)
  {
    if j > 0 {
      ValShift(u, w, j - 1);
      var before := (j - 1) * u;
      assert j * u == before + u;
      Doubled(u, w + before, w + before + u);
      Twice(Val(u, w), Pow2(j - 1));
    }
  }

  /** The textbook reading of a pattern with exponent field e and fraction f. */
  lemma {:induction false} ValFields(u: int, e: nat, f: nat)
    requires 0 <= f < u
    ensures e * u + f >= 0
    ensures Val(u, e * u + f) == if e == 0 then f else (u + f) * Pow2(e - 1)
  {
    if e > 0 {
      ValShift(u, u + f, e - 1);
      assert u + f + (e - 1) * u == e * u + f;
    }
  }

  lemma {:induction false} ValMono(u: int, a: nat, b: nat)
    requires u >= 1 && a < b
    ensures Val(u, a) < Val(u, b)
    decreases b
  {
    if a >= 2 * u {
      ValMono(u, a - u, b - u);
    } else if b >= 2 * u {
      if a >= u {
        ValMono(u, a - u, b - u);
      }
    }
  }

  lemma ValOrder(u: int, a: nat, b: nat)
    requires u >= 1
    ensures Val(u, a) < Val(u, b) <==> a < b
    ensures Val(u, a) == Val(u, b) <==> a == b
  {
    if a < b {
      ValMono(u, a, b);
    } else if b < a {
      ValMono(u, b, a);
    }
  }

  /** A number that some pattern stands for. */
  predicate Representable(u: int, v: nat)
    requires u >= 1
    decreases v
  {
    v < 2 * u || (v % 2 == 0 && Representable(u, v / 2))
  }

  function Encode(u: int, v: nat): (w: nat)
    requires u >= 1 && Representable(u, v)
    ensures v >= u ==> w >= u
    decreases v
  {
    if v < 2 * u then v else Encode(u, v / 2) + u
  }

  lemma {:induction false} EncodeVal(u: int, v: nat)
    requires u >= 1 && Representable(u, v)
    ensures Val(u, Encode(u, v)) == v
    decreases v
  {
    if v >= 2 * u {
      EncodeVal(u, v / 2);
    }
  }

  lemma {:induction false} ValEncode(u: int, w: nat)
    requires u >= 1
    ensures Representable(u, Val(u, w)) && Encode(u, Val(u, w)) == w
    decreases w
  {
    if w >= 2 * u {
      ValEncode(u, w - u);
      assert Val(u, w) / 2 == Val(u, w - u);
      assert Val(u, w - u) >= u;
    }
  }

  /** What a 32-bit pattern says below its sign. */
  function Magnitude(x: u32): (w: nat)
    ensures w < SIGN
  {
    x % SIGN
  }

  predicate Negative(x: u32) {
    x >= SIGN
  }

  function SignBit(x: u32): (s: u32)
    ensures s == 0 || s == SIGN
    ensures x == s + Magnitude(x)
  {
    x - x % SIGN
  }

  function Assemble(negative: bool, m: int): (w: u32)
    requires 0 <= m < SIGN
    ensures Magnitude(w) == m && Negative(w) == negative
  {
    if negative then m + SIGN else m
  }

  /** The result of a function on floats, or on doubles given as a high and a low word. */
  datatype Single = SingleNaN | Single(word: u32)
  datatype Double = DoubleNaN | Double(high: u32, low: u32)

  /** The 63 bits below the sign of a double. */
  function Magnitude64(high: u32, low: u32): (w: nat)
    ensures w < SIGN * WORD
  {
    Magnitude(high) * WORD + low
  }

  function Abs(x: int): (r: nat)
  {
    if x < 0 then -x else x
  }

  function WithSign(negative: bool, v: int): int {
    if negative then -v else v
  }

  /** The value of 63 bits of a double with its sign. */
  function SignedVal(negative: bool, w: nat): (v: int)
    ensures Abs(v) == Val(DOUBLE, w)
  {
    WithSign(negative, Val(DOUBLE, w))
  }

  /** The value of a finite double given as two words. */
  function Signed64(h: u32, l: u32): (v: int)
    ensures Abs(v) == Val(DOUBLE, Magnitude64(h, l))
  {
    SignedVal(Negative(h), Magnitude64(h, l))
  }
}
