/**
 * The half-even remainder of IEEE 754 on the values of a binary format: its definition, and the reduction that
 * the float and the double version share. Values are integers in units of the smallest subnormal.
 */
module HalfEven {
  import opened Arithmetic
  import opened Float

  /** The definition of IEEE 754: k is an integer nearest to x / p, and the even one when two are as near. */
  ghost predicate IsRemainder(x: int, p: int, r: int) {
    exists k: int :: RemainderBy(x, p, r, k)
  }

  ghost predicate RemainderBy(x: int, p: int, r: int, k: int) {
    r == x - k * p && 2 * Abs(r) <= Abs(p) && (2 * Abs(r) == Abs(p) ==> k % 2 == 0)
  }

  /** The definition leaves no choice. */
  lemma RemainderUnique(x: int, p: int, r: int, s: int)
    requires p != 0 && IsRemainder(x, p, r) && IsRemainder(x, p, s)
    ensures r == s
  {
    var k :| RemainderBy(x, p, r, k);
    var j :| RemainderBy(x, p, s, j);
    assert r - s == (j - k) * p;
    SmallMultiple(j - k, p);
  }

  lemma SmallMultiple(d: int, p: int)
    requires Abs(d * p) <= Abs(p) && p != 0
    ensures -1 <= d <= 1
  {
    SignedProduct(d, p);
    if d > 1 {
      MulMono(2, d, Abs(p));
    } else if d < -1 {
      MulMono(2, -d, Abs(p));
    }
  }

  lemma SignedProduct(k: int, p: int)
    ensures k * p == if p < 0 then Abs(p) * -k else Abs(p) * k
  {
  }

  /** No multiple of p is closer to x. */
  lemma RemainderNearest(x: int, p: int, r: int, j: int)
    requires p != 0 && IsRemainder(x, p, r)
    ensures Abs(r) <= Abs(x - j * p)
  {
    var k :| RemainderBy(x, p, r, k);
    assert x - j * p == r + (k - j) * p;
    SignedProduct(k - j, p);
    Multiple(Abs(p), if p < 0 then j - k else k - j);
  }

  // ---- Exact operations ----

  /** A format: the weight of the implicit bit, and the pattern of infinity. */
  datatype Format = Format(u: int, inf: nat)
  {
    predicate Ok() {
      u >= 1 && inf > 4 * u
    }
  }

  /** A value that a finite number of the format has. */
  ghost predicate Finite(f: Format, v: int)
    requires f.Ok()
  {
    Representable(f.u, Abs(v)) && Abs(v) < Val(f.u, f.inf)
  }

  /** An operation whose exact result is a number of the format gives that result. */
  function Exact(ghost f: Format, v: int): (r: int)
    requires f.Ok() && Finite(f, v)
  {
    v
  }

  lemma FiniteVal(f: Format, w: nat)
    requires f.Ok() && w < f.inf
    ensures Finite(f, Val(f.u, w))
  {
    ValOrder(f.u, w, f.inf);
    ValEncode(f.u, w);
  }

  lemma EncodeFinite(f: Format, v: nat)
    requires f.Ok() && Finite(f, v)
    ensures Encode(f.u, v) < f.inf && Val(f.u, Encode(f.u, v)) == v
  {
    EncodeVal(f.u, v);
    ValOrder(f.u, Encode(f.u, v), f.inf);
  }

  /** The difference of two numbers within a factor of two of each other is a number of the format. */
  lemma {:induction false} Sterbenz(u: int, a: nat, b: nat)
    requires u >= 1 && Representable(u, a) && Representable(u, b) && b <= a <= 2 * b
    ensures Representable(u, a - b)
    decreases a
  {
    if b >= 2 * u {
      Sterbenz(u, a / 2, b / 2);
      assert (a - b) / 2 == a / 2 - b / 2;
    }
  }

  lemma Difference(u: int, x: nat, p: nat)
    requires u >= 1 && Representable(u, x) && Representable(u, p) && p <= 2 * x && x <= 2 * p
    ensures Representable(u, Abs(x - p))
  {
    if x >= p {
      Sterbenz(u, x, p);
    } else {
      Sterbenz(u, p, x);
    }
  }

  lemma Doubles(u: int, w: nat)
    requires u >= 1
    ensures Representable(u, Val(u, w)) && Representable(u, 2 * Val(u, w))
    ensures Encode(u, 2 * Val(u, w)) == if w < u then 2 * w else w + u
    ensures Val(u, Encode(u, 2 * Val(u, w))) == 2 * Val(u, w)
  {
    ValEncode(u, w);
    EncodeVal(u, 2 * Val(u, w));
  }

  lemma Halves(u: int, w: nat)
    requires u >= 1 && w >= 2 * u
    ensures Val(u, w) % 2 == 0 && Representable(u, Val(u, w) / 2)
  {
    ValEncode(u, w);
  }

  // ---- The reduction of |x| by |p| ----

  /** x is what |x| leaves modulo 2|p|; r is that minus 0, 1 or 2 times p. */
  ghost predicate Nearest(x: nat, p: nat, r: int) {
    IsRemainder(x, p, r) && (r == x || r == x - p || r == x - 2 * p)
  }

  lemma NearestBy(x: nat, p: nat, r: int, i: int)
    requires 0 <= i <= 2 && r == x - i * p && 2 * Abs(r) <= p && (i == 1 ==> 2 * Abs(r) < p)
    ensures Nearest(x, p, r)
  {
    assert RemainderBy(x, p, r, i);
  }

  /** For small p: doubling x cannot overflow. */
  method ReduceSmall(ghost f: Format, x0: int, p: int) returns (x: int)
    requires f.Ok() && 0 < p < 2 * f.u && 0 <= x0 < 2 * p && Finite(f, x0)
    ensures Nearest(x0, p, x) && Finite(f, x)
  {
    x := x0;
    SmallSum(f, x);
    if Exact(f, x + x) > p {
      SmallDifference(f, x, p);
      x := Exact(f, x - p);
      SmallSum(f, x);
      if Exact(f, x + x) >= p {
        SmallDifference(f, x, p);
        x := Exact(f, x - p);
        NearestBy(x0, p, x, 2);
      } else {
        NearestBy(x0, p, x, 1);
      }
    } else {
      NearestBy(x0, p, x, 0);
    }
  }

  lemma SmallSum(f: Format, x: int)
    requires f.Ok() && Finite(f, x) && Abs(x) < 4 * f.u
    ensures Finite(f, x + x)
  {
    SmallIsFinite(f);
    assert Abs(x + x) / 2 == Abs(x);
  }

  lemma SmallDifference(f: Format, x: int, p: int)
    requires f.Ok() && x >= 0 && Finite(f, x) && 0 <= p < 2 * f.u && p <= 2 * x && x <= 2 * p
    ensures Finite(f, x - p)
  {
    SmallIsFinite(f);
    Difference(f.u, x, p);
  }

  lemma SmallIsFinite(f: Format)
    requires f.Ok()
    ensures 8 * f.u < Val(f.u, f.inf)
  {
    Doubled(f.u, 2 * f.u, 3 * f.u);
    Doubled(f.u, 3 * f.u, 4 * f.u);
    ValOrder(f.u, 4 * f.u, f.inf);
  }

  /** For other p, half of p is exact; no finite x exceeds the half of an infinite p. */
  method ReduceLarge(f: Format, x0: int, hp: nat) returns (x: int)
    requires f.Ok() && 2 * f.u <= hp <= f.inf && x0 >= 0 && Finite(f, x0)
    requires hp < f.inf ==> x0 < 2 * Val(f.u, hp)
    ensures hp < f.inf ==> Nearest(x0, Val(f.u, hp), x)
    ensures hp == f.inf ==> x == x0
    ensures Finite(f, x)
  {
    x := x0;
    if hp < f.inf {
      var p: int := Val(f.u, hp);
      Halves(f.u, hp);
      FiniteVal(f, hp);
      x := SubtractHalves(f, x0, p, Exact(f, p / 2));
    }
  }

  /** The comparisons with half of p, which is exact. */
  method SubtractHalves(f: Format, x0: int, p: int, half: int) returns (x: int)
    requires f.Ok() && Finite(f, x0) && Finite(f, p) && 0 <= x0 < 2 * p && 2 * half == p
    ensures Nearest(x0, p, x) && Finite(f, x)
  {
    x := x0;
    if x > half {
      Difference(f.u, x, p);
      x := Exact(f, x - p);
      if x >= half {
        Difference(f.u, x, p);
        x := Exact(f, x - p);
        NearestBy(x0, p, x, 2);
      } else {
        NearestBy(x0, p, x, 1);
      }
    } else {
      NearestBy(x0, p, x, 0);
    }
  }

  method ReduceHalfEven(f: Format, v: int, hp: nat) returns (a: int)
    requires f.Ok() && 0 < hp <= f.inf && v >= 0 && Finite(f, v)
    requires hp < f.inf ==> v < 2 * Val(f.u, hp)
    ensures hp < f.inf ==> Nearest(v, Val(f.u, hp), a)
    ensures hp == f.inf ==> a == v
    ensures Finite(f, a)
  {
    if hp < 2 * f.u {
      a := ReduceSmall(f, v, Val(f.u, hp));
    } else {
      a := ReduceLarge(f, v, hp);
    }
  }

  /** Reducing modulo 2p first keeps the parity of k, and with it the choice between two nearest multiples. */
  lemma ModTwice(a: nat, p: nat, r: int)
    requires p >= 1 && Nearest(a % (2 * p), p, r)
    ensures IsRemainder(a, p, r)
  {
    var k :| RemainderBy(a % (2 * p), p, r, k);
    Euclid(a, 2 * p);
    var j := a / (2 * p);
    assert (2 * j + k) * p == 2 * p * j + k * p;
    assert RemainderBy(a, p, r, 2 * j + k);
  }

  lemma WithSigns(a: nat, p: nat, r: int, negativeX: bool, negativeP: bool)
    requires IsRemainder(a, p, r)
    ensures IsRemainder(WithSign(negativeX, a), WithSign(negativeP, p), WithSign(negativeX, r))
  {
    var k :| RemainderBy(a, p, r, k);
    var j := if negativeX == negativeP then k else -k;
    assert j * WithSign(negativeP, p) == WithSign(negativeX, k * p);
    assert RemainderBy(WithSign(negativeX, a), WithSign(negativeP, p), WithSign(negativeX, r), j);
  }

  /** |x| mod 2|p| when 2p overflows: |x| is already less. */
  lemma AlreadyReduced(f: Format, x: nat, p: nat)
    requires f.Ok() && x < f.inf && f.u <= p < f.inf && f.inf <= p + f.u
    ensures Val(f.u, x) % (2 * Val(f.u, p)) == Val(f.u, x) < 2 * Val(f.u, p)
  {
    Doubled(f.u, p, p + f.u);
    ValOrder(f.u, x, p + f.u);
    DivMod(Val(f.u, x), 2 * Val(f.u, p), 0, Val(f.u, x));
  }

  /** p + p does not overflow for smaller p. */
  lemma DoubleIsFinite(f: Format, p: nat)
    requires f.Ok() && p + f.u < f.inf
    ensures Finite(f, 2 * Val(f.u, p))
  {
    Doubles(f.u, p);
    if p >= f.u {
      Doubled(f.u, p, p + f.u);
      ValOrder(f.u, p + f.u, f.inf);
    } else {
      SmallIsFinite(f);
    }
  }

  lemma RemainderShrinks(a: nat, b: nat)
    requires b >= 1
    ensures 0 <= a % b <= a && a % b < b
  {
    Euclid(a, b);
    Shrinks(a, b);
    MulMono(0, a / b, b);
  }
}
