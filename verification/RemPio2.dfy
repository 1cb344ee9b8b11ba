/**
 * The integer part of the Payne-Hanek reduction: a product of 24-bit chunks is distilled into 24-bit limbs,
 * its integral part is taken modulo 8, and a fraction above one half is complemented.
 *
 * Doubles that hold integers below 2^53 are integers here, since the source's operations on them are exact.
 */
module RemPio2 {
  import opened Arithmetic

  const LIMB: int := 0x100_0000
  const EXACT: int := 0x20_0000_0000_0000

  /** 2^(24 n). */
  function Limbs(n: nat): (r: int)
    ensures r >= 1
  {
    if n == 0 then 1 else LIMB * Limbs(n - 1)
  }

  /** The value of limbs, the least significant first. */
  function Value(s: seq<int>): int {
    if |s| == 0 then 0 else Value(s[..|s| - 1]) + s[|s| - 1] * Limbs(|s| - 1)
  }

  predicate AreLimbs(s: seq<int>) {
    forall i :: 0 <= i < |s| ==> 0 <= s[i] < LIMB
  }

  /** The value of chunks of any size, the most significant first, in units of the last one. */
  function Horner(q: seq<int>): int {
    if |q| == 0 then 0 else Horner(q[..|q| - 1]) * LIMB + q[|q| - 1]
  }

  lemma {:induction false} ValueRange(s: seq<int>)
    requires AreLimbs(s)
    ensures 0 <= Value(s) < Limbs(|s|)
  {
    if |s| > 0 {
      var n := |s| - 1;
      ValueRange(s[..n]);
      MulMono(0, s[n], Limbs(n));
      MulMono(s[n], LIMB - 1, Limbs(n));
    }
  }

  /** One more limb. */
  lemma ValueNext(s: seq<int>, i: nat)
    requires i < |s|
    ensures Value(s[..i + 1]) == Value(s[..i]) + s[i] * Limbs(i)
  {
    assert s[..i + 1][..i] == s[..i];
  }

  lemma HornerNext(q: seq<int>, j: nat)
    requires j < |q|
    ensures Horner(q[..j + 1]) == Horner(q[..j]) * LIMB + q[j]
  {
    assert q[..j + 1][..j] == q[..j];
  }

  // ---- Distilling ----

  /** Carrying a limb out of z keeps the value: h and c are the chunks and the limb weight still above it. */
  lemma CarryOut(h: int, z: int, fw: int, d: int, c: int)
    requires z == LIMB * fw + d
    ensures (h * LIMB + z) * c == (h + fw) * (LIMB * c) + d * c
  {
    assert (h * LIMB + z) == (h + fw) * LIMB + d;
    Associate(h + fw, LIMB, c);
  }

  /** Turns the chunks q[0..jz] into jz limbs and what is left above them. */
  method Distill(q: array<int>, iq: array<int>, jz: nat) returns (z: int)
    requires jz < q.Length && jz <= iq.Length && q != iq
    requires forall j :: 0 <= j <= jz ==> 0 <= q[j] < EXACT / 2
    modifies iq
    ensures 0 <= z < EXACT && AreLimbs(iq[..jz])
    ensures Horner(q[..jz + 1]) == z * Limbs(jz) + Value(iq[..jz])
    ensures iq[jz..] == old(iq[jz..])
  {
    var i, j := 0, jz;
    z := q[jz];
    ghost var chunks := q[..];
    HornerNext(chunks, jz);
    while j > 0
      invariant 0 <= i <= jz && i + j == jz && q[..] == chunks
      invariant 0 <= z < EXACT && AreLimbs(iq[..i])
      invariant Horner(chunks[..jz + 1]) == (Horner(chunks[..j]) * LIMB + z) * Limbs(i) + Value(iq[..i])
      invariant iq[jz..] == old(iq[jz..])
    {
      var fw := z / LIMB;
      ghost var limbs := iq[..i];
      iq[i] := z - LIMB * fw;
      assert iq[..i] == limbs && iq[..i + 1][..i] == limbs;
      CarryOut(Horner(chunks[..j]), z, fw, iq[i], Limbs(i));
      ValueNext(iq[..i + 1], i);
      HornerNext(chunks, j - 1);
      z := q[j - 1] + fw;
      i, j := i + 1, j - 1;
    }
  }

  // ---- Complementing ----

  function Complement(v: int, n: nat): int {
    if v == 0 then 0 else Limbs(n) - v
  }

  lemma ComplementNext(v: int, d: int, n: nat)
    requires 0 <= d < LIMB && v >= 0
    ensures v + d * Limbs(n) >= 0
    ensures v == 0 && d != 0 ==> Complement(v + d * Limbs(n), n + 1) == (LIMB - d) * Limbs(n)
    ensures v == 0 && d == 0 ==> Complement(v + d * Limbs(n), n + 1) == 0
    ensures v != 0 ==> Complement(v + d * Limbs(n), n + 1) == Complement(v, n) + (LIMB - 1 - d) * Limbs(n)
  {
    MulMono(0, d, Limbs(n));
    if d != 0 {
      MulMono(1, d, Limbs(n));
    }
  }

  /** The first i limbs of was have become those of its complement; carry says whether any was not zero. */
  ghost predicate Complemented(was: seq<int>, limbs: seq<int>, i: nat, carry: int)
  {
    && i <= |was| && AreLimbs(limbs) && Value(limbs) == Complement(Value(was[..i]), i)
    && carry == if Value(was[..i]) == 0 then 0 else 1
  }

  /** One turn of the loop: limb j of was becomes x, and the carry in becomes the carry out. */
  lemma ComplementLimb(limbs: seq<int>, was: seq<int>, i: nat, carryIn: int, x: int, carryOut: int)
    requires i < |was| && |limbs| == i && 0 <= was[i] < LIMB && AreLimbs(was[..i])
    requires Complemented(was, limbs, i, carryIn)
    requires x == if carryIn == 0 then if was[i] != 0 then LIMB - was[i] else 0 else LIMB - 1 - was[i]
    requires carryOut == if carryIn == 0 && was[i] == 0 then 0 else 1
    ensures Complemented(was, limbs + [x], i + 1, carryOut)
  {
    ValueNext(was, i);
    ValueRange(was[..i]);
    ComplementNext(Value(was[..i]), was[i], i);
    assert (limbs + [x])[..i] == limbs;
  }

  lemma PrefixLimbs(s: seq<int>, i: nat, n: nat)
    requires i <= n <= |s| && AreLimbs(s[..n])
    ensures AreLimbs(s[..i])
  {
    assert s[..i] == s[..n][..i];
  }

  /** One minus the fraction, limb by limb; carry says that some limb was not zero. */
  method ComplementLimbs(iq: array<int>, jz: nat) returns (carry: int)
    requires jz <= iq.Length && AreLimbs(iq[..jz])
    modifies iq
    ensures AreLimbs(iq[..jz]) && Value(iq[..jz]) == Complement(old(Value(iq[..jz])), jz)
    ensures carry == if old(Value(iq[..jz])) == 0 then 0 else 1
    ensures iq[jz..] == old(iq[jz..])
  {
    ghost var was := iq[..];
    carry := 0;
    for i := 0 to jz
      invariant Complemented(was, iq[..i], i, carry)
      invariant forall k :: i <= k < iq.Length ==> iq[k] == was[k]
    {
      var j := iq[i];
      assert j == was[i] && 0 <= was[..jz][i] < LIMB;
      ghost var limbs := iq[..i];
      ghost var carried := carry;
      if carry == 0 {
        if j != 0 {
          carry := 1;
          iq[i] := LIMB - j;
        }
      } else {
        iq[i] := LIMB - 1 - j;
      }
      assert iq[..i + 1] == limbs + [iq[i]];
      PrefixLimbs(was, i, jz);
      ComplementLimb(limbs, was, i, carried, iq[i], carry);
    }
    assert was[..jz] == old(iq[..jz]);
  }

  // ---- Extracting the integral part ----

  /** t is n ones and f, but for a multiple of 8 ones. */
  ghost predicate ModuloEight(t: int, one: int, n: int, f: int) {
    exists k: int :: Multiples(t, one, n, f, k)
  }

  ghost predicate Multiples(t: int, one: int, n: int, f: int, k: int) {
    t == k * (8 * one) + n * one + f
  }

  /** n & 7. */
  lemma MaskEight(t: int, one: int, n: int, f: int)
    requires ModuloEight(t, one, n, f)
    ensures ModuloEight(t, one, n % 8, f)
  {
    var k :| Multiples(t, one, n, f, k);
    var m := n / 8;
    assert (k + m) * (8 * one) + (n % 8) * one == k * (8 * one) + n * one;
    assert Multiples(t, one, n % 8, f, k + m);
  }

  /** Trimming z modulo 8 and splitting it, when g units of z make b's weight in ones. */
  lemma SplitZ(z: int, g: int, limbs: int, b: int)
    requires z >= 0 && g >= 1
    ensures 0 <= z % (8 * g) && 0 <= (z % (8 * g)) / g < 8 && 0 <= (z % (8 * g)) % g < g
    ensures ModuloEight(z * b + limbs, g * b, (z % (8 * g)) / g, z % (8 * g) % g * b + limbs)
  {
    var y := z % (8 * g);
    Euclid(z, 8 * g);
    Euclid(y, g);
    if y / g >= 8 {
      MulMono(8, y / g, g);
    }
    var k, n, f := z / (8 * g), y / g, y % g;
    assert z == k * (8 * g) + n * g + f;
    assert z * b == k * (8 * (g * b)) + n * (g * b) + f * b by {
      Associate(k, 8 * g, b);
      Associate(8, g, b);
      Associate(n, g, b);
    }
    assert Multiples(z * b + limbs, g * b, n, f * b + limbs, k);
  }

  /** When z holds whole ones only, the top limb may hold some more of them. */
  lemma SplitTop(z: int, p: int, place: int, high: int, rest: int, below: int, b: int)
    requires z >= 0 && place * p == LIMB
    ensures var low := high * place + rest;
            ModuloEight(z * (LIMB * b) + (below + low * b), place * b, z * p % 8 + high, below + rest * b)
  {
    var y, one := z * p, place * b;
    assert z * (LIMB * b) == y * one by {
      Associate(place, p, b);
      assert p * b * place == (place * p) * b;
      assert z * (place * p * b) == z * p * (place * b);
    }
    var k := y / 8;
    assert y * one == (8 * k + y % 8) * one;
    assert y * one == k * (8 * one) + y % 8 * one;
    assert (high * place + rest) * b == high * one + rest * b by {
      Associate(high, place, b);
    }
    assert (y % 8 + high) * one == y % 8 * one + high * one;
    assert Multiples(z * (LIMB * b) + (below + (high * place + rest) * b), one, y % 8 + high, below + rest * b, k);
  }

  /** Half a unit up to a unit, measured by the part f of it that z holds; limbs is the rest. */
  lemma HalfByZ(f: int, half: int, limbs: int, b: int)
    requires 0 <= f < 2 * half && 0 <= limbs < b
    ensures 2 * f >= 2 * half ==> 2 * (f * b + limbs) >= 2 * half * b
    ensures 2 * f < 2 * half ==> 2 * (f * b + limbs) < 2 * half * b
    ensures f * b + limbs < 2 * half * b
  {
    if f >= half {
      MulMono(half, f, b);
    } else {
      MulMono(f + 1, half, b);
    }
    MulMono(f + 1, 2 * half, b);
  }

  /** Half a unit up to a unit, measured by the top limb; low is what lies below it. */
  lemma HalfByTop(top: int, half: int, low: int, b: int)
    requires 0 <= top < 2 * half && 0 <= low < b
    ensures top >= half <==> 2 * (top * b + low) >= 2 * half * b
    ensures top * b + low < 2 * half * b
  {
    if top >= half {
      MulMono(half, top, b);
    } else {
      MulMono(top + 1, half, b);
    }
    MulMono(top + 1, 2 * half, b);
  }

  /** One, in units of 2^(q0 - 24 jz): the weight of the lowest limb. */
  function One(jz: nat, q0: int): (r: int)
    requires 1 <= jz && q0 <= 2
    ensures r >= 1
  {
    if q0 < 0 then
      MulStrict(0, Pow2(-q0), Limbs(jz));
      Pow2(-q0) * Limbs(jz)
    else
      MulStrict(0, Place(q0), Limbs(jz - 1));
      Place(q0) * Limbs(jz - 1)
  }

  /** 2^(24 - q0): where the integral part begins in the top limb. */
  function Place(q0: nat): (r: int)
    requires q0 <= 2
    ensures r >= 1 && r * Pow2(q0) == LIMB && r % 2 == 0
  {
    assert Pow2(0) == 1 && Pow2(1) == 2 && Pow2(2) == 4;
    if q0 == 0 then LIMB else if q0 == 1 then LIMB / 2 else LIMB / 4
  }

  lemma LimbsArePower(n: nat)
    ensures Limbs(n) == Pow2(24 * n)
  {
    if n > 0 {
      LimbsArePower(n - 1);
      Pow2Add(12, 12);
      Pow2Add(24, 24 * (n - 1));
    }
  }

  lemma OneIsPower(jz: nat, q0: int)
    requires 1 <= jz && q0 <= 2
    ensures One(jz, q0) == Pow2(24 * jz - q0)
  {
    if q0 < 0 {
      LimbsArePower(jz);
      Pow2Add(-q0, 24 * jz);
    } else {
      LimbsArePower(jz - 1);
      PlaceIsPower(q0, 24);
      Pow2Add(24 - q0, 24 * (jz - 1));
    }
  }

  lemma PlaceIsPower(q0: nat, n: nat)
    requires q0 <= 2 && n == 24
    ensures Place(q0) == Pow2(n - q0)
  {
    LimbsArePower(1);
    assert Limbs(1) == LIMB * Limbs(0);
    Pow2Add(n - q0, q0);
    Cancel(Place(q0), Pow2(n - q0), Pow2(q0));
  }

  /** The fraction that z and the limbs hold together. */
  ghost function FractionOf(z: int, limbs: seq<int>): int {
    z * Limbs(|limbs|) + Value(limbs)
  }

  /** What lines 328 to 339 establish: n ones and a fraction make the product modulo 8. */
  ghost predicate Extracted(t: int, jz: nat, q0: int, n: int, ih: int, z: int, limbs: seq<int>)
    requires 1 <= jz == |limbs| && q0 <= 2
  {
    && AreLimbs(limbs)
    && ModuloEight(t, One(jz, q0), n, FractionOf(z, limbs))
    && 0 <= FractionOf(z, limbs) < One(jz, q0)
    && (ih > 0 <==> 2 * FractionOf(z, limbs) >= One(jz, q0))
    && (if q0 < 0 then (ih == 0 || ih == 2) && 0 <= z < Pow2(-q0) else (ih == 0 || ih == 1) && z == 0)
  }

  /** q0 < 0: z holds ones and part of the fraction, in units of 2^q0. */
  method IntegralInZ(iq: array<int>, jz: nat, z0: int, q0: int) returns (n: int, ih: int, z: int)
    requires 1 <= jz <= iq.Length && AreLimbs(iq[..jz]) && z0 >= 0 && q0 < 0
    ensures Extracted(FractionOf(z0, iq[..jz]), jz, q0, n, ih, z, iq[..jz])
  {
    ghost var limbs := iq[..jz];
    ValueRange(limbs);
    var g := Pow2(-q0);
    SplitZ(z0, g, Value(limbs), Limbs(jz));
    z := z0 % (8 * g);
    n := z / g;
    z := z % g;
    HalfByZ(z, Pow2(-q0 - 1), Value(limbs), Limbs(jz));
    MulMono(0, z, Limbs(jz));
    ih := if 2 * z >= g then 2 else 0;
  }

  /** q0 >= 0: z holds ones only, and for q0 > 0 the top limb holds the last q0 bits of them. */
  method IntegralInTop(iq: array<int>, jz: nat, z0: int, q0: nat) returns (n: int, ih: int)
    requires 1 <= jz <= iq.Length && AreLimbs(iq[..jz]) && z0 >= 0 && q0 <= 2
    modifies iq
    ensures Extracted(old(FractionOf(z0, iq[..jz])), jz, q0, n, ih, 0, iq[..jz])
    ensures iq[jz..] == old(iq[jz..])
  {
    ghost var was := iq[..jz];
    ghost var below := iq[..jz - 1];
    assert was[..jz - 1] == below;
    var place := Place(q0);
    var low := iq[jz - 1];
    var i := if q0 > 0 then low / place else 0;
    ValueRange(below);
    SplitTop(z0, Pow2(q0), place, i, low - i * place, Value(below), Limbs(jz - 1));
    n := z0 * Pow2(q0) % 8;
    TopBits(low, q0);
    if q0 > 0 {
      n := n + i;
      iq[jz - 1] := iq[jz - 1] - i * place;
    }
    ih := iq[jz - 1] / (place / 2);
    assert iq[..jz][..jz - 1] == below;
    HalfByTop(iq[jz - 1], place / 2, Value(below), Limbs(jz - 1));
    MulMono(0, iq[jz - 1], Limbs(jz - 1));
  }

  lemma TopBits(low: int, q0: nat)
    requires 0 <= low < LIMB && q0 <= 2
    ensures var place := Place(q0);
            var rest := low - (if q0 > 0 then low / place * place else 0);
            0 <= rest < place && 0 <= rest / (place / 2) <= 1 && (rest / (place / 2) == 1 <==> rest >= place / 2)
  {
    assert Pow2(0) == 1 && Pow2(1) == 2 && Pow2(2) == 4;
  }

  /** Clearing the integral bits of the top limb takes the value modulo one. */
  lemma ClearTop(v: int, one: int, p: int, below: int, top: int, place: int, b: int)
    requires place >= 1 && b >= 1 && one == place * b && 0 <= below < b && top >= 0
    requires 0 < v < one && below + top * b == p * one - v
    ensures below + top % place * b == one - v && 0 <= top % place < place
  {
    Euclid(top, place);
    MulMono(0, top % place, b);
    MulMono(top % place + 1, place, b);
    assert top * b == one * (top / place) + top % place * b by {
      Associate(top / place, place, b);
    }
    DivMod(p * one - v, one, top / place, below + top % place * b);
    assert one * (p - 1) == p * one - one;
    DivMod(p * one - v, one, p - 1, one - v);
  }

  /** Lines 343 to 358 on the limbs alone. */
  method ComplementAndMask(iq: array<int>, jz: nat, q0: int) returns (carry: int)
    requires 1 <= jz <= iq.Length && AreLimbs(iq[..jz]) && q0 <= 2
    requires q0 >= 0 ==> 0 < Value(iq[..jz]) < One(jz, q0)
    modifies iq
    ensures AreLimbs(iq[..jz])
    ensures carry == if old(Value(iq[..jz])) == 0 then 0 else 1
    ensures q0 < 0 ==> Value(iq[..jz]) == Complement(old(Value(iq[..jz])), jz)
    ensures q0 >= 0 ==> Value(iq[..jz]) == One(jz, q0) - old(Value(iq[..jz]))
    ensures iq[jz..] == old(iq[jz..])
  {
    ghost var v := Value(iq[..jz]);
    carry := ComplementLimbs(iq, jz);
    if q0 > 0 {
      ghost var below := iq[..jz - 1];
      assert iq[..jz][..jz - 1] == below;
      ValueRange(below);
      ghost var top := iq[jz - 1];
      WholeOnes(jz, q0);
      ClearTop(v, One(jz, q0), Pow2(q0), Value(below), top, Place(q0), Limbs(jz - 1));
      if q0 == 1 {
        iq[jz - 1] := iq[jz - 1] % 0x80_0000;
      } else {
        iq[jz - 1] := iq[jz - 1] % 0x40_0000;
      }
      assert iq[..jz][..jz - 1] == below;
    } else if q0 == 0 {
      WholeOnes(jz, 0);
      assert Pow2(0) == 1;
    }
  }

  lemma WholeOnes(jz: nat, q0: nat)
    requires jz >= 1 && q0 <= 2
    ensures Limbs(jz) == Pow2(q0) * One(jz, q0)
  {
    Associate(Pow2(q0), Place(q0), Limbs(jz - 1));
  }

  lemma RoundedUp(t: int, one: int, n: int, f: int)
    requires ModuloEight(t, one, n, f)
    ensures ModuloEight(t, one, n + 1, -(one - f))
  {
    var k :| Multiples(t, one, n, f, k);
    assert (n + 1) * one == n * one + one;
    assert Multiples(t, one, n + 1, -(one - f), k);
  }

  /** What the reduction promises of t: n modulo 8 and a fraction of at most one half, above or below it. */
  ghost predicate Reduced(t: int, jz: nat, q0: int, n: int, ih: int, z: int, limbs: seq<int>)
    requires 1 <= jz == |limbs| && q0 <= 2
  {
    && 0 <= n < 8 && AreLimbs(limbs) && z >= 0
    && 0 <= 2 * FractionOf(z, limbs) <= One(jz, q0)
    && ModuloEight(t, One(jz, q0), n, if ih > 0 then -FractionOf(z, limbs) else FractionOf(z, limbs))
  }

  /** Lines 341 to 363, and the n & 7 of the end. */
  method RoundToNearest(iq: array<int>, jz: nat, q0: int, n0: int, ih: int, z0: int, ghost t: int)
    returns (n: int, z: int)
    requires 1 <= jz <= iq.Length && q0 <= 2 && Extracted(t, jz, q0, n0, ih, z0, iq[..jz])
    modifies iq
    ensures Reduced(t, jz, q0, n, ih, z, iq[..jz])
  {
    n, z := n0, z0;
    ghost var one := One(jz, q0);
    ghost var f := FractionOf(z0, iq[..jz]);
    ValueRange(iq[..jz]);
    if ih > 0 {
      n := n + 1;
      RoundedUp(t, one, n0, f);
      var carry := ComplementAndMask(iq, jz, q0);
      if ih == 2 {
        z := Pow2(-q0) - z;
        if carry != 0 {
          z := z - 1;
        }
        Distributed(Pow2(-q0), z0, carry, Limbs(jz));
      }
      assert FractionOf(z, iq[..jz]) == one - f;
    }
    MaskEight(t, one, n, if ih > 0 then -FractionOf(z, iq[..jz]) else FractionOf(z, iq[..jz]));
    n := n % 8;
  }

  lemma Distributed(g: int, z: int, c: int, b: int)
    ensures (g - z - c) * b == g * b - z * b - c * b
    ensures (g - z) * b == g * b - z * b
  {
  }

  /**
   * From the chunks of the product to n and the fraction, for whatever number jz + 1 of chunks: q[i] weighs
   * 2^(q0 - 24 i).
   */
  method Reduce(q: array<int>, iq: array<int>, jz: nat, q0: int) returns (n: int, ih: int, z: int)
    requires 1 <= jz < q.Length && jz <= iq.Length && q != iq && q0 <= 2
    requires forall j :: 0 <= j <= jz ==> 0 <= q[j] < EXACT / 2
    modifies iq
    ensures Reduced(Horner(q[..jz + 1]), jz, q0, n, ih, z, iq[..jz])
  {
    ghost var t := Horner(q[..jz + 1]);
    z := Distill(q, iq, jz);
    if q0 < 0 {
      n, ih, z := IntegralInZ(iq, jz, z, q0);
    } else {
      n, ih := IntegralInTop(iq, jz, z, q0);
      z := 0;
    }
    n, z := RoundToNearest(iq, jz, q0, n, ih, z, t);
  }

  // ---- Chunks of the product ----

  function Digit(table: seq<int>, m: int): (d: int)
    requires AreLimbs(table)
    ensures 0 <= d < LIMB
  {
    if 0 <= m < |table| then table[m] else 0
  }

  /** The part of the product of weight s that the first n pieces of x contribute. */
  function Convolved(x: seq<int>, table: seq<int>, s: int, n: nat): (v: int)
    requires AreLimbs(x) && AreLimbs(table) && n <= |x|
    ensures 0 <= v <= n * (LIMB * LIMB)
  {
    if n == 0 then 0
    else
      var d := Digit(table, s - (n - 1));
      MulMono(0, x[n - 1], d);
      MulMono(x[n - 1], LIMB, d);
      Convolved(x, table, s, n - 1) + x[n - 1] * d
  }

  /** All partial products of weight 0 to s - 1, the lowest weight being the unit. */
  function Product(x: seq<int>, table: seq<int>, s: nat): int
    requires AreLimbs(x) && AreLimbs(table)
  {
    if s == 0 then 0 else Product(x, table, s - 1) * LIMB + Convolved(x, table, s - 1, |x|)
  }

  /** Chunks that continue the partial products below weight jv. */
  lemma {:induction false} ProductSplits(x: seq<int>, table: seq<int>, jv: nat, q: seq<int>)
    requires AreLimbs(x) && AreLimbs(table)
    requires forall i :: 0 <= i < |q| ==> q[i] == Convolved(x, table, jv + i, |x|)
    ensures Product(x, table, jv + |q|) == Product(x, table, jv) * Limbs(|q|) + Horner(q)
    decreases |q|
  {
    if |q| > 0 {
      var n := |q| - 1;
      ProductSplits(x, table, jv, q[..n]);
      Associate(Product(x, table, jv), Limbs(n), LIMB);
    }
  }

  /** The index jv of the first digit used, and the weight q0 of the first chunk. */
  function FirstDigit(e0: int): (jv: nat)
    ensures e0 - 24 * (jv + 1) <= 2
    ensures jv > 0 ==> e0 - 24 * (jv + 1) >= -21
  {
    if e0 < 3 then 0 else (e0 - 3) / 24
  }

  lemma LimbsAreEights(jz: nat, q0: int)
    requires jz >= 1 && -21 <= q0 <= 2
    ensures Limbs(jz + 1) == Pow2(21 + q0) * (8 * One(jz, q0))
  {
    var m := 24 * jz - q0;
    OneIsPower(jz, q0);
    LimbsArePower(jz + 1);
    Pow2Add(21 + q0, m + 3);
    Pow2Add(3, m);
    assert Pow2(3) == 8;
  }

  /** Everything above the chunks is a multiple of 8. */
  lemma SkippedIsMultipleOfEight(x: seq<int>, table: seq<int>, e0: int, q: seq<int>)
    requires AreLimbs(x) && AreLimbs(table) && |q| >= 2
    requires forall i :: 0 <= i < |q| ==> q[i] == Convolved(x, table, FirstDigit(e0) + i, |x|)
    ensures var jv := FirstDigit(e0);
            ModuloEight(Product(x, table, jv + |q|), One(|q| - 1, e0 - 24 * (jv + 1)), 0, Horner(q))
  {
    var jv := FirstDigit(e0);
    var q0 := e0 - 24 * (jv + 1);
    var t, h, one := Product(x, table, jv + |q|), Horner(q), One(|q| - 1, q0);
    ProductSplits(x, table, jv, q);
    if jv == 0 {
      assert t == h;
      assert Multiples(t, one, 0, h, 0);
    } else {
      LimbsAreEights(|q| - 1, q0);
      Skipped(t, Product(x, table, jv), Limbs(|q|), Pow2(21 + q0), one, h);
    }
  }

  lemma Skipped(t: int, skipped: int, l: int, a: int, one: int, h: int)
    requires t == skipped * l + h && l == a * (8 * one)
    ensures ModuloEight(t, one, 0, h)
  {
    Associate(skipped, a, 8 * one);
    assert Multiples(t, one, 0, h, skipped * a);
  }

  // ---- The partial products are those of two numbers ----

  /** The digits before the m-th as a number; behind the last digit there are zeros. */
  function Padded(table: seq<int>, m: nat): (v: int)
    requires AreLimbs(table)
  {
    if m == 0 then 0 else Padded(table, m - 1) * LIMB + Digit(table, m - 1)
  }

  lemma {:induction false} PaddedPrefix(table: seq<int>, m: nat)
    requires AreLimbs(table) && m <= |table|
    ensures Padded(table, m) == Horner(table[..m])
  {
    if m > 0 {
      PaddedPrefix(table, m - 1);
      HornerNext(table, m - 1);
    }
  }

  /** What d more digits add. */
  lemma {:induction false} PaddedMore(table: seq<int>, m: nat, d: nat)
    requires AreLimbs(table)
    ensures 0 <= Padded(table, m + d) - Padded(table, m) * Limbs(d) < Limbs(d)
    ensures m >= |table| ==> Padded(table, m + d) == Padded(table, m) * Limbs(d)
  {
    if d > 0 {
      PaddedMore(table, m, d - 1);
      MoreDigits(Padded(table, m), Padded(table, m + d - 1), Limbs(d - 1), Digit(table, m + d - 1), LIMB);
    }
  }

  lemma MoreDigits(p: int, q: int, l: int, d: int, w: int)
    requires 0 <= q - p * l < l && 0 <= d < w
    ensures 0 <= q * w + d - p * (w * l) < w * l
    ensures q == p * l ==> q * w == p * (w * l)
  {
    assert p * (w * l) == p * l * w;
    assert (q - p * l) * w == q * w - p * l * w;
    MulMono(0, q - p * l, w);
    MulMono(q - p * l + 1, l, w);
  }

  /** The number that piece i of x is multiplied by in the products of weight 0 to s - 1. */
  function Shifted(table: seq<int>, s: nat, i: nat): (v: int)
    requires AreLimbs(table)
  {
    if s <= i then 0 else Padded(table, s - i)
  }

  /** What the first n pieces of x contribute to the products of weight 0 to s - 1. */
  function Weighted(x: seq<int>, table: seq<int>, s: nat, n: nat): (v: int)
    requires AreLimbs(x) && AreLimbs(table) && n <= |x|
  {
    if s == 0 then 0 else Weighted(x, table, s - 1, n) * LIMB + Convolved(x, table, s - 1, n)
  }

  lemma {:induction false} ProductIsWeighted(x: seq<int>, table: seq<int>, s: nat)
    requires AreLimbs(x) && AreLimbs(table)
    ensures Product(x, table, s) == Weighted(x, table, s, |x|)
  {
    if s > 0 {
      ProductIsWeighted(x, table, s - 1);
    }
  }

  /** Piece n - 1 contributes its product with the digits, moved n - 1 places down. */
  lemma {:induction false} WeightedPiece(x: seq<int>, table: seq<int>, s: nat, n: nat)
    requires AreLimbs(x) && AreLimbs(table) && 1 <= n <= |x|
    ensures Weighted(x, table, s, n) == Weighted(x, table, s, n - 1) + x[n - 1] * Shifted(table, s, n - 1)
  {
    if s > 0 {
      WeightedPiece(x, table, s - 1, n);
      ShiftedNext(table, s, n - 1);
      AddPiece(Weighted(x, table, s - 1, n - 1), Convolved(x, table, s - 1, n - 1), x[n - 1],
               Shifted(table, s - 1, n - 1), Digit(table, s - n), LIMB);
    }
  }

  lemma ShiftedNext(table: seq<int>, s: nat, i: nat)
    requires AreLimbs(table) && s > 0
    ensures Shifted(table, s, i) == Shifted(table, s - 1, i) * LIMB + Digit(table, s - 1 - i)
  {
    if i < s {
      assert Padded(table, s - i) == Padded(table, s - i - 1) * LIMB + Digit(table, s - i - 1);
      assert Padded(table, 0) == 0;
    }
  }

  lemma AddPiece(a: int, c: int, x: int, b: int, d: int, w: int)
    ensures (a + x * b) * w + (c + x * d) == (a * w + c) + x * (b * w + d)
  {
    assert (a + x * b) * w == a * w + x * b * w;
    assert x * (b * w + d) == x * b * w + x * d;
  }

  lemma {:induction false} WholeWeighted(x: seq<int>, table: seq<int>, s: nat, n: nat)
    requires AreLimbs(x) && AreLimbs(table) && |table| >= 1 && n <= |x| && s == |x| + |table| - 1
    ensures Weighted(x, table, s, n) == Horner(table) * (Horner(x[..n]) * Limbs(|x| - n))
  {
    if n == 0 {
      NothingWeighted(x, table, s);
    } else {
      WholeWeighted(x, table, s, n - 1);
      WeightedPiece(x, table, s, n);
      PaddedMore(table, |table|, |x| - n);
      PaddedPrefix(table, |table|);
      assert table[..|table|] == table;
      HornerNext(x, n - 1);
      JoinPieces(Horner(table), Horner(x[..n - 1]), x[n - 1], Limbs(|x| - n), LIMB);
    }
  }

  lemma JoinPieces(t: int, h: int, x: int, l: int, w: int)
    ensures t * (h * (w * l)) + x * (t * l) == t * ((h * w + x) * l)
  {
    assert (h * w + x) * l == h * (w * l) + x * l;
    assert t * (h * (w * l) + x * l) == t * (h * (w * l)) + t * (x * l);
    assert t * (x * l) == x * (t * l);
  }

  lemma {:induction false} NothingWeighted(x: seq<int>, table: seq<int>, s: nat)
    requires AreLimbs(x) && AreLimbs(table)
    ensures Weighted(x, table, s, 0) == 0
  {
    if s > 0 {
      NothingWeighted(x, table, s - 1);
    }
  }

  /** All partial products together are the product of x and the digits, read as two numbers. */
  lemma ProductOfNumbers(x: seq<int>, table: seq<int>)
    requires AreLimbs(x) && AreLimbs(table) && |x| >= 1 && |table| >= 1
    ensures Product(x, table, |x| + |table| - 1) == Horner(x) * Horner(table)
  {
    var s := |x| + |table| - 1;
    ProductIsWeighted(x, table, s);
    WholeWeighted(x, table, s, |x|);
    assert x[..|x|] == x && Limbs(0) == 1;
  }

  lemma ShiftedCut(table: seq<int>, s: nat, d: nat, i: nat)
    requires AreLimbs(table)
    ensures 0 <= Shifted(table, s + d, i) - Shifted(table, s, i) * Limbs(d) < Limbs(d)
  {
    if i <= s {
      PaddedMore(table, s - i, d);
    } else if i < s + d {
      PaddedMore(table, 0, s + d - i);
      FewerLimbs(s + d - i, d);
    }
  }

  lemma {:induction false} FewerLimbs(a: nat, b: nat)
    requires a <= b
    ensures Limbs(a) <= Limbs(b)
  {
    if a < b {
      FewerLimbs(a, b - 1);
    }
  }

  lemma {:induction false} WeightedCut(x: seq<int>, table: seq<int>, s: nat, d: nat, n: nat)
    requires AreLimbs(x) && AreLimbs(table) && n <= |x|
    ensures 0 <= Weighted(x, table, s + d, n) - Weighted(x, table, s, n) * Limbs(d) <= n * (LIMB * Limbs(d))
    ensures n > 0 ==> Weighted(x, table, s + d, n) - Weighted(x, table, s, n) * Limbs(d) < n * (LIMB * Limbs(d))
  {
    if n == 0 {
      NothingWeighted(x, table, s);
      NothingWeighted(x, table, s + d);
    } else {
      WeightedCut(x, table, s, d, n - 1);
      WeightedPiece(x, table, s, n);
      WeightedPiece(x, table, s + d, n);
      ShiftedCut(table, s, d, n - 1);
      CutPiece(Weighted(x, table, s + d, n - 1), Weighted(x, table, s, n - 1), x[n - 1],
               Shifted(table, s + d, n - 1), Shifted(table, s, n - 1), Limbs(d), LIMB, n);
    }
  }

  lemma CutPiece(a: int, b: int, x: int, p: int, q: int, l: int, w: int, n: nat)
    requires n >= 1 && 0 <= x < w && l >= 1 && 0 <= a - b * l <= (n - 1) * (w * l) && 0 <= p - q * l < l
    ensures 0 <= (a + x * p) - (b + x * q) * l < n * (w * l)
  {
    assert (b + x * q) * l == b * l + x * (q * l);
    assert x * p - x * (q * l) == x * (p - q * l);
    MulMono(0, x, p - q * l);
    MulMono(p - q * l, l, x);
    MulStrict(x, w, l);
    assert n * (w * l) == (n - 1) * (w * l) + w * l;
  }

  /** Cut off after s weights, the product of the two numbers loses less than |x| limbs of the last weight. */
  lemma ProductCutOff(x: seq<int>, table: seq<int>, s: nat, d: nat)
    requires AreLimbs(x) && AreLimbs(table) && |x| >= 1 && |table| >= 1 && s + d == |x| + |table| - 1
    ensures 0 <= Horner(x) * Horner(table) - Product(x, table, s) * Limbs(d) < |x| * (LIMB * Limbs(d))
  {
    ProductOfNumbers(x, table);
    ProductIsWeighted(x, table, s + d);
    ProductIsWeighted(x, table, s);
    WeightedCut(x, table, s, d, |x|);
  }

  /** p is a multiple of 8, plus n, plus a fraction f of which `cut` is the unit, plus less than `bound`. */
  ghost predicate Splits(p: int, unit: int, n: int, f: int, cut: int, bound: int)
  {
    exists k, lost :: SplitsBy(p, unit, n, f, cut, bound, k, lost)
  }

  ghost predicate SplitsBy(p: int, unit: int, n: int, f: int, cut: int, bound: int, k: int, lost: int)
  {
    0 <= lost < bound && p == k * (8 * unit) + n * unit + f * cut + lost
  }

  /** One in units of the last place of the whole product, of which x[0] weighs 2^e0 and the first digit 2^-24. */
  lemma WeightOfOne(e0: int, jv: nat, jz: nat, d: nat)
    requires jz >= 1 && e0 - 24 * (jv + 1) <= 2
    ensures 24 * (jv + jz + 1 + d) - e0 >= 0
    ensures One(jz, e0 - 24 * (jv + 1)) * Limbs(d) == Pow2(24 * (jv + jz + 1 + d) - e0)
  {
    OneIsPower(jz, e0 - 24 * (jv + 1));
    LimbsArePower(d);
    Pow2Add(24 * jz - (e0 - 24 * (jv + 1)), 24 * d);
  }

  /** From the cut-off product to the whole one. */
  lemma SplitWhole(p: int, t: int, one: int, n: int, f: int, cut: int, bound: int)
    requires ModuloEight(t, one, n, f) && 0 <= p - t * cut < bound
    ensures Splits(p, one * cut, n, f, cut, bound)
  {
    var k :| Multiples(t, one, n, f, k);
    assert t * cut == k * (8 * one) * cut + n * one * cut + f * cut;
    Associate(k, 8 * one, cut);
    Associate(8, one, cut);
    Associate(n, one, cut);
    assert SplitsBy(p, one * cut, n, f, cut, bound, k, p - t * cut);
  }

  // ---- Lines 302 to 316 ----

  /** f holds the digits from jv - jx on, with zeros for those before the first. */
  ghost predicate Window(f: seq<int>, table: seq<int>, first: int, n: nat)
    requires AreLimbs(table)
  {
    n <= |f| && forall k :: 0 <= k < n ==> f[k] == Digit(table, first + k)
  }

  /** One chunk: the pieces of x against the digits in reverse. */
  method Chunk(x: array<int>, f: array<int>, ghost table: seq<int>, ghost jv: nat, i: nat, ghost n: nat)
    returns (fw: int)
    requires 1 <= x.Length && AreLimbs(x[..]) && AreLimbs(table) && x.Length + i <= n
    requires Window(f[..], table, jv - (x.Length - 1), n)
    ensures fw == Convolved(x[..], table, jv + i, x.Length)
  {
    var jx := x.Length - 1;
    fw := 0;
    for j := 0 to jx + 1
      invariant fw == Convolved(x[..], table, jv + i, j)
    {
      assert f[jx + i - j] == f[..][jx + i - j];
      fw := fw + x[j] * f[jx + i - j];
    }
  }

  /** Lines 308 to 310. */
  method FillWindow(ipio2: array<int>, f: array<int>, first: int, m: nat)
    requires AreLimbs(ipio2[..]) && first + m < ipio2.Length && m < f.Length && f != ipio2
    modifies f
    ensures Window(f[..], ipio2[..], first, m + 1)
  {
    var j := first;
    ghost var table := ipio2[..];
    for i := 0 to m + 1
      invariant j == first + i
      invariant forall k :: 0 <= k < i ==> f[k] == Digit(table, first + k)
    {
      f[i] := if j < 0 then 0 else ipio2[j];
      j := j + 1;
    }
  }

  /** Lines 308 to 316, for however many chunks. */
  method Chunks(x: array<int>, ipio2: array<int>, f: array<int>, q: array<int>, jv: nat, jz: nat)
    requires 1 <= x.Length <= 8 && AreLimbs(x[..]) && AreLimbs(ipio2[..])
    requires jv + jz < ipio2.Length && x.Length + jz <= f.Length && jz < q.Length
    requires f != q && f != x && f != ipio2 && q != x && q != ipio2
    modifies f, q
    ensures forall i :: 0 <= i <= jz ==> q[i] == Convolved(x[..], ipio2[..], jv + i, x.Length)
  {
    var jx := x.Length - 1;
    ghost var table := ipio2[..];
    FillWindow(ipio2, f, jv - jx, jx + jz);
    ghost var window := f[..];
    for i := 0 to jz + 1
      invariant f[..] == window
      invariant forall k :: 0 <= k < i ==> q[k] == Convolved(x[..], table, jv + k, x.Length)
    {
      var fw := Chunk(x, f, table, jv, i, jx + jz + 1);
      q[i] := fw;
    }
  }

  /**
   * The whole reduction up to the recomputation test: of the product of x and the digits, cut off after
   * weight jv + jz, n is the integral part modulo 8 and the rest is a fraction of at most one half.
   */
  method ReduceProduct(x: array<int>, ipio2: array<int>, f: array<int>, q: array<int>, iq: array<int>,
                       e0: int, jz: nat)
    returns (n: int, ih: int, z: int)
    requires 1 <= x.Length <= 8 && AreLimbs(x[..]) && AreLimbs(ipio2[..])
    requires 1 <= jz < q.Length && jz <= iq.Length
    requires FirstDigit(e0) + jz < ipio2.Length && x.Length + jz <= f.Length
    requires f != q && f != x && f != ipio2 && q != x && q != ipio2
    requires iq != q && iq != f && iq != x && iq != ipio2
    modifies f, q, iq
    ensures var jv := FirstDigit(e0);
            Reduced(Product(x[..], ipio2[..], jv + jz + 1), jz, e0 - 24 * (jv + 1), n, ih, z, iq[..jz])
    ensures ReducedNumber(x[..], ipio2[..], e0, FirstDigit(e0) + jz + 1, n, ih, z, iq[..jz])
  {
    var jv := FirstDigit(e0);
    var q0 := e0 - 24 * (jv + 1);
    Chunks(x, ipio2, f, q, jv, jz);
    ghost var chunks := q[..jz + 1];
    SkippedIsMultipleOfEight(x[..], ipio2[..], e0, chunks);
    n, ih, z := Reduce(q, iq, jz, q0);
    ModuloEightTwice(Product(x[..], ipio2[..], jv + jz + 1), Horner(chunks), One(jz, q0), n,
                     if ih > 0 then -FractionOf(z, iq[..jz]) else FractionOf(z, iq[..jz]));
    NumberReduced(x[..], ipio2[..], e0, jv, jz, n, ih, z, iq[..jz]);
  }

  /**
   * What the reduction promises of the numbers: the product of x, whose first piece weighs 2^e0, and of the
   * digits, whose first weighs 2^-24, is n modulo 8, plus or minus a fraction of at most one half, plus what
   * the digits behind the s-th weight add, which is less than |x| limbs of that weight.
   */
  ghost predicate ReducedNumber(x: seq<int>, table: seq<int>, e0: int, s: nat, n: int, ih: int, z: int, limbs: seq<int>)
  {
    var places := |x| + |table| - 1;
    && s <= places && 24 * places - e0 >= 0 && 0 <= n < 8
    && var unit, cut, f := Pow2(24 * places - e0), Limbs(places - s), FractionOf(z, limbs);
    && 0 <= 2 * f * cut <= unit
    && Splits(Horner(x) * Horner(table), unit, n, if ih > 0 then -f else f, cut, |x| * (LIMB * cut))
  }

  lemma NumberReduced(x: seq<int>, table: seq<int>, e0: int, jv: nat, jz: nat, n: int, ih: int, z: int, limbs: seq<int>)
    requires AreLimbs(x) && AreLimbs(table) && |x| >= 1 && jv + jz < |table| && 1 <= jz == |limbs|
    requires e0 - 24 * (jv + 1) <= 2
    requires Reduced(Product(x, table, jv + jz + 1), jz, e0 - 24 * (jv + 1), n, ih, z, limbs)
    ensures ReducedNumber(x, table, e0, jv + jz + 1, n, ih, z, limbs)
  {
    var d, one, f := |x| + |table| - 1 - (jv + jz + 1), One(jz, e0 - 24 * (jv + 1)), FractionOf(z, limbs);
    WeightOfOne(e0, jv, jz, d);
    ProductCutOff(x, table, jv + jz + 1, d);
    SplitWhole(Horner(x) * Horner(table), Product(x, table, jv + jz + 1), one, n, if ih > 0 then -f else f, Limbs(d),
               |x| * (LIMB * Limbs(d)));
    MulMono(0, 2 * f, Limbs(d));
    MulMono(2 * f, one, Limbs(d));
  }

  lemma ModuloEightTwice(t: int, u: int, one: int, n: int, f: int)
    requires ModuloEight(t, one, 0, u) && ModuloEight(u, one, n, f)
    ensures ModuloEight(t, one, n, f)
  {
    var k :| Multiples(t, one, 0, u, k);
    var j :| Multiples(u, one, n, f, j);
    assert (k + j) * (8 * one) == k * (8 * one) + j * (8 * one);
    assert Multiples(t, one, n, f, k + j);
  }

  // ---- Chopping off zero limbs ----

  method DropZeros(iq: array<int>, jz: nat, q0: int) returns (jt: nat, qt: int)
    requires 1 <= jz <= iq.Length && exists i :: 0 <= i < jz && iq[i] != 0
    ensures jt < jz && iq[jt] != 0
    ensures Value(iq[..jt + 1]) == Value(iq[..jz]) && qt - 24 * jt == q0 - 24 * jz
  {
    jt, qt := jz - 1, q0 - 24;
    while iq[jt] == 0
      invariant 0 <= jt < jz && qt - 24 * jt == q0 - 24 * jz
      invariant Value(iq[..jt + 1]) == Value(iq[..jz])
      invariant exists i :: 0 <= i <= jt && iq[i] != 0
      decreases jt
    {
      ValueNext(iq[..], jt);
      assert iq[..][..jt + 1] == iq[..jt + 1] && iq[..][..jt] == iq[..jt];
      jt, qt := jt - 1, qt - 24;
    }
  }

  lemma TwoLimbs(below: seq<int>, s: seq<int>, z: int, fw: int)
    requires |s| == |below| + 2 && s[..|below|] == below && s[|below|..] == [z - LIMB * fw, fw]
    ensures Value(s) == z * Limbs(|below|) + Value(below)
  {
    var n := |below|;
    assert s[..n + 2] == s && s[n] == s[n..][0] && s[n + 1] == s[n..][1];
    ValueNext(s, n);
    ValueNext(s, n + 1);
    TwoPlaces(z, fw, s[n], Limbs(n), LIMB);
  }

  lemma TwoPlaces(z: int, high: int, low: int, c: int, m: int)
    requires z == m * high + low
    ensures low * c + high * (m * c) == z * c
  {
    Associate(high, m, c);
    assert z * c == high * m * c + low * c;
  }

  /**
   * Lines 383 to 394: z is broken into limbs above the others, or trailing zero limbs are dropped. The value
   * and the weight of the lowest limb stay, and the top limb is not zero.
   */
  method Chop(iq: array<int>, jz: nat, q0: int, z: int) returns (jt: nat, qt: int)
    requires 1 <= jz && jz + 2 <= iq.Length && AreLimbs(iq[..jz]) && 0 <= z < LIMB * 0x8000_0000
    requires z != 0 || exists i :: 0 <= i < jz && iq[i] != 0
    modifies iq
    ensures jt < iq.Length && iq[jt] != 0 && (AreLimbs(iq[..jt + 1]) <==> z < LIMB * LIMB)
    ensures Value(iq[..jt + 1]) == old(FractionOf(z, iq[..jz])) && qt - 24 * jt == q0 - 24 * jz
  {
    jt, qt := jz, q0;
    if z == 0 {
      jt, qt := DropZeros(iq, jz, q0);
    } else {
      ghost var limbs := iq[..jz];
      if z >= LIMB {
        var fw := z / LIMB;
        iq[jt] := z - LIMB * fw;
        jt, qt := jt + 1, qt + 24;
        iq[jt] := fw;
        TwoLimbs(limbs, iq[..jt + 1], z, fw);
      } else {
        iq[jt] := z;
        assert iq[..jt + 1][..jz] == limbs;
      }
    }
  }
}
