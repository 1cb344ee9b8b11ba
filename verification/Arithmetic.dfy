/** Integer arithmetic that the solver needs spelled out. */
module Arithmetic {
  function Pow2(n: nat): (r: int)
    ensures r >= 1
  {
    if n == 0 then 1 else 2 * Pow2(n - 1)
  }

  lemma {:induction false} Pow2Add(a: nat, b: nat)
    ensures Pow2(a + b) == Pow2(a) * Pow2(b)
  {
    if a > 0 {
      Pow2Add(a - 1, b);
      assert Pow2(a + b) == 2 * Pow2(a + b - 1);
    }
  }

  lemma {:induction false} Pow2Mono(a: nat, b: nat)
    requires a < b
    ensures 2 * Pow2(a) <= Pow2(b)
  {
    if a + 1 < b {
      Pow2Mono(a, b - 1);
    }
  }

  lemma Twice(a: int, b: int)
    ensures a * (2 * b) == 2 * (a * b)
  {
  }

  lemma MulMono(a: int, b: int, k: int)
    requires a <= b && k >= 0
    ensures a * k <= b * k
  {
    assert b * k - a * k == (b - a) * k;
  }

  lemma MulStrict(a: int, b: int, k: int)
    requires a < b && k >= 1
    ensures a * k < b * k
  {
    assert b * k - a * k == (b - a) * k;
  }

  lemma Associate(a: int, b: int, c: int)
    ensures a * b * c == a * (b * c)
  {
  }

  lemma Euclid(x: int, d: int)
    requires d >= 1
    ensures x == d * (x / d) + x % d && 0 <= x % d < d
    ensures x >= 0 ==> x / d >= 0
  {
  }

  lemma Multiple(d: int, k: int)
    requires d >= 1
    ensures k >= 1 ==> d * k >= d
    ensures k <= -1 ==> d * k <= -d
  {
  }

  /** Division with remainder has one answer. */
  lemma DivMod(x: int, d: int, q: int, r: int)
    requires d >= 1 && x == d * q + r && 0 <= r < d
    ensures x / d == q && x % d == r
  {
    Euclid(x, d);
    var k := x / d - q;
    assert d * (x / d) - d * q == d * k;
    Multiple(d, k);
  }

  lemma ModScale(a: int, b: int, k: int)
    requires b >= 1 && k >= 1
    ensures b * k >= 1
    ensures (a * k) % (b * k) == (a % b) * k
  {
    Euclid(a, b);
    assert a * k == (b * k) * (a / b) + (a % b) * k;
    assert (a % b) * k < b * k;
    DivMod(a * k, b * k, a / b, (a % b) * k);
  }

  lemma Cancel(a: int, b: int, k: int)
    requires k >= 1 && a * k == b * k
    ensures a == b
  {
  }

  lemma Shrinks(x: nat, d: int)
    requires d >= 1
    ensures 0 <= x / d <= x
  {
    Euclid(x, d);
  }
}
