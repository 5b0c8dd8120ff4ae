/** Products, quotients and powers of naturals, in facts small enough for the solver. */
module Arithmetic {
  function Min(a: nat, b: nat): nat { if a < b then a else b }

  function Zeros(n: nat): (r: seq<nat>)
    ensures |r| == n && forall i | 0 <= i < n :: r[i] == 0
  {
    seq(n, _ => 0)
  }

  lemma MulDiff(a: int, b: int, d: int)
    ensures (a - b) * d == a * d - b * d
  {
  }

  lemma {:induction false} MulLess(a: int, b: int, d: nat)
    requires a < b
    ensures a * d + d <= b * d
    decreases b - a
  {
    MulDiff(b, 1, d);
    if a < b - 1 {
      MulLess(a, b - 1, d);
    }
  }

  lemma MulThree(a: int, b: int, c: int)
    ensures a * (b * c) == (a * b) * c
  {
  }

  lemma MulGrows(a: nat, b: nat, c: nat, d: nat)
    requires a <= b && c <= d
    ensures a * c <= b * d
    ensures a < b && c < d ==> a * c < b * d
  {
    if a < b {
      MulLess(a, b, c);
    }
    if c < d {
      MulLess(c, d, b);
    }
    assert a * c <= b * c && c * b <= d * b;
  }

  lemma DivAbove(a: nat, p: nat, k: nat)
    requires p > 0
    ensures k < a / p <==> k * p + p <= a
  {
    var q := a / p;
    assert q * p <= a < q * p + p;
    if k < q {
      MulLess(k, q, p);
    } else if q < k {
      MulLess(q, k, p);
    }
  }

  lemma DivMod(b: nat, q: nat, r: nat)
    requires r < b
    ensures (q * b + r) / b == q && (q * b + r) % b == r
  {
    var n := q * b + r;
    DivAbove(n, b, q);
    if q > 0 {
      DivAbove(n, b, q - 1);
      assert (q - 1) * b + b == q * b;
    }
    assert n / b * b + n % b == n;
  }

  lemma Shrinks(n: nat, b: nat)
    requires n > 0 && b > 1
    ensures n / b < n
  {
    DivAbove(n, b, n - 1);
    MulGrows(n, n, 2, b);
    assert (n - 1) * b + b == n * b;
  }

  // ---------- powers ----------

  function Pow(b: nat, e: nat): (p: nat)
    ensures b > 0 ==> p > 0
  {
    if e == 0 then 1 else b * Pow(b, e - 1)
  }

  lemma PowOne(b: nat)
    ensures Pow(b, 1) == b
  {
    assert Pow(b, 0) == 1;
  }

  lemma {:induction false} PowAdd(b: nat, m: nat, n: nat)
    ensures Pow(b, m + n) == Pow(b, m) * Pow(b, n)
    decreases m
  {
    if m > 0 {
      PowAdd(b, m - 1, n);
      MulThree(b, Pow(b, m - 1), Pow(b, n));
    }
  }

  lemma {:induction false} PowTimes(b: nat, m: nat, n: nat)
    ensures Pow(b, m * n) == Pow(Pow(b, m), n)
    decreases n
  {
    if n > 0 {
      PowTimes(b, m, n - 1);
      assert m * n == m + m * (n - 1);
      PowAdd(b, m, m * (n - 1));
    } else {
      assert m * n == 0;
    }
  }

  lemma PowSwap(b: nat, m: nat, n: nat)
    ensures Pow(Pow(b, m), n) == Pow(Pow(b, n), m)
  {
    PowTimes(b, m, n);
    PowTimes(b, n, m);
    hide Pow;
    assert m * n == n * m;
  }

  lemma {:induction false} PowGrows(b: nat, m: nat, n: nat)
    requires b > 0 && m <= n
    ensures Pow(b, m) <= Pow(b, n)
    decreases n
  {
    if m < n {
      PowGrows(b, m, n - 1);
      MulGrows(1, b, Pow(b, n - 1), Pow(b, n - 1));
    }
  }

  lemma {:induction false} PowInBase(a: nat, b: nat, e: nat)
    requires a <= b
    ensures Pow(a, e) <= Pow(b, e)
    ensures a < b && e > 0 ==> Pow(a, e) < Pow(b, e)
    decreases e
  {
    if e == 1 {
      PowOne(a);
      PowOne(b);
    } else if e > 1 {
      PowInBase(a, b, e - 1);
      MulGrows(a, b, Pow(a, e - 1), Pow(b, e - 1));
    }
  }

  /** Roots keep the order. */
  lemma PowReflects(a: nat, b: nat, e: nat)
    requires e > 0 && Pow(a, e) <= Pow(b, e)
    ensures a <= b
  {
    if b < a {
      PowInBase(b, a, e);
    }
  }

  lemma Power(b: nat, m: nat, n: nat, p: nat, q: nat)
    requires Pow(b, m) == p && Pow(b, n) == q
    ensures Pow(b, m + n) == p * q
  {
    PowAdd(b, m, n);
  }

  // ---------- shifts ----------

  /** One shifted left. */
  function Pow2(h: nat): (p: nat)
    ensures p > 0
  {
    if h == 0 then 1 else 2 * Pow2(h - 1)
  }

  lemma {:induction false} Pow2Splits(k: nat, n: nat)
    requires k < n
    ensures Pow2(n) == 2 * Pow2(n - 1 - k) * Pow2(k)
    decreases n
  {
    if k < n - 1 {
      Pow2Splits(k, n - 1);
      MulThree(2, Pow2(n - 2 - k), Pow2(k));
      MulThree(2, Pow2(n - 1 - k), Pow2(k));
    }
  }

  lemma SmallQuotient(a: nat, p: nat)
    requires a < p
    ensures a / p == 0
  {
    DivAbove(a, p, 0);
  }

  lemma MulSum(a: int, b: int, d: int)
    ensures (a + b) * d == a * d + b * d
  {
  }

  lemma DivPlus(a: nat, p: nat, q: nat)
    requires p > 0
    ensures (a + q * p) / p == a / p + q
  {
    var d, r := a / p, a % p;
    assert a == d * p + r;
    MulSum(d, q, p);
    DivMod(p, d + q, r);
  }

  lemma DivPlusEven(a: nat, p: nat, q: nat)
    requires p > 0
    ensures (a + 2 * q * p) / p % 2 == a / p % 2
  {
    DivPlus(a, p, 2 * q);
  }

  lemma {:induction false} Pow2Grows(a: nat, b: nat)
    requires a <= b
    ensures Pow2(a) <= Pow2(b)
    decreases b
  {
    if a < b {
      Pow2Grows(a, b - 1);
    }
  }
}
