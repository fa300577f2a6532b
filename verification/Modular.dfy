/** Powers of integers and arithmetic modulo a positive integer, as math/big computes them. */
module Modular {

  function Pow(b: int, e: nat): int {
    if e == 0 then 1 else b * Pow(b, e - 1)
  }

  /** big.Int.Exp with a positive modulus. */
  function Exp(b: int, e: nat, n: nat): (r: nat)
    requires n > 0
    ensures r < n
  {
    Pow(b, e) % n
  }

  /** Same remainder. */
  predicate Congruent(a: int, b: int, n: nat)
    requires n > 0
  {
    a % n == b % n
  }

  lemma {:induction false} PowAdd(b: int, m: nat, n: nat)
    ensures Pow(b, m + n) == Pow(b, m) * Pow(b, n)
  {
    if m > 0 {
      PowAdd(b, m - 1, n);
      Associative(b, Pow(b, m - 1), Pow(b, n));
      assert m + n - 1 == m - 1 + n;
    }
  }

  lemma Associative(a: int, b: int, c: int)
    ensures a * (b * c) == a * b * c
  {
  }

  lemma {:induction false} PowProduct(a: int, b: int, e: nat)
    ensures Pow(a * b, e) == Pow(a, e) * Pow(b, e)
  {
    if e > 0 {
      PowProduct(a, b, e - 1);
      Interchange(a, b, Pow(a, e - 1), Pow(b, e - 1));
    }
  }

  lemma Interchange(a: int, b: int, x: int, y: int)
    ensures a * b * (x * y) == a * x * (b * y)
  {
    Associative(a * b, x, y);
    Associative(a, b, x);
    Associative(a * x, b, y);
    Associative(a, x, b);
  }

  lemma {:induction false} PowPow(b: int, m: nat, n: nat)
    ensures m * n >= 0 && Pow(Pow(b, m), n) == Pow(b, m * n)
  {
    if n > 0 {
      PowPow(b, m, n - 1);
      assert m * n == m + m * (n - 1);
      PowAdd(b, m, m * (n - 1));
    }
  }

  lemma QuotientUnique(z: int, q: int, r: int, n: nat)
    requires n > 0 && z == n * q + r && 0 <= r < n
    ensures z % n == r
  {
    var d := q - z / n;
    assert n * d == z % n - r by {
      assert z == n * (z / n) + z % n;
      Distribute(n, q, z / n);
    }
    Small(n, d);
  }

  lemma Distribute(n: int, a: int, b: int)
    ensures n * (a - b) == n * a - n * b
  {
  }

  lemma Small(n: int, d: int)
    requires n > 0 && -n < n * d < n
    ensures d == 0
  {
  }

  lemma AddMultiple(a: int, k: int, n: nat)
    requires n > 0
    ensures (a + n * k) % n == a % n
  {
    assert a == n * (a / n) + a % n;
    assert n * (a / n) + n * k == n * (a / n + k);
    QuotientUnique(a + n * k, a / n + k, a % n, n);
  }

  lemma CongruentAdd(a: int, b: int, c: int, n: nat)
    requires n > 0 && Congruent(a, b, n)
    ensures Congruent(a + c, b + c, n)
  {
    var k := a / n - b / n;
    Distribute(n, a / n, b / n);
    assert a + c == b + c + n * k;
    AddMultiple(b + c, k, n);
  }

  lemma CongruentMul(a: int, b: int, c: int, n: nat)
    requires n > 0 && Congruent(a, b, n)
    ensures Congruent(a * c, b * c, n)
  {
    var k := a / n - b / n;
    Distribute(n, a / n, b / n);
    assert a == b + n * k;
    assert a * c == b * c + n * (k * c);
    AddMultiple(b * c, k * c, n);
  }

  lemma {:induction false} CongruentPow(a: int, b: int, e: nat, n: nat)
    requires n > 0 && Congruent(a, b, n)
    ensures Congruent(Pow(a, e), Pow(b, e), n)
  {
    hide Congruent;
    if e == 0 {
      Congruent1(n);
    } else {
      CongruentPow(a, b, e - 1, n);
      CongruentProduct(a, b, Pow(a, e - 1), Pow(b, e - 1), n);
    }
  }

  lemma Congruent1(n: nat)
    requires n > 0
    ensures Congruent(1, 1, n)
  {
  }

  lemma CongruentProduct(a: int, b: int, x: int, y: int, n: nat)
    requires n > 0 && Congruent(a, b, n) && Congruent(x, y, n)
    ensures Congruent(a * x, b * y, n)
  {
    CongruentMul(a, b, x, n);
    CongruentMul(x, y, b, n);
    Commute(x, b);
    Commute(y, b);
  }

  lemma Commute(x: int, y: int)
    ensures x * y == y * x
  {
  }

  lemma Reduce(a: int, n: nat)
    requires n > 0
    ensures Congruent(a % n, a, n)
  {
    AddMultiple(a % n, a / n, n);
  }
}
