/** Small facts about products and quotients, one step each. */
module Arithmetic {

  lemma MulOrder(a: int, b: int, k: int)
    requires k > 0
    ensures a < b <==> a * k < b * k
    ensures a == b <==> a * k == b * k
  {
    var gap := (b - a) * k;
    assert gap == b * k - a * k;
    if a < b {
      MulPositive(b - a, k);
    } else if a > b {
      MulPositive(a - b, k);
      assert gap == -((a - b) * k);
    }
  }

  lemma MulPositive(a: int, b: int)
    requires a > 0 && b > 0
    ensures a * b > 0
  {
  }

  lemma RealMulPositive(a: real, b: real)
    requires a > 0.0 && b > 0.0
    ensures a * b > 0.0
  {
  }

  lemma RealMulOrder(a: real, b: real, k: real)
    requires k > 0.0
    ensures a < b <==> a * k < b * k
    ensures a == b <==> a * k == b * k
  {
    var gap := (b - a) * k;
    assert gap == b * k - a * k;
    if a < b {
      RealMulPositive(b - a, k);
    } else if a > b {
      RealMulPositive(a - b, k);
      assert gap == -((a - b) * k);
    }
  }

  // Fractions are compared by multiplying across.
  lemma CrossMultiply(a: int, p: int, b: int, q: int)
    requires p > 0 && q > 0
    ensures a as real / p as real < b as real / q as real <==> a * q < b * p
    ensures a as real / p as real == b as real / q as real <==> a * q == b * p
  {
    var x, y := a as real / p as real, b as real / q as real;
    var pr, qr := p as real, q as real;
    Scaled(a, p, q);
    Scaled(b, q, p);
    assert pr * qr == qr * pr;
    RealMulPositive(pr, qr);
    RealMulOrder(x, y, pr * qr);
  }

  lemma Scaled(a: int, p: int, q: int)
    requires p > 0
    ensures (a as real / p as real) * (p as real * q as real) == (a * q) as real
  {
    var x, pr, qr := a as real / p as real, p as real, q as real;
    assert x * pr == a as real;
    assert x * (pr * qr) == (x * pr) * qr;
    Product(a, q);
  }

  lemma Product(a: int, b: int)
    ensures (a * b) as real == a as real * b as real
  {
  }

  lemma Reassociate(a: int, b: int, c: int)
    ensures (a * b) * c == a * (b * c)
    ensures (a * b) * c == (a * c) * b
  {
  }

  lemma NextMultiple(p: int, q: int, n: int)
    requires n > 0 && p > q
    ensures p * n >= q * n + n
  {
    MulOrder(q + 1, p, n);
    assert (q + 1) * n == q * n + n;
  }

  // Quotient and remainder are the only numbers that behave as such.
  lemma DivModUnique(a: int, q: int, r: int, n: int)
    requires n > 0 && 0 <= r < n && a == q * n + r
    ensures a / n == q && a % n == r
  {
    var q', r' := a / n, a % n;
    assert a == q' * n + r';
    if q' > q {
      NextMultiple(q', q, n);
    } else if q' < q {
      NextMultiple(q, q', n);
    }
  }

  lemma ModuloOfSum(a: int, i: int, n: int)
    requires n > 0 && 0 <= i < n
    ensures (a + i) % n == if a % n + i < n then a % n + i else a % n + i - n
  {
    var q, r := a / n, a % n;
    assert a == q * n + r;
    if r + i < n {
      DivModUnique(a + i, q, r + i, n);
    } else {
      assert (q + 1) * n == q * n + n;
      DivModUnique(a + i, q + 1, r + i - n, n);
    }
  }

  // Go's / and %, which truncate toward zero.
  function TruncDiv(a: int, b: int): int
    requires b > 0
  {
    if a >= 0 then a / b else -(-a / b)
  }

  function TruncMod(a: int, b: int): (r: int)
    requires b > 0
    ensures -b < r < b
  {
    if a >= 0 then a % b else -(-a % b)
  }
}
