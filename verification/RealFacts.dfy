/** Facts about products and quotients of reals, kept apart from the definitions that use them. */
module RealFacts {

  function MinReal(x: real, y: real): real {
    if x < y then x else y
  }

  function MaxReal(x: real, y: real): real {
    if x < y then y else x
  }

  lemma SignTimesPositive(d: real, s: real)
    requires s > 0.0
    ensures d * s >= 0.0 <==> d >= 0.0
  {
  }

  lemma ProductMonotone(k: real, x: real, y: real)
    requires k >= 0.0 && x <= y
    ensures k * x <= k * y
  {
  }

  lemma ScaledMonotone(x: real, y: real, k: real)
    requires k >= 0.0 && x <= y
    ensures x * k <= y * k
  {
  }

  lemma NonnegativeProduct(a: real, b: real)
    requires a >= 0.0 && b >= 0.0
    ensures a * b >= 0.0
  {
  }

  lemma QuotientTimes(a: real, s: real)
    requires s > 0.0
    ensures a / s * s == a
  {
  }

  lemma QuotientNonnegative(a: real, s: real)
    requires a >= 0.0 && s > 0.0
    ensures a / s >= 0.0
  {
  }

  lemma SameQuotient(a: real, b: real, q: real)
    requires b != 0.0 && q * b == a
    ensures a / b == q
  {
  }

  lemma Associate(a: real, b: real, c: real)
    ensures (a * b) * c == a * (b * c)
  {
  }

  lemma Distribute(a: real, b: real, c: real)
    ensures (a - b) * c == a * c - b * c
    ensures (a + b) * c == a * c + b * c
  {
  }

  lemma DivideOut(x: real, y: real, b: real)
    requires b > 0.0
    ensures b * x <= y <==> x <= y / b
  {
    var z := y / b;
    QuotientTimes(y, b);
    SignTimesPositive(z - x, b);
    Distribute(z, x, b);
  }

  lemma QuotientDifference(a: real, m: real, s: real)
    requires s > 0.0
    ensures (a - m) / s == a / s - m / s
  {
  }

  lemma QuotientSum(a: real, b: real, s: real)
    requires s > 0.0
    ensures (a + b) / s == a / s + b / s && s / s == 1.0
  {
  }

  lemma QuotientOrder(a: real, b: real, size: real)
    requires size > 0.0 && a <= b
    ensures a / size <= b / size
    ensures a / size == b / size <==> a == b
  {
    QuotientTimes(a, size);
    QuotientTimes(b, size);
    Distribute(b / size, a / size, size);
    SignTimesPositive(b / size - a / size, size);
  }

  lemma QuotientScaled(a: real, s: real, k: real)
    requires s > 0.0 && k > 0.0
    ensures k * s > 0.0 && (k * a) / (k * s) == a / s
  {
    var f := a / s;
    QuotientTimes(a, s);
    assert f * (k * s) == k * a by { Associate(f, k, s); Associate(k, f, s); }
    var g := (k * a) / (k * s);
    QuotientTimes(k * a, k * s);
    Distribute(f, g, k * s);
    assert (f - g) * (k * s) == 0.0;
  }

  /** `bu - beta * (lu - m) / s` against `bv - beta * (lv - m) / s`: the shift `m` drops out. */
  lemma Exchange(bu: real, bv: real, lu: real, lv: real, m: real, s: real, beta: real)
    requires s > 0.0
    ensures bv - beta * ((lv - m) / s) <= bu - beta * ((lu - m) / s) <==> beta * (lu - lv) <= (bu - bv) * s
  {
    var ru, rv := (lu - m) / s, (lv - m) / s;
    QuotientTimes(lu - m, s);
    QuotientTimes(lv - m, s);
    Distribute(ru, rv, s);
    assert (ru - rv) * s == lu - lv;
    var d := (bu - bv) - beta * (ru - rv);
    Distribute(bu - bv, beta * (ru - rv), s);
    Associate(beta, ru - rv, s);
    assert d * s == (bu - bv) * s - beta * (lu - lv);
    SignTimesPositive(d, s);
    assert d == (bu - beta * ru) - (bv - beta * rv);
  }

  /** A load `l` out of a total `n * m`, measured against the mean `m` on a scale of at least `m`. */
  lemma RelativeBounds(l: real, m: real, s: real, n: real)
    requires 0.0 <= l <= n * m && 0.0 <= m <= s && s > 0.0 && n >= 1.0
    ensures -1.0 <= (l - m) / s <= n - 1.0
  {
    var r := (l - m) / s;
    QuotientTimes(l - m, s);
    Distribute(r, -1.0, s);
    SignTimesPositive(r + 1.0, s);
    Distribute(n, 1.0, m);
    ProductMonotone(n - 1.0, m, s);
    Distribute(n - 1.0, r, s);
    SignTimesPositive(n - 1.0 - r, s);
  }

  lemma MeanRatio(t: real, t': real, n: real, k: real)
    requires n > 0.0 && t' == k * t
    ensures t' / n == k * (t / n)
  {
    var x, y := t' / n, k * (t / n);
    QuotientTimes(t, n);
    QuotientTimes(t', n);
    Associate(k, t / n, n);
    assert x * n == y * n;
    Distribute(x, y, n);
    assert (x - y) * n == 0.0;
  }
}
