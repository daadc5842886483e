// Powers of two and congruences, as the modular arithmetic of pidigits.h uses them.
module NumberTheory {

  function Pow2(n: nat): (p: nat)
    ensures p >= 1
  {
    if n == 0 then 1 else 2 * Pow2(n - 1)
  }

  lemma {:induction false} Pow2Add(a: nat, b: nat)
    ensures Pow2(a + b) == Pow2(a) * Pow2(b)
  {
    if a != 0 {
      Pow2Add(a - 1, b);
      assert Pow2(a + b) == 2 * Pow2(a - 1 + b);
      assert 2 * (Pow2(a - 1) * Pow2(b)) == (2 * Pow2(a - 1)) * Pow2(b);
    }
  }

  lemma {:induction false} Pow2Monotone(a: nat, b: nat)
    requires a <= b
    ensures Pow2(a) <= Pow2(b)
  {
    if a < b {
      Pow2Monotone(a, b - 1);
    }
  }

  lemma HalfWords()
    ensures Pow2(2) == 4 && Pow2(4) == 0x10 && Pow2(8) == 0x100 && Pow2(16) == 0x1_0000
    ensures Pow2(32) == 0x1_0000_0000
  {
    assert Pow2(4) == 0x10;
    Pow2Add(4, 4);
    Pow2Add(8, 8);
    Pow2Add(16, 16);
  }

  lemma FullWords()
    ensures Pow2(62) == 0x4000_0000_0000_0000
    ensures Pow2(63) == 0x8000_0000_0000_0000
    ensures Pow2(64) == 0x1_0000_0000_0000_0000
  {
    HalfWords();
    Pow2Add(32, 32);
  }

  // n divides a, with the quotient of the division as witness.
  predicate Divides(n: int, a: int)
    requires n > 0
  {
    a % n == 0
  }

  // a and b leave the same remainder modulo n.
  predicate Congruent(a: int, b: int, n: int)
    requires n > 0
  {
    a % n == b % n
  }

  lemma MultipleIsFar(k: int, n: int)
    requires n > 0
    ensures k >= 1 ==> k * n >= n
    ensures k <= -1 ==> k * n <= -n
  {
    if k >= 1 {
      assert k * n >= 1 * n;
    } else if k <= -1 {
      assert k * n <= -1 * n;
    }
  }

  lemma SmallMultipleIsZero(k: int, n: int)
    requires n > 0 && -n < k * n < n
    ensures k == 0
  {
    MultipleIsFar(k, n);
  }

  lemma DivModUnique(a: int, q: int, r: int, n: int)
    requires n > 0 && a == q * n + r && 0 <= r < n
    ensures a / n == q && a % n == r
  {
    var q', r' := a / n, a % n;
    assert (q - q') * n == r' - r by {
      assert a == q' * n + r';
      assert (q - q') * n == q * n - q' * n;
    }
    SmallMultipleIsZero(q - q', n);
  }

  // x is word with its low bits (those below the weight p) cut off.
  ghost predicate Truncates(word: int, x: int, p: int) {
    x * p <= word < (x + 1) * p
  }

  lemma QuotientBounds(x: int, q: int)
    requires x >= 0 && q > 0
    ensures 0 <= x / q <= x
    ensures x / q == 0 ==> x < q
  {
    QuotientRange(x, x / q, x % q, q);
  }

  lemma QuotientRange(x: int, d: int, r: int, q: int)
    requires x >= 0 && q > 0 && x == d * q + r && 0 <= r < q
    ensures 0 <= d <= x
    ensures d == 0 ==> x < q
  {
    MultipleIsFar(d, q);
    if d > 0 {
      MulMonotone(1, q, d);
    }
  }

  lemma MulMonotone(a: int, b: int, c: int)
    requires a <= b && 0 <= c
    ensures a * c <= b * c
  {
    assert (b - a) * c >= 0;
  }

  lemma MulAssociates(a: int, b: int, c: int)
    ensures (a * b) * c == a * (b * c) == (a * c) * b
  {
  }

  lemma TruncatesTwice(word: int, x: int, y: int, p: int, q: int)
    requires p > 0 && q > 0 && Truncates(word, x, p) && Truncates(x, y, q)
    ensures Truncates(word, y, p * q)
  {
    MulMonotone(y * q, x, p);
    MulMonotone(x + 1, (y + 1) * q, p);
    MulAssociates(y, q, p);
    MulAssociates(y + 1, q, p);
  }

  lemma QuotientTruncates(x: int, q: int)
    requires q > 0
    ensures Truncates(x, x / q, q)
  {
    assert x == x / q * q + x % q;
    assert (x / q + 1) * q == x / q * q + q;
  }

  lemma DivTwice(x: int, p: int, q: int)
    requires p > 0 && q > 0
    ensures p * q > 0 && x / p / q == x / (p * q)
  {
    MulMonotone(1, p, q);
    QuotientTruncates(x, p);
    QuotientTruncates(x / p, q);
    TruncatesTwice(x, x / p, x / p / q, p, q);
    TruncationIsQuotient(x, x / p / q, p * q);
  }

  lemma TruncationIsQuotient(x: int, d: int, q: int)
    requires q > 0 && Truncates(x, d, q)
    ensures x / q == d
  {
    DivModUnique(x, d, x - d * q, q);
  }

  lemma MultipleDivides(k: int, n: int)
    requires n > 0
    ensures Divides(n, k * n) && Divides(n, n * k)
  {
    DivModUnique(k * n, k, 0, n);
  }

  lemma DividesScale(n: int, a: int, c: int)
    requires n > 0 && Divides(n, a)
    ensures Divides(n, c * a)
  {
    MulAssociates(c, a / n, n);
    MultipleDivides(c * (a / n), n);
  }

  lemma DividesProduct(p: int, a: int, q: int, b: int)
    requires p > 0 && q > 0 && Divides(p, a) && Divides(q, b)
    ensures p * q > 0 && Divides(p * q, a * b)
  {
    var k, l := a / p, b / q;
    assert a == k * p && b == l * q;
    MulMonotone(1, p, q);
    ProductOfProducts(k, p, l, q);
    MultipleDivides(k * l, p * q);
  }

  lemma ProductOfProducts(k: int, p: int, l: int, q: int)
    ensures (k * p) * (l * q) == (k * l) * (p * q)
  {
    MulAssociates(k, p, l * q);
    MulAssociates(p, l, q);
    MulAssociates(k, l, p * q);
    MulAssociates(l, p, q);
  }

  lemma DividesFactor(n: int, k: int, a: int)
    requires n > 0 && k > 0 && n * k > 0 && Divides(n * k, a)
    ensures Divides(n, a)
  {
    var z := a / (n * k);
    assert a == z * (n * k);
    MulAssociates(z, k, n);
    MultipleDivides(z * k, n);
  }

  lemma AddMultiple(a: int, k: int, n: int)
    requires n > 0
    ensures Congruent(a + k * n, a, n)
  {
    DivModUnique(a + k * n, a / n + k, a % n, n);
  }

  lemma MulDistributes(a: int, b: int, c: int)
    ensures (a + b) * c == a * c + b * c && (a - b) * c == a * c - b * c
  {
  }

  lemma CongruentIffDivides(a: int, b: int, n: int)
    requires n > 0
    ensures Congruent(a, b, n) <==> Divides(n, a - b)
  {
    if Congruent(a, b, n) {
      SameRemainder(a, a / n, b, b / n, a % n, n);
    } else if Divides(n, a - b) {
      AddMultiple(b, (a - b) / n, n);
    }
  }

  lemma SameRemainder(a: int, p: int, b: int, q: int, r: int, n: int)
    requires n > 0 && a == p * n + r && b == q * n + r
    ensures Divides(n, a - b)
  {
    MulDistributes(p, q, n);
    MultipleDivides(p - q, n);
  }

  lemma CongruentMod(a: int, n: int)
    requires n > 0
    ensures Congruent(a % n, a, n)
  {
    DivModUnique(a % n, 0, a % n, n);
  }

  lemma CongruentAdd(a: int, b: int, c: int, d: int, n: int)
    requires n > 0 && Congruent(a, b, n) && Congruent(c, d, n)
    ensures Congruent(a + c, b + d, n)
  {
    var k, l := a / n - b / n, c / n - d / n;
    assert a == b + k * n && c == d + l * n;
    assert a + c == b + d + (k + l) * n by { assert (k + l) * n == k * n + l * n; }
    AddMultiple(b + d, k + l, n);
  }

  lemma CongruentScale(a: int, b: int, c: int, n: int)
    requires n > 0 && Congruent(a, b, n)
    ensures Congruent(c * a, c * b, n) && Congruent(a * c, b * c, n)
  {
    var k := a / n - b / n;
    assert a == b + k * n;
    calc {
      c * a;
      c * (b + k * n);
      c * b + c * (k * n);
      { assert c * (k * n) == (c * k) * n; }
      c * b + (c * k) * n;
    }
    AddMultiple(c * b, c * k, n);
  }

  lemma CongruentMul(a: int, b: int, c: int, d: int, n: int)
    requires n > 0 && Congruent(a, b, n) && Congruent(c, d, n)
    ensures Congruent(a * c, b * d, n)
  {
    CongruentScale(a, b, c, n);
    CongruentScale(c, d, b, n);
  }

  // A congruence modulo a multiple of n is a congruence modulo n.
  lemma CongruentFactor(a: int, b: int, n: int, k: int)
    requires n > 0 && k > 0 && n * k > 0 && Congruent(a, b, n * k)
    ensures Congruent(a, b, n)
  {
    var q := a / (n * k) - b / (n * k);
    assert a == b + q * (n * k);
    assert q * (n * k) == (q * k) * n;
    AddMultiple(b, q * k, n);
  }

  // Two is invertible modulo an odd m.
  lemma CancelTwo(c: int, m: int)
    requires m > 0 && m % 2 == 1 && Divides(m, 2 * c)
    ensures Divides(m, c)
  {
    var h, k := m / 2, 2 * c / m;
    assert m == 2 * h + 1 && 2 * c == k * m;
    assert c == m * c - h * (2 * c) by {
      assert m * c == (2 * h + 1) * c == h * (2 * c) + c;
    }
    assert h * (k * m) == (h * k) * m;
    assert c == (c - h * k) * m by { assert (c - h * k) * m == c * m - (h * k) * m; }
    MultipleDivides(c - h * k, m);
  }

  lemma {:induction false} CancelPow2(a: int, b: int, s: nat, m: int)
    requires m > 0 && m % 2 == 1
    requires Congruent(a * Pow2(s), b * Pow2(s), m)
    ensures Congruent(a, b, m)
  {
    if s != 0 {
      var p := Pow2(s - 1);
      assert a * Pow2(s) - b * Pow2(s) == 2 * (a * p - b * p);
      CongruentIffDivides(a * Pow2(s), b * Pow2(s), m);
      CancelTwo(a * p - b * p, m);
      CongruentIffDivides(a * p, b * p, m);
      CancelPow2(a, b, s - 1, m);
    }
  }

  // An odd x is invertible modulo a power of two.
  lemma {:induction false} OddCancel(x: int, y: int, s: nat)
    requires x % 2 == 1 && Divides(Pow2(s), x * y)
    ensures Divides(Pow2(s), y)
  {
    if s != 0 {
      var h := Pow2(s - 1);
      DividesFactor(h, 2, x * y);
      OddCancel(x, y, s - 1);
      var z, k := y / h, x * y / (2 * h);
      assert y == z * h && x * y == k * (2 * h);
      EvenQuotient(x, z, k, h);
    }
  }

  lemma EvenQuotient(x: int, z: int, k: int, h: int)
    requires x % 2 == 1 && h > 0 && x * (z * h) == k * (2 * h)
    ensures Divides(2 * h, z * h)
  {
    MulAssociates(x, z, h);
    MulAssociates(k, 2, h);
    CancelFactor(x * z, k * 2, h);
    OddTimesOdd(x, z);
    MulAssociates(z / 2, 2, h);
    MultipleDivides(z / 2, 2 * h);
  }

  lemma CancelFactor(a: int, b: int, n: int)
    requires n > 0 && a * n == b * n
    ensures a == b
  {
    assert (a - b) * n == a * n - b * n;
    SmallMultipleIsZero(a - b, n);
  }

  lemma OddTimesOdd(x: int, z: int)
    ensures x % 2 == 1 && z % 2 == 1 ==> (x * z) % 2 == 1
  {
    if x % 2 == 1 && z % 2 == 1 {
      CongruentMul(x, 1, z, 1, 2);
    }
  }
}
