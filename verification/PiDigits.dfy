// What the job's result has to do with pi: it is the scaled Bailey-Borwein-Plouffe sum modulo 2^64, up to an
// error that grows with the target digit.
module PiDigits {
  import opened Words
  import opened NumberTheory
  import opened PiTerms

  // 2^e for every integer e.
  function Power(e: int): (p: real)
    ensures p > 0.0
    decreases if e >= 0 then 0 else -e
  {
    if e >= 0 then Pow2(e) as real else Power(e + 1) / 2.0
  }

  lemma PowerNext(e: int)
    ensures Power(e + 1) == 2.0 * Power(e)
  {
  }

  lemma Power4(e: int)
    ensures Power(e + 4) == 16.0 * Power(e)
  {
    PowerNext(e);
    PowerNext(e + 1);
    PowerNext(e + 2);
    PowerNext(e + 3);
  }

  lemma Power16(e: int)
    ensures Power(e + 16) == 65536.0 * Power(e)
  {
    Power4(e);
    Power4(e + 4);
    Power4(e + 8);
    Power4(e + 12);
  }

  lemma Power64(e: int)
    ensures Power(e + 64) == B64 as real * Power(e)
  {
    Power16(e);
    Power16(e + 16);
    Power16(e + 32);
    Power16(e + 48);
  }

  // A quotient is the number whose product with the divisor is the dividend.
  lemma QuotientIs(q: real, x: real, y: real)
    requires y > 0.0 && q * y == x
    ensures x / y == q
  {
  }

  // ---------- the terms ----------

  // Term k of a series, for whole and fractional powers alike.
  function Term(s: Series, k: nat): real
    requires s.offset > 0
  {
    Power(64 + s.scalePow - 4 * k) / Modulus(s, k) as real
  }

  function Partial(s: Series, n: nat): real
    requires s.offset > 0
  {
    if n == 0 then 0.0 else Partial(s, n - 1) + Term(s, n - 1)
  }

  // A real number has the integer part i, up to multiples of 2^64.
  predicate FloorIs(x: real, i: int) {
    i as real <= x < i as real + 1.0
  }

  // A whole term is its scaled fraction and a multiple of 2^64.
  lemma WholeTerm(s: Series, k: nat) returns (q: int)
    requires s.offset > 0 && k < Iterations(s)
    ensures FloorIs(Term(s, k), TermFloor(s, k) + q * B64)
  {
    var p, m, e := Pow2(s.scalePow - 4 * k), Modulus(s, k), s.scalePow - 4 * k;
    FullWords();
    Pow2Add(e, 64);
    q := p / m;
    WideQuotient(p, m);
    FloorOfReal(p * B64, m);
  }

  lemma WideQuotient(p: int, m: int)
    requires m > 0
    ensures p * B64 / m == p / m * B64 + p % m * B64 / m
  {
    var q, r := p / m, p % m;
    assert p == q * m + r;
    Rearranged(q, m, r);
    QuotientPlus(r * B64, q * B64, m);
  }

  lemma Rearranged(q: int, m: int, r: int)
    ensures (q * m + r) * B64 == (q * B64) * m + r * B64
  {
  }

  lemma QuotientPlus(a: int, q: int, m: int)
    requires m > 0
    ensures (q * m + a) / m == q + a / m
  {
    var f, g := a / m, a % m;
    assert q * m + a == (q + f) * m + g;
    DivModUnique(q * m + a, q + f, g, m);
  }

  // The power of two in the j-th fractional term.
  function Weight(s: Series, j: nat): (w: real)
    ensures w > 0.0
  {
    Power(60 + s.scalePow % 4 - 4 * j)
  }

  lemma WeightShrinks(s: Series, j: nat)
    ensures Weight(s, j + 1) == Weight(s, j) / 16.0
  {
    Power4(60 + s.scalePow % 4 - 4 * (j + 1));
  }

  // What computeTail holds in x is its integer part.
  lemma {:induction false} WeightFloor(s: Series, j: nat)
    ensures FloorIs(Weight(s, j), TailStart(s) / Pow2(4 * j))
  {
    if j > 0 {
      WeightFloor(s, j - 1);
      WeightShrinks(s, j - 1);
      TailStep(s, j - 1);
      SixteenthFloor(Weight(s, j - 1), TailStart(s) / Pow2(4 * (j - 1)));
    }
  }

  lemma SixteenthFloor(w: real, i: int)
    requires FloorIs(w, i)
    ensures FloorIs(w / 16.0, i / 16)
  {
  }

  lemma FloorOfQuotient(w: real, i: int, m: int)
    requires FloorIs(w, i) && m > 0
    ensures FloorIs(w / m as real, i / m)
  {
    var q, r := i / m, i % m;
    assert i == q * m + r;
    RealProduct(q, m);
    QuotientBetween(w, q as real, m as real);
  }

  lemma RealProduct(a: int, b: int)
    ensures (a * b) as real == a as real * b as real
  {
  }

  lemma QuotientBetween(w: real, q: real, m: real)
    requires m > 0.0 && q * m <= w < q * m + m
    ensures q <= w / m < q + 1.0
  {
    var t := w / m;
    assert t * m == w;
    Cancel(q, t, m);
    Cancel(t, q + 1.0, m);
  }

  lemma Cancel(a: real, b: real, m: real)
    requires m > 0.0
    ensures a * m <= b * m ==> a <= b
    ensures a * m < b * m ==> a < b
  {
    if a >= b {
      assert (a - b) * m >= 0.0;
    }
    if a > b {
      assert (a - b) * m > 0.0;
    }
  }

  // A fractional term is cut to its integer part.
  lemma TailTermFloor(s: Series, j: nat)
    requires s.offset > 0
    ensures FloorIs(Term(s, Iterations(s) + j), TailTerm(s, j))
  {
    assert 64 + s.scalePow - 4 * (Iterations(s) + j) == 60 + s.scalePow % 4 - 4 * j;
    WeightFloor(s, j);
    FloorOfQuotient(Weight(s, j), TailStart(s) / Pow2(4 * j), Modulus(s, Iterations(s) + j));
  }

  // ---------- the sums ----------

  // The whole terms: count floors, and a multiple of 2^64.
  lemma {:induction false} WholeTerms(s: Series, count: nat) returns (q: int)
    requires s.offset > 0 && count <= Iterations(s)
    ensures var i := SumTerms(s, 0, count) + q * B64;
      i as real <= Partial(s, count) <= (i + count) as real
  {
    if count == 0 {
      q := 0;
    } else {
      q := WholeTerms(s, count - 1);
      var r := WholeTerm(s, count - 1);
      q := q + r;
    }
  }

  lemma TermBelowWeight(s: Series, j: nat)
    requires s.offset > 0
    ensures 0.0 < Term(s, Iterations(s) + j) <= Weight(s, j) / 2.0
  {
    assert 64 + s.scalePow - 4 * (Iterations(s) + j) == 60 + s.scalePow % 4 - 4 * j;
    HalfAtMost(Weight(s, j), Modulus(s, Iterations(s) + j) as real);
  }

  lemma HalfAtMost(w: real, m: real)
    requires w > 0.0 && m >= 2.0
    ensures 0.0 < w / m <= w / 2.0
  {
    var t := w / m;
    assert t * m == w;
    Sign(t, m);
    assert t * (m - 2.0) >= 0.0;
  }

  lemma Sign(t: real, m: real)
    requires m > 0.0
    ensures t <= 0.0 ==> t * m <= 0.0
  {
  }

  // The first 16 fractional terms.
  lemma {:induction false} TailTerms(s: Series, count: nat)
    requires s.offset > 0 && count <= 16
    ensures TailSum(s, count) as real <= Partial(s, Iterations(s) + count) - Partial(s, Iterations(s))
      <= (TailSum(s, count) + count) as real
  {
    if count > 0 {
      TailTerms(s, count - 1);
      TailTermFloor(s, count - 1);
    }
  }

  // All later ones together are less than one unit.
  lemma {:induction false} RestIsSmall(s: Series, n: nat)
    requires s.offset > 0 && n >= 16
    ensures 0.0 <= Partial(s, Iterations(s) + n) - Partial(s, Iterations(s) + 16) <= Weight(s, 16) - Weight(s, n)
  {
    if n > 16 {
      RestIsSmall(s, n - 1);
      TermBelowWeight(s, n - 1);
      WeightShrinks(s, n - 1);
    }
  }

  lemma WeightBelowOne(s: Series)
    requires s.offset > 0
    ensures Weight(s, 16) < 1.0
  {
    WeightFloor(s, 16);
    TailVanishes(s);
  }

  // One series: what the mapper adds up, a multiple of 2^64, and an error below one unit per term.
  lemma SeriesError(s: Series, n: nat) returns (q: int)
    requires s.offset > 0 && n >= Iterations(s) + 16
    ensures var i := SumTerms(s, 0, Iterations(s)) + TailSum(s, 16) + q * B64;
      i as real <= Partial(s, n) < (i + Iterations(s) + 17) as real
  {
    q := WholeTerms(s, Iterations(s));
    TailTerms(s, 16);
    RestIsSmall(s, n - Iterations(s));
    WeightBelowOne(s);
  }

  // ---------- the result of the job ----------

  // 16^d times the first n terms of the Bailey-Borwein-Plouffe sum.
  function Bbp(d: nat, n: nat): real {
    if n == 0 then 0.0 else Bbp(d, n - 1) + BbpTerm(d, n - 1)
  }

  function BbpTerm(d: nat, k: nat): real {
    Bracketed(Power(4 * (d - k)), (8 * k + 1) as real, (8 * k + 4) as real, (8 * k + 5) as real, (8 * k + 6) as real)
  }

  function Bracketed(p: real, m1: real, m4: real, m5: real, m6: real): real
    requires m1 > 0.0 && m4 > 0.0 && m5 > 0.0 && m6 > 0.0
  {
    p * (4.0 / m1 - 2.0 / m4 - 1.0 / m5 - 1.0 / m6)
  }

  // The four series with their signs.
  function Combined(d: nat, n: nat): real {
    Partial(SeriesOf(0, d), n) - Partial(SeriesOf(1, d), n) - Partial(SeriesOf(2, d), n) - Partial(SeriesOf(3, d), n)
  }

  lemma ShiftedPower(e: int)
    ensures Power(e + 64) == B64 as real * Power(e)
    ensures Power(e + 65) == B64 as real * (2.0 * Power(e))
    ensures Power(e + 66) == B64 as real * (4.0 * Power(e))
  {
    Power64(e);
    PowerNext(e + 64);
    PowerNext(e + 65);
  }

  lemma ScaledQuotient(x: real, p: real, v: real, u: real, m: real)
    requires m > 0.0 && x == u * (v * p)
    ensures x / m == u * (p * (v / m))
  {
    var q := v / m;
    assert q * m == v;
    RearrangeFour(u, p, q, m);
    QuotientIs(u * (p * q), x, m);
  }

  lemma RearrangeFour(u: real, p: real, q: real, m: real)
    ensures u * (p * q) * m == u * ((q * m) * p)
  {
  }

  lemma FourQuotients(x0: real, x1: real, x2: real, u: real, p: real, m1: real, m4: real, m5: real, m6: real)
    requires m1 > 0.0 && m4 > 0.0 && m5 > 0.0 && m6 > 0.0
    requires x0 == u * (4.0 * p) && x1 == u * (2.0 * p) && x2 == u * (1.0 * p)
    ensures x0 / m1 - x1 / m4 - x2 / m5 - x2 / m6 == u * Bracketed(p, m1, m4, m5, m6)
  {
    ScaledQuotient(x0, p, 4.0, u, m1);
    ScaledQuotient(x1, p, 2.0, u, m4);
    ScaledQuotient(x2, p, 1.0, u, m5);
    ScaledQuotient(x2, p, 1.0, u, m6);
    Distribute(u, p, 4.0 / m1, 2.0 / m4, 1.0 / m5, 1.0 / m6);
  }

  lemma Distribute(u: real, p: real, a: real, b: real, c: real, e: real)
    ensures u * (p * a) - u * (p * b) - u * (p * c) - u * (p * e) == u * (p * (a - b - c - e))
  {
  }

  lemma CombinedTerms(d: nat, k: nat)
    ensures Combined(d, k + 1) == Combined(d, k) + B64 as real * BbpTerm(d, k)
  {
    var e := 4 * (d - k);
    var x0, x1, x2 := Power(e + 66), Power(e + 65), Power(e + 64);
    ShiftedPower(e);
    assert 64 + (4 * d + 2) - 4 * k == e + 66 && 64 + (4 * d + 1) - 4 * k == e + 65 && 64 + 4 * d - 4 * k == e + 64;
    FourQuotients(x0, x1, x2, B64 as real, Power(e),
                  (8 * k + 1) as real, (8 * k + 4) as real, (8 * k + 5) as real, (8 * k + 6) as real);
  }

  // What the four series add up to is the sum, scaled by 2^64.
  lemma {:induction false} CombinedIsBbp(d: nat, n: nat)
    ensures Combined(d, n) == B64 as real * Bbp(d, n)
  {
    if n > 0 {
      CombinedIsBbp(d, n - 1);
      CombinedTerms(d, n - 1);
    }
  }

  // However the iterations are cut and the records are ordered: the word that comes out is 2^64 times the
  // fraction of 16^d times the sum, except for an error of less than 2 * d + 54 units, for as many terms of
  // the sum as one likes.
  lemma ResultIsPi(d: nat, chunkSize: nat, records: seq<u64>, n: nat) returns (q: int)
    requires d < DIGITS && Fits(d + 1, chunkSize) && n >= d + 17
    requires multiset(records) == multiset(JobValues(0, d, chunkSize))
    ensures var word := (SumOf(records) % B64 + q * B64) as real;
      word - (2 * d + 54) as real < B64 as real * Bbp(d, n) < word + (2 * d + 18) as real
  {
    ResultIsDigitWord(d, chunkSize, records);
    CombinedIsBbp(d, n);
    q := CombinedError(d, n);
    q := q + DigitWord(0, d) / B64;
  }

  // The four errors, and the correction by d.
  lemma CombinedError(d: nat, n: nat) returns (q: int)
    requires n >= d + 17
    ensures var i := DigitWord(0, d) + q * B64;
      (i - 2 * d - 54) as real < Combined(d, n) < (i + 2 * d + 18) as real
  {
    var q0 := TotalError(0, d, n);
    var q1 := TotalError(1, d, n);
    var q2 := TotalError(2, d, n);
    var q3 := TotalError(3, d, n);
    q := q0 - q1 - q2 - q3;
    FourSeries(d);
    AddErrors(Total(0, d) + q0 * B64, Total(1, d) + q1 * B64, Total(2, d) + q2 * B64, Total(3, d) + q3 * B64, d + 18,
              Partial(SeriesOf(0, d), n), Partial(SeriesOf(1, d), n), Partial(SeriesOf(2, d), n),
              Partial(SeriesOf(3, d), n));
  }

  lemma TotalError(index: nat, d: nat, n: nat) returns (q: int)
    requires index < 4 && n >= d + 17
    ensures var i := Total(index, d) + q * B64;
      i as real <= Partial(SeriesOf(index, d), n) < (i + (d + 18)) as real
  {
    var s := SeriesOf(index, d);
    DivModUnique(s.scalePow, d, s.scalePow - 4 * d, 4);
    q := SeriesError(s, n);
  }

  // What the mappers add up for a series, before the correction.
  function Total(index: nat, d: nat): int
    requires index < 4
  {
    var s := SeriesOf(index, d);
    SumTerms(s, 0, Iterations(s)) + TailSum(s, 16)
  }

  lemma AddErrors(i0: int, i1: int, i2: int, i3: int, err: int, x0: real, x1: real, x2: real, x3: real)
    requires i0 as real <= x0 < (i0 + err) as real && i1 as real <= x1 < (i1 + err) as real
    requires i2 as real <= x2 < (i2 + err) as real && i3 as real <= x3 < (i3 + err) as real
    ensures (i0 - i1 - i2 - i3 - 3 * err) as real < x0 - x1 - x2 - x3 < (i0 - i1 - i2 - i3 + err) as real
  {
  }

  lemma FourSeries(d: nat)
    ensures DigitWord(0, d) == Total(0, d) - Total(1, d) - Total(2, d) - Total(3, d) - d
  {
    assert DigitWord(2, d) == SeriesTotal(SeriesOf(2, d), d) + DigitWord(3, d);
    assert DigitWord(3, d) == SeriesTotal(SeriesOf(3, d), d) + DigitWord(4, d);
  }
}
