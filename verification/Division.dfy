// Int128::divMod and Int128::divide of pidigits.h: division of a 128-bit value by a 64-bit divisor,
// by multiplying with the reciprocal 2^128 / divisor.
module Division {
  import opened Words
  import opened NumberTheory
  import opened CudaPiMath
  import opened Int128Words

  // floor(2^128 / divisor), what recipNewton returns.
  function Reciprocal(divisor: u64): (r: Int128)
    requires divisor >= 2
    ensures r.Value() == B128 / divisor
  {
    QuotientBounds(B128, divisor);
    ReciprocalFits(divisor);
    FromParts((B128 / divisor) / B64, (B128 / divisor) % B64)
  }

  lemma ReciprocalFits(divisor: int)
    requires divisor >= 2
    ensures B128 / divisor < B128
  {
    QuotientTruncates(B128, divisor);
    if B128 / divisor >= B128 {
      MulMonotone(B128, B128 / divisor, divisor);
    }
  }

  // The quotient that divide estimates before its correction step.
  function Estimate(n: int, divisor: u64): (q: int)
    requires divisor >= 2
  {
    (B128 / divisor * n) / B128
  }

  // What the estimate leaves over.
  function Over(n: int, divisor: u64): int
    requires divisor >= 2
  {
    n - Estimate(n, divisor) * divisor
  }

  // The estimate is the true quotient or one less: what it leaves over is below twice the divisor.
  lemma EstimateIsClose(n: int, divisor: u64)
    requires 0 <= n < B128 && divisor >= 2
    ensures 0 <= Estimate(n, divisor) <= n
    ensures 0 <= n - Estimate(n, divisor) * divisor < 2 * divisor
  {
    var recip := B128 / divisor;
    assert B128 == recip * divisor + B128 % divisor;
    assert recip * n == Estimate(n, divisor) * B128 + (recip * n) % B128;
    LeftOver(n, divisor, recip, B128 % divisor, Estimate(n, divisor), (recip * n) % B128);
    ReciprocalFits(divisor);
    QuotientBounds(B128, divisor);
    EstimateBounds(n, recip, Estimate(n, divisor), (recip * n) % B128);
  }

  lemma EstimateBounds(n: int, recip: int, q: int, f: int)
    requires 0 <= n < B128 && 0 <= recip < B128
    requires recip * n == q * B128 + f && 0 <= f < B128
    ensures 0 <= q <= n
  {
    MulMonotone(recip, B128, n);
    assert 0 <= recip * n <= n * B128;
  }

  lemma LeftOver(n: int, d: int, recip: int, e: int, q: int, f: int)
    requires 0 <= n < B128 && d >= 2
    requires B128 == recip * d + e && 0 <= e < d
    requires recip * n == q * B128 + f && 0 <= f < B128
    ensures 0 <= n - q * d < 2 * d
  {
    LeftOverScaled(n, d, recip, e, q, f);
    MulMonotone(0, f, d);
    MulMonotone(f, B128 - 1, d);
    MulMonotone(0, n, e);
    MulMonotone(n, B128, e);
    assert (n - q * d) * B128 < (2 * d) * B128;
  }

  lemma LeftOverScaled(n: int, d: int, recip: int, e: int, q: int, f: int)
    requires B128 == recip * d + e && recip * n == q * B128 + f
    ensures (n - q * d) * B128 == f * d + n * e
  {
    calc {
      (n - q * d) * B128;
      n * B128 - q * d * B128;
      { assert n * B128 == n * (recip * d + e) == n * (recip * d) + n * e; }
      n * (recip * d) + n * e - q * d * B128;
      { assert n * (recip * d) == (recip * n) * d == (q * B128 + f) * d == q * B128 * d + f * d; }
      q * B128 * d + f * d + n * e - q * d * B128;
      { assert q * B128 * d == q * d * B128; }
      f * d + n * e;
    }
  }

  ghost predicate IsDivision(n: int, divisor: u64, quotient: int, modulo: int)
    requires divisor >= 1
  {
    quotient == n / divisor && modulo == n % divisor
  }

  // The correction step makes the result exact precisely when what the estimate leaves over fits the 64-bit
  // variable it is kept in. Otherwise the quotient is one too small, and the remainder is off by
  // 2^64 - divisor.
  ghost predicate Divided(n: int, divisor: u64, quotient: int, modulo: int)
    requires divisor >= 2
  {
    if Over(n, divisor) < B64 then IsDivision(n, divisor, quotient, modulo)
    else quotient == n / divisor - 1 && modulo == n % divisor + divisor - B64
  }

  // So it is exact if and only if that fits, and for divisors up to 2^63 it always does.
  lemma DividedExactly(n: int, divisor: u64, quotient: int, modulo: int)
    requires 0 <= n < B128 && divisor >= 2 && Divided(n, divisor, quotient, modulo)
    ensures IsDivision(n, divisor, quotient, modulo) <==> Over(n, divisor) < B64
    ensures divisor <= Pow2(63) ==> Over(n, divisor) < B64
  {
    FullWords();
    EstimateIsClose(n, divisor);
  }

  // divide
  method Divide(n: Int128, divisor: u64) returns (quotient: Int128, modulo: u64)
    requires divisor >= 2
    ensures Divided(n.Value(), divisor, quotient.Value(), modulo)
  {
    var recip := Reciprocal(divisor);
    quotient := Mult128Hi(recip, n);
    ghost var v, q := n.Value(), quotient.Value();
    EstimateIsClose(v, divisor);
    ghost var over := v - q * divisor;
    var product := MultU64(quotient, divisor);
    var rest := Sub(n, product);
    Leftover128(v, q, divisor, product.Value());
    modulo := rest.Part0();
    KeptHalf(rest, over);
    CorrectedQuotient(v, divisor, q, over);
    if modulo >= divisor {
      modulo := modulo - divisor;
      quotient := AddSmall(quotient, 1);
      DivModUnique(q + 1, 0, q + 1, B128);
    }
  }

  lemma KeptHalf(rest: Int128, over: int)
    requires rest.Value() == over < 2 * B64
    ensures rest.Part0() == if over < B64 then over else over - B64
  {
  }

  lemma Leftover128(v: int, q: int, divisor: u64, product: int)
    requires 0 <= v < B128 && 0 <= v - q * divisor < 2 * divisor && 0 <= q
    requires product == q * divisor % B128
    ensures (v - product) % B128 == v - q * divisor
  {
    assert 0 <= q * divisor < B128;
    DivModUnique(q * divisor, 0, q * divisor, B128);
    DivModUnique(v - product, 0, v - product, B128);
  }

  lemma CorrectedQuotient(v: int, divisor: u64, q: int, over: int)
    requires divisor >= 2 && 0 <= v < B128 && 0 <= over == v - q * divisor < 2 * divisor && q >= 0
    ensures over < divisor ==> IsDivision(v, divisor, q, over)
    ensures over >= divisor ==> IsDivision(v, divisor, q + 1, over - divisor) && q + 1 < B128
    ensures over >= divisor ==> q == v / divisor - 1 && over - B64 == v % divisor + divisor - B64
  {
    if over < divisor {
      DivModUnique(v, q, over, divisor);
    } else {
      assert (q + 1) * divisor == q * divisor + divisor;
      DivModUnique(v, q + 1, over - divisor, divisor);
      if q + 1 >= B128 {
        MulMonotone(B128, q + 1, divisor);
      }
    }
  }

  // Above 2^63 the remainder can be lost: an input for which divide is off by one.
  lemma DivideLosesRemainder()
    ensures var n, d := B128 - 1, 0xf258_3673_0741_c7a9;
      Over(n, d) >= B64
  {
    OverIs(B128 - 1, 0xf258_3673_0741_c7a9, 19486164975011585117, 19486164975011585116);
  }

  // What is left over, for a given reciprocal and estimate.
  lemma OverIs(n: int, divisor: u64, recip: int, q: int)
    requires divisor >= 2 && 0 <= B128 - recip * divisor < divisor && 0 <= recip * n - q * B128 < B128
    ensures Over(n, divisor) == n - q * divisor
  {
    DivModUnique(B128, recip, B128 - recip * divisor, divisor);
    DivModUnique(recip * n, q, recip * n - q * B128, B128);
  }

  // divMod: divide, preceded by the divisors it cannot take.
  method DivMod(n: Int128, divisor: u64) returns (quotient: Int128, modulo: u64)
    ensures divisor == 0 ==> quotient.Value() == B128 - 1 && modulo == B64 - 1
    ensures divisor == 1 ==> IsDivision(n.Value(), divisor, quotient.Value(), modulo)
    ensures divisor >= 2 ==> Divided(n.Value(), divisor, quotient.Value(), modulo)
  {
    if divisor == 0 {
      return FromParts(B64 - 1, B64 - 1), B64 - 1;
    }
    if divisor == 1 {
      DivModUnique(n.Value(), n.Value(), 0, 1);
      return FromParts(n.Part1(), n.Part0()), 0;
    }
    quotient, modulo := Divide(n, divisor);
  }
}
