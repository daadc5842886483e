// class CudaPi of pidigits.h: Newton inverse, Montgomery multiplication, powers of two modulo a
// 64-bit number, and the fractional part of a quotient.
module CudaPi {
  import opened Words
  import opened NumberTheory
  import opened CudaPiMath
  import opened Int128Words
  import opened Division

  // ---------- inverse ----------

  // x inverts -m modulo 2^k.
  ghost predicate NegInverse(m: int, x: int, k: nat) {
    Divides(Pow2(k), 1 + m * x)
  }

  lemma NegInverseWeaken(m: int, x: int, k: nat, k': nat)
    requires NegInverse(m, x, k) && k' <= k
    ensures NegInverse(m, x, k')
  {
    Pow2Add(k', k - k');
    DividesFactor(Pow2(k'), Pow2(k - k'), 1 + m * x);
  }

  // For any odd m, the value the iteration starts from is right in its low three bits.
  lemma InverseStart(m: u64)
    requires m % 2 == 1
    ensures (8 - m % 8) % 2 == 1 && NegInverse(m, 8 - m % 8, 3)
  {
    var r, x := m % 8, 8 - m % 8;
    assert r == 1 || r == 3 || r == 5 || r == 7;
    CongruentMod(m, 8);
    CongruentScale(r, m, x, 8);
    CongruentAdd(1, 1, r * x, m * x, 8);
    assert Pow2(3) == 8;
  }

  // One pass of the loop, with the 64-bit wrap-around of each operation written out.
  function NewtonStep(m: u64, x: u64, R: u64): (x1: u64)
    requires R > 0
  {
    ((x * ((2 + m * x % B64) % B64)) % B64) % R
  }

  // The wrap-arounds do not matter modulo a power of two up to 2^64.
  lemma NewtonStepValue(m: u64, x: u64, R: u64, s: nat)
    requires s <= 63 && R == Pow2(s)
    ensures 0 <= NewtonStep(m, x, R) < R
    ensures Congruent(NewtonStep(m, x, R), x * (2 + m * x), R)
  {
    ShiftWeights(s);
    var a, b := m * x % B64, (2 + m * x % B64) % B64;
    CongruentMod(m * x, B64);
    CongruentAdd(2, 2, a, m * x, B64);
    CongruentMod(2 + a, B64);
    CongruentScale(b, 2 + m * x, x, B64);
    CongruentMod(x * b, B64);
    CongruentFactor(x * b % B64, x * (2 + m * x), R, Pow2(64 - s));
    CongruentMod(x * b % B64, R);
  }

  // 1 + m * x1 is (1 + m * x)^2: each pass doubles the number of right bits.
  lemma NewtonDoubles(m: u64, x: u64, R: u64, s: nat, k: nat, k': nat)
    requires 1 <= s <= 63 && R == Pow2(s) && NegInverse(m, x, k) && k' <= 2 * k && k' <= s
    ensures NegInverse(m, NewtonStep(m, x, R), k')
  {
    NewtonStepValue(m, x, R, s);
    Pow2Add(k', s - k');
    CongruentFactor(NewtonStep(m, x, R), x * (2 + m * x), Pow2(k'), Pow2(s - k'));
    SquareDivides(1 + m * x, k, k');
    ErrorSquares(m, x, NewtonStep(m, x, R), Pow2(k'));
  }

  lemma ErrorSquares(m: int, x: int, x1: int, n: int)
    requires n > 0 && Congruent(x1, x * (2 + m * x), n)
    requires Divides(n, (1 + m * x) * (1 + m * x))
    ensures Divides(n, 1 + m * x1)
  {
    var t := x * (2 + m * x);
    CongruentScale(x1, t, m, n);
    CongruentAdd(1, 1, m * x1, m * t, n);
    SquareOfError(m, x);
  }

  lemma NewtonKeepsOdd(m: u64, x: u64, R: u64, s: nat)
    requires 1 <= s <= 63 && R == Pow2(s) && m % 2 == 1 && x % 2 == 1
    ensures NewtonStep(m, x, R) % 2 == 1
  {
    NewtonStepValue(m, x, R, s);
    CongruentFactor(NewtonStep(m, x, R), x * (2 + m * x), 2, Pow2(s - 1));
    OddTimesOdd(m, x);
    OddTimesOdd(x, 2 + m * x);
  }

  lemma SquareOfError(m: int, x: int)
    ensures 1 + m * (x * (2 + m * x)) == (1 + m * x) * (1 + m * x)
  {
    var p := m * x;
    MulAssociates(m, x, 2 + p);
  }

  lemma SquareDivides(e: int, k: nat, k': nat)
    requires Divides(Pow2(k), e) && k' <= 2 * k
    ensures Divides(Pow2(k'), e * e)
  {
    DividesProduct(Pow2(k), e, Pow2(k), e);
    Pow2Add(k, k);
    Pow2Add(k', 2 * k - k');
    DividesFactor(Pow2(k'), Pow2(2 * k - k'), e * e);
  }

  // A value the iteration leaves alone is right in all s bits, because it is odd.
  lemma FixedPointIsInverse(m: u64, x: u64, R: u64, s: nat)
    requires 1 <= s <= 63 && R == Pow2(s) && x % 2 == 1 && NewtonStep(m, x, R) == x
    ensures NegInverse(m, x, s)
  {
    NewtonStepValue(m, x, R, s);
    StepError(x, m * x, R);
    OddCancel(x, 1 + m * x, s);
  }

  // Once all s bits are right, the next pass only reduces x modulo 2^s.
  lemma InverseIsStable(m: u64, x: u64, R: u64, s: nat)
    requires 1 <= s <= 63 && R == Pow2(s) && NegInverse(m, x, s) && x < R
    ensures NewtonStep(m, x, R) == x
  {
    var e, x1 := 1 + m * x, NewtonStep(m, x, R);
    NewtonStepValue(m, x, R, s);
    DividesScale(R, e, x);
    StepError(x, m * x, R);
    DivModUnique(x, 0, x, R);
    DivModUnique(x1, 0, x1, R);
  }

  lemma StepError(x: int, p: int, n: int)
    requires n > 0
    ensures Congruent(x * (2 + p), x, n) <==> Divides(n, x * (1 + p))
  {
    MulDistributes(2 + p, 1, x);
    CongruentIffDivides(x * (2 + p), x, n);
  }

  function Min(a: nat, b: nat): nat { if a < b then a else b }

  // -m^-1 modulo R = 2^s. The loop ends for every odd m.
  method Inverse(m: u64, R: u64, ghost s: nat) returns (x: u64)
    requires m % 2 == 1 && 1 <= s <= 63 && R == Pow2(s)
    ensures x < R && Congruent(m * x, -1, R)
  {
    x := 8 - m % 8;
    ghost var known := Min(3, s);
    InverseStart(m);
    NegInverseWeaken(m, x, 3, known);
    while true
      invariant x % 2 == 1 && 1 <= known <= s && NegInverse(m, x, known)
      decreases s - known, if x < R then 0 else 1
    {
      var x1 := NewtonStep(m, x, R);
      NewtonStepValue(m, x, R, s);
      if x1 == x {
        FixedPointIsInverse(m, x, R, s);
        CongruentIffDivides(m * x, -1, R);
        return x;
      }
      NewtonDoubles(m, x, R, s, known, Min(2 * known, s));
      NewtonKeepsOdd(m, x, R, s);
      if known == s && x < R {
        InverseIsStable(m, x, R, s);
      }
      x := x1;
      known := Min(2 * known, s);
    }
  }

  // ---------- Montgomery multiplication ----------

  // The multiple of m that clears the low s bits of a product x.
  lemma ReductionClearsLowBits(x: int, m: int, minv: int, xnp: int, R: int)
    requires R > 0 && Congruent(m * minv, -1, R) && Congruent(xnp, minv * x, R)
    ensures Divides(R, xnp * m + x)
  {
    CongruentScale(xnp, minv * x, m, R);
    CongruentScale(m * minv, -1, x, R);
    assert (minv * x) * m == (m * minv) * x;
    CongruentAdd(xnp * m, -x, x, x, R);
    assert (-x + x) % R == 0;
  }

  lemma ReductionBounds(x: int, m: int, xnp: int, R: int)
    requires 0 <= x < m * R && 0 <= xnp < R <= Pow2(63) && 0 < m < Pow2(63)
    ensures 0 <= xnp * m <= xnp * m + x < 2 * m * R < B128
  {
    FullWords();
    assert xnp * m >= 0;
    MulMonotone(xnp + 1, R, m);
    MulMonotone(m, Pow2(63), R);
    assert m * R < Pow2(63) * Pow2(63);
  }

  lemma ExactQuotient(t: int, R: int, m: int)
    requires R > 0 && Divides(R, t) && 0 <= t < 2 * m * R
    ensures t / R * R == t && 0 <= t / R < 2 * m
  {
    var q := t / R;
    assert t == q * R;
    if q >= 2 * m {
      MulMonotone(2 * m, q, R);
    }
    if q < 0 {
      MulMonotone(q, -1, R);
    }
  }

  // All that one reduction needs: no overflow, an exact shift, and a quotient below 2 * m.
  lemma ReductionFacts(x: int, m: int, minv: int, xnp: int, R: int)
    requires 0 < R <= Pow2(63) && 0 < m < R && 0 <= x < m * R && 0 <= xnp < R
    requires Congruent(m * minv, -1, R) && Congruent(xnp, minv * x, R)
    ensures xnp * m % B128 == xnp * m
    ensures (xnp * m + x) % B128 == xnp * m + x
    ensures (xnp * m + x) / R * R == xnp * m + x
    ensures 0 <= (xnp * m + x) / R < 2 * m < B64
  {
    ReductionClearsLowBits(x, m, minv, xnp, R);
    ReductionBounds(x, m, xnp, R);
    ExactQuotient(xnp * m + x, R, m);
    DivModUnique(xnp * m, 0, xnp * m, B128);
    DivModUnique(xnp * m + x, 0, xnp * m + x, B128);
    FullWords();
  }

  lemma ReducedProduct(x: int, m: int, xnp: int, R: int, q: int)
    requires m > 0 && R > 0 && q * R == xnp * m + x
    ensures Congruent(q * R, x, m) && Congruent((q - m) * R, x, m)
  {
    AddMultiple(x, xnp, m);
    assert (q - m) * R == x + (xnp - R) * m by {
      assert (q - m) * R == q * R - m * R;
      assert (xnp - R) * m == xnp * m - R * m;
    }
    AddMultiple(x, xnp - R, m);
  }

  // ((xnp * m) + x) >> s
  method AddAndShift(x: Int128, xnp: u64, m: u64, s: nat) returns (tmp: Int128)
    requires s < 128
    requires xnp * m % B128 == xnp * m && (xnp * m + x.Value()) % B128 == xnp * m + x.Value()
    ensures tmp.Value() == (xnp * m + x.Value()) / Pow2(s)
  {
    SmallRemainder(s, 128);
    ghost var product := xnp * m;
    tmp := MultU64(FromU64(xnp), m);
    assert tmp.Value() == product;
    tmp := Add(tmp, x);
    assert tmp.Value() == product + x.Value();
    tmp := Shr(tmp, s);
  }

  // factor1 * factor2 / R modulo m, without leaving 128 bits.
  method MontgomeryMult(factor1: u64, factor2: u64, m: u64, minv: u64, R: u64, s: nat)
    returns (result: u64)
    requires 1 <= s <= 63 && R == Pow2(s) && 0 < m < R
    requires Congruent(m * minv, -1, R)
    requires factor1 * factor2 < m * R
    ensures result < m && Congruent(result * R, factor1 * factor2, m)
  {
    var x := Mult64(factor1, factor2);
    var xnp := MaskedProduct(minv, x.Part0(), R);
    MaskedProductValue(minv, x, R, s);
    result := Reduce(x, xnp, m, minv, R, s);
    if result >= m {
      result := result - m;
    }
  }

  // x / R modulo m, up to one subtraction of m.
  method Reduce(x: Int128, xnp: u64, m: u64, ghost minv: u64, ghost R: u64, s: nat) returns (q: u64)
    requires 1 <= s <= 63 && R == Pow2(s) && 0 < m < R
    requires Congruent(m * minv, -1, R) && x.Value() < m * R
    requires xnp < R && Congruent(xnp, minv * x.Value(), R)
    ensures q < 2 * m && Congruent(q * R, x.Value(), m) && Congruent((q - m) * R, x.Value(), m)
  {
    ghost var v := x.Value();
    Pow2Monotone(s, 63);
    ReductionFacts(v, m, minv, xnp, R);
    ReducedProduct(v, m, xnp, R, (xnp * m + v) / R);
    var tmp := AddAndShift(x, xnp, m, s);
    KeptLow(tmp);
    q := tmp.Part0();
  }

  lemma KeptLow(r: Int128)
    requires r.Value() < B64
    ensures r.Part0() == r.Value()
  {
  }

  // (minv * low) & mask
  function MaskedProduct(minv: u64, low: u64, R: u64): (xnp: u64)
    requires R > 0
    ensures xnp < R
  {
    (minv * low % B64) % R
  }

  lemma MaskedProductValue(minv: u64, x: Int128, R: u64, s: nat)
    requires s <= 63 && R == Pow2(s)
    ensures Congruent(MaskedProduct(minv, x.Part0(), R), minv * x.Value(), R)
  {
    var low := x.Part0();
    ShiftWeights(s);
    AddMultiple(low, x.Part1(), B64);
    CongruentFactor(x.Value(), low, R, Pow2(64 - s));
    CongruentScale(x.Value(), low, minv, R);
    CongruentMod(minv * low, B64);
    CongruentFactor(minv * low % B64, minv * low, R, Pow2(64 - s));
    CongruentMod(minv * low % B64, R);
  }

  // ---------- powers of two ----------

  // t is the Montgomery form of a: a * R modulo m.
  ghost predicate IsForm(t: int, a: int, R: int, m: int)
    requires m > 0
  {
    0 <= t < m && Congruent(t, a * R, m)
  }

  lemma FormOfProduct(t1: int, a: int, t2: int, b: int, t: int, s: nat, m: int)
    requires m > 0 && m % 2 == 1 && 0 <= t < m
    requires IsForm(t1, a, Pow2(s), m) && IsForm(t2, b, Pow2(s), m)
    requires Congruent(t * Pow2(s), t1 * t2, m)
    ensures IsForm(t, a * b, Pow2(s), m)
  {
    var R := Pow2(s);
    CongruentMul(t1, a * R, t2, b * R, m);
    assert (a * R) * (b * R) == ((a * b) * R) * R by {
      ProductOfProducts(a, R, b, R);
      MulAssociates(a * b, R, R);
    }
    CancelPow2(t, (a * b) * R, s, m);
  }

  lemma ZeroForm(t: int, s: nat, m: int)
    requires m > 0 && m % 2 == 1 && 0 <= t < m && Congruent(t * Pow2(s), 0, m)
    ensures t == 0
  {
    CancelPow2(t, 0, s, m);
    DivModUnique(t, 0, t, m);
    DivModUnique(0, 0, 0, m);
  }

  // The bits of p above the position of `bit`.
  ghost function Above(p: u64, bit: u64): (e: nat) {
    if bit == 0 then p else p / (2 * bit)
  }

  lemma NothingAbove(p: u64, bit: u64)
    requires bit > 0 && p < 2 * bit
    ensures Above(p, bit) == 0
  {
    var twice: int := 2 * bit;
    DivModUnique(p, 0, p, twice);
  }

  lemma NextBit(p: u64, bit: u64, j: nat)
    requires bit == Pow2(j)
    ensures Above(p, bit / 2) == 2 * Above(p, bit) + p / bit % 2
    ensures if j == 0 then bit / 2 == 0 else bit / 2 == Pow2(j - 1)
  {
    DivTwice(p, bit, 2);
    if j == 0 {
      DivModUnique(p, p, 0, 1);
    }
  }

  lemma SmallProduct(a: int, b: int, m: int, R: int)
    requires 0 <= a < m && 0 <= b < R
    ensures a * b < m * R
  {
    MulMonotone(a, m - 1, b);
    MulMonotone(b, R, m - 1);
    assert (m - 1) * R == m * R - R;
  }

  // What one round of the exponentiation leaves in total: the form of 2^e for moduli below 2^62.
  // For larger ones `2 << s` has wrapped to zero, and zero spreads.
  ghost predicate Ladder(total: int, e: nat, R: int, m: int)
    requires m > 0
  {
    0 <= total < m &&
    if m < Pow2(62) then IsForm(total, Pow2(e), R, m) else e > 0 ==> total == 0
  }

  ghost predicate LadderFactor(factor: int, R: int, m: int)
    requires m > 0
  {
    if m < Pow2(62) then IsForm(factor, 2, R, m) else factor == 0
  }

  lemma LadderSquare(total: int, e: nat, s: nat, m: int, total': int)
    requires m > 0 && m % 2 == 1 && Ladder(total, e, Pow2(s), m) && 0 <= total' < m
    requires Congruent(total' * Pow2(s), total * total, m)
    ensures Ladder(total', 2 * e, Pow2(s), m)
  {
    if m < Pow2(62) {
      FormOfProduct(total, Pow2(e), total, Pow2(e), total', s, m);
      Pow2Add(e, e);
    } else if e > 0 {
      ZeroForm(total', s, m);
    }
  }

  lemma LadderTwice(total: int, e: nat, factor: int, s: nat, m: int, total': int)
    requires m > 0 && m % 2 == 1 && Ladder(total, e, Pow2(s), m) && LadderFactor(factor, Pow2(s), m)
    requires 0 <= total' < m && Congruent(total' * Pow2(s), total * factor, m)
    ensures Ladder(total', e + 1, Pow2(s), m)
  {
    if m < Pow2(62) {
      FormOfProduct(total, Pow2(e), factor, 2, total', s, m);
    } else {
      ZeroForm(total', s, m);
    }
  }

  // R is the least power of two above m: 2^63 exactly for the moduli from 2^62 on.
  lemma LeastPower(m: u64, s: nat)
    requires 1 <= s <= 63 && m < Pow2(s) <= 2 * m
    ensures m < Pow2(62) ==> 2 * Pow2(s) < B64
    ensures m >= Pow2(62) ==> 2 * Pow2(s) == B64
  {
    FullWords();
    if s <= 62 {
      Pow2Monotone(s, 62);
    }
  }

  lemma LadderStart(m: u64, R: u64, s: nat, factor: u64)
    requires 1 <= s <= 63 && R == Pow2(s) && m < R <= 2 * m
    requires factor == Remainder(2 * R % B64, m)
    ensures Ladder(Remainder(R, m), 0, R, m) && LadderFactor(factor, R, m)
  {
    TotalStart(m, R);
    FactorStart(m, R, s, factor);
  }

  lemma TotalStart(m: u64, R: u64)
    requires m > 0
    ensures Ladder(Remainder(R, m), 0, R, m)
  {
    CongruentMod(R, m);
    assert Pow2(0) == 1;
  }

  lemma FactorStart(m: u64, R: u64, s: nat, factor: u64)
    requires 1 <= s <= 63 && R == Pow2(s) && m < R <= 2 * m
    requires factor == Remainder(2 * R % B64, m)
    ensures LadderFactor(factor, R, m)
  {
    LeastPower(m, s);
    SmallRemainder(2 * R, B64);
    if m < Pow2(62) {
      CongruentMod(2 * R, m);
    } else {
      SmallRemainder(0, m);
    }
  }

  lemma SmallRemainder(v: int, n: int)
    requires 0 <= v && n > 0
    ensures v < n ==> v % n == v
    ensures v == n ==> v % n == 0
  {
    if v < n {
      DivModUnique(v, 0, v, n);
    } else if v == n {
      DivModUnique(v, 1, 0, n);
    }
  }

  lemma LadderEnd(total: int, p: nat, s: nat, m: int, total': int)
    requires m > 0 && m % 2 == 1 && p > 0 && Ladder(total, p, Pow2(s), m) && 0 <= total' < m
    requires Congruent(total' * Pow2(s), total * 1, m)
    ensures total' == if m < Pow2(62) then Pow2(p) % m else 0
  {
    if m < Pow2(62) {
      CancelPow2(total', Pow2(p), s, m);
      DivModUnique(total', 0, total', m);
    } else {
      ZeroForm(total', s, m);
    }
  }

  function Remainder(x: u64, m: u64): (r: u64)
    requires m > 0
    ensures r < m
  {
    x % m
  }

  // 2^p modulo an odd m. Exact below 2^62; from there on the result is zero, which no power of two
  // is congruent to.
  method MontgomeryModPow2(p: u64, m: u64) returns (total: u64)
    requires p > 0 && m % 2 == 1 && m < Pow2(63)
    ensures total == if m < Pow2(62) then Pow2(p) % m else 0
  {
    FullWords();
    var zeros := CountLeadingZeros64(m);
    var s := 64 - zeros;
    assert s <= 63 && m < Pow2(s) <= 2 * m;
    var R := ShiftedOne(s);
    var minv := Inverse(m, R, s);
    var factor := Remainder(2 * R % B64, m);
    LadderStart(m, R, s, factor);
    total := Remainder(R, m);
    var bit, j := HighestSetBit64(p);
    NothingAbove(p, bit);
    while bit != 0
      invariant bit != 0 ==> bit == Pow2(j)
      invariant total < m && Ladder(total, Above(p, bit), R, m)
      decreases bit
    {
      ghost var e := Above(p, bit);
      NextBit(p, bit, j);
      SmallProduct(total, total, m, R);
      var square := MontgomeryMult(total, total, m, minv, R, s);
      LadderSquare(total, e, s, m, square);
      total := square;
      if p / bit % 2 == 1 {
        SmallProduct(total, factor, m, R);
        var next := MontgomeryMult(total, factor, m, minv, R, s);
        LadderTwice(total, 2 * e, factor, s, m, next);
        total := next;
      }
      bit := bit / 2;
      j := if j == 0 then 0 else j - 1;
    }
    SmallProduct(total, 1, m, R);
    var result := MontgomeryMult(total, 1, m, minv, R, s);
    LadderEnd(total, p, s, m, result);
    total := result;
  }

  // The inputs for which modPow2 does not return the remainder: it answers 1 for an exponent of zero,
  // starts the even path from an unreduced 2, and lets `2 << s` wrap for odd moduli from 2^62 on.
  predicate MissesRemainder(exponent: u64, modulo: u64) {
    || (exponent == 0 && modulo == 1)
    || (exponent == 1 && modulo == 2)
    || (exponent > 0 && modulo % 2 == 1 && modulo >= Pow2(62))
  }

  // What `if (result >= modulo) result = result % modulo` leaves.
  function Reduced(v: int, m: u64): int
    requires m >= 2
  {
    if KeepsRemainder(v, m) then v % m else v % m + m - B64
  }

  predicate KeepsRemainder(v: int, m: u64)
    requires m >= 2
  {
    v < m || Over(v, m) < B64
  }

  lemma ReducedRange(v: int, m: u64)
    requires m >= 2 && 0 <= v < B128
    ensures 0 <= Reduced(v, m) < m
    ensures m <= Pow2(63) ==> KeepsRemainder(v, m)
  {
    FullWords();
    EstimateIsClose(v, m);
    if !KeepsRemainder(v, m) {
      var over, q := Over(v, m), Estimate(v, m);
      assert (q + 1) * m == q * m + m;
      DivModUnique(v, q + 1, over - m, m);
    }
  }

  // result <<= 1, then one subtraction.
  function Doubled(v: int, m: int): int {
    if 2 * v >= m then 2 * v - m else 2 * v
  }

  // What the even path holds when it has come to the exponent e.
  function EvenValue(e: nat, m: u64): (v: int)
    requires m >= 2 && e > 0
    ensures 0 <= v <= 2 || v < m
    ensures 0 <= v < B64
  {
    if e == 1 then 2
    else
      var half := EvenValue(e / 2, m);
      SquareBound(half);
      ReducedRange(half * half, m);
      var square := Reduced(half * half, m);
      if e % 2 == 1 then Doubled(square, m) else square
  }

  lemma SquareBound(r: int)
    requires 0 <= r < B64
    ensures 0 <= r * r < B128
  {
    MulMonotone(r, B64 - 1, r);
    MulMonotone(r, B64 - 1, B64 - 1);
  }

  // No reduction on the way to the exponent e loses its remainder.
  predicate NoLoss(e: nat, m: u64)
    requires m >= 2 && e > 0
  {
    e == 1 || (NoLoss(e / 2, m) && KeepsRemainder(EvenValue(e / 2, m) * EvenValue(e / 2, m), m))
  }

  // Up to 2^63 none does.
  lemma {:induction false} NoLossBelow(e: nat, m: u64)
    requires 2 <= m <= Pow2(63) && e > 0
    ensures NoLoss(e, m)
  {
    if e > 1 {
      NoLossBelow(e / 2, m);
      SquareBound(EvenValue(e / 2, m));
      ReducedRange(EvenValue(e / 2, m) * EvenValue(e / 2, m), m);
    }
  }

  // The value stands for 2^e, reduced from the second round on.
  ghost predicate EvenPath(result: int, e: nat, m: int)
    requires m > 0
  {
    result == if e == 1 then 2 else Pow2(e) % m
  }

  lemma EvenPathCongruent(result: int, e: nat, m: int)
    requires m >= 2 && EvenPath(result, e, m)
    ensures Congruent(result, Pow2(e), m)
  {
    assert Pow2(1) == 2;
    CongruentMod(Pow2(e), m);
  }

  lemma EvenPathSquare(half: int, e: nat, m: int)
    requires m >= 2 && EvenPath(half, e, m)
    ensures half * half % m == Pow2(2 * e) % m
  {
    EvenPathCongruent(half, e, m);
    CongruentMul(half, Pow2(e), half, Pow2(e), m);
    Pow2Add(e, e);
  }

  lemma DoubledIs(v: int, e: nat, m: int)
    requires m >= 2 && v == Pow2(e) % m
    ensures Doubled(v, m) == Pow2(e + 1) % m
  {
    CongruentMod(Pow2(e), m);
    CongruentScale(v, Pow2(e), 2, m);
    DivModUnique(2 * v, if 2 * v >= m then 1 else 0, Doubled(v, m), m);
  }

  // As long as nothing is lost the value is right.
  lemma {:induction false} EvenValueExact(e: nat, m: u64)
    requires m >= 2 && e > 0 && NoLoss(e, m)
    ensures EvenPath(EvenValue(e, m), e, m)
  {
    if e > 1 {
      EvenValueExact(e / 2, m);
      EvenPathSquare(EvenValue(e / 2, m), e / 2, m);
      DoubledIs(Pow2(2 * (e / 2)) % m, 2 * (e / 2), m);
    }
  }

  // The last round, and what it should have computed.
  lemma LastRound(h: nat, m: u64, odd: bool)
    requires m >= 2 && h > 0
    ensures var e, v, t := 2 * h + if odd then 1 else 0, Reduced(EvenValue(h, m) * EvenValue(h, m), m), Pow2(2 * h) % m;
      && EvenValue(e, m) == (if odd then Doubled(v, m) else v)
      && Pow2(e) % m == if odd then Doubled(t, m) else t
  {
    EvenValueStep(h, m, odd);
    DoubledIs(Pow2(2 * h) % m, 2 * h, m);
  }

  lemma LossInSquare(h: nat, m: u64)
    requires m >= 2 && m % 2 == 0 && h > 0 && NoLoss(h, m)
    requires !KeepsRemainder(EvenValue(h, m) * EvenValue(h, m), m)
    ensures var v, t := Reduced(EvenValue(h, m) * EvenValue(h, m), m), Pow2(2 * h) % m;
      v != t && Doubled(v, m) != Doubled(t, m)
  {
    var v := EvenValue(h, m);
    EvenValueExact(h, m);
    EvenPathSquare(v, h, m);
    SquareBound(v);
    LossAbove(v * v, m);
    LostDiffers(Pow2(2 * h) % m, m, Reduced(v * v, m));
  }

  // If the reduction of the last round is the first that loses its remainder, the value is wrong.
  lemma LastLossShows(h: nat, m: u64, odd: bool)
    requires m >= 2 && m % 2 == 0 && h > 0 && NoLoss(h, m)
    requires !KeepsRemainder(EvenValue(h, m) * EvenValue(h, m), m)
    ensures var e := 2 * h + if odd then 1 else 0; EvenValue(e, m) != Pow2(e) % m
  {
    LossInSquare(h, m);
    LastRound(h, m, odd);
  }

  // Neither what is lost nor twice that is a multiple of m.
  lemma LostDiffers(t: int, m: int, lost: int)
    requires m % 2 == 0 && 0 <= t < m < B64 && 0 <= lost == t + m - B64
    requires B64 < 2 * m
    ensures lost != t && Doubled(lost, m) != Doubled(t, m)
  {
  }

  lemma LossAbove(v: int, m: u64)
    requires m >= 2 && 0 <= v < B128 && !KeepsRemainder(v, m)
    ensures B64 < 2 * m && 0 <= Reduced(v, m) == v % m + m - B64
  {
    FullWords();
    ReducedRange(v, m);
  }

  const LOSING_MODULUS: u64 := 0xda22_b431_5462_3a12

  lemma SmallReduced(q: int, m: u64)
    requires m >= 2 && 0 <= q < m
    ensures KeepsRemainder(q, m) && Reduced(q, m) == q
  {
    DivModUnique(q, 0, q, m);
  }

  // A square that is not reduced, and the double of one.
  lemma SmallSquare(e: nat, m: u64, v: int, q: int)
    requires m >= 2 && e > 0 && NoLoss(e, m) && EvenValue(e, m) == v && 0 <= q == v * v && 2 * q < m
    ensures NoLoss(2 * e, m) && EvenValue(2 * e, m) == q
    ensures NoLoss(2 * e + 1, m) && EvenValue(2 * e + 1, m) == 2 * q
  {
    EvenValueStep(e, m, false);
    EvenValueStep(e, m, true);
    SmallReduced(q, m);
    HalfOf(2 * e, e);
    HalfOf(2 * e + 1, e);
  }

  lemma HalfOf(n: int, e: int)
    requires n == 2 * e || n == 2 * e + 1
    ensures n / 2 == e
  {
  }

  lemma SmallPowers()
    ensures var m := LOSING_MODULUS; NoLoss(33, m) && EvenValue(33, m) == 0x2_0000_0000
  {
    SmallSquare(1, LOSING_MODULUS, 2, 4);
    SmallSquare(2, LOSING_MODULUS, 4, 16);
    SmallSquare(4, LOSING_MODULUS, 16, 256);
    SmallSquare(8, LOSING_MODULUS, 256, 65536);
    SmallSquare(16, LOSING_MODULUS, 65536, 4294967296);
  }

  lemma LosingSteps()
    ensures Over(0x4_0000_0000_0000_0000, LOSING_MODULUS) < B64
    ensures 0x4_0000_0000_0000_0000 % LOSING_MODULUS == 10913681201083914168
    ensures Over(10913681201083914168 * 10913681201083914168, LOSING_MODULUS) >= B64
  {
    OverIs(0x4_0000_0000_0000_0000, LOSING_MODULUS, 21648769412420468793, 4);
    DivModUnique(0x4_0000_0000_0000_0000, 4, 10913681201083914168, LOSING_MODULUS);
    OverIs(10913681201083914168 * 10913681201083914168, LOSING_MODULUS, 21648769412420468793, 7577680615039018172);
  }

  // Above 2^63 a power can come out wrong: 2^132 modulo this number.
  lemma ModPow2LosesRemainder()
    ensures var m := LOSING_MODULUS; !NoLoss(132, m) && EvenValue(132, m) != Pow2(132) % m
  {
    SmallPowers();
    LosingSteps();
    EvenValueStep(33, LOSING_MODULUS, false);
    LastLossShows(66, LOSING_MODULUS, false);
  }

  // if (result >= modulo) result = result % modulo
  method ReduceAbove(a: Int128, modulo: u64) returns (r: Int128)
    ensures modulo >= 2 ==> r.Value() == Reduced(a.Value(), modulo)
  {
    r := a;
    if !a.Less(FromU64(modulo)) {
      var quotient, rest := DivMod(a, modulo);
      r := FromU64(rest);
    } else {
      DivModUnique(a.Value(), 0, a.Value(), modulo);
    }
  }

  // result <<= 1; if (result >= modulo) result = result - modulo
  method DoubleModulo(a: Int128, modulo: u64) returns (r: Int128)
    ensures a.Value() < modulo ==> r.Value() == Doubled(a.Value(), modulo)
  {
    r := Shl(a, 1);
    ShlOne(a.Value());
    ghost var v := r.Value();
    if !r.Less(FromU64(modulo)) {
      r := Sub(r, FromU64(modulo));
      SmallValue(v - modulo);
    }
  }

  lemma ShlOne(a: int)
    requires 0 <= a < B128
    ensures 1 % 128 == 1
    ensures a < B64 ==> a * Pow2(1) % B128 == 2 * a
  {
    assert Pow2(1) == 2;
    SmallValue(2 * a);
  }

  lemma SmallValue(v: int)
    ensures 0 <= v < B128 ==> v % B128 == v
  {
    if 0 <= v < B128 {
      DivModUnique(v, 0, v, B128);
    }
  }

  lemma OddNeverDividesPow2(p: nat, m: int)
    requires m > 1 && m % 2 == 1
    ensures Pow2(p) % m != 0
  {
    if Pow2(p) % m == 0 {
      DivModUnique(0, 0, 0, m);
      DivModUnique(1, 0, 1, m);
      CancelPow2(1, 0, p, m);
    }
  }

  lemma EvenValueStep(e: nat, m: u64, odd: bool)
    requires m >= 2 && e > 0
    ensures var v := EvenValue(e, m);
      && 0 <= v * v < B128 && v * v % B128 == v * v && 0 <= Reduced(v * v, m) < m
      && EvenValue(2 * e + if odd then 1 else 0, m) == if odd then Doubled(Reduced(v * v, m), m) else Reduced(v * v, m)
  {
    var v := EvenValue(e, m);
    SquareBound(v);
    SmallValue(v * v);
    ReducedRange(v * v, m);
    DivModUnique(2 * e + if odd then 1 else 0, e, if odd then 1 else 0, 2);
  }

  // One round of the even path: the exponent doubles, and its next bit comes in.
  method EvenRound(result: Int128, modulo: u64, odd: bool, ghost e: nat) returns (r: Int128)
    requires e > 0 && (modulo >= 2 ==> result.Value() == EvenValue(e, modulo))
    ensures modulo >= 2 ==> r.Value() == EvenValue(2 * e + if odd then 1 else 0, modulo)
  {
    if modulo >= 2 {
      EvenValueStep(e, modulo, odd);
    }
    r := Mult128Lo(result, result);
    r := ReduceAbove(r, modulo);
    if odd {
      r := DoubleModulo(r, modulo);
    }
  }

  // modPow2 for even moduli.
  method EvenModPow2(exponent: u64, modulo: u64) returns (r: u64)
    requires exponent > 0
    ensures modulo >= 2 ==> r == EvenValue(exponent, modulo)
  {
    var result := FromU64(2);
    var top, j := HighestSetBit64(exponent);
    var bit: u64 := top / 2;
    NothingAbove(exponent, top);
    NextBit(exponent, top, j);
    TopBitSet(exponent, top);
    j := if j == 0 then 0 else j - 1;
    while bit > 0
      invariant bit != 0 ==> bit == Pow2(j)
      invariant Above(exponent, bit) > 0
      invariant modulo >= 2 ==> result.Value() == EvenValue(Above(exponent, bit), modulo)
      decreases bit
    {
      NextBit(exponent, bit, j);
      result := EvenRound(result, modulo, exponent / bit % 2 == 1, Above(exponent, bit));
      bit := bit / 2;
      j := if j == 0 then 0 else j - 1;
    }
    r := result.Part0();
    if modulo >= 2 {
      KeptLow(result);
    }
  }

  lemma EvenResult(e: nat, m: u64)
    requires e > 0 && m >= 2 && m % 2 == 0
    ensures NoLoss(e, m) ==> (EvenValue(e, m) == Pow2(e) % m <==> !(e == 1 && m == 2))
    ensures m <= Pow2(63) ==> NoLoss(e, m)
  {
    if m <= Pow2(63) {
      NoLossBelow(e, m);
    }
    if NoLoss(e, m) {
      EvenValueExact(e, m);
      EvenRemainderOfTwo(m);
    }
  }

  // 2^exponent modulo modulo, for every modulus up to 2^63 except on the inputs listed above. Above that, for
  // even ones, it is the value of the even path, which is right as long as no reduction loses its remainder.
  method ModPow2(exponent: u64, modulo: u64) returns (r: u64)
    requires exponent > 0 && modulo % 2 == 1 ==> modulo < Pow2(63)
    ensures 1 <= modulo <= Pow2(63) ==>
      (r == Pow2(exponent) % modulo <==> !MissesRemainder(exponent, modulo))
    ensures exponent == 0 ==> r == 1
    ensures exponent > 0 && modulo > Pow2(63) ==>
      r == EvenValue(exponent, modulo) && (NoLoss(exponent, modulo) ==> r == Pow2(exponent) % modulo)
  {
    FullWords();
    if exponent == 0 {
      if modulo > 1 {
        DivModUnique(1, 0, 1, modulo);
      }
      return 1;
    }
    if modulo % 2 == 1 {
      r := MontgomeryModPow2(exponent, modulo);
      if modulo > 1 {
        OddNeverDividesPow2(exponent, modulo);
      }
      return;
    }
    r := EvenModPow2(exponent, modulo);
    if modulo >= 2 {
      EvenResult(exponent, modulo);
    }
  }

  lemma TopBitSet(p: u64, bit: u64)
    requires bit > 0 && bit <= p < 2 * bit
    ensures p / bit % 2 == 1
  {
    DivModUnique(p, 1, p - bit, bit);
  }

  lemma EvenRemainderOfTwo(m: u64)
    requires m >= 2
    ensures Pow2(1) % m == if m == 2 then 0 else 2
  {
    assert Pow2(1) == 2;
    if m > 2 {
      DivModUnique(2, 0, 2, m);
    }
  }

  // ---------- fraction ----------

  // The top 64 bits of the fractional part of numerator / divisor, if what the division leaves over fits 64
  // bits, and for all divisors up to 2^63; otherwise one less.
  method Fraction(numerator: u64, divisor: u64) returns (r: u64)
    ensures divisor == 0 ==> r == B64 - 1
    ensures divisor == 1 ==> r == 0
    ensures divisor >= 2 ==>
      r == ((numerator % divisor) * B64 / divisor - if Over(numerator * B64, divisor) < B64 then 0 else 1) % B64
    ensures divisor >= 2 ==>
      (r == (numerator % divisor) * B64 / divisor <==> Over(numerator * B64, divisor) < B64)
    ensures 2 <= divisor <= Pow2(63) ==> Over(numerator * B64, divisor) < B64
  {
    var wide := FromParts(numerator, 0);
    var quotient, modulo := DivMod(wide, divisor);
    r := quotient.Part0();
    if divisor == 0 {
      LowPart(quotient, B64 - 1, B64 - 1);
    } else {
      assert wide.Value() == numerator * B64;
      FractionOfQuotient(numerator, divisor);
      if divisor == 1 {
        WholeFraction(numerator, quotient);
      } else {
        DividedExactly(wide.Value(), divisor, quotient.Value(), modulo);
        FractionWraps(quotient, numerator / divisor, (numerator % divisor) * B64 / divisor);
      }
    }
  }

  lemma WholeFraction(n: u64, quotient: Int128)
    requires quotient.Value() == n * B64 / 1
    ensures quotient.Part0() == 0
  {
    DivModUnique(n * B64, n * B64, 0, 1);
    LowPart(quotient, n, 0);
  }

  // The low half of the quotient, or of one less.
  lemma FractionWraps(quotient: Int128, hi: int, f: int)
    requires 0 <= f < B64
    ensures quotient.Value() == hi * B64 + f ==> quotient.Part0() == f == f % B64
    ensures quotient.Value() == hi * B64 + f - 1 ==> quotient.Part0() == (f - 1) % B64 && (f - 1) % B64 != f
  {
    if f > 0 {
      DivModUnique(f - 1, 0, f - 1, B64);
    } else {
      DivModUnique(f - 1, -1, B64 - 1, B64);
    }
    DivModUnique(f, 0, f, B64);
  }

  lemma LowPart(r: Int128, hi: int, lo: int)
    requires r.Value() == hi * B64 + lo && 0 <= lo < B64
    ensures r.Part0() == lo
  {
    DivModUnique(r.Value(), hi, lo, B64);
    DivModUnique(r.Value(), r.Part1(), r.Part0(), B64);
  }

  lemma FractionOfQuotient(n: u64, d: u64)
    requires d > 0
    ensures var f := (n % d) * B64 / d;
      0 <= f < B64 && n * B64 / d == n / d * B64 + f
  {
    var k, r := n / d, n % d;
    var f, g := r * B64 / d, r * B64 % d;
    assert n == k * d + r && r * B64 == f * d + g;
    assert n * B64 == (k * B64 + f) * d + g by {
      assert (k * d) * B64 == (k * B64) * d;
      assert (k * B64 + f) * d == (k * B64) * d + f * d;
    }
    DivModUnique(n * B64, k * B64 + f, g, d);
    FractionBelowOne(r, f, g, d);
  }

  lemma FractionBelowOne(r: int, f: int, g: int, d: int)
    requires 0 <= r < d && r * B64 == f * d + g && 0 <= g < d
    ensures 0 <= f < B64
  {
    if f < 0 {
      MulMonotone(f, -1, d);
    }
    if f >= B64 {
      MulMonotone(B64, f, d);
    }
  }
}
