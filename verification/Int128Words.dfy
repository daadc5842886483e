// class Int128 of pidigits.h, portable branch: a 128-bit unsigned integer in four 32-bit words.
module Int128Words {
  import opened Words
  import opened NumberTheory
  import opened CudaPiMath

  datatype Int128 = Int128(w3: u32, w2: u32, w1: u32, w0: u32) {
    function Part0(): (lo: u64) { Join64(w1, w0) }

    function Part1(): (hi: u64) { Join64(w3, w2) }

    function Value(): (v: int)
      ensures 0 <= v < B128
    {
      Part1() * B64 + Part0()
    }

    // operator<: the words are compared from the top.
    predicate Less(x: Int128)
      ensures Less(x) <==> Value() < x.Value()
    {
      if w3 == x.w3 then
        if w2 == x.w2 then
          if w1 == x.w1 then w0 < x.w0 else w1 < x.w1
        else w2 < x.w2
      else w3 < x.w3
    }
  }

  function FromParts(hi: u64, lo: u64): (r: Int128)
    ensures r.Part1() == hi && r.Part0() == lo
    ensures r.Value() == hi * B64 + lo
  {
    Int128(Hi32(hi), Lo32(hi), Hi32(lo), Lo32(lo))
  }

  function FromU64(x: u64): (r: Int128)
    ensures r.Value() == x
  {
    FromParts(0, x)
  }

  // The value of the four words r3..r0 when `over` units were dropped at the top.
  lemma Wrapped(r: Int128, over: int, v: int)
    requires r.Value() + over * B128 == v
    ensures r.Value() == v % B128
  {
    DivModUnique(v, over, r.Value(), B128);
  }

  // operator+(Int128): three carries ripple, the fourth is dropped.
  method Add(a: Int128, b: Int128) returns (r: Int128)
    ensures r.Value() == (a.Value() + b.Value()) % B128
  {
    var r0, c0 := AddCarryOut(a.w0, b.w0);
    var r1, c1 := AddCarryInOut(a.w1, b.w1, c0);
    var r2, c2 := AddCarryInOut(a.w2, b.w2, c1);
    var r3 := AddCarryIn(a.w3, b.w3, c2);
    r := Int128(r3, r2, r1, r0);
    Wrapped(r, if a.w3 + b.w3 + c2 < B32 then 0 else 1, a.Value() + b.Value());
  }

  lemma CarryByComparison(a: u32, x: u32, r: u32)
    requires r == (a + x) % B32
    ensures r + Flagged(r < a) * B32 == a + x
  {
  }

  // operator+(unsigned): carries are found by comparing each sum with its first operand.
  method AddSmall(a: Int128, x: u32) returns (r: Int128)
    ensures r.Value() == (a.Value() + x) % B128
  {
    var r0: u32 := (a.w0 + x) % B32;
    CarryByComparison(a.w0, x, r0);
    var c0 := Flagged(r0 < a.w0);
    var r1: u32 := (a.w1 + c0) % B32;
    CarryByComparison(a.w1, c0, r1);
    var c1 := Flagged(r1 < a.w1);
    var r2: u32 := (a.w2 + c1) % B32;
    CarryByComparison(a.w2, c1, r2);
    var c2 := Flagged(r2 < a.w2);
    var r3: u32 := (a.w3 + c2) % B32;
    CarryByComparison(a.w3, c2, r3);
    r := Int128(r3, r2, r1, r0);
    Rippled(a, x, r, c0, c1, c2, Flagged(r3 < a.w3));
  }

  lemma Rippled(a: Int128, x: u32, r: Int128, c0: Flag, c1: Flag, c2: Flag, c3: Flag)
    requires r.w0 + c0 * B32 == a.w0 + x && r.w1 + c1 * B32 == a.w1 + c0
    requires r.w2 + c2 * B32 == a.w2 + c1 && r.w3 + c3 * B32 == a.w3 + c2
    ensures r.Value() == (a.Value() + x) % B128
  {
    Wrapped(r, c3, a.Value() + x);
  }

  method Sub(a: Int128, b: Int128) returns (r: Int128)
    ensures r.Value() == (a.Value() - b.Value()) % B128
  {
    var r0, c0 := SubBorrowOut(a.w0, b.w0);
    var r1, c1 := SubBorrowInOut(a.w1, b.w1, c0);
    var r2, c2 := SubBorrowInOut(a.w2, b.w2, c1);
    var r3 := SubBorrowIn(a.w3, b.w3, c2);
    r := Int128(r3, r2, r1, r0);
    Wrapped(r, if a.w3 - b.w3 - c2 >= 0 then 0 else -1, a.Value() - b.Value());
  }

  method Mult64(a: u64, b: u64) returns (r: Int128)
    ensures r.Value() == a * b
  {
    var hi, lo := MultFull64(a, b);
    r := FromParts(hi, lo);
  }

  // Adds a cross product in the middle of a 256-bit result, with its carries.
  method AddMiddle(hi: Int128, lo: Int128, cross: Int128) returns (hi': Int128, lo': Int128)
    requires hi.Value() * B128 + lo.Value() + cross.Value() * B64 < B128 * B128
    ensures hi'.Value() * B128 + lo'.Value() == hi.Value() * B128 + lo.Value() + cross.Value() * B64
  {
    var lo1, c := AddCarryOut64(lo.Part1(), cross.Part0());
    lo' := FromParts(lo1, lo.Part0());
    var hi0, carry := AddCarryInOut64(hi.Part0(), cross.Part1(), c);
    var hi1 := AddCarryIn64(hi.Part1(), 0, carry);
    hi' := FromParts(hi1, hi0);
  }

  lemma CrossSums(a: int, b: int, c: int, d: int)
    ensures (a * B64 + b) * (c * B64 + d) == (a * c) * B128 + (a * d + b * c) * B64 + b * d
  {
    ProductOfSums(a, b, c, d, B64);
    MulAssociates(a * c, B64, B64);
  }

  lemma CrossProducts(a: Int128, b: Int128)
    ensures a.Value() * b.Value() == (a.Part1() * b.Part1()) * B128
      + (a.Part1() * b.Part0() + a.Part0() * b.Part1()) * B64 + a.Part0() * b.Part0()
    ensures a.Part1() * b.Part0() >= 0 && a.Part0() * b.Part1() >= 0
    ensures a.Value() * b.Value() < B128 * B128
  {
    CrossSums(a.Part1(), a.Part0(), b.Part1(), b.Part0());
    ProductBound(a.Value(), b.Value(), B128);
    ProductBound(a.Part1(), b.Part0(), B64);
    ProductBound(a.Part0(), b.Part1(), B64);
  }

  // Schoolbook 128 x 128 -> 256 bit product: BD and AC side by side, then AD and BC added in the
  // middle with their carries. Neither top carry is lost.
  method Mult128(a: Int128, b: Int128) returns (resultHi: Int128, resultLo: Int128)
    ensures resultHi.Value() * B128 + resultLo.Value() == a.Value() * b.Value()
  {
    CrossProducts(a, b);
    resultLo := Mult64(a.Part0(), b.Part0());
    resultHi := Mult64(a.Part1(), b.Part1());
    var tmp := Mult64(a.Part1(), b.Part0());
    resultHi, resultLo := AddMiddle(resultHi, resultLo, tmp);
    tmp := Mult64(a.Part0(), b.Part1());
    resultHi, resultLo := AddMiddle(resultHi, resultLo, tmp);
  }

  method Mult128Hi(a: Int128, b: Int128) returns (r: Int128)
    ensures r.Value() == a.Value() * b.Value() / B128
  {
    var lo;
    r, lo := Mult128(a, b);
  }

  // Dropping 64-bit overflow in the upper half is dropping 128-bit overflow of the whole.
  lemma UpperHalfWraps(upper: int, lo: u64)
    ensures (upper % B64) * B64 + lo == (upper * B64 + lo) % B128
  {
    DivModUnique(upper * B64 + lo, upper / B64, (upper % B64) * B64 + lo, B128);
  }

  lemma LowProduct(a: Int128, b: Int128, upper: int, lo: u64)
    requires (upper - a.Part0() * b.Part1() - a.Part1() * b.Part0()) * B64 + lo == a.Part0() * b.Part0()
    ensures (upper % B64) * B64 + lo == a.Value() * b.Value() % B128
  {
    CrossProducts(a, b);
    var ac := a.Part1() * b.Part1();
    UpperHalfWraps(ac * B64 + upper, lo);
    AddMultiple(upper, ac, B64);
  }

  // The low 128 bits of the product; the cross products are taken modulo 2^64.
  method Mult128Lo(a: Int128, b: Int128) returns (r: Int128)
    ensures r.Value() == a.Value() * b.Value() % B128
  {
    var hi, lo := MultFull64(a.Part0(), b.Part0());
    var low := (a.Part0() * b.Part0()) % B64;
    var upper := hi + a.Part0() * b.Part1() + a.Part1() * b.Part0();
    DivModUnique(a.Part0() * b.Part0(), hi, lo, B64);
    LowProduct(a, b, upper, lo);
    r := FromParts(upper % B64, low);
  }

  // operator*(u64)
  method MultU64(a: Int128, x: u64) returns (r: Int128)
    ensures r.Value() == a.Value() * x % B128
  {
    r := Mult64(a.Part0(), x);
    ProductWithWord(a.Part1(), a.Part0(), x, r.Part1(), r.Part0());
    r := FromParts((r.Part1() + a.Part1() * x) % B64, r.Part0());
  }

  lemma ProductWithWord(hi: u64, lo: u64, x: u64, p: u64, q: u64)
    requires p * B64 + q == lo * x
    ensures (p + hi * x) % B64 * B64 + q == (hi * B64 + lo) * x % B128
  {
    UpperHalfWraps(p + hi * x, q);
    ScaleSum(hi, lo, x);
    Regrouped(p, hi * x, q);
  }

  lemma Regrouped(a: int, b: int, lo: int)
    ensures (a + b) * B64 + lo == b * B64 + (a * B64 + lo)
  {
  }

  lemma ScaleSum(hi: int, lo: int, x: int)
    ensures (hi * B64 + lo) * x == (hi * x) * B64 + lo * x
  {
  }

  // A 64-bit word cut at bit s: the weights p = 2^s and q = 2^(64 - s) multiply to 2^64.
  lemma CutWord(x: u64, p: int, q: int)
    requires p > 0 && q > 0 && p * q == B64
    ensures x == x / p * p + x % p
    ensures x * q % B64 == x % p * q && 0 <= x % p * q && x % p * q + q <= B64
    ensures x * q == x / p * B64 + x % p * q
    ensures 0 <= x / p < q
  {
    var h, r := x / p, x % p;
    CutWordParts(x, h, r, p, q);
    DivModUnique(x * q, h, r * q, B64);
  }

  lemma CutWordParts(x: u64, h: int, r: int, p: int, q: int)
    requires p > 0 && q > 0 && p * q == B64 && x == h * p + r && 0 <= r < p
    ensures x * q == h * B64 + r * q && 0 <= r * q && r * q + q <= B64
    ensures 0 <= h < q
  {
    MulAssociates(h, p, q);
    assert x * q == (h * p) * q + r * q;
    MulMonotone(r + 1, p, q);
    if h < 0 {
      MulMonotone(h, -1, p);
    }
    if h >= q {
      MulMonotone(q, h, p);
    }
  }

  lemma ShiftWeights(s: nat)
    requires s <= 64
    ensures Pow2(s) * Pow2(64 - s) == B64
  {
    FullWords();
    Pow2Add(s, 64 - s);
  }

  lemma ShrParts(hi: u64, lo: u64, p: int, q: int)
    requires p > 0 && q > 0 && p * q == B64
    ensures hi / p * B64 + (hi % p * q + lo / p) == (hi * B64 + lo) / p
  {
    var hq, hr, lq, lr := hi / p, hi % p, lo / p, lo % p;
    assert hi == hq * p + hr && lo == lq * p + lr;
    var v := hq * B64 + (hr * q + lq);
    calc {
      v * p + lr;
      (hq * B64) * p + (hr * q) * p + lq * p + lr;
      { MulAssociates(hq, B64, p); MulAssociates(hr, q, p); }
      (hq * p) * B64 + hr * B64 + lo;
      hi * B64 + lo;
    }
    DivModUnique(hi * B64 + lo, v, lr, p);
  }

  // operator>>
  method Shr(a: Int128, shift: nat) returns (r: Int128)
    ensures r.Value() == a.Value() / Pow2(shift % 128)
  {
    var s := shift % 128;
    if s == 0 {
      return a;
    }
    if s >= 64 {
      ghost var v := a.Value();
      DivModUnique(v, a.Part1(), a.Part0(), B64);
      QuotientBounds(a.Part1(), Pow2(s - 64));
      r := FromParts(0, a.Part1() / Pow2(s - 64));
      FullWords();
      Pow2Add(64, s - 64);
      DivTwice(v, B64, Pow2(s - 64));
    } else {
      ghost var p, q := Pow2(s), Pow2(64 - s);
      ShiftWeights(s);
      CutWord(a.Part1(), p, q);
      CutWord(a.Part0(), p, q);
      QuotientBounds(a.Part1(), p);
      MultipleDivides(a.Part1() % p, q);
      var low := OrDisjoint(a.Part0() / Pow2(s), a.Part1() * Pow2(64 - s) % B64, Pow2(64 - s));
      r := FromParts(a.Part1() / Pow2(s), low);
      ShrParts(a.Part1(), a.Part0(), p, q);
    }
  }

  // Both halves shifted: hi gives h above its word and r in it, lo gives l and low.
  lemma ShlParts(hi: u64, lo: u64, p: int, h: int, r: int, l: int, low: u64)
    requires hi * p == h * B64 + r && lo * p == l * B64 + low
    requires 0 <= l < p && 0 <= r && r + p <= B64
    ensures (r + l) * B64 + low == (hi * B64 + lo) * p % B128
  {
    ScaleSum(hi, lo, p);
    DivModUnique((hi * B64 + lo) * p, h, (r + l) * B64 + low, B128);
  }

  lemma ShlWords(a: Int128, t: int)
    requires t > 0
    ensures (a.Part0() * t % B64) * B64 == a.Value() * (B64 * t) % B128
  {
    UpperHalfWraps(a.Value() * t, 0);
    MulAssociates(a.Value(), t, B64);
    ScaleSum(a.Part1(), a.Part0(), t);
    AddMultiple(a.Part0() * t, a.Part1() * t, B64);
  }

  // operator<< by less than a word: the upper half takes the bits the lower half pushes out.
  method ShlBits(a: Int128, s: nat) returns (r: Int128)
    requires 0 < s < 64
    ensures r.Value() == a.Value() * Pow2(s) % B128
  {
    ghost var hi, lo, p, q := a.Part1(), a.Part0(), Pow2(s), Pow2(64 - s);
    ShiftWeights(s);
    CutWord(hi, q, p);
    CutWord(lo, q, p);
    MultipleDivides(hi % q, p);
    var high := OrDisjoint(a.Part0() / Pow2(64 - s), a.Part1() * Pow2(s) % B64, Pow2(s));
    r := FromParts(high, a.Part0() * Pow2(s) % B64);
    ShlParts(hi, lo, p, hi / q, hi % q * p, lo / q, lo % q * p);
  }

  // operator<<
  method Shl(a: Int128, shift: nat) returns (r: Int128)
    ensures r.Value() == a.Value() * Pow2(shift % 128) % B128
  {
    var s := shift % 128;
    if s == 0 {
      return a;
    }
    if s >= 64 {
      r := FromParts(a.Part0() * Pow2(s - 64) % B64, 0);
      FullWords();
      Pow2Add(64, s - 64);
      ShlWords(a, Pow2(s - 64));
    } else {
      r := ShlBits(a, s);
    }
  }
}
