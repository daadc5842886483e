// class CudaPiMath of pidigits.h, portable branch: carries, borrows, full products and bit search.
module CudaPiMath {
  import opened Words
  import opened NumberTheory

  function Hi32(x: u64): (hi: u32) { x / B32 }

  function Lo32(x: u64): (lo: u32) { x % B32 }

  function Join64(hi: u32, lo: u32): u64 {
    hi * B32 + lo
  }

  // Joining the two words gives x back, and no other two words do.
  method Split64(x: u64) returns (hi: u32, lo: u32)
    ensures Join64(hi, lo) == x
    ensures forall h: u32, l: u32 :: Join64(h, l) == x ==> h == hi && l == lo
  {
    lo := Lo32(x);
    hi := Hi32(x);
  }

  method AddCarryOut(a: u32, b: u32) returns (result: u32, carry: Flag)
    ensures result + carry * B32 == a + b
  {
    result := (a + b) % B32;
    carry := Flagged(result < a);
  }

  method AddCarryInOut(a: u32, b: u32, carryIn: Flag) returns (result: u32, carry: Flag)
    ensures result + carry * B32 == a + b + carryIn
  {
    result := (a + b + carryIn) % B32;
    if carryIn != 0 {
      carry := Flagged(result <= a);
    } else {
      carry := Flagged(result < a);
    }
  }

  method AddCarryIn(a: u32, b: u32, carry: Flag) returns (result: u32)
    ensures a + b + carry < B32 ==> result == a + b + carry
    ensures a + b + carry >= B32 ==> result == a + b + carry - B32
  {
    result := (a + b + carry) % B32;
  }

  method AddCarryOut64(a: u64, b: u64) returns (result: u64, carry: Flag)
    ensures result + carry * B64 == a + b
  {
    result := (a + b) % B64;
    carry := Flagged(result < a);
  }

  method AddCarryInOut64(a: u64, b: u64, carryIn: Flag) returns (result: u64, carry: Flag)
    ensures result + carry * B64 == a + b + carryIn
  {
    result := (a + b + carryIn) % B64;
    if carryIn != 0 {
      carry := Flagged(result <= a);
    } else {
      carry := Flagged(result < a);
    }
  }

  method AddCarryIn64(a: u64, b: u64, carry: Flag) returns (result: u64)
    ensures a + b + carry < B64 ==> result == a + b + carry
    ensures a + b + carry >= B64 ==> result == a + b + carry - B64
  {
    result := (a + b + carry) % B64;
  }

  method SubBorrowOut(a: u32, b: u32) returns (result: u32, borrow: Flag)
    ensures result - borrow * B32 == a - b
  {
    result := (a - b) % B32;
    borrow := Flagged(result > a);
  }

  method SubBorrowInOut(a: u32, b: u32, borrowIn: Flag) returns (result: u32, borrow: Flag)
    ensures result - borrow * B32 == a - b - borrowIn
  {
    result := (a - b - borrowIn) % B32;
    if borrowIn != 0 {
      borrow := Flagged(result >= a);
    } else {
      borrow := Flagged(result > a);
    }
  }

  method SubBorrowIn(a: u32, b: u32, borrow: Flag) returns (result: u32)
    ensures 0 <= a - b - borrow ==> result == a - b - borrow
    ensures a - b - borrow < 0 ==> result == a - b - borrow + B32
  {
    result := (a - b - borrow) % B32;
  }

  // The two halves of a 32 x 32 bit product.
  function MultLo(f1: u32, f2: u32): (lo: u32) { (f1 * f2) % B32 }

  function MultHi(f1: u32, f2: u32): (hi: u32)
    ensures hi <= B32 - 2
    ensures hi * B32 + MultLo(f1, f2) == f1 * f2
  {
    ProductBound(f1, f2, B32);
    (f1 * f2) / B32
  }

  lemma ProductBound(x: int, y: int, b: int)
    requires 0 <= x < b && 0 <= y < b && 1 < b
    ensures 0 <= x * y <= (b - 1) * (b - 1) < b * b
  {
    MulMonotone(0, x, y);
    MulMonotone(x, b - 1, y);
    MulMonotone(y, b - 1, b - 1);
    MulDistributes(b, 1, b - 1);
  }

  lemma ProductOfSums(a: int, b: int, c: int, d: int, w: int)
    ensures (a * w + b) * (c * w + d) == a * c * w * w + (a * d + b * c) * w + b * d
  {
    calc {
      (a * w + b) * (c * w + d);
      (a * w) * (c * w) + (a * w) * d + b * (c * w) + b * d;
      { assert (a * w) * (c * w) == a * c * w * w; assert (a * w) * d == a * d * w; assert b * (c * w) == b * c * w; }
      a * c * w * w + a * d * w + b * c * w + b * d;
      { assert a * d * w + b * c * w == (a * d + b * c) * w; }
      a * c * w * w + (a * d + b * c) * w + b * d;
    }
  }

  // Schoolbook 64 x 64 -> 128 bit product from 32-bit pieces; no carry is lost.
  method MultFull64(f1: u64, f2: u64) returns (resultHi: u64, resultLo: u64)
    ensures resultHi * B64 + resultLo == f1 * f2
  {
    var a, b := Hi32(f1), Lo32(f1);
    var c, d := Hi32(f2), Lo32(f2);
    var carry;
    var result0: u32 := MultLo(b, d);
    var result1: u32 := MultHi(b, d);
    var result2, result3;
    result1, carry := AddCarryOut(MultLo(a, d), result1);
    result2 := AddCarryIn(MultHi(a, d), 0, carry);
    result1, carry := AddCarryOut(MultLo(b, c), result1);
    result2, carry := AddCarryInOut(MultHi(b, c), result2, carry);
    result3 := AddCarryIn(0, 0, carry);
    result2, carry := AddCarryOut(MultLo(a, c), result2);
    ghost var top := MultHi(a, c) + result3 + carry;
    assert f1 * f2 == top * B32 * B32 * B32 + result2 * B32 * B32 + result1 * B32 + result0 by {
      assert f1 == a * B32 + b && f2 == c * B32 + d;
      ProductOfSums(a, b, c, d, B32);
    }
    assert top < B32 by { ProductBound(f1, f2, B64); }
    result3 := AddCarryIn(MultHi(a, c), result3, carry);
    resultLo := Join64(result1, result0);
    resultHi := Join64(result3, result2);
  }

  // One halving step of the search; x is what is left of word above its low 64 - n bits.
  method SearchHalf(n: nat, x: u64, j: nat, half: u64, ghost word: u64) returns (n': nat, x': u64)
    requires 2 * j <= n <= 64 && half == Pow2(j) && x / half < half
    requires HoldsTop(word, x, 64 - n)
    ensures n - j <= n' <= n && x' < half
    ensures x == 0 ==> n' == n && x' == 0
    ensures HoldsTop(word, x', 64 - n')
  {
    QuotientBounds(x, half);
    var y: u64 := x / half;
    n', x' := n, x;
    if y != 0 {
      n' := n - j;
      x' := y;
      NarrowTop(word, x, 64 - n, j);
    }
  }

  ghost predicate HoldsTop(word: u64, x: u64, k: nat) {
    Truncates(word, x, Pow2(k)) && (word > 0 ==> x > 0)
  }

  lemma NarrowTop(word: u64, x: u64, k: nat, j: nat)
    requires HoldsTop(word, x, k) && x / Pow2(j) > 0
    ensures HoldsTop(word, x / Pow2(j), k + j)
  {
    Pow2Add(k, j);
    QuotientTruncates(x, Pow2(j));
    TruncatesTwice(word, x, x / Pow2(j), Pow2(k), Pow2(j));
  }

  // The first three halvings: they find the byte.
  method SearchBytes(word: u64) returns (n: nat, x: u64)
    ensures 8 <= n <= 64 && x < 0x100 && HoldsTop(word, x, 64 - n)
    ensures word == 0 ==> n == 64 && x == 0
  {
    HalfWords();
    n, x := 64, word;
    assert HoldsTop(word, word, 0);
    n, x := SearchHalf(n, x, 32, 0x1_0000_0000, word);
    n, x := SearchHalf(n, x, 16, 0x1_0000, word);
    n, x := SearchHalf(n, x, 8, 0x100, word);
  }

  method CountLeadingZeros64(word: u64) returns (zeros: nat)
    ensures zeros <= 64
    ensures word == 0 ==> zeros == 64
    ensures word > 0 ==> zeros < 64 && Pow2(63 - zeros) <= word < 2 * Pow2(63 - zeros)
  {
    var n, x := SearchBytes(word);
    HalfWords();
    n, x := SearchHalf(n, x, 4, 0x10, word);
    n, x := SearchHalf(n, x, 2, 4, word);
    LastBits(word, x, 64 - n);
    var y := x / 2;
    if y != 0 {
      return n - 2;
    }
    return n - x;
  }

  lemma LastBits(word: u64, x: u64, k: nat)
    requires x < 4 && HoldsTop(word, x, k)
    ensures x == 1 ==> Pow2(k) <= word < 2 * Pow2(k)
    ensures x >= 2 ==> Pow2(k + 1) <= word < 2 * Pow2(k + 1)
    ensures word == 0 ==> x == 0
    ensures word > 0 ==> x > 0
  {
  }

  method HighestSetBit64(x: u64) returns (bit: u64, ghost j: nat)
    requires x > 0
    ensures j < 64 && bit == Pow2(j) && bit <= x < 2 * bit
  {
    var zeros := CountLeadingZeros64(x);
    j := 63 - zeros;
    bit := ShiftedOne(63 - zeros);
  }

  // 1ull << s for a shift amount below the word size.
  function ShiftedOne(s: nat): (r: u64)
    requires s < 64
    ensures r == Pow2(s)
  {
    Pow2Monotone(s, 63);
    FullWords();
    Pow2(s)
  }
}
