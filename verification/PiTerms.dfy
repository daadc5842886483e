// The map-reduce job that adds up Bailey-Borwein-Plouffe terms modulo 2^64: create_pi_input.py cuts the
// iterations into chunks, mapper_pi.cpp adds the terms of a chunk, reducer_pi.cpp adds the chunks.
module PiTerms {
  import opened Words
  import opened NumberTheory
  import opened Sequences
  import CudaPi

  // The four sums that create_pi_input.py sets up for a target digit d.
  datatype Series = Series(index: nat, scalePow: nat, offset: nat)

  function SeriesOf(index: nat, d: nat): (s: Series)
    requires index < 4
  {
    match index
    case 0 => Series(0, 4 * d + 2, 1)
    case 1 => Series(1, 4 * d + 1, 4)
    case 2 => Series(2, 4 * d, 5)
    case 3 => Series(3, 4 * d, 6)
  }

  // Every modulus of the job stays below 2^62 for target digits below 2^58.
  const DIGITS: int := 0x400_0000_0000_0000

  ghost predicate IsSeries(s: Series) {
    s.index < 4 && exists d: nat :: d < DIGITS && s == SeriesOf(s.index, d)
  }

  function Iterations(s: Series): nat { s.scalePow / 4 + 1 }

  function Modulus(s: Series, k: nat): (m: nat) { s.offset + 8 * k }

  // floor(2^64 * frac(2^(scalePow - 4k) / modulus))
  function TermFloor(s: Series, k: nat): (f: nat)
    requires s.offset > 0 && 4 * k <= s.scalePow
  {
    var m := Modulus(s, k);
    assert Pow2(s.scalePow - 4 * k) % m * B64 >= 0;
    QuotientBounds(Pow2(s.scalePow - 4 * k) % m * B64, m);
    Pow2(s.scalePow - 4 * k) % m * B64 / m
  }

  function SumTerms(s: Series, from: nat, count: nat): (sum: nat)
    requires s.offset > 0 && from + count <= Iterations(s)
    decreases count
  {
    if count == 0 then 0 else SumTerms(s, from, count - 1) + TermFloor(s, from + count - 1)
  }

  lemma InSeries(s: Series, k: nat)
    requires IsSeries(s) && k < Iterations(s)
    ensures 4 * k <= s.scalePow < B64 && 1 <= Modulus(s, k) < Pow2(62)
    ensures !CudaPi.MissesRemainder(s.scalePow - 4 * k, Modulus(s, k))
  {
    FullWords();
    var d: nat :| d < DIGITS && s == SeriesOf(s.index, d);
  }

  // mapper_pi.cpp: computeTerms
  method ComputeTerms(s: Series, iterStart: nat, iters: nat) returns (localSum: u64)
    requires IsSeries(s) && iterStart + iters <= Iterations(s) && iters < INT_LIMIT
    ensures localSum == SumTerms(s, iterStart, iters) % B64
  {
    localSum := 0;
    var exponent: int := s.scalePow - 4 * iterStart;
    var modulo: int := s.offset + 8 * iterStart;
    var left := iters;
    ghost var done: nat := 0;
    while left > 0
      invariant done + left == iters
      invariant exponent == s.scalePow - 4 * (iterStart + done) && modulo == Modulus(s, iterStart + done)
      invariant localSum == SumTerms(s, iterStart, done) % B64
    {
      var x := ComputeTerm(exponent, modulo, s, iterStart + done);
      exponent := exponent - 4;
      modulo := modulo + 8;
      TermAdded(s, iterStart, done, localSum, x);
      localSum := (localSum + x) % B64;
      left := left - 1;
      done := done + 1;
    }
  }

  lemma TermAdded(s: Series, iterStart: nat, done: nat, localSum: int, x: int)
    requires s.offset > 0 && iterStart + done < Iterations(s)
    requires localSum == SumTerms(s, iterStart, done) % B64 && x == TermFloor(s, iterStart + done)
    ensures (localSum + x) % B64 == SumTerms(s, iterStart, done + 1) % B64
  {
    WrappedSum(SumTerms(s, iterStart, done), x);
  }

  lemma WrappedSum(sum: int, x: int)
    ensures (sum % B64 + x) % B64 == (sum + x) % B64
  {
    CongruentMod(sum, B64);
    CongruentAdd(sum % B64, sum, x, x, B64);
  }

  // The body of the loop in computeTerms: modPow2, then fraction.
  method ComputeTerm(exponent: int, modulo: int, ghost s: Series, ghost k: nat) returns (x: u64)
    requires IsSeries(s) && k < Iterations(s)
    requires exponent == s.scalePow - 4 * k && modulo == Modulus(s, k)
    ensures x == TermFloor(s, k)
  {
    InSeries(s, k);
    FullWords();
    x := CudaPi.ModPow2(exponent, modulo);
    DivModUnique(x, 0, x, modulo);
    x := CudaPi.Fraction(x, modulo);
  }

  // ---------- rounding ----------

  // The exact term, scaled by 2^64.
  function TermExact(s: Series, k: nat): real
    requires s.offset > 0 && 4 * k <= s.scalePow
  {
    (Pow2(s.scalePow - 4 * k) % Modulus(s, k) * B64) as real / Modulus(s, k) as real
  }

  function SumExact(s: Series, from: nat, count: nat): real
    requires s.offset > 0 && from + count <= Iterations(s)
    decreases count
  {
    if count == 0 then 0.0 else SumExact(s, from, count - 1) + TermExact(s, from + count - 1)
  }

  lemma FloorOfReal(a: int, m: int)
    requires m > 0
    ensures (a / m) as real <= a as real / m as real < (a / m) as real + 1.0
  {
    var q, r := a / m, a % m;
    assert a == q * m + r;
    assert a as real == q as real * m as real + r as real;
    var x, y, z := q as real, r as real, m as real;
    RealQuotient(x, y, z);
    assert a as real / m as real == (x * z + y) / z;
  }

  lemma RealQuotient(q: real, r: real, m: real)
    requires 0.0 <= r < m
    ensures q <= (q * m + r) / m < q + 1.0
  {
    assert (q * m + r) / m == q + r / m;
    var t := r / m;
    assert t * m == r;
    RealScale(t, m);
  }

  lemma RealScale(t: real, m: real)
    requires m > 0.0
    ensures t < 0.0 ==> t * m < 0.0
    ensures t >= 1.0 ==> t * m >= m
  {
    if t >= 1.0 {
      assert (t - 1.0) * m >= 0.0;
    }
  }

  // Cutting every term to 64 bits loses less than one unit per term.
  lemma {:induction false} RoundingLoss(s: Series, from: nat, count: nat)
    requires s.offset > 0 && from + count <= Iterations(s)
    ensures SumTerms(s, from, count) as real <= SumExact(s, from, count)
    ensures count > 0 ==> SumExact(s, from, count) < SumTerms(s, from, count) as real + count as real
    decreases count
  {
    if count > 0 {
      var k := from + count - 1;
      RoundingLoss(s, from, count - 1);
      FloorOfReal(Pow2(s.scalePow - 4 * k) % Modulus(s, k) * B64, Modulus(s, k));
    }
  }

  // ---------- the tail ----------

  // The weight 2^(64 + exponent) at which computeTail starts; its exponent is between -4 and -1.
  function TailStart(s: Series): (x: u64)
    ensures x == Pow2(60 + s.scalePow % 4)
  {
    FullWords();
    Pow2Monotone(60 + s.scalePow % 4, 63);
    Pow2(60 + s.scalePow % 4)
  }

  // floor(2^(64 + exponent - 4k) / modulus) for the k-th term past the last whole one.
  function TailTerm(s: Series, k: nat): (t: nat)
    requires s.offset > 0
  {
    QuotientBounds(TailStart(s), Pow2(4 * k));
    QuotientBounds(TailStart(s) / Pow2(4 * k), Modulus(s, Iterations(s) + k));
    TailStart(s) / Pow2(4 * k) / Modulus(s, Iterations(s) + k)
  }

  function TailSum(s: Series, count: nat): nat
    requires s.offset > 0
  {
    if count == 0 then 0 else TailSum(s, count - 1) + TailTerm(s, count - 1)
  }

  // Once a tail term is zero, all later ones are.
  lemma {:induction false} TailEnds(s: Series, k: nat, n: nat)
    requires s.offset > 0 && k <= n
    requires TailStart(s) / Pow2(4 * k) < Modulus(s, Iterations(s) + k)
    ensures TailSum(s, n) == TailSum(s, k)
    ensures TailStart(s) / Pow2(4 * n) < Modulus(s, Iterations(s) + n)
  {
    if k < n {
      TailEnds(s, k, n - 1);
      TailStep(s, n - 1);
      var x, m := TailStart(s) / Pow2(4 * (n - 1)), Modulus(s, Iterations(s) + n - 1);
      QuotientBounds(TailStart(s), Pow2(4 * (n - 1)));
      QuotientBounds(x, 16);
      DivModUnique(x, 0, x, m);
    }
  }

  lemma TailStep(s: Series, k: nat)
    ensures TailStart(s) / Pow2(4 * (k + 1)) == TailStart(s) / Pow2(4 * k) / 16
  {
    assert Pow2(4) == 16;
    Pow2Add(4 * k, 4);
    DivTwice(TailStart(s), Pow2(4 * k), 16);
  }

  // All of the infinite tail is in its first 16 terms.
  lemma TailIsFinite(s: Series, n: nat)
    requires IsSeries(s) && n >= 16
    ensures TailSum(s, n) == TailSum(s, 16)
  {
    TailVanishes(s);
    TailEnds(s, 16, n);
  }

  lemma TailVanishes(s: Series)
    requires s.offset > 0
    ensures TailStart(s) / Pow2(4 * 16) == 0
  {
    FullWords();
    DivModUnique(TailStart(s), 0, TailStart(s), B64);
  }

  // mapper_pi.cpp: computeTail. It stops early, yet adds up the whole tail.
  method ComputeTail(s: Series) returns (sum: u64)
    requires IsSeries(s)
    ensures sum == TailSum(s, 16) % B64
  {
    sum := 0;
    var modulo: int := Modulus(s, Iterations(s));
    var x: int := TailStart(s);
    ghost var k: nat := 0;
    assert x == TailStart(s) / Pow2(0);
    while x >= modulo
      invariant modulo == Modulus(s, Iterations(s) + k)
      invariant 0 <= x < B64 && x == TailStart(s) / Pow2(4 * k)
      invariant sum == TailSum(s, k) % B64
      decreases x
    {
      TailPass(s, k, x, modulo);
      sum := (sum + x / modulo) % B64;
      x := x / 16;
      modulo := modulo + 8;
      k := k + 1;
    }
    WholeTail(s, k);
  }

  lemma TailPass(s: Series, k: nat, x: int, modulo: int)
    requires s.offset > 0 && modulo == Modulus(s, Iterations(s) + k) && x == TailStart(s) / Pow2(4 * k)
    ensures (TailSum(s, k) % B64 + x / modulo) % B64 == TailSum(s, k + 1) % B64
    ensures x / 16 == TailStart(s) / Pow2(4 * (k + 1))
  {
    assert TailSum(s, k + 1) == TailSum(s, k) + x / modulo;
    WrappedSum(TailSum(s, k), x / modulo);
    TailStep(s, k);
  }

  // Where the loop stops the whole tail has been added.
  lemma WholeTail(s: Series, k: nat)
    requires IsSeries(s) && TailStart(s) / Pow2(4 * k) < Modulus(s, Iterations(s) + k)
    ensures TailSum(s, k) == TailSum(s, 16)
  {
    TailVanishes(s);
    if k <= 16 {
      TailEnds(s, k, 16);
    } else {
      TailEnds(s, 16, k);
    }
  }

  // ---------- chunks ----------

  datatype Chunk = Chunk(start: nat, count: nat)

  // The chunks that create_pi_input.py writes for the iterations from pos on.
  function ChunksFrom(pos: nat, iterations: nat, chunkSize: nat): (cs: seq<Chunk>)
    requires chunkSize > 0
    decreases iterations - pos
  {
    if pos >= iterations then []
    else [Chunk(pos, CudaPi.Min(chunkSize, iterations - pos))] + ChunksFrom(pos + chunkSize, iterations, chunkSize)
  }

  // cs is a gap-free, overlap-free sequence of non-empty chunks of [from, to).
  ghost predicate Tiles(cs: seq<Chunk>, from: nat, to: nat) {
    if cs == [] then
      from >= to
    else
      && cs[0].start == from && cs[0].count > 0 && from + cs[0].count <= to
      && Tiles(cs[1..], from + cs[0].count, to)
  }

  lemma {:induction false} ChunksTile(pos: nat, iterations: nat, chunkSize: nat)
    requires chunkSize > 0 && pos <= iterations
    ensures Tiles(ChunksFrom(pos, iterations, chunkSize), pos, iterations)
    decreases iterations - pos
  {
    if pos < iterations {
      var cs := ChunksFrom(pos, iterations, chunkSize);
      if pos + chunkSize < iterations {
        ChunksTile(pos + chunkSize, iterations, chunkSize);
        assert cs[1..] == ChunksFrom(pos + chunkSize, iterations, chunkSize);
      } else {
        assert cs[1..] == [];
      }
    }
  }

  // Every chunk but the last has the chunk size.
  lemma {:induction false} ChunkIs(pos: nat, iterations: nat, chunkSize: nat, i: nat)
    requires chunkSize > 0 && i < |ChunksFrom(pos, iterations, chunkSize)|
    ensures var cs := ChunksFrom(pos, iterations, chunkSize);
      && cs[i].start == pos + i * chunkSize < iterations
      && (i < |cs| - 1 ==> cs[i].count == chunkSize)
      && (i == |cs| - 1 ==> 0 < cs[i].count <= chunkSize && cs[i].start + cs[i].count == iterations)
    decreases i
  {
    if i > 0 {
      ChunkIs(pos + chunkSize, iterations, chunkSize, i - 1);
      MulDistributes(i, 1, chunkSize);
    }
  }

  // The value of pos after k passes of its loop, which goes on while that is below the iterations.
  function PosAfter(chunkSize: int, k: nat): int {
    k * chunkSize
  }

  // The loop ends exactly for positive chunk sizes.
  lemma ChunkingEndsIff(iterations: nat, chunkSize: int)
    requires iterations > 0
    ensures (exists k: nat :: PosAfter(chunkSize, k) >= iterations) <==> chunkSize > 0
  {
    if chunkSize > 0 {
      MulMonotone(1, chunkSize, iterations);
      assert PosAfter(chunkSize, iterations) >= iterations;
    } else {
      forall k: nat ensures PosAfter(chunkSize, k) < iterations {
        MulMonotone(chunkSize, 0, k);
      }
    }
  }

  // create_pi_input.py: printTermChunks, with the end marker [0, 0).
  method PrintTermChunks(s: Series, chunkSize: nat) returns (lines: seq<Chunk>)
    requires chunkSize > 0
    ensures |lines| > 0 && lines[|lines| - 1] == Chunk(0, 0)
    ensures lines[..|lines| - 1] == ChunksFrom(0, Iterations(s), chunkSize)
    ensures Tiles(lines[..|lines| - 1], 0, Iterations(s))
  {
    var iterations := Iterations(s);
    var pos := 0;
    lines := [];
    while pos < iterations
      invariant 0 <= pos
      invariant lines + ChunksFrom(pos, iterations, chunkSize) == ChunksFrom(0, iterations, chunkSize)
      decreases iterations - pos
    {
      var size := CudaPi.Min(chunkSize, iterations - pos);
      ghost var rest := ChunksFrom(pos + chunkSize, iterations, chunkSize);
      assert lines + ([Chunk(pos, size)] + rest) == (lines + [Chunk(pos, size)]) + rest;
      lines := lines + [Chunk(pos, size)];
      pos := pos + chunkSize;
    }
    assert lines == ChunksFrom(0, iterations, chunkSize);
    ChunksTile(0, iterations, chunkSize);
    ghost var cs := lines;
    lines := lines + [Chunk(0, 0)];
    assert lines[..|lines| - 1] == cs;
  }

  // ---------- mapper and reducer ----------

  // The value a chunk contributes. Records of the subtracted series carry a minus sign, which
  // parseValue turns into a negation modulo 2^64.
  function Signed(s: Series, v: int): (w: u64) {
    Contribution(s, v) % B64
  }

  function Contribution(s: Series, v: int): int {
    if s.index == 0 then v else -v
  }

  function Correction(s: Series, d: nat): int {
    if s.index == 0 then d else 0
  }

  // mapper_pi.cpp: mapper, on one input line.
  method Mapper(s: Series, d: nat, line: Chunk) returns (value: u64)
    requires IsSeries(s) && line.start + line.count <= Iterations(s) && line.count < INT_LIMIT
    ensures value == LineValue(s, d, line)
  {
    if line.start == 0 && line.count == 0 {
      var sum := ComputeTail(s);
      value := Signed(s, (sum - Correction(s, d)) % B64);
      TailLine(s, d, line, sum);
    } else {
      var sum := ComputeTerms(s, line.start, line.count);
      value := Signed(s, sum);
      TermsLine(s, d, line, sum);
    }
  }

  function LineValue(s: Series, d: nat, line: Chunk): u64
    requires s.offset > 0 && line.start + line.count <= Iterations(s) && line.count < INT_LIMIT
  {
    if line.start == 0 && line.count == 0 then Signed(s, TailSum(s, 16) - Correction(s, d))
    else Signed(s, SumTerms(s, line.start, line.count))
  }

  // The end marker stands for the tail, which is corrected by d in the first series only; the sums of the other three
  // are subtracted.
  lemma LineValueIs(s: Series, d: nat, line: Chunk)
    requires s.offset > 0 && line.start + line.count <= Iterations(s) && line.count < INT_LIMIT
    ensures line == Chunk(0, 0) ==>
      var t: int := TailSum(s, 16);
      Congruent(LineValue(s, d, line), if s.index == 0 then t - d else -t, B64)
    ensures line != Chunk(0, 0) ==>
      var t: int := SumTerms(s, line.start, line.count);
      Congruent(LineValue(s, d, line), if s.index == 0 then t else -t, B64)
  {
    if line == Chunk(0, 0) {
      SignedIs(s, TailSum(s, 16) - Correction(s, d));
    } else {
      SignedIs(s, SumTerms(s, line.start, line.count));
    }
  }

  lemma SignedIs(s: Series, v: int)
    ensures Congruent(Signed(s, v), if s.index == 0 then v else -v, B64)
  {
    CongruentMod(Contribution(s, v), B64);
  }

  lemma SignedWraps(s: Series, v: int)
    ensures Signed(s, v % B64) == Signed(s, v)
  {
    CongruentMod(v, B64);
    CongruentScale(v % B64, v, -1, B64);
  }

  lemma TailLine(s: Series, d: nat, line: Chunk, sum: int)
    requires s.offset > 0 && line == Chunk(0, 0) && sum == TailSum(s, 16) % B64
    ensures LineValue(s, d, line) == Signed(s, (sum - Correction(s, d)) % B64)
  {
    CorrectedTail(s, TailSum(s, 16), Correction(s, d));
  }

  lemma TermsLine(s: Series, d: nat, line: Chunk, sum: int)
    requires s.offset > 0 && line.start + line.count <= Iterations(s) && line.count < INT_LIMIT
    requires line != Chunk(0, 0) && sum == SumTerms(s, line.start, line.count) % B64
    ensures LineValue(s, d, line) == Signed(s, sum)
  {
    SignedWraps(s, SumTerms(s, line.start, line.count));
  }

  lemma CorrectedTail(s: Series, v: int, c: int)
    ensures Signed(s, (v % B64 - c) % B64) == Signed(s, v - c)
  {
    WrappedSum(v, -c);
    SignedWraps(s, v - c);
  }

  // reducer_pi.cpp: the values of the one key, combined two at a time in the order they arrive.
  method Reduce(values: seq<u64>) returns (sum: u64)
    requires |values| > 0
    ensures sum == SumOf(values) % B64
  {
    sum := values[0];
    assert SumOf(values[..1]) == values[0] by { SumOfAppend([], values[0]); assert values[..1] == [] + [values[0]]; }
    DivModUnique(sum, 0, sum, B64);
    var i := 1;
    while i < |values|
      invariant 1 <= i <= |values| && sum == SumOf(values[..i]) % B64
    {
      WrappedSum(SumOf(values[..i]), values[i]);
      SumOfAppend(values[..i], values[i]);
      assert values[..i + 1] == values[..i] + [values[i]];
      sum := (sum + values[i]) % B64;
      i := i + 1;
    }
    assert values[..i] == values;
  }

  function SumOf(values: seq<int>): int {
    if values == [] then 0 else values[0] + SumOf(values[1..])
  }

  lemma {:induction false} SumOfAppend(values: seq<int>, x: int)
    ensures SumOf(values + [x]) == SumOf(values) + x
  {
    if values != [] {
      assert (values + [x])[1..] == values[1..] + [x];
      SumOfAppend(values[1..], x);
    }
  }

  lemma {:induction false} SumOfConcat(a: seq<int>, b: seq<int>)
    ensures SumOf(a + b) == SumOf(a) + SumOf(b)
  {
    if a == [] {
      assert a + b == b;
    } else {
      assert (a + b)[1..] == a[1..] + b;
      SumOfConcat(a[1..], b);
    }
  }

  lemma {:induction false} SumWithoutAt(b: seq<int>, i: nat)
    requires i < |b|
    ensures SumOf(b) == b[i] + SumOf(WithoutAt(b, i))
  {
    if i == 0 {
      assert WithoutAt(b, 0) == b[1..];
    } else {
      SumWithoutAt(b[1..], i - 1);
      assert WithoutAt(b, i)[1..] == WithoutAt(b[1..], i - 1);
    }
  }

  lemma {:induction false} SumOfPermuted(a: seq<int>, b: seq<int>)
    requires multiset(a) == multiset(b)
    ensures SumOf(a) == SumOf(b)
    decreases |a|
  {
    if a == [] {
      assert |b| == |multiset(b)| == 0;
    } else {
      RemoveAt(a, 0);
      assert a[0] in multiset(b);
      var i :| 0 <= i < |b| && b[i] == a[0];
      RemoveAt(b, i);
      SumWithoutAt(a, 0);
      SumWithoutAt(b, i);
      SumOfPermuted(WithoutAt(a, 0), WithoutAt(b, i));
    }
  }

  // ---------- the whole job ----------

  ghost predicate CountsFit(cs: seq<Chunk>) {
    forall i :: 0 <= i < |cs| ==> cs[i].count < INT_LIMIT
  }

  // The mapper's values for the chunks cs of a series.
  function ChunkValues(s: Series, d: nat, cs: seq<Chunk>, from: nat): (vs: seq<u64>)
    requires s.offset > 0 && Tiles(cs, from, Iterations(s)) && CountsFit(cs)
  {
    if cs == [] then [] else
      [LineValue(s, d, cs[0])] + ChunkValues(s, d, cs[1..], from + cs[0].count)
  }

  lemma {:induction false} SumTermsSplit(s: Series, from: nat, a: nat, b: nat)
    requires s.offset > 0 && from + a + b <= Iterations(s)
    ensures SumTerms(s, from, a + b) == SumTerms(s, from, a) + SumTerms(s, from + a, b)
    decreases b
  {
    if b > 0 {
      SumTermsSplit(s, from, a, b - 1);
      assert from + (a + b) - 1 == (from + a) + b - 1;
    }
  }

  lemma ConcatAddsUp(values: seq<int>, total: int, a: seq<int>, u: int, b: seq<int>, v: int)
    requires values == a + b && total == u + v
    requires SumOf(a) % B64 == u % B64 && SumOf(b) % B64 == v % B64
    ensures SumOf(values) % B64 == total % B64
  {
    SumOfConcat(a, b);
    CongruentAdd(SumOf(a), u, SumOf(b), v, B64);
  }

  lemma SingleAddsUp(v: int)
    ensures SumOf([v % B64]) % B64 == v % B64
  {
    SumOfAppend([], v % B64);
    assert [] + [v % B64] == [v % B64];
    WrappedSum(v, 0);
  }

  lemma FirstChunk(s: Series, d: nat, cs: seq<Chunk>, from: nat)
    requires s.offset > 0 && Tiles(cs, from, Iterations(s)) && CountsFit(cs) && cs != []
    ensures CountsFit(cs[1..]) && from + cs[0].count <= Iterations(s)
    ensures ChunkValues(s, d, cs, from) ==
      [Contribution(s, SumTerms(s, from, cs[0].count)) % B64] + ChunkValues(s, d, cs[1..], from + cs[0].count)
  {
  }

  lemma FirstTerms(s: Series, from: nat, n: nat)
    requires s.offset > 0 && from + n <= Iterations(s)
    ensures Contribution(s, SumTerms(s, from, Iterations(s) - from)) ==
      Contribution(s, SumTerms(s, from, n)) + Contribution(s, SumTerms(s, from + n, Iterations(s) - (from + n)))
  {
    SumTermsSplit(s, from, n, Iterations(s) - (from + n));
  }

  // Whatever the chunks, their values add up to the sum of all terms.
  lemma {:induction false} ChunksAddUp(s: Series, d: nat, cs: seq<Chunk>, from: nat)
    requires s.offset > 0 && from <= Iterations(s) && Tiles(cs, from, Iterations(s)) && CountsFit(cs)
    ensures SumOf(ChunkValues(s, d, cs, from)) % B64
      == Contribution(s, SumTerms(s, from, Iterations(s) - from)) % B64
  {
    if cs != [] {
      FirstChunk(s, d, cs, from);
      ChunksAddUp(s, d, cs[1..], from + cs[0].count);
      FirstTerms(s, from, cs[0].count);
      ChunkJoins(ChunkValues(s, d, cs, from), Contribution(s, SumTerms(s, from, Iterations(s) - from)),
                 Contribution(s, SumTerms(s, from, cs[0].count)), ChunkValues(s, d, cs[1..], from + cs[0].count),
                 Contribution(s, SumTerms(s, from + cs[0].count, Iterations(s) - (from + cs[0].count))));
    }
  }

  lemma ChunkJoins(values: seq<int>, total: int, first: int, rest: seq<int>, others: int)
    requires values == [first % B64] + rest && total == first + others
    requires SumOf(rest) % B64 == others % B64
    ensures SumOf(values) % B64 == total % B64
  {
    SingleAddsUp(first);
    ConcatAddsUp(values, total, [first % B64], first, rest, others);
  }

  // No chunk is larger than an int: the chunk size is not, or all iterations together are not.
  predicate Fits(iterations: nat, chunkSize: nat) {
    chunkSize > 0 && CudaPi.Min(chunkSize, iterations) < INT_LIMIT
  }

  // The chunks fit an int exactly then.
  lemma {:induction false} ChunksFit(pos: nat, iterations: nat, chunkSize: nat)
    requires chunkSize > 0 && pos <= iterations
    ensures CountsFit(ChunksFrom(pos, iterations, chunkSize)) <==> Fits(iterations - pos, chunkSize)
    decreases iterations - pos
  {
    if pos < iterations {
      var cs := ChunksFrom(pos, iterations, chunkSize);
      if pos + chunkSize < iterations {
        ChunksFit(pos + chunkSize, iterations, chunkSize);
        assert cs[1..] == ChunksFrom(pos + chunkSize, iterations, chunkSize);
        assert forall i :: 0 < i < |cs| ==> cs[i] == cs[1..][i - 1];
        assert CountsFit(cs) <==> cs[0].count < INT_LIMIT && CountsFit(cs[1..]);
      } else {
        assert ChunksFrom(pos + chunkSize, iterations, chunkSize) == [];
        assert cs == [Chunk(pos, iterations - pos)];
        assert CountsFit(cs) <==> cs[0].count < INT_LIMIT;
      }
    }
  }

  // All mapper values of one series: its chunks and its tail.
  function SeriesValues(s: Series, d: nat, chunkSize: nat): (vs: seq<u64>)
    requires s.offset > 0 && Fits(Iterations(s), chunkSize)
  {
    ChunksFit(0, Iterations(s), chunkSize);
    ChunksTile(0, Iterations(s), chunkSize);
    ChunkValues(s, d, ChunksFrom(0, Iterations(s), chunkSize), 0) + [LineValue(s, d, Chunk(0, 0))]
  }

  // What a series contributes to the result: its whole and its fractional terms, with its sign.
  function SeriesTotal(s: Series, d: nat): int
    requires s.offset > 0
  {
    Contribution(s, SumTerms(s, 0, Iterations(s)) + TailSum(s, 16) - Correction(s, d))
  }

  lemma SeriesAddsUp(s: Series, d: nat, chunkSize: nat)
    requires s.offset > 0 && Fits(Iterations(s), chunkSize)
    ensures SumOf(SeriesValues(s, d, chunkSize)) % B64 == SeriesTotal(s, d) % B64
  {
    ChunksTile(0, Iterations(s), chunkSize);
    ChunksFit(0, Iterations(s), chunkSize);
    var cs := ChunksFrom(0, Iterations(s), chunkSize);
    var whole, tail := SumTerms(s, 0, Iterations(s)), TailSum(s, 16) - Correction(s, d);
    ChunksAddUp(s, d, cs, 0);
    SingleAddsUp(Contribution(s, tail));
    ConcatAddsUp(SeriesValues(s, d, chunkSize), SeriesTotal(s, d),
                 ChunkValues(s, d, cs, 0), Contribution(s, whole),
                 [LineValue(s, d, Chunk(0, 0))], Contribution(s, tail));
  }

  // The records of the series from the given one to the last.
  function JobValues(index: nat, d: nat, chunkSize: nat): seq<u64>
    requires index <= 4 && Fits(d + 1, chunkSize)
    decreases 4 - index
  {
    if index == 4 then []
    else SeriesValues(SeriesOf(index, d), d, chunkSize) + JobValues(index + 1, d, chunkSize)
  }

  // S0 - S1 - S2 - S3, from the given series on: the hexadecimal digits from position d, up to rounding.
  function DigitWord(index: nat, d: nat): int
    requires index <= 4
    decreases 4 - index
  {
    if index == 4 then 0 else SeriesTotal(SeriesOf(index, d), d) + DigitWord(index + 1, d)
  }

  lemma {:induction false} JobIsDigitWord(index: nat, d: nat, chunkSize: nat)
    requires index <= 4 && d < DIGITS && Fits(d + 1, chunkSize)
    ensures SumOf(JobValues(index, d, chunkSize)) % B64 == DigitWord(index, d) % B64
    decreases 4 - index
  {
    if index < 4 {
      JobIsDigitWord(index + 1, d, chunkSize);
      SeriesJoins(index, d, chunkSize);
    }
  }

  lemma SeriesJoins(index: nat, d: nat, chunkSize: nat)
    requires index < 4 && Fits(d + 1, chunkSize)
    requires SumOf(JobValues(index + 1, d, chunkSize)) % B64 == DigitWord(index + 1, d) % B64
    ensures SumOf(JobValues(index, d, chunkSize)) % B64 == DigitWord(index, d) % B64
  {
    var s := SeriesOf(index, d);
    SeriesAddsUp(s, d, chunkSize);
    ConcatAddsUp(JobValues(index, d, chunkSize), DigitWord(index, d), SeriesValues(s, d, chunkSize),
                 SeriesTotal(s, d), JobValues(index + 1, d, chunkSize), DigitWord(index + 1, d));
  }

  // The reducer's result does not depend on the chunk size nor on the order of the records.
  lemma ResultIsDigitWord(d: nat, chunkSize: nat, records: seq<u64>)
    requires d < DIGITS && Fits(d + 1, chunkSize) && multiset(records) == multiset(JobValues(0, d, chunkSize))
    ensures SumOf(records) % B64 == DigitWord(0, d) % B64
  {
    JobIsDigitWord(0, d, chunkSize);
    SumOfPermuted(records, JobValues(0, d, chunkSize));
  }

  // ---------- the job as a program ----------

  // The mapper on one line after the other.
  method MapChunks(s: Series, d: nat, cs: seq<Chunk>) returns (values: seq<u64>)
    requires IsSeries(s) && Tiles(cs, 0, Iterations(s)) && CountsFit(cs)
    ensures values == ChunkValues(s, d, cs, 0)
  {
    values := [];
    var rest := cs;
    ghost var from: nat := 0;
    while rest != []
      invariant Tiles(rest, from, Iterations(s)) && CountsFit(rest)
      invariant values + ChunkValues(s, d, rest, from) == ChunkValues(s, d, cs, 0)
    {
      var value := Mapper(s, d, rest[0]);
      FirstLine(s, d, rest, from, values);
      values := values + [value];
      from := from + rest[0].count;
      rest := rest[1..];
    }
  }

  lemma FirstLine(s: Series, d: nat, cs: seq<Chunk>, from: nat, values: seq<u64>)
    requires s.offset > 0 && Tiles(cs, from, Iterations(s)) && CountsFit(cs) && cs != []
    ensures CountsFit(cs[1..])
    ensures values + ChunkValues(s, d, cs, from) ==
      values + [LineValue(s, d, cs[0])] + ChunkValues(s, d, cs[1..], from + cs[0].count)
  {
  }

  // All lines of one series.
  method MapSeries(index: nat, d: nat, chunkSize: nat) returns (values: seq<u64>)
    requires index < 4 && d < DIGITS && Fits(d + 1, chunkSize)
    ensures values == SeriesValues(SeriesOf(index, d), d, chunkSize)
  {
    var s := SeriesOf(index, d);
    assert IsSeries(s);
    ChunksFit(0, Iterations(s), chunkSize);
    var lines := PrintTermChunks(s, chunkSize);
    values := MapChunks(s, d, lines[..|lines| - 1]);
    var tail := Mapper(s, d, lines[|lines| - 1]);
    values := values + [tail];
  }

  // All lines that create_pi_input.py prints.
  method MapJob(d: nat, chunkSize: nat) returns (records: seq<u64>)
    requires d < DIGITS && Fits(d + 1, chunkSize)
    ensures records == JobValues(0, d, chunkSize) && records != []
  {
    records := [];
    for index := 0 to 4
      invariant |records| >= index && records + JobValues(index, d, chunkSize) == JobValues(0, d, chunkSize)
    {
      var values := MapSeries(index, d, chunkSize);
      NextSeries(index, d, chunkSize, records);
      records := records + values;
    }
  }

  lemma NextSeries(index: nat, d: nat, chunkSize: nat, records: seq<u64>)
    requires index < 4 && Fits(d + 1, chunkSize)
    ensures SeriesValues(SeriesOf(index, d), d, chunkSize) != []
    ensures records + JobValues(index, d, chunkSize) ==
      records + SeriesValues(SeriesOf(index, d), d, chunkSize) + JobValues(index + 1, d, chunkSize)
  {
  }

  // The job from the target digit to the word that the reducer returns.
  method Job(d: nat, chunkSize: nat) returns (word: u64)
    requires d < DIGITS && Fits(d + 1, chunkSize)
    ensures word == DigitWord(0, d) % B64
  {
    var records := MapJob(d, chunkSize);
    JobIsDigitWord(0, d, chunkSize);
    word := Reduce(records);
  }
}
