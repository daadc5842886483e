// par_reduce.c: a list is cut into pieces of equal length, the last one with what remains; each thread reduces
// one of them, and the results are reduced again.
module ParReduce {

  // The value returned, or the division by zero in front of it.
  datatype Outcome<T> = DivisionByZero | Returned(value: T)

  // reduce.c: reduce, from the left.
  function Fold<T>(f: (T, T) -> T, base: T, list: seq<T>): T {
    if list == [] then base else f(Fold(f, base, list[..|list| - 1]), list[|list| - 1])
  }

  method Reduce<T>(list: seq<T>, f: (T, T) -> T, base: T) returns (result: T)
    ensures result == Fold(f, base, list)
  {
    result := base;
    for i := 0 to |list|
      invariant result == Fold(f, base, list[..i])
    {
      assert list[..i + 1][..i] == list[..i];
      result := f(result, list[i]);
    }
    assert list[..|list|] == list;
  }

  // Where piece i of n begins; the last one ends with the list.
  function Cut(length: nat, n: nat, i: nat): nat
    requires n > 0
  {
    if i == n then length else length / n * i
  }

  lemma CutsGrow(length: nat, n: nat, i: nat)
    requires i < n
    ensures 0 <= Cut(length, n, i) <= Cut(length, n, i + 1) <= length
    ensures length / n > 0 ==> Cut(length, n, i) < Cut(length, n, i + 1)
  {
    PiecesFit(length / n, n, i, length % n);
  }

  lemma PiecesFit(q: int, n: int, i: int, r: int)
    requires q >= 0 && r >= 0 && 0 <= i < n
    ensures 0 <= q * i && q * (i + 1) == q * i + q && q * (i + 1) <= q * n + r
  {
    var rest := n - (i + 1);
    assert q * rest >= 0;
    assert q * n == q * (i + 1) + q * rest;
  }

  function Piece<T>(list: seq<T>, n: nat, i: nat): seq<T>
    requires i < n
  {
    CutsGrow(|list|, n, i);
    list[Cut(|list|, n, i)..Cut(|list|, n, i + 1)]
  }

  // What the threads compute for the first k pieces.
  function Parts<T>(f: (T, T) -> T, base: T, list: seq<T>, n: nat, k: nat): (r: seq<T>)
    requires k <= n
    ensures |r| == k
  {
    if k == 0 then [] else Parts(f, base, list, n, k - 1) + [Fold(f, base, Piece(list, n, k - 1))]
  }

  method StartRoutine<T>(list: seq<T>, n: nat, i: nat, loopLen: nat, remain: nat, f: (T, T) -> T, base: T)
    returns (result: T)
    requires i < n && loopLen == |list| / n && remain == |list| - n * loopLen
    ensures result == Fold(f, base, Piece(list, n, i))
  {
    CutsGrow(|list|, n, i);
    var from := loopLen * i;
    var length := if i == n - 1 then loopLen + remain else loopLen;
    PieceLength(|list|, n, i);
    result := Reduce(list[from..from + length], f, base);
  }

  lemma PieceLength(length: nat, n: nat, i: nat)
    requires i < n
    ensures var q := length / n;
      Cut(length, n, i + 1) - Cut(length, n, i) == if i == n - 1 then q + (length - n * q) else q
  {
    var q := length / n;
    assert q * (i + 1) == q * i + q;
    if i == n - 1 {
      assert q * n == q * i + q;
    }
  }

  // The result: without threads if the pieces would have one element.
  function Result<T>(f: (T, T) -> T, base: T, list: seq<T>, n: nat): T
    requires n > 0
  {
    if |list| / n <= 1 then Fold(f, base, list) else Fold(f, base, Parts(f, base, list, n, n))
  }

  // The part of par_reduce between the division and the last call of reduce.
  method RunThreads<T(0,!new)>(list: seq<T>, n: nat, loopLen: nat, f: (T, T) -> T, base: T) returns (out: array<T>)
    requires 0 < n && loopLen == |list| / n
    ensures out[..] == Parts(f, base, list, n, n)
  {
    Remainder(|list|, n);
    var remain := |list| - n * loopLen;
    out := new T[n];
    for i := 0 to n
      invariant out[..i] == Parts(f, base, list, n, i)
    {
      out[i] := StartRoutine(list, n, i, loopLen, remain, f, base);
      assert out[..i + 1] == out[..i] + [out[i]];
    }
    assert out[..] == out[..n];
  }

  // The results for n pieces: all of them have q elements, and the last one also what remains.
  ghost predicate IsParts<T>(parts: seq<T>, f: (T, T) -> T, base: T, list: seq<T>, n: nat, q: nat) {
    |parts| == n && forall i :: 0 <= i < n ==> IsPart(parts[i], f, base, list, n, q, i)
  }

  ghost predicate IsPart<T>(part: T, f: (T, T) -> T, base: T, list: seq<T>, n: nat, q: nat, i: nat) {
    var lo, hi := q * i, if i == n - 1 then |list| else q * i + q;
    0 <= lo <= hi <= |list| && part == Fold(f, base, list[lo..hi])
  }

  lemma {:induction false} PartIs<T>(f: (T, T) -> T, base: T, list: seq<T>, n: nat, k: nat, i: nat)
    requires i < k <= n
    ensures Parts(f, base, list, n, k)[i] == Fold(f, base, Piece(list, n, i))
  {
    if i < k - 1 {
      PartIs(f, base, list, n, k - 1, i);
    }
  }

  lemma PartsAre<T>(f: (T, T) -> T, base: T, list: seq<T>, n: nat)
    requires n > 0
    ensures IsParts(Parts(f, base, list, n, n), f, base, list, n, |list| / n)
  {
    var parts, q := Parts(f, base, list, n, n), |list| / n;
    forall i | 0 <= i < n ensures IsPart(parts[i], f, base, list, n, q, i) {
      PartAt(f, base, list, n, i, parts, q);
    }
  }

  lemma PartAt<T>(f: (T, T) -> T, base: T, list: seq<T>, n: nat, i: nat, parts: seq<T>, q: nat)
    requires i < n && parts == Parts(f, base, list, n, n) && q == |list| / n
    ensures IsPart(parts[i], f, base, list, n, q, i)
  {
    PartIs(f, base, list, n, n, i);
    PieceIs(list, n, i);
  }

  lemma PieceIs<T>(list: seq<T>, n: nat, i: nat)
    requires i < n
    ensures var q := |list| / n;
      var lo, hi := q * i, if i == n - 1 then |list| else q * i + q;
      0 <= lo <= hi <= |list| && Piece(list, n, i) == list[lo..hi]
  {
    CutsGrow(|list|, n, i);
    NextMultiple(|list| / n, i);
  }

  lemma NextMultiple(q: int, i: int)
    ensures q * (i + 1) == q * i + q
  {
  }

  // par_reduce
  method ParReduce<T(0,!new)>(list: seq<T>, f: (T, T) -> T, base: T, threads: nat) returns (r: Outcome<T>)
    ensures r.DivisionByZero? <==> list == [] || threads == 0
    ensures r.Returned? ==> r.value == Result(f, base, list, if threads > |list| then |list| else threads)
    ensures r.Returned? ==>
      var n := if threads > |list| then |list| else threads;
      var q := |list| / n;
      if q <= 1 then r.value == Fold(f, base, list)
      else exists parts: seq<T> :: IsParts(parts, f, base, list, n, q) && r.value == Fold(f, base, parts)
  {
    var n := if threads > |list| then |list| else threads;
    if n == 0 {
      return DivisionByZero;
    }
    var loopLen := |list| / n;
    if loopLen <= 1 {
      var whole := Reduce(list, f, base);
      return Returned(whole);
    }
    var out := RunThreads(list, n, loopLen, f, base);
    var res := Reduce(out[..], f, base);
    PartsAre(f, base, list, n);
    return Returned(res);
  }

  lemma Remainder(length: nat, n: nat)
    requires n > 0
    ensures length - n * (length / n) >= 0
  {
    assert n * (length / n) == length / n * n;
  }

  // ---------- when the result is that of one thread ----------

  // The function is associative, and a base in front of its second argument makes no difference: so it is if
  // the base is neutral, and for a constant function too.
  ghost predicate Reducer<T(!new)>(f: (T, T) -> T, base: T) {
    Associative(f) && forall a, x :: Absorbs(f, base, a, x)
  }

  ghost predicate Associative<T(!new)>(f: (T, T) -> T) {
    forall a, b, c :: Associates(f, a, b, c)
  }

  predicate Associates<T(==)>(f: (T, T) -> T, a: T, b: T, c: T) {
    f(f(a, b), c) == f(a, f(b, c))
  }

  predicate Absorbs<T(==)>(f: (T, T) -> T, base: T, a: T, x: T) {
    f(a, f(base, x)) == f(a, x)
  }

  lemma {:induction false} FoldFrom<T(!new)>(f: (T, T) -> T, base: T, a: T, list: seq<T>)
    requires Reducer(f, base) && list != []
    ensures f(a, Fold(f, base, list)) == Fold(f, a, list)
  {
    var front, x := list[..|list| - 1], list[|list| - 1];
    if front != [] {
      FoldFrom(f, base, a, front);
      assert Associates(f, a, Fold(f, base, front), x);
    } else {
      assert Absorbs(f, base, a, x);
    }
  }

  lemma {:induction false} FoldConcat<T>(f: (T, T) -> T, a: T, xs: seq<T>, ys: seq<T>)
    ensures Fold(f, a, xs + ys) == Fold(f, Fold(f, a, xs), ys)
  {
    if ys == [] {
      assert xs + ys == xs;
    } else {
      assert (xs + ys)[..|xs + ys| - 1] == xs + ys[..|ys| - 1];
      FoldConcat(f, a, xs, ys[..|ys| - 1]);
    }
  }

  // One more piece, after the list up to there.
  lemma OneMorePart<T(!new)>(f: (T, T) -> T, base: T, parts: seq<T>, done: seq<T>, piece: seq<T>)
    requires Reducer(f, base) && piece != [] && Fold(f, base, parts) == Fold(f, base, done)
    ensures Fold(f, base, parts + [Fold(f, base, piece)]) == Fold(f, base, done + piece)
  {
    FoldConcat(f, base, done, piece);
    FoldFrom(f, base, Fold(f, base, parts), piece);
    assert (parts + [Fold(f, base, piece)])[..|parts|] == parts;
  }

  // Reducing the results of the first k pieces is reducing the list up to there.
  lemma {:induction false} PartsUpTo<T(!new)>(f: (T, T) -> T, base: T, list: seq<T>, n: nat, k: nat)
    requires Reducer(f, base) && k <= n && n > 0 && |list| / n > 0
    ensures 0 <= Cut(|list|, n, k) <= |list|
    ensures Fold(f, base, Parts(f, base, list, n, k)) == Fold(f, base, list[..Cut(|list|, n, k)])
  {
    if k > 0 {
      PartsUpTo(f, base, list, n, k - 1);
      CutsGrow(|list|, n, k - 1);
      var from, to' := Cut(|list|, n, k - 1), Cut(|list|, n, k);
      assert list[..to'] == list[..from] + list[from..to'];
      OneMorePart(f, base, Parts(f, base, list, n, k - 1), list[..from], Piece(list, n, k - 1));
    }
  }

  lemma PartsAddUp<T(!new)>(f: (T, T) -> T, base: T, list: seq<T>, n: nat)
    requires Reducer(f, base) && 0 < n
    ensures |list| / n > 0 ==> Fold(f, base, Parts(f, base, list, n, n)) == Fold(f, base, list)
  {
    if |list| / n > 0 {
      PartsUpTo(f, base, list, n, n);
      assert list[..|list|] == list;
    }
  }

  ghost predicate Neutral<T(!new)>(f: (T, T) -> T, base: T) {
    forall a :: f(base, a) == a && f(a, base) == a
  }

  // Reducing the list [a, base, b, c] with two threads.
  lemma FourElements<T>(f: (T, T) -> T, base: T, a: T, b: T, c: T)
    ensures var list := [a, base, b, c];
      && Result(f, base, list, 2) == f(f(base, f(f(base, a), base)), f(f(base, b), c))
      && Fold(f, base, list) == f(f(f(f(base, a), base), b), c)
  {
    var list := [a, base, b, c];
    assert Piece(list, 2, 0) == [a, base] && Piece(list, 2, 1) == [b, c];
    FoldOfTwo(f, base, a, base);
    FoldOfTwo(f, base, b, c);
    assert Parts(f, base, list, 2, 1) == [Fold(f, base, [a, base])];
    assert Parts(f, base, list, 2, 2) == [Fold(f, base, [a, base]), Fold(f, base, [b, c])];
    FoldOfTwo(f, base, Fold(f, base, [a, base]), Fold(f, base, [b, c]));
    assert list == [a, base] + [b, c];
    FoldConcat(f, base, [a, base], [b, c]);
    FoldOfTwo(f, Fold(f, base, [a, base]), b, c);
  }

  lemma FoldOfTwo<T>(f: (T, T) -> T, base: T, x: T, y: T)
    ensures Fold(f, base, [x, y]) == f(f(base, x), y)
  {
    assert [x, y][..1] == [x] && [x][..0] == [];
    assert Fold(f, base, [x]) == f(base, x);
  }

  // With a neutral base, the result is that of one thread for every list and number of threads if and only if
  // the function is associative.
  lemma SameIff<T(!new)>(f: (T, T) -> T, base: T)
    requires Neutral(f, base)
    ensures (forall list, n :: 0 < n <= |list| ==> Result(f, base, list, n) == Fold(f, base, list)) <==> Associative(f)
  {
    if Associative(f) {
      forall list, n | 0 < n <= |list| ensures Result(f, base, list, n) == Fold(f, base, list) {
        PartsAddUp(f, base, list, n);
      }
    }
    if forall list, n :: 0 < n <= |list| ==> Result(f, base, list, n) == Fold(f, base, list) {
      forall a, b, c ensures f(f(a, b), c) == f(a, f(b, c)) {
        FourElements(f, base, a, b, c);
        assert Result(f, base, [a, base, b, c], 2) == Fold(f, base, [a, base, b, c]);
      }
    }
  }

  // The three reducers of reducers.c are of this kind, without the wrap-around of int.
  lemma GivenReducers()
    ensures Reducer((a: int, b: int) => a + b, 0) && Reducer((a: int, b: int) => a * b, 1)
    ensures Reducer((a: int, b: int) => 56, 56)
  {
    var mult := (a: int, b: int) => a * b;
    forall a: int, b: int, c: int ensures mult(mult(a, b), c) == mult(a, mult(b, c)) {
      assert (a * b) * c == a * (b * c);
    }
  }

  // A function that is not: with two threads the list [1, 1, 1, 1] is reduced to something else.
  lemma SubtractionDiffers()
    ensures var f, list := (a: int, b: int) => a - b, [1, 1, 1, 1];
      Fold(f, 0, list) == -4 && Fold(f, 0, Parts(f, 0, list, 2, 2)) == 4
  {
    var f, list := (a: int, b: int) => a - b, [1, 1, 1, 1];
    assert Fold(f, 0, [1]) == -1 && [1, 1][..1] == [1];
    assert Fold(f, 0, [1, 1]) == -2;
    assert list[..3][..2] == [1, 1];
    assert Piece(list, 2, 0) == [1, 1] && Piece(list, 2, 1) == [1, 1];
    assert Parts(f, 0, list, 2, 1) == [-2];
    assert Parts(f, 0, list, 2, 2) == [-2, -2];
    assert [-2, -2][..1] == [-2] && Fold(f, 0, [-2]) == 2;
  }
}
