// MP2 code.py: LU factorisation in place, triangular solves and the finite-element solve, over exact reals.
module LinearSolve {

  // Sum of f(0) .. f(n - 1).
  ghost function Sum(n: nat, f: int -> real): real {
    if n == 0 then 0.0 else Sum(n - 1, f) + f(n - 1)
  }

  lemma {:induction false} SumEqual(n: nat, f: int -> real, g: int -> real)
    requires forall i :: 0 <= i < n ==> f(i) == g(i)
    ensures Sum(n, f) == Sum(n, g)
  {
    if n > 0 {
      SumEqual(n - 1, f, g);
    }
  }

  lemma {:induction false} SumAdd(n: nat, f: int -> real, g: int -> real)
    ensures Sum(n, i => f(i) + g(i)) == Sum(n, f) + Sum(n, g)
  {
    if n > 0 {
      SumAdd(n - 1, f, g);
    }
  }

  lemma {:induction false} SumScale(n: nat, c: real, f: int -> real)
    ensures Sum(n, i => c * f(i)) == c * Sum(n, f)
  {
    if n > 0 {
      SumScale(n - 1, c, f);
    }
  }

  lemma {:induction false} SumZero(n: nat, f: int -> real)
    requires forall i :: 0 <= i < n ==> f(i) == 0.0
    ensures Sum(n, f) == 0.0
  {
    if n > 0 {
      SumZero(n - 1, f);
    }
  }

  // Terms that vanish from position k on do not count.
  lemma {:induction false} SumPrefix(n: nat, k: nat, f: int -> real)
    requires k <= n && forall i :: k <= i < n ==> f(i) == 0.0
    ensures Sum(n, f) == Sum(k, f)
  {
    if k < n {
      SumPrefix(n - 1, k, f);
    }
  }

  // The order of a double sum does not matter.
  lemma {:induction false} SumSwap(n: nat, m: nat, f: (int, int) -> real)
    ensures Sum(n, i => Sum(m, j => f(i, j))) == Sum(m, j => Sum(n, i => f(i, j)))
  {
    var rows := i => Sum(m, j => f(i, j));
    var cols := j => Sum(n, i => f(i, j));
    if n == 0 {
      SumZero(m, cols);
    } else {
      SumSwap(n - 1, m, f);
      var shorter, last := j => Sum(n - 1, i => f(i, j)), j => f(n - 1, j);
      SumAdd(m, shorter, last);
      SumEqual(m, cols, j => shorter(j) + last(j));
      SumEqual(m, j => f(n - 1, j), last);
    }
  }

  // ---------- my_lu ----------

  // The rows of a matrix, as values.
  type Grid = seq<seq<real>>

  predicate IsGrid(a: Grid, rows: nat, columns: nat) {
    |a| == rows && forall i :: 0 <= i < rows ==> |a[i]| == columns
  }

  ghost function Rows(m: array2<real>): (a: Grid)
    reads m
    ensures IsGrid(a, m.Length0, m.Length1)
    ensures forall i, j :: 0 <= i < m.Length0 && 0 <= j < m.Length1 ==> a[i][j] == m[i, j]
  {
    seq(m.Length0, i requires 0 <= i < m.Length0 reads m =>
      seq(m.Length1, j requires 0 <= j < m.Length1 reads m => m[i, j]))
  }

  function Quotient(x: real, y: real): real {
    if y == 0.0 then 0.0 else x / y
  }

  // Entry (j, k) of the matrix after t rounds of the outer loop.
  ghost function Stage(a: Grid, n: nat, t: nat, j: nat, k: nat): real
    requires IsGrid(a, n, n) && t <= n && j < n && k < n
    decreases t
  {
    if t == 0 then a[j][k]
    else if j < t || k < t - 1 then Stage(a, n, t - 1, j, k)
    else
      var factor := Quotient(Stage(a, n, t - 1, j, t - 1), Stage(a, n, t - 1, t - 1, t - 1));
      if k == t - 1 then factor else Stage(a, n, t - 1, j, k) - factor * Stage(a, n, t - 1, t - 1, k)
  }

  // The first t pivots the elimination divides by are not zero.
  ghost predicate PivotsNonzero(a: Grid, n: nat, t: nat)
    requires IsGrid(a, n, n) && t <= n
  {
    forall s :: 0 <= s < t ==> Stage(a, n, s, s, s) != 0.0
  }

  function LastRound(n: nat): (t: nat)
    ensures t <= n
  {
    if n == 0 then 0 else n - 1
  }

  // The factors stored in one matrix: L strictly below the diagonal, with a unit diagonal, and U from
  // the diagonal on.
  function Lower(m: Grid, n: nat, i: int, p: int): real
    requires IsGrid(m, n, n)
  {
    if i == p then 1.0 else if 0 <= p < i < n then m[i][p] else 0.0
  }

  function Upper(m: Grid, n: nat, p: int, k: int): real
    requires IsGrid(m, n, n)
  {
    if 0 <= p <= k < n then m[p][k] else 0.0
  }

  // a is the product of the two factors stored in m.
  ghost predicate IsFactored(m: Grid, a: Grid, n: nat)
    requires IsGrid(m, n, n) && IsGrid(a, n, n)
  {
    forall j, k :: 0 <= j < n && 0 <= k < n ==>
      Sum(n, p => Lower(m, n, j, p) * Upper(m, n, p, k)) == a[j][k]
  }

  ghost predicate IsFinalStage(m: Grid, a: Grid, n: nat)
    requires IsGrid(m, n, n) && IsGrid(a, n, n)
  {
    forall j, k :: 0 <= j < n && 0 <= k < n ==> m[j][k] == Stage(a, n, LastRound(n), j, k)
  }

  // An entry is final once its column (below the diagonal) or its row (from the diagonal on) is done.
  lemma {:induction false} StageSettles(a: Grid, n: nat, t: nat, t': nat, j: nat, k: nat)
    requires IsGrid(a, n, n) && t <= t' <= n && j < n && k < n
    requires j <= t || k < t
    ensures Stage(a, n, t', j, k) == Stage(a, n, t, j, k)
  {
    if t < t' {
      StageSettles(a, n, t, t' - 1, j, k);
    }
  }

  // What t rounds subtract from entry (j, k), for the rows and columns not finished yet.
  ghost function Eliminated(a: Grid, n: nat, j: nat, k: nat): int -> real
    requires IsGrid(a, n, n) && j < n && k < n
  {
    p => if 0 <= p < j && p < n && p + 1 <= n then Stage(a, n, p + 1, j, p) * Stage(a, n, p, p, k) else 0.0
  }

  lemma EliminatedAt(a: Grid, n: nat, j: nat, k: nat, p: nat)
    requires IsGrid(a, n, n) && p < j < n && p < k < n
    ensures Eliminated(a, n, j, k)(p) == Stage(a, n, p + 1, j, p) * Stage(a, n, p, p, k)
  {
  }

  lemma StageStep(a: Grid, n: nat, s: nat, j: nat, k: nat)
    requires IsGrid(a, n, n) && s < j < n && s < k < n
    ensures Stage(a, n, s + 1, j, k) == Stage(a, n, s, j, k) - Stage(a, n, s + 1, j, s) * Stage(a, n, s, s, k)
  {
    assert Stage(a, n, s + 1, j, s) == Quotient(Stage(a, n, s, j, s), Stage(a, n, s, s, s));
  }

  lemma {:induction false} StageTelescopes(a: Grid, n: nat, t: nat, j: nat, k: nat)
    requires IsGrid(a, n, n) && t <= j < n && t <= k < n
    ensures Stage(a, n, t, j, k) == a[j][k] - Sum(t, Eliminated(a, n, j, k))
  {
    if t > 0 {
      StageTelescopes(a, n, t - 1, j, k);
      RoundSubtracts(a, n, t - 1, j, k);
    }
  }

  lemma RoundSubtracts(a: Grid, n: nat, s: nat, j: nat, k: nat)
    requires IsGrid(a, n, n) && s < j < n && s < k < n
    ensures Stage(a, n, s + 1, j, k) == Stage(a, n, s, j, k) - Eliminated(a, n, j, k)(s)
  {
    StageStep(a, n, s, j, k);
    EliminatedAt(a, n, j, k, s);
  }

  // The stored factors multiply back to the matrix.
  lemma FinalStageFactors(m: Grid, a: Grid, n: nat)
    requires IsGrid(m, n, n) && IsGrid(a, n, n)
    requires PivotsNonzero(a, n, LastRound(n)) && IsFinalStage(m, a, n)
    ensures IsFactored(m, a, n)
  {
    forall j, k | 0 <= j < n && 0 <= k < n
      ensures Sum(n, p => Lower(m, n, j, p) * Upper(m, n, p, k)) == a[j][k]
    {
      FactorsAt(m, a, n, j, k);
    }
  }

  ghost function FactorProduct(m: Grid, n: nat, j: nat, k: nat): int -> real
    requires IsGrid(m, n, n)
  {
    p => Lower(m, n, j, p) * Upper(m, n, p, k)
  }

  lemma FactorsAt(m: Grid, a: Grid, n: nat, j: nat, k: nat)
    requires IsGrid(m, n, n) && IsGrid(a, n, n) && j < n && k < n
    requires PivotsNonzero(a, n, n - 1) && IsFinalStage(m, a, n)
    ensures Sum(n, p => Lower(m, n, j, p) * Upper(m, n, p, k)) == a[j][k]
  {
    var last := if j <= k then j else k;
    SumEqual(n, p => Lower(m, n, j, p) * Upper(m, n, p, k), FactorProduct(m, n, j, k));
    FactorsBelow(m, a, n, j, k, last);
    StageTelescopes(a, n, last, j, k);
    SumPrefix(n, last + 1, FactorProduct(m, n, j, k));
    if j <= k {
      DiagonalTermUpper(m, a, n, j, k);
    } else {
      DiagonalTermLower(m, a, n, j, k);
    }
  }

  lemma FactorsBelow(m: Grid, a: Grid, n: nat, j: nat, k: nat, last: nat)
    requires IsGrid(m, n, n) && IsGrid(a, n, n) && j < n && k < n && last <= j && last <= k
    requires IsFinalStage(m, a, n)
    ensures Sum(last, FactorProduct(m, n, j, k)) == Sum(last, Eliminated(a, n, j, k))
  {
    forall p | 0 <= p < last ensures FactorProduct(m, n, j, k)(p) == Eliminated(a, n, j, k)(p) {
      FactorTerm(m, a, n, j, k, p);
    }
    SumEqual(last, FactorProduct(m, n, j, k), Eliminated(a, n, j, k));
  }

  lemma FactorTerm(m: Grid, a: Grid, n: nat, j: nat, k: nat, p: nat)
    requires IsGrid(m, n, n) && IsGrid(a, n, n) && p < j < n && p < k < n && IsFinalStage(m, a, n)
    ensures FactorProduct(m, n, j, k)(p) == Eliminated(a, n, j, k)(p)
  {
    FinalEntries(m, a, n, j, k, p);
    FactorProductAt(m, n, j, k, p);
    EliminatedAt(a, n, j, k, p);
  }

  lemma FinalEntries(m: Grid, a: Grid, n: nat, j: nat, k: nat, p: nat)
    requires IsGrid(m, n, n) && IsGrid(a, n, n) && p < j < n && p < k < n && IsFinalStage(m, a, n)
    ensures m[j][p] == Stage(a, n, p + 1, j, p) && m[p][k] == Stage(a, n, p, p, k)
  {
    StageSettles(a, n, p + 1, n - 1, j, p);
    StageSettles(a, n, p, n - 1, p, k);
  }

  lemma FactorProductAt(m: Grid, n: nat, j: nat, k: nat, p: nat)
    requires IsGrid(m, n, n) && p < j < n && p <= k < n
    ensures FactorProduct(m, n, j, k)(p) == m[j][p] * m[p][k]
  {
  }

  lemma DiagonalTermUpper(m: Grid, a: Grid, n: nat, j: nat, k: nat)
    requires IsGrid(m, n, n) && IsGrid(a, n, n) && j <= k < n && IsFinalStage(m, a, n)
    ensures FactorProduct(m, n, j, k)(j) == Stage(a, n, j, j, k)
  {
    StageSettles(a, n, j, n - 1, j, k);
  }

  lemma DiagonalTermLower(m: Grid, a: Grid, n: nat, j: nat, k: nat)
    requires IsGrid(m, n, n) && IsGrid(a, n, n) && k < j < n && IsFinalStage(m, a, n)
    requires PivotsNonzero(a, n, n - 1)
    ensures FactorProduct(m, n, j, k)(k) == Stage(a, n, k, j, k)
  {
    StoredFactor(m, a, n, j, k);
    FactorProductAt(m, n, j, k, k);
    CancelQuotient(Stage(a, n, k, j, k), m[k][k]);
  }

  lemma StoredFactor(m: Grid, a: Grid, n: nat, j: nat, k: nat)
    requires IsGrid(m, n, n) && IsGrid(a, n, n) && k < j < n && IsFinalStage(m, a, n)
    ensures m[j][k] == Quotient(Stage(a, n, k, j, k), m[k][k]) && m[k][k] == Stage(a, n, k, k, k)
  {
    StageSettles(a, n, k + 1, n - 1, j, k);
    StageOfFactor(a, n, j, k);
    StageSettles(a, n, k, n - 1, k, k);
  }

  lemma CancelQuotient(x: real, y: real)
    requires y != 0.0
    ensures Quotient(x, y) * y == x
  {
  }

  lemma StageOfFactor(a: Grid, n: nat, j: nat, k: nat)
    requires IsGrid(a, n, n) && k < j < n
    ensures Stage(a, n, k + 1, j, k) == Quotient(Stage(a, n, k, j, k), Stage(a, n, k, k, k))
  {
  }

  // In round i of the outer loop, the rows above j are done.
  ghost predicate Reached(m: Grid, n: nat, a: Grid, i: nat, j: int)
    requires IsGrid(m, n, n) && IsGrid(a, n, n) && i < n
  {
    forall r, c :: 0 <= r < n && 0 <= c < n ==> m[r][c] == Stage(a, n, if r < j then i + 1 else i, r, c)
  }

  // Row j of m after round i: the factor in column i, and that multiple of row i subtracted right of it.
  ghost predicate RowEliminated(before: Grid, m: Grid, n: nat, i: nat, j: nat)
    requires IsGrid(before, n, n) && IsGrid(m, n, n) && i < j < n && before[i][i] != 0.0
  {
    var factor := before[j][i] / before[i][i];
    && (forall r :: 0 <= r < n && r != j ==> m[r] == before[r])
    && (forall c :: 0 <= c < i ==> m[j][c] == before[j][c])
    && m[j][i] == factor
    && (forall c :: i < c < n ==> m[j][c] == before[j][c] - factor * before[i][c])
  }

  lemma ReachedRow(before: Grid, m: Grid, n: nat, a: Grid, i: nat, j: nat)
    requires IsGrid(before, n, n) && IsGrid(m, n, n) && IsGrid(a, n, n) && i < j < n
    requires Stage(a, n, i, i, i) != 0.0 && Reached(before, n, a, i, j)
    requires before[i][i] != 0.0 && RowEliminated(before, m, n, i, j)
    ensures Reached(m, n, a, i, j + 1)
  {
    forall r, c | 0 <= r < n && 0 <= c < n
      ensures m[r][c] == Stage(a, n, if r < j + 1 then i + 1 else i, r, c)
    {
      if r == j {
        ReachedEntry(before, m, n, a, i, j, c);
      }
    }
  }

  lemma ReachedAt(m: Grid, n: nat, a: Grid, i: nat, j: int, r: nat, c: nat)
    requires IsGrid(m, n, n) && IsGrid(a, n, n) && i < n && r < n && c < n && Reached(m, n, a, i, j)
    requires r <= i || r >= j
    ensures m[r][c] == Stage(a, n, i, r, c)
  {
    if r <= i {
      StageSettles(a, n, i, i + 1, r, c);
    }
  }

  lemma ReachedEntry(before: Grid, m: Grid, n: nat, a: Grid, i: nat, j: nat, c: nat)
    requires IsGrid(before, n, n) && IsGrid(m, n, n) && IsGrid(a, n, n) && i < j < n && c < n
    requires Stage(a, n, i, i, i) != 0.0 && Reached(before, n, a, i, j)
    requires before[i][i] != 0.0 && RowEliminated(before, m, n, i, j)
    ensures m[j][c] == Stage(a, n, i + 1, j, c)
  {
    StageOfRow(a, n, i, j, c);
    ReachedAt(before, n, a, i, j, i, i);
    ReachedAt(before, n, a, i, j, i, c);
    ReachedAt(before, n, a, i, j, j, i);
    ReachedAt(before, n, a, i, j, j, c);
  }

  lemma StageOfRow(a: Grid, n: nat, i: nat, j: nat, c: nat)
    requires IsGrid(a, n, n) && i < j < n && c < n && Stage(a, n, i, i, i) != 0.0
    ensures c < i ==> Stage(a, n, i + 1, j, c) == Stage(a, n, i, j, c)
    ensures c == i ==> Stage(a, n, i + 1, j, c) == Stage(a, n, i, j, i) / Stage(a, n, i, i, i)
    ensures c > i ==> (Stage(a, n, i + 1, j, c) ==
      Stage(a, n, i, j, c) - (Stage(a, n, i, j, i) / Stage(a, n, i, i, i)) * Stage(a, n, i, i, c))
  {
  }

  // The two inner statements of my_lu for row j.
  method EliminateRow(M: array2<real>, i: nat, j: nat)
    requires M.Length0 == M.Length1 && i < j < M.Length0 && M[i, i] != 0.0
    modifies M
    ensures RowEliminated(old(Rows(M)), Rows(M), M.Length0, i, j)
  {
    ghost var before := Rows(M);
    M[j, i] := M[j, i] / M[i, i];
    var k := i + 1;
    while k < M.Length0
      invariant i < k <= M.Length0
      invariant forall r, c :: 0 <= r < M.Length0 && 0 <= c < M.Length0 && r != j ==> M[r, c] == before[r][c]
      invariant forall c :: 0 <= c < i || k <= c < M.Length0 ==> M[j, c] == before[j][c]
      invariant M[j, i] == before[j][i] / before[i][i]
      invariant forall c :: i < c < k ==> M[j, c] == before[j][c] - M[j, i] * before[i][c]
    {
      M[j, k] := M[j, k] - M[j, i] * M[i, k];
      k := k + 1;
    }
  }

  // The middle loop of my_lu: round i.
  method EliminateColumn(M: array2<real>, i: nat, ghost a: Grid)
    requires M.Length0 == M.Length1 && i + 1 < M.Length0 && IsGrid(a, M.Length0, M.Length0)
    requires Stage(a, M.Length0, i, i, i) != 0.0 && Reached(Rows(M), M.Length0, a, i, i + 1)
    modifies M
    ensures Reached(Rows(M), M.Length0, a, i, M.Length0)
  {
    var n := M.Length0;
    for j := i + 1 to n
      invariant Reached(Rows(M), n, a, i, j)
    {
      ghost var before := Rows(M);
      assert before[i][i] == Stage(a, n, i, i, i) by { StageSettles(a, n, i, i + 1, i, i); }
      EliminateRow(M, i, j);
      ReachedRow(before, Rows(M), n, a, i, j);
    }
  }

  // my_lu: the copy of A is overwritten by both factors.
  method MyLu(A: array2<real>) returns (M: array2<real>)
    requires A.Length0 == A.Length1
    requires PivotsNonzero(Rows(A), A.Length0, LastRound(A.Length0))
    ensures fresh(M) && M.Length0 == M.Length1 == A.Length0
    ensures IsFinalStage(Rows(M), Rows(A), A.Length0)
    ensures IsFactored(Rows(M), Rows(A), A.Length0)
  {
    var n := A.Length0;
    ghost var a := Rows(A);
    M := new real[n, n]((r, c) requires 0 <= r < n && 0 <= c < n reads A => A[r, c]);
    var i := 0;
    while i < n - 1
      invariant 0 <= i <= LastRound(n)
      invariant i < n ==> Reached(Rows(M), n, a, i, i + 1)
    {
      EliminateColumn(M, i, a);
      NextRound(Rows(M), n, a, i);
      i := i + 1;
    }
    assert Rows(A) == a;
    FinalStageFactors(Rows(M), a, n);
  }

  // Rows up to the pivot row do not change in the next round.
  lemma NextRound(m: Grid, n: nat, a: Grid, i: nat)
    requires IsGrid(m, n, n) && IsGrid(a, n, n) && i + 1 < n && Reached(m, n, a, i, n)
    ensures Reached(m, n, a, i + 1, i + 2)
  {
    forall r, c | 0 <= r < n && 0 <= c < n
      ensures m[r][c] == Stage(a, n, if r < i + 2 then i + 2 else i + 1, r, c)
    {
      if r < i + 2 {
        StageSettles(a, n, i + 1, i + 2, r, c);
      }
    }
  }

  // ---------- my_triangular_solve ----------

  // The products of a row with a vector.
  ghost function Products(row: seq<real>, v: seq<real>): int -> real {
    p => if 0 <= p < |row| && p < |v| then row[p] * v[p] else 0.0
  }

  ghost predicate Solves(a: Grid, x: seq<real>, b: seq<real>) {
    |a| == |b| && forall i :: 0 <= i < |b| ==> Sum(|x|, Products(a[i], x)) == b[i]
  }

  ghost predicate SolvesLower(m: Grid, n: nat, y: seq<real>, b: seq<real>)
    requires IsGrid(m, n, n) && |y| == n && |b| == n
  {
    forall i :: 0 <= i < n ==> Sum(n, LowerProducts(m, n, i, y)) == b[i]
  }

  ghost function LowerProducts(m: Grid, n: nat, i: int, y: seq<real>): int -> real
    requires IsGrid(m, n, n) && |y| == n
  {
    p => if 0 <= p < n then Lower(m, n, i, p) * y[p] else 0.0
  }

  ghost predicate SolvesUpper(m: Grid, n: nat, x: seq<real>, y: seq<real>)
    requires IsGrid(m, n, n) && |x| == n && |y| == n
  {
    forall i :: 0 <= i < n ==> Sum(n, UpperProducts(m, n, i, x)) == y[i]
  }

  ghost function UpperProducts(m: Grid, n: nat, i: int, x: seq<real>): int -> real
    requires IsGrid(m, n, n) && |x| == n
  {
    p => if 0 <= p < n then Upper(m, n, i, p) * x[p] else 0.0
  }

  // Changing one term changes the sum by the same amount.
  lemma {:induction false} SumWithTerm(n: nat, f: int -> real, g: int -> real, i: int, d: real)
    requires 0 <= i < n && f(i) == g(i) + d
    requires forall p :: 0 <= p < n && p != i ==> f(p) == g(p)
    ensures Sum(n, f) == Sum(n, g) + d
  {
    if i == n - 1 {
      SumEqual(n - 1, f, g);
    } else {
      SumWithTerm(n - 1, f, g, i, d);
    }
  }

  lemma SameFactor(a: real, b: real, c: real)
    requires a == b
    ensures a * c == b * c
  {
  }

  lemma RealAssociates(a: real, b: real, c: real)
    ensures a * b * c == c * (a * b) == a * (b * c)
  {
  }

  lemma PrefixProducts(row: seq<real>, y: seq<real>, y': seq<real>, k: nat)
    requires k <= |row| && k <= |y| && k <= |y'|
    requires forall p :: 0 <= p < k ==> y[p] == y'[p]
    ensures Sum(k, Products(row, y)) == Sum(k, Products(row, y'))
  {
    var f, g := Products(row, y), Products(row, y');
    forall p | 0 <= p < k ensures f(p) == g(p) {
    }
    SumEqual(k, f, g);
  }

  // y[r] is b[r] less the products before it.
  ghost predicate ForwardRow(m: Grid, n: nat, y: seq<real>, b: seq<real>, r: nat)
    requires IsGrid(m, n, n) && |y| == n && |b| == n && r < n
  {
    y[r] == b[r] - Sum(r, Products(m[r], y))
  }

  ghost predicate Forward(m: Grid, n: nat, y: seq<real>, b: seq<real>, i: nat)
    requires IsGrid(m, n, n) && |y| == n && |b| == n && i <= n
  {
    forall r :: 0 <= r < i ==> ForwardRow(m, n, y, b, r)
  }

  lemma ForwardStep(m: Grid, n: nat, y: seq<real>, y': seq<real>, b: seq<real>, i: nat)
    requires IsGrid(m, n, n) && |y| == n && |b| == n && i < n && Forward(m, n, y, b, i)
    requires y' == y[i := b[i] - Sum(i, Products(m[i], y))]
    ensures Forward(m, n, y', b, i + 1)
  {
    forall r | 0 <= r < i + 1 ensures ForwardRow(m, n, y', b, r) {
      PrefixProducts(m[r], y, y', r);
      assert r < i ==> ForwardRow(m, n, y, b, r);
    }
  }

  lemma ForwardSolvesRow(m: Grid, n: nat, y: seq<real>, b: seq<real>, r: nat)
    requires IsGrid(m, n, n) && |y| == n && |b| == n && r < n && ForwardRow(m, n, y, b, r)
    ensures Sum(n, LowerProducts(m, n, r, y)) == b[r]
  {
    var f, g := LowerProducts(m, n, r, y), Products(m[r], y);
    forall p | r + 1 <= p < n ensures f(p) == 0.0 {
    }
    SumPrefix(n, r + 1, f);
    forall p | 0 <= p < r ensures f(p) == g(p) {
      LowerTerm(m, n, r, y, p);
    }
    SumEqual(r, f, g);
    assert f(r) == y[r];
  }

  lemma LowerTerm(m: Grid, n: nat, r: nat, y: seq<real>, p: nat)
    requires IsGrid(m, n, n) && |y| == n && p < r < n
    ensures LowerProducts(m, n, r, y)(p) == Products(m[r], y)(p)
  {
    assert |m[r]| == n && Lower(m, n, r, p) == m[r][p];
    SameFactor(Lower(m, n, r, p), m[r][p], y[p]);
  }

  lemma ForwardSolves(m: Grid, n: nat, y: seq<real>, b: seq<real>)
    requires IsGrid(m, n, n) && |y| == n && |b| == n && Forward(m, n, y, b, n)
    ensures SolvesLower(m, n, y, b)
  {
    forall r | 0 <= r < n ensures Sum(n, LowerProducts(m, n, r, y)) == b[r] {
      ForwardSolvesRow(m, n, y, b, r);
    }
  }

  // The inner loop of the forward substitution.
  method SubtractBefore(M: array2<real>, i: nat, y: array<real>, v: real) returns (tmp: real)
    requires i < M.Length0 == M.Length1 == y.Length
    ensures tmp == v - Sum(i, Products(Rows(M)[i], y[..]))
  {
    ghost var row, ys := Rows(M)[i], y[..];
    tmp := v;
    for j := 0 to i
      invariant tmp == v - Sum(j, Products(row, ys))
    {
      tmp := tmp - y[j] * M[i, j];
    }
  }

  // Forward substitution, the first loop of my_triangular_solve.
  method ForwardSubstitute(M: array2<real>, b: array<real>) returns (y: array<real>)
    requires M.Length0 == M.Length1 == b.Length
    ensures fresh(y) && y.Length == b.Length
    ensures SolvesLower(Rows(M), b.Length, y[..], b[..])
  {
    var n := b.Length;
    ghost var m := Rows(M);
    y := new real[n](_ => 0.0);
    var i := 0;
    while i < n
      invariant 0 <= i <= n
      invariant Forward(m, n, y[..], b[..], i)
    {
      ghost var before := y[..];
      var tmp := SubtractBefore(M, i, y, b[i]);
      y[i] := tmp;
      ForwardStep(m, n, before, y[..], b[..], i);
      i := i + 1;
    }
    ForwardSolves(m, n, y[..], b[..]);
  }

  // The products right of the diagonal.
  ghost function After(row: seq<real>, i: int, x: seq<real>): int -> real {
    p => if 0 <= p < |row| && i < p < |x| then row[p] * x[p] else 0.0
  }

  // x[r] solves row r of the upper factor.
  ghost predicate BackwardRow(m: Grid, n: nat, x: seq<real>, y: seq<real>, r: nat)
    requires IsGrid(m, n, n) && |x| == n && |y| == n && r < n
  {
    x[r] * m[r][r] == y[r] - Sum(n, After(m[r], r, x))
  }

  ghost predicate Backward(m: Grid, n: nat, x: seq<real>, y: seq<real>, i: nat)
    requires IsGrid(m, n, n) && |x| == n && |y| == n && i <= n
  {
    forall r :: i <= r < n ==> BackwardRow(m, n, x, y, r)
  }

  lemma SuffixProducts(row: seq<real>, x: seq<real>, x': seq<real>, i: nat)
    requires |row| == |x| == |x'| && forall p :: i < p < |x| ==> x[p] == x'[p]
    ensures Sum(|x|, After(row, i, x)) == Sum(|x|, After(row, i, x'))
  {
    var f, g := After(row, i, x), After(row, i, x');
    forall p | 0 <= p < |x| ensures f(p) == g(p) {
    }
    SumEqual(|x|, f, g);
  }

  lemma BackwardStep(m: Grid, n: nat, x: seq<real>, x': seq<real>, y: seq<real>, i: nat)
    requires IsGrid(m, n, n) && |x| == n && |y| == n && i < n && Backward(m, n, x, y, i + 1)
    requires m[i][i] != 0.0
    requires x' == x[i := (y[i] - Sum(n, After(m[i], i, x))) / m[i][i]]
    ensures Backward(m, n, x', y, i)
  {
    forall r | i <= r < n ensures BackwardRow(m, n, x', y, r) {
      SuffixProducts(m[r], x, x', r);
      assert r > i ==> BackwardRow(m, n, x, y, r);
      if r == i {
        var rest := y[i] - Sum(n, After(m[i], i, x));
        assert rest / m[i][i] * m[i][i] == rest;
      }
    }
  }

  lemma BackwardSolvesRow(m: Grid, n: nat, x: seq<real>, y: seq<real>, r: nat)
    requires IsGrid(m, n, n) && |x| == n && |y| == n && r < n && BackwardRow(m, n, x, y, r)
    ensures Sum(n, UpperProducts(m, n, r, x)) == y[r]
  {
    var f, g := UpperProducts(m, n, r, x), After(m[r], r, x);
    forall p | 0 <= p < n && p != r ensures f(p) == g(p) {
    }
    SumWithTerm(n, f, g, r, x[r] * m[r][r]);
  }

  lemma BackwardSolves(m: Grid, n: nat, x: seq<real>, y: seq<real>)
    requires IsGrid(m, n, n) && |x| == n && |y| == n && Backward(m, n, x, y, 0)
    ensures SolvesUpper(m, n, x, y)
  {
    forall r | 0 <= r < n ensures Sum(n, UpperProducts(m, n, r, x)) == y[r] {
      BackwardSolvesRow(m, n, x, y, r);
    }
  }

  // The inner loop of the back substitution.
  method SubtractAfter(M: array2<real>, i: nat, x: array<real>, v: real) returns (tmp: real)
    requires i < M.Length0 == M.Length1 == x.Length
    ensures tmp == v - Sum(x.Length, After(Rows(M)[i], i, x[..]))
  {
    ghost var row, xs := Rows(M)[i], x[..];
    tmp := v;
    SumZero(i + 1, After(row, i, xs));
    for j := i + 1 to x.Length
      invariant tmp == v - Sum(j, After(row, i, xs))
    {
      tmp := tmp - x[j] * M[i, j];
    }
  }

  // Back substitution from the last row up, the second loop of my_triangular_solve.
  method BackSubstitute(M: array2<real>, y: array<real>) returns (x: array<real>)
    requires M.Length0 == M.Length1 == y.Length
    requires forall i :: 0 <= i < M.Length0 ==> M[i, i] != 0.0
    ensures fresh(x) && x.Length == y.Length
    ensures SolvesUpper(Rows(M), y.Length, x[..], y[..])
  {
    var n := y.Length;
    ghost var m := Rows(M);
    x := new real[n](_ => 0.0);
    var i := n - 1;
    while i >= 0
      invariant -1 <= i < n
      invariant Backward(m, n, x[..], y[..], i + 1)
    {
      ghost var before := x[..];
      var tmp := SubtractAfter(M, i, x, y[i]);
      x[i] := tmp / M[i, i];
      BackwardStep(m, n, before, x[..], y[..], i);
      i := i - 1;
    }
    BackwardSolves(m, n, x[..], y[..]);
  }

  // The term of the double sum for row i of L * U * x.
  ghost function Triple(m: Grid, n: nat, i: int, x: seq<real>, k: int, p: int): real
    requires IsGrid(m, n, n) && |x| == n
  {
    if 0 <= k < n && 0 <= p < n then Lower(m, n, i, p) * Upper(m, n, p, k) * x[k] else 0.0
  }

  lemma RowTimesVector(m: Grid, a: Grid, n: nat, x: seq<real>, i: nat, k: nat)
    requires IsGrid(m, n, n) && IsGrid(a, n, n) && |x| == n && i < n && k < n && IsFactored(m, a, n)
    ensures Products(a[i], x)(k) == Sum(n, p => Triple(m, n, i, x, k, p))
  {
    var f := p => Lower(m, n, i, p) * Upper(m, n, p, k);
    var g, h := q => x[k] * f(q), p => Triple(m, n, i, x, k, p);
    SumScale(n, x[k], f);
    forall p | 0 <= p < n ensures h(p) == g(p) {
      RealAssociates(Lower(m, n, i, p), Upper(m, n, p, k), x[k]);
      assert h(p) == Triple(m, n, i, x, k, p);
    }
    SumEqual(n, h, g);
    assert Sum(n, f) == a[i][k];
  }

  lemma LowerTimesRow(m: Grid, n: nat, x: seq<real>, y: seq<real>, i: nat, p: nat)
    requires IsGrid(m, n, n) && |x| == n && |y| == n && i < n && p < n && SolvesUpper(m, n, x, y)
    ensures LowerProducts(m, n, i, y)(p) == Sum(n, k => Triple(m, n, i, x, k, p))
  {
    var f, c := UpperProducts(m, n, p, x), Lower(m, n, i, p);
    var g, h := q => c * f(q), k => Triple(m, n, i, x, k, p);
    SumScale(n, c, f);
    forall k | 0 <= k < n ensures h(k) == g(k) {
      RealAssociates(c, Upper(m, n, p, k), x[k]);
      assert f(k) == Upper(m, n, p, k) * x[k];
      assert h(k) == Triple(m, n, i, x, k, p);
      SameFactor(f(k), Upper(m, n, p, k) * x[k], c);
    }
    SumEqual(n, h, g);
  }

  // L y = b and U x = y give A x = b.
  lemma SolutionOfFactors(m: Grid, a: Grid, n: nat, x: seq<real>, y: seq<real>, b: seq<real>)
    requires IsGrid(m, n, n) && IsGrid(a, n, n) && |x| == n && |y| == n && |b| == n
    requires IsFactored(m, a, n) && SolvesLower(m, n, y, b) && SolvesUpper(m, n, x, y)
    ensures Solves(a, x, b)
  {
    forall i | 0 <= i < n ensures Sum(n, Products(a[i], x)) == b[i] {
      SolutionOfRow(m, a, n, x, y, b, i);
    }
  }

  lemma SolutionOfRow(m: Grid, a: Grid, n: nat, x: seq<real>, y: seq<real>, b: seq<real>, i: nat)
    requires IsGrid(m, n, n) && IsGrid(a, n, n) && |x| == n && |y| == n && |b| == n && i < n
    requires IsFactored(m, a, n) && SolvesLower(m, n, y, b) && SolvesUpper(m, n, x, y)
    ensures Sum(n, Products(a[i], x)) == b[i]
  {
    var t := (k, p) => Triple(m, n, i, x, k, p);
    var rows, columns := k => Sum(n, p => t(k, p)), p => Sum(n, k => t(k, p));
    forall k | 0 <= k < n ensures Products(a[i], x)(k) == rows(k) {
      RowTimesVector(m, a, n, x, i, k);
      SumEqual(n, p => t(k, p), p => Triple(m, n, i, x, k, p));
    }
    SumEqual(n, Products(a[i], x), rows);
    SumSwap(n, n, t);
    forall p | 0 <= p < n ensures LowerProducts(m, n, i, y)(p) == columns(p) {
      LowerTimesRow(m, n, x, y, i, p);
      SumEqual(n, k => t(k, p), k => Triple(m, n, i, x, k, p));
    }
    SumEqual(n, LowerProducts(m, n, i, y), columns);
  }

  // my_triangular_solve on the matrix that my_lu returned for a.
  method MyTriangularSolve(M: array2<real>, b: array<real>, ghost a: Grid) returns (x: array<real>)
    requires M.Length0 == M.Length1 == b.Length && IsGrid(a, b.Length, b.Length)
    requires forall i :: 0 <= i < b.Length ==> M[i, i] != 0.0
    requires IsFactored(Rows(M), a, b.Length)
    ensures fresh(x) && x.Length == b.Length
    ensures Solves(a, x[..], b[..])
  {
    ghost var m := Rows(M);
    var y := ForwardSubstitute(M, b);
    assert Rows(M) == m;
    x := BackSubstitute(M, y);
    SolutionOfFactors(m, a, b.Length, x[..], y[..], b[..]);
  }

  // ---------- fea_solve ----------

  ghost function RowTimes(row: seq<real>, v: seq<real>): real {
    Sum(|v|, Products(row, v))
  }

  // np.matmul of a matrix and a vector.
  method MatVec(K: array2<real>, v: array<real>) returns (w: array<real>)
    requires K.Length1 == v.Length
    ensures fresh(w) && w.Length == K.Length0
    ensures forall i :: 0 <= i < w.Length ==> w[i] == RowTimes(Rows(K)[i], v[..])
  {
    ghost var k, vs := Rows(K), v[..];
    w := new real[K.Length0](_ => 0.0);
    for i := 0 to K.Length0
      invariant forall r :: 0 <= r < i ==> w[r] == RowTimes(k[r], vs)
    {
      var tmp := 0.0;
      for j := 0 to v.Length
        invariant tmp == Sum(j, Products(k[i], vs))
      {
        tmp := tmp + K[i, j] * v[j];
      }
      w[i] := tmp;
    }
  }

  method AddVectors(u: array<real>, v: array<real>, sign: real) returns (w: array<real>)
    requires u.Length == v.Length
    ensures fresh(w) && w.Length == u.Length
    ensures forall i :: 0 <= i < w.Length ==> w[i] == u[i] + sign * v[i]
  {
    w := new real[u.Length](i requires 0 <= i < u.Length && u.Length == v.Length reads u, v => u[i] + sign * v[i]);
  }

  // The block equations of the partitioned system.
  ghost predicate BlockEquations(kpp: Grid, kpf: Grid, kfp: Grid, kff: Grid,
                                 xp: seq<real>, xf: seq<real>, fp: seq<real>, ff: seq<real>) {
    && |kpp| == |kpf| == |fp| && |kfp| == |kff| == |ff|
    && (forall i :: 0 <= i < |fp| ==> RowTimes(kpp[i], xp) + RowTimes(kpf[i], xf) == fp[i])
    && (forall i :: 0 <= i < |ff| ==> RowTimes(kfp[i], xp) + RowTimes(kff[i], xf) == ff[i])
  }

  // The first steps of fea_solve: the unknown displacements.
  method SolveDisplacements(Kfp: array2<real>, Kff: array2<real>, xp: array<real>, Ff: array<real>)
    returns (xf: array<real>)
    requires Kff.Length0 == Kff.Length1 == Ff.Length && Kfp.Length0 == Ff.Length && Kfp.Length1 == xp.Length
    requires PivotsNonzero(Rows(Kff), Ff.Length, Ff.Length)
    ensures fresh(xf) && xf.Length == Ff.Length
    ensures forall i :: 0 <= i < Ff.Length ==>
      RowTimes(Rows(Kfp)[i], xp[..]) + RowTimes(Rows(Kff)[i], xf[..]) == Ff[i]
  {
    ghost var n, kff, kfp, known := Ff.Length, Rows(Kff), Rows(Kfp), xp[..];
    var x := MatVec(Kfp, xp);
    var y := AddVectors(Ff, x, -1.0);
    assert Rows(Kff) == kff;
    var M := MyLu(Kff);
    PivotsOnDiagonal(Rows(M), kff, n);
    assert forall i :: 0 <= i < n ==> M[i, i] == Rows(M)[i][i];
    xf := MyTriangularSolve(M, y, kff);
    assert Rows(Kff) == kff && Rows(Kfp) == kfp && xp[..] == known;
    forall i | 0 <= i < n ensures RowTimes(kfp[i], known) + RowTimes(kff[i], xf[..]) == Ff[i] {
      assert RowTimes(kff[i], xf[..]) == y[..][i];
    }
  }

  // The second fea_solve: unknown displacements xf and unknown forces Fp.
  method FeaSolve(Kpp: array2<real>, Kpf: array2<real>, Kfp: array2<real>, Kff: array2<real>,
                  xp: array<real>, Ff: array<real>)
    returns (xf: array<real>, Fp: array<real>)
    requires Kpp.Length0 == Kpp.Length1 == xp.Length && Kpf.Length0 == xp.Length && Kpf.Length1 == Ff.Length
    requires Kff.Length0 == Kff.Length1 == Ff.Length && Kfp.Length0 == Ff.Length && Kfp.Length1 == xp.Length
    requires PivotsNonzero(Rows(Kff), Ff.Length, Ff.Length)
    ensures fresh(xf) && fresh(Fp) && xf.Length == Ff.Length && Fp.Length == xp.Length
    ensures BlockEquations(Rows(Kpp), Rows(Kpf), Rows(Kfp), Rows(Kff), xp[..], xf[..], Fp[..], Ff[..])
  {
    ghost var kff, kfp := Rows(Kff), Rows(Kfp);
    xf := SolveDisplacements(Kfp, Kff, xp, Ff);
    var matr := MatVec(Kpf, xf);
    var matr2 := MatVec(Kpp, xp);
    Fp := AddVectors(matr, matr2, 1.0);
    assert Rows(Kff) == kff && Rows(Kfp) == kfp;
  }

  lemma PivotsOnDiagonal(m: Grid, a: Grid, n: nat)
    requires IsGrid(m, n, n) && IsGrid(a, n, n) && IsFinalStage(m, a, n) && PivotsNonzero(a, n, n)
    ensures forall i :: 0 <= i < n ==> m[i][i] != 0.0
  {
    forall i | 0 <= i < n ensures m[i][i] != 0.0 {
      StageSettles(a, n, i, n - 1, i, i);
    }
  }
}
