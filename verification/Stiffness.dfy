// MP2 code.py: reordering and partitioning of the stiffness matrix, and what the solution of the
// partitioned system means for the matrix in its original numbering.
module Stiffness {
  import opened LinearSolve

  // A numbering of the n equations: every number from 1 to n, once.
  predicate IsNumbering(e: seq<int>, n: nat) {
    && |e| == n
    && (forall i :: 0 <= i < n ==> 1 <= e[i] <= n)
    && (forall i, j :: 0 <= i < j < n ==> e[i] != e[j])
    && (forall c :: 1 <= c <= n ==> c in e)
  }

  // Entry (i, j) of the reordered matrix.
  function Reordered(k: Grid, n: nat, e: seq<int>, i: int, j: int): real
    requires IsGrid(k, n, n) && IsNumbering(e, n) && 0 <= i < n && 0 <= j < n
  {
    k[e[i] - 1][e[j] - 1]
  }

  ghost predicate IsBlock(b: Grid, rows: nat, columns: nat, k: Grid, n: nat, e: seq<int>, i0: nat, j0: nat)
    requires IsGrid(k, n, n) && IsNumbering(e, n) && i0 + rows <= n && j0 + columns <= n
  {
    IsGrid(b, rows, columns) &&
    forall i, j :: 0 <= i < rows && 0 <= j < columns ==> b[i][j] == Reordered(k, n, e, i0 + i, j0 + j)
  }

  method ReorderRowsColumns(K: array2<real>, equationNumbers: array<int>) returns (Khat: array2<real>)
    requires K.Length0 == K.Length1 && IsNumbering(equationNumbers[..], K.Length0)
    ensures fresh(Khat) && Khat.Length0 == Khat.Length1 == K.Length0
    ensures IsBlock(Rows(Khat), K.Length0, K.Length0, Rows(K), K.Length0, equationNumbers[..], 0, 0)
  {
    ghost var k, e, n := Rows(K), equationNumbers[..], K.Length0;
    Khat := new real[K.Length0, K.Length1]((_, _) => 0.0);
    for i := 0 to equationNumbers.Length
      invariant forall r, c :: 0 <= r < i && 0 <= c < n ==> Khat[r, c] == Reordered(k, n, e, r, c)
    {
      for j := 0 to K.Length1
        invariant forall r, c :: 0 <= r < i && 0 <= c < n ==> Khat[r, c] == Reordered(k, n, e, r, c)
        invariant forall c :: 0 <= c < j ==> Khat[i, c] == Reordered(k, n, e, i, c)
      {
        Khat[i, j] := K[equationNumbers[i] - 1, equationNumbers[j] - 1];
      }
    }
  }

  // One of the four double loops of partition_stiffness_matrix.
  method CopyBlock(Khat: array2<real>, i0: nat, j0: nat, rows: nat, columns: nat,
                   ghost k: Grid, ghost n: nat, ghost e: seq<int>)
    returns (B: array2<real>)
    requires i0 + rows <= n == Khat.Length0 && j0 + columns <= n == Khat.Length1
    requires IsGrid(k, n, n) && IsNumbering(e, n) && IsBlock(Rows(Khat), n, n, k, n, e, 0, 0)
    ensures fresh(B) && B.Length0 == rows && B.Length1 == columns
    ensures IsBlock(Rows(B), rows, columns, k, n, e, i0, j0)
  {
    B := new real[rows, columns]((_, _) => 0.0);
    for i := 0 to rows
      invariant forall r, c :: 0 <= r < i && 0 <= c < columns ==> B[r, c] == Khat[i0 + r, j0 + c]
    {
      for j := 0 to columns
        invariant forall r, c :: 0 <= r < i && 0 <= c < columns ==> B[r, c] == Khat[i0 + r, j0 + c]
        invariant forall c :: 0 <= c < j ==> B[i, c] == Khat[i0 + i, j0 + c]
      {
        B[i, j] := Khat[i0 + i, j0 + j];
      }
    }
    ghost var khat := Rows(Khat);
    assert forall r, c :: 0 <= r < rows && 0 <= c < columns ==> Rows(B)[r][c] == khat[i0 + r][j0 + c];
  }

  method PartitionStiffnessMatrix(K: array2<real>, equationNumbers: array<int>, nk: nat)
    returns (Kpp: array2<real>, Kpf: array2<real>, Kfp: array2<real>, Kff: array2<real>)
    requires K.Length0 == K.Length1 && IsNumbering(equationNumbers[..], K.Length0) && nk <= K.Length0
    ensures fresh(Kpp) && fresh(Kpf) && fresh(Kfp) && fresh(Kff)
    ensures Kpp.Length0 == Kpp.Length1 == nk && Kff.Length0 == Kff.Length1 == K.Length0 - nk
    ensures Kpf.Length0 == nk && Kpf.Length1 == K.Length0 - nk
    ensures Kfp.Length0 == K.Length0 - nk && Kfp.Length1 == nk
    ensures IsPartition(Rows(Kpp), Rows(Kpf), Rows(Kfp), Rows(Kff), Rows(K), K.Length0, equationNumbers[..], nk)
  {
    ghost var k, e, n := Rows(K), equationNumbers[..], K.Length0;
    var Khat := ReorderRowsColumns(K, equationNumbers);
    ghost var khat := Rows(Khat);
    var nf := K.Length0 - nk;
    Kpp := CopyBlock(Khat, 0, 0, nk, nk, k, n, e);
    assert Rows(Khat) == khat;
    Kpf := CopyBlock(Khat, 0, nk, nk, nf, k, n, e);
    assert Rows(Khat) == khat;
    Kfp := CopyBlock(Khat, nk, 0, nf, nk, k, n, e);
    assert Rows(Khat) == khat;
    ghost var kpp, kpf, kfp := Rows(Kpp), Rows(Kpf), Rows(Kfp);
    Kff := CopyBlock(Khat, nk, nk, nf, nf, k, n, e);
    assert Rows(Kpp) == kpp && Rows(Kpf) == kpf && Rows(Kfp) == kfp;
    assert Rows(K) == k && equationNumbers[..] == e;
  }

  ghost predicate IsPartition(kpp: Grid, kpf: Grid, kfp: Grid, kff: Grid, k: Grid, n: nat, e: seq<int>, nk: nat)
    requires IsGrid(k, n, n) && IsNumbering(e, n) && nk <= n
  {
    && IsBlock(kpp, nk, nk, k, n, e, 0, 0)
    && IsBlock(kpf, nk, n - nk, k, n, e, 0, nk)
    && IsBlock(kfp, n - nk, nk, k, n, e, nk, 0)
    && IsBlock(kff, n - nk, n - nk, k, n, e, nk, nk)
  }

  // ---------- sums over a permutation ----------

  ghost function Permuted(e: seq<int>, f: int -> real): int -> real {
    i => if 0 <= i < |e| then f(e[i] - 1) else 0.0
  }

  // Taking out the largest number, and moving the last one into its place, leaves a shorter numbering.
  function DropLargest(e: seq<int>, at: nat): (d: seq<int>)
    requires at < |e|
    ensures |d| == |e| - 1
  {
    if at == |e| - 1 then e[..|e| - 1] else e[..|e| - 1][at := e[|e| - 1]]
  }

  lemma DropLargestNumbers(e: seq<int>, n: nat, at: nat)
    requires IsNumbering(e, n + 1) && at <= n && e[at] == n + 1
    ensures IsNumbering(DropLargest(e, at), n)
  {
    var d := DropLargest(e, at);
    forall c | 1 <= c <= n ensures c in d {
      assert c in e;
      var j :| 0 <= j < n + 1 && e[j] == c;
      assert d[if j == n then at else j] == c;
    }
  }

  lemma DropLargestSum(e: seq<int>, n: nat, at: nat, f: int -> real)
    requires IsNumbering(e, n + 1) && at <= n && e[at] == n + 1
    ensures Sum(n + 1, Permuted(e, f)) == Sum(n, Permuted(DropLargest(e, at), f)) + f(n)
  {
    var p, q := Permuted(e, f), Permuted(DropLargest(e, at), f);
    forall i | 0 <= i < n && i != at ensures p(i) == q(i) {
    }
    if at == n {
      SumEqual(n, p, q);
    } else {
      SumWithTerm(n, p, q, at, p(at) - q(at));
      assert p(at) == f(n) && q(at) == p(n);
    }
  }

  // A sum does not depend on the order of its terms.
  lemma {:induction false} SumPermuted(n: nat, e: seq<int>, f: int -> real)
    requires IsNumbering(e, n)
    ensures Sum(n, Permuted(e, f)) == Sum(n, f)
    decreases n
  {
    if n > 0 {
      assert n in e;
      var at :| 0 <= at < n && e[at] == n;
      DropLargestNumbers(e, n - 1, at);
      DropLargestSum(e, n - 1, at, f);
      SumPermuted(n - 1, DropLargest(e, at), f);
    }
  }

  // ---------- the system in its original numbering ----------

  lemma {:induction false} SumSplit(a: nat, b: nat, f: int -> real, g: int -> real)
    requires forall i :: 0 <= i < b ==> g(i) == f(a + i)
    ensures Sum(a + b, f) == Sum(a, f) + Sum(b, g)
  {
    if b > 0 {
      SumSplit(a, b - 1, f, g);
    }
  }

  lemma SumOfParts(n: nat, nk: nat, p: int -> real, left: int -> real, right: int -> real)
    requires nk <= n && IsPart(left, nk, p, 0) && IsPart(right, n - nk, p, nk)
    ensures Sum(n, p) == Sum(nk, left) + Sum(n - nk, right)
  {
    assert forall j :: 0 <= j < nk ==> left(j) == p(0 + j);
    SumEqual(nk, left, p);
    SumSplit(nk, n - nk, p, right);
  }

  // u holds the displacements of the reordered unknowns xhat under their original numbers.
  ghost predicate IsScattered(u: seq<real>, e: seq<int>, n: nat, xhat: seq<real>)
    requires IsNumbering(e, n)
  {
    |u| == n && |xhat| == n && forall j :: 0 <= j < n ==> u[e[j] - 1] == xhat[j]
  }

  // f takes the n places of a permuted sum from j0 on.
  ghost predicate IsPart(f: int -> real, n: nat, permuted: int -> real, j0: nat) {
    forall j :: 0 <= j < n ==> f(j) == permuted(j0 + j)
  }

  // A block of the reordered matrix takes its part of the permuted row.
  lemma BlockRow(k: Grid, n: nat, e: seq<int>, block: Grid, i0: nat, i: nat, j0: nat, x: seq<real>, u: seq<real>)
    requires IsGrid(k, n, n) && IsNumbering(e, n) && i0 + |block| <= n && i < |block| && j0 + |x| <= n
    requires IsBlock(block, |block|, |x|, k, n, e, i0, j0) && |u| == n
    requires forall j :: 0 <= j < |x| ==> u[e[j0 + j] - 1] == x[j]
    ensures IsPart(Products(block[i], x), |x|, Permuted(e, Products(k[e[i0 + i] - 1], u)), j0)
  {
    forall j | 0 <= j < |x|
      ensures Products(block[i], x)(j) == Permuted(e, Products(k[e[i0 + i] - 1], u))(j0 + j)
    {
      assert block[i][j] == Reordered(k, n, e, i0 + i, j0 + j);
    }
  }

  lemma ScatteredParts(u: seq<real>, e: seq<int>, n: nat, nk: nat, xp: seq<real>, xf: seq<real>)
    requires IsNumbering(e, n) && |xp| == nk <= n && |xf| == n - nk && IsScattered(u, e, n, xp + xf)
    ensures forall j :: 0 <= j < nk ==> u[e[0 + j] - 1] == xp[j]
    ensures forall j :: 0 <= j < n - nk ==> u[e[nk + j] - 1] == xf[j]
  {
    forall j | 0 <= j < nk ensures u[e[0 + j] - 1] == xp[j] {
      assert (xp + xf)[j] == xp[j];
    }
    forall j | 0 <= j < n - nk ensures u[e[nk + j] - 1] == xf[j] {
      assert (xp + xf)[nk + j] == xf[j];
    }
  }

  lemma ReorderedRow(k: Grid, n: nat, e: seq<int>, nk: nat, left: Grid, right: Grid, i0: nat, i: nat,
                     xp: seq<real>, xf: seq<real>, u: seq<real>)
    requires IsGrid(k, n, n) && IsNumbering(e, n) && nk <= n && i0 + |left| <= n && i < |left| == |right|
    requires |xp| == nk && |xf| == n - nk && IsScattered(u, e, n, xp + xf)
    requires IsBlock(left, |left|, nk, k, n, e, i0, 0) && IsBlock(right, |left|, n - nk, k, n, e, i0, nk)
    ensures RowTimes(left[i], xp) + RowTimes(right[i], xf) == RowTimes(k[e[i0 + i] - 1], u)
  {
    var f := Products(k[e[i0 + i] - 1], u);
    ScatteredParts(u, e, n, nk, xp, xf);
    BlockRow(k, n, e, left, i0, i, 0, xp, u);
    BlockRow(k, n, e, right, i0, i, nk, xf, u);
    SumPermuted(n, e, f);
    SumOfParts(n, nk, Permuted(e, f), Products(left[i], xp), Products(right[i], xf));
  }

  // A solution of the partitioned system solves the whole system: row e[i] of K times the displacements is
  // the i-th force, prescribed rows first.
  lemma OriginalSystem(k: Grid, n: nat, e: seq<int>, nk: nat, kpp: Grid, kpf: Grid, kfp: Grid, kff: Grid,
                       xp: seq<real>, xf: seq<real>, fp: seq<real>, ff: seq<real>, u: seq<real>)
    requires IsGrid(k, n, n) && IsNumbering(e, n) && nk <= n
    requires IsPartition(kpp, kpf, kfp, kff, k, n, e, nk)
    requires |xp| == |fp| == nk && |xf| == |ff| == n - nk && IsScattered(u, e, n, xp + xf)
    requires BlockEquations(kpp, kpf, kfp, kff, xp, xf, fp, ff)
    ensures forall i :: 0 <= i < n ==> RowTimes(k[e[i] - 1], u) == (fp + ff)[i]
  {
    forall i | 0 <= i < n ensures RowTimes(k[e[i] - 1], u) == (fp + ff)[i] {
      if i < nk {
        ReorderedRow(k, n, e, nk, kpp, kpf, 0, i, xp, xf, u);
      } else {
        ReorderedRow(k, n, e, nk, kfp, kff, nk, i - nk, xp, xf, u);
      }
    }
  }
}
