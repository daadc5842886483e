// The strings of the password cracker's utils.c: positions in the search space, as base-26 numbers written
// with the letters from a to z, and the ranges that the threads work on.
module SearchSpace {
  import opened Words
  import opened NumberTheory
  import opened Ranges

  // Characters are their codes.
  const A: int := 97
  const Z: int := 122
  const DOT: int := 46

  predicate Letter(c: int) {
    A <= c <= Z
  }

  predicate Letters(s: seq<int>) {
    forall i :: 0 <= i < |s| ==> Letter(s[i])
  }

  function Pow26(k: nat): (p: nat)
    ensures p > 0
  {
    if k == 0 then 1 else 26 * Pow26(k - 1)
  }

  lemma {:induction false} Pow26Grows(j: nat, k: nat)
    requires j <= k
    ensures Pow26(j) <= Pow26(k)
  {
    if j < k {
      Pow26Grows(j, k - 1);
    }
  }

  // An int holds the number of completions of up to six unknown letters.
  lemma IntHolds(unknown: nat)
    ensures Pow26(unknown) < INT_LIMIT <==> unknown <= 6
  {
    assert Pow26(3) == 17576 && Pow26(6) == 308915776;
    if unknown <= 6 {
      Pow26Grows(unknown, 6);
    } else {
      Pow26Grows(7, unknown);
    }
  }

  // The string of k letters at position n.
  function Digits(n: nat, k: nat): (s: seq<int>)
    ensures |s| == k && Letters(s)
  {
    if k == 0 then [] else Digits(n / 26, k - 1) + [A + n % 26]
  }

  function Value(s: seq<int>): (n: nat)
    requires Letters(s)
  {
    if s == [] then 0 else 26 * Value(s[..|s| - 1]) + (s[|s| - 1] - A)
  }

  // Positions and strings of length k correspond to each other, position by position.
  lemma {:induction false} ValueOfDigits(n: nat, k: nat)
    requires n < Pow26(k)
    ensures Value(Digits(n, k)) == n
  {
    if k > 0 {
      ValueOfDigits(n / 26, k - 1);
      assert Digits(n, k)[..k - 1] == Digits(n / 26, k - 1);
    }
  }

  lemma {:induction false} DigitsOfValue(s: seq<int>)
    requires Letters(s)
    ensures Value(s) < Pow26(|s|) && Digits(Value(s), |s|) == s
  {
    if s != [] {
      var t := s[..|s| - 1];
      DigitsOfValue(t);
      assert s == t + [s[|s| - 1]];
      assert Value(s) / 26 == Value(t) && Value(s) % 26 == s[|s| - 1] - A;
    }
  }

  // The first k letters of a longer string drop out of the position as multiples of 26^k.
  lemma {:induction false} DigitsWrap(n: nat, k: nat)
    ensures Digits(n, k) == Digits(n % Pow26(k), k)
  {
    if k > 0 {
      var p := Pow26(k - 1);
      SplitPosition(n, p);
      DigitsWrap(n / 26, k - 1);
    }
  }

  lemma SplitPosition(n: nat, p: nat)
    requires p > 0
    ensures n % (26 * p) % 26 == n % 26
    ensures n % (26 * p) / 26 == n / 26 % p
  {
    var q, r := n / 26 / p, n / 26 % p;
    assert n / 26 == q * p + r;
    assert n == 26 * (q * p + r) + n % 26;
    assert n == q * (26 * p) + (26 * r + n % 26);
    assert 26 * r + n % 26 < 26 * p;
    DivModUnique(n, q, 26 * r + n % 26, 26 * p);
  }

  // ---------- incrementString ----------

  // The place of the last character that is not a z.
  function LastNotZ(s: seq<int>): (i: int)
    ensures -1 <= i < |s|
    ensures i >= 0 ==> s[i] != Z
    ensures forall j :: i < j < |s| ==> s[j] == Z
  {
    if s == [] then -1 else if s[|s| - 1] != Z then |s| - 1 else LastNotZ(s[..|s| - 1])
  }

  function As(n: nat): (r: seq<int>)
    ensures |r| == n
  {
    if n == 0 then [] else As(n - 1) + [A]
  }

  // One is added to the last character; a z becomes an a and passes it on.
  function Carry(s: seq<int>): (r: seq<int>)
    ensures |r| == |s|
  {
    if s == [] then []
    else
      var front, last := s[..|s| - 1], s[|s| - 1];
      if last == Z then Carry(front) + [A] else front + [last + 1]
  }

  function Incremented(s: seq<int>): (r: seq<int>)
    ensures |r| == |s|
  {
    if LastNotZ(s) < 0 then s else Carry(s)
  }

  lemma LastNotZAt(s: seq<int>, i: int)
    requires -1 <= i < |s| && (i >= 0 ==> s[i] != Z) && forall j :: i < j < |s| ==> s[j] == Z
    ensures LastNotZ(s) == i
  {
    assert i >= 0 ==> s[i] != Z;
  }

  // What incrementString writes: the last character that is not a z is incremented, all after it become a.
  lemma {:induction false} CarryAt(s: seq<int>, i: nat)
    requires i < |s| && s[i] != Z && forall j :: i < j < |s| ==> s[j] == Z
    ensures Carry(s) == s[..i] + [s[i] + 1] + As(|s| - 1 - i)
  {
    var front := s[..|s| - 1];
    if i < |s| - 1 {
      CarryAt(front, i);
      assert front[..i] == s[..i];
    }
  }

  lemma {:induction false} CarryAppend(prefix: seq<int>, s: seq<int>)
    requires LastNotZ(s) >= 0
    ensures LastNotZ(prefix + s) >= 0 && Carry(prefix + s) == prefix + Carry(s)
  {
    var t, front := prefix + s, s[..|s| - 1];
    assert t[..|t| - 1] == prefix + front && t[|t| - 1] == s[|s| - 1];
    if s[|s| - 1] == Z {
      CarryAppend(prefix, front);
    }
  }

  lemma CarryLast(s: seq<int>, c: int)
    ensures c != Z ==> LastNotZ(s + [c]) == |s| && Carry(s + [c]) == s + [c + 1]
    ensures c == Z ==> LastNotZ(s + [c]) == LastNotZ(s) && Carry(s + [c]) == Carry(s) + [A]
  {
    assert (s + [c])[..|s|] == s;
  }

  lemma {:induction false} CarryDigits(n: nat, k: nat)
    requires n + 1 < Pow26(k)
    ensures Carries(n, k)
  {
    var q, c := n / 26, n % 26;
    if c == 25 {
      PositionBelow(n, Pow26(k - 1));
      CarryDigits(q, k - 1);
    }
    CarryPosition(n, q, c, k);
  }

  // Adding one to the string at position n gives the string at the next one.
  ghost predicate Carries(n: nat, k: nat) {
    LastNotZ(Digits(n, k)) >= 0 && Carry(Digits(n, k)) == Digits(n + 1, k)
  }

  lemma CarryPosition(n: nat, q: nat, c: nat, k: nat)
    requires n == 26 * q + c && c < 26 && k > 0 && (c == 25 ==> Carries(q, k - 1))
    ensures Carries(n, k)
  {
    CarryLast(Digits(q, k - 1), A + c);
    DigitsAppend(n, q, c, k);
    if c == 25 {
      DigitsAppend(n + 1, q + 1, 0, k);
    } else {
      DigitsAppend(n + 1, q, c + 1, k);
    }
  }

  lemma DigitsAppend(n: nat, q: nat, c: nat, k: nat)
    requires n == 26 * q + c && c < 26 && k > 0
    ensures Digits(n, k) == Digits(q, k - 1) + [A + c]
  {
    DivModUnique(n, q, c, 26);
  }

  lemma PositionBelow(n: nat, p: nat)
    requires n + 1 < 26 * p && n % 26 == 25
    ensures n / 26 + 1 < p
  {
  }

  // As long as there is a next position, the increment stays within the unknown letters.
  lemma IncrementedCompletion(prefix: seq<int>, n: nat, k: nat)
    requires n + 1 < Pow26(k)
    ensures Incremented(prefix + Digits(n, k)) == prefix + Digits(n + 1, k)
  {
    CarryDigits(n, k);
    CarryAppend(prefix, Digits(n, k));
  }

  // incrementString adds 1 to the position, and stops at the last one.
  lemma {:induction false} IncrementedValue(s: seq<int>)
    requires Letters(s)
    ensures Value(s) < Pow26(|s|) && (LastNotZ(s) < 0 <==> Value(s) + 1 == Pow26(|s|))
    ensures LastNotZ(s) >= 0 ==> Letters(Incremented(s)) && Value(Incremented(s)) == Value(s) + 1
    ensures LastNotZ(s) < 0 ==> Incremented(s) == s
  {
    if s != [] {
      var front := s[..|s| - 1];
      IncrementedValue(front);
      assert Letter(s[|s| - 1]);
      assert Carry(s)[..|s| - 1] == if s[|s| - 1] == Z then Carry(front) else front;
    }
  }

  // ---------- completions ----------

  // What a hint sets up: the known letters, the number of unknown ones, the hash function and the hash to find.
  datatype Job = Job(prefix: seq<int>, unknown: nat, hash: seq<int> -> int, exp: int)

  // Completion n of the hint.
  function Candidate(job: Job, n: nat): seq<int> {
    job.prefix + Digits(n, job.unknown)
  }

  predicate Matches(job: Job, n: nat) {
    job.hash(Candidate(job, n)) == job.exp
  }

  // Different positions are different completions.
  lemma CandidateDiffers(job: Job, m: nat, n: nat)
    requires m < Pow26(job.unknown) && n < Pow26(job.unknown) && m != n
    ensures Candidate(job, m) != Candidate(job, n)
  {
    ValueOfDigits(m, job.unknown);
    ValueOfDigits(n, job.unknown);
    assert Candidate(job, m)[|job.prefix|..] == Digits(m, job.unknown);
    assert Candidate(job, n)[|job.prefix|..] == Digits(n, job.unknown);
  }

  // ---------- the code ----------

  // The number of known letters: those before the first dot.
  function PrefixLength(str: seq<int>): (n: nat)
    ensures n <= |str| && (n < |str| ==> str[n] == DOT)
    ensures forall i :: 0 <= i < n ==> str[i] != DOT
  {
    if str == [] || str[0] == DOT then 0 else 1 + PrefixLength(str[1..])
  }

  // getPrefixLength
  method GetPrefixLength(str: seq<int>) returns (n: nat)
    ensures n == PrefixLength(str)
  {
    n := 0;
    while n < |str| && str[n] != DOT
      invariant n <= |str| && PrefixLength(str) == n + PrefixLength(str[n..])
    {
      assert str[n..][1..] == str[n + 1..];
      n := n + 1;
    }
  }

  // setStringPosition on the characters of the buffer from lo on.
  method SetStringPosition(buffer: array<int>, lo: nat, position: nat)
    requires lo <= buffer.Length
    modifies buffer
    ensures buffer[..lo] == old(buffer[..lo]) && buffer[lo..] == Digits(position, buffer.Length - lo)
  {
    var p, n := buffer.Length - 1, position;
    while p >= lo
      invariant lo - 1 <= p < buffer.Length
      invariant buffer[..lo] == old(buffer[..lo])
      invariant Digits(position, buffer.Length - lo) == Digits(n, p + 1 - lo) + buffer[p + 1..]
    {
      ghost var rest := buffer[p + 1..];
      buffer[p] := A + n % 26;
      assert buffer[p..] == [A + n % 26] + rest;
      assert Digits(n, p + 1 - lo) == Digits(n / 26, p - lo) + [A + n % 26];
      n := n / 26;
      p := p - 1;
    }
    assert Digits(n, 0) == [];
  }

  // incrementString
  method IncrementString(str: array<int>) returns (r: int)
    modifies str
    ensures str[..] == Incremented(old(str[..]))
    ensures r == if LastNotZ(old(str[..])) >= 0 then 1 else 0
  {
    ghost var s := str[..];
    var p := str.Length - 1;
    while p >= 0 && str[p] == Z
      invariant -1 <= p < str.Length && str[..] == s
      invariant forall j :: p < j < |s| ==> s[j] == Z
    {
      p := p - 1;
    }
    LastNotZAt(s, p);
    if p >= 0 {
      ghost var i := p;
      CarryAt(s, i);
      str[p] := str[p] + 1;
      p := p + 1;
      while p < str.Length
        invariant i < p <= str.Length
        invariant str[..p] == s[..i] + [s[i] + 1] + As(p - 1 - i)
      {
        str[p] := A;
        p := p + 1;
      }
      assert str[..] == str[..p];
      return 1;
    } else {
      return 0;
    }
  }

  // getSubrange, for thread numbers from 1 on.
  method GetSubrange(unknown: nat, threads: nat, id: nat) returns (startIndex: nat, count: nat)
    requires 1 <= id <= threads
    ensures startIndex == RangeEnd(Pow26(unknown), threads, id - 1)
    ensures startIndex + count == RangeEnd(Pow26(unknown), threads, id) <= Pow26(unknown)
  {
    var max := 1;
    for i := 0 to unknown
      invariant max == Pow26(i)
    {
      max := max * 26;
    }
    startIndex := RangeEnd(max, threads, id - 1);
    var endIndex := RangeEnd(max, threads, id);
    RangeFacts(max, threads, id);
    if endIndex > max {
      endIndex := max;
    }
    count := endIndex - startIndex;
  }
}
