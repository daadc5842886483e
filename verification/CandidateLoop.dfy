// The loop of cracker1.c over the completions of one hint, and exactly when it ends.
module CandidateLoop {
  import opened Words
  import opened SearchSpace

  // The locals temp, hashCount and fail, and whether the loop goes on.
  datatype Search = Search(text: seq<int>, hashCount: nat, fail: bool, looping: bool)

  function Begin(job: Job): Search {
    AtCompletion(job, 0)
  }

  // The search when it has come to completion k.
  function AtCompletion(job: Job, k: nat): Search {
    Search(Candidate(job, k), k, true, true)
  }

  // One pass: the text is hashed; unless that matches it is incremented, and the loop is left when that has
  // changed a known letter.
  function Pass(job: Job, s: Search): (r: Search)
    ensures r.hashCount == s.hashCount + 1 && (r.looping ==> r.fail == s.fail)
  {
    if job.hash(s.text) == job.exp then Search(s.text, s.hashCount + 1, false, false)
    else
      var next := Incremented(s.text);
      Search(next, s.hashCount + 1, s.fail, job.prefix <= next)
  }

  // The search after k passes, or after its last one if there are fewer.
  function After(job: Job, k: nat): Search {
    if k == 0 then Begin(job)
    else
      var s := After(job, k - 1);
      if s.looping then Pass(job, s) else s
  }

  // hashCount is an int, which the next pass must not take beyond its largest value: the search has to end
  // before that.
  ghost predicate Ends(job: Job) {
    exists k: nat :: k < INT_LIMIT && !After(job, k).looping
  }

  // What the search would come to an end for, if hashCount had no largest value.
  ghost predicate Endable(job: Job) {
    LastNotZ(job.prefix) >= 0 || Crackable(job)
  }

  ghost predicate Crackable(job: Job) {
    exists n :: 0 <= n < Pow26(job.unknown) && Matches(job, n)
  }

  // None of the first k completions has the hash.
  ghost predicate NoneBefore(job: Job, k: nat) {
    forall n :: 0 <= n < k ==> !Matches(job, n)
  }

  // The number of passes that a search which ends takes: up to the first match, or one per completion.
  ghost function Passes(job: Job): nat {
    if Crackable(job) then
      var n :| 0 <= n < Pow26(job.unknown) && Matches(job, n);
      FirstMatch(job, n) + 1
    else Pow26(job.unknown)
  }

  ghost function FirstMatch(job: Job, n: nat): (m: nat)
    requires Matches(job, n)
    ensures m <= n && Matches(job, m) && NoneBefore(job, m)
  {
    if exists i :: 0 <= i < n && Matches(job, i) then
      var i: nat :| i < n && Matches(job, i);
      FirstMatch(job, i)
    else n
  }

  lemma PassesOf(job: Job) returns (k: nat)
    ensures k + 1 == Passes(job) <= Pow26(job.unknown) && NoneBefore(job, k)
    ensures if Crackable(job) then Matches(job, k) else k + 1 == Pow26(job.unknown) && NoneBefore(job, k + 1)
  {
    k := Passes(job) - 1;
  }

  // ---------- the passes one by one ----------

  lemma NextPass(job: Job, k: nat)
    requires k + 1 < Pow26(job.unknown) && !Matches(job, k)
    ensures Pass(job, AtCompletion(job, k)) == AtCompletion(job, k + 1)
  {
    IncrementedCompletion(job.prefix, k, job.unknown);
  }

  lemma NotBefore(job: Job, i: nat, k: nat)
    requires i < k && NoneBefore(job, k)
    ensures NoneBefore(job, i) && !Matches(job, i)
  {
  }

  lemma AfterPass(job: Job, k: nat, s: Search)
    requires After(job, k) == s && s.looping
    ensures After(job, k + 1) == Pass(job, s)
  {
  }

  // As long as nothing has matched, pass k hashes completion k.
  lemma {:induction false} PassIsCompletion(job: Job, k: nat)
    requires k < Pow26(job.unknown) && NoneBefore(job, k)
    ensures After(job, k) == AtCompletion(job, k)
  {
    if k > 0 {
      var i, s := k - 1, AtCompletion(job, k - 1);
      NotBefore(job, i, k);
      PassIsCompletion(job, i);
      AfterPass(job, i, s);
      NextPass(job, i);
    }
  }

  // The last completion ends with as many z as there are unknown letters.
  lemma LastCompletion(job: Job)
    ensures var last := Digits(Pow26(job.unknown) - 1, job.unknown);
      LastNotZ(last) < 0 && Candidate(job, Pow26(job.unknown) - 1) == job.prefix + last
  {
    var last := Digits(Pow26(job.unknown) - 1, job.unknown);
    ValueOfDigits(Pow26(job.unknown) - 1, job.unknown);
    IncrementedValue(last);
  }

  lemma {:induction false} LastNotZAppend(prefix: seq<int>, s: seq<int>)
    requires LastNotZ(s) < 0
    ensures LastNotZ(prefix + s) == LastNotZ(prefix)
  {
    var i := LastNotZ(prefix);
    forall j | i < j < |prefix + s| ensures (prefix + s)[j] == Z {
    }
    LastNotZAt(prefix + s, i);
  }

  // Incrementing the last completion changes a known letter, if one of them is not a z; otherwise it does nothing.
  lemma AfterLastCompletion(job: Job)
    ensures var last := Candidate(job, Pow26(job.unknown) - 1);
      if LastNotZ(job.prefix) >= 0 then !(job.prefix <= Incremented(last)) else Incremented(last) == last
  {
    LastCompletion(job);
    var zs := Digits(Pow26(job.unknown) - 1, job.unknown);
    LastNotZAppend(job.prefix, zs);
    var i := LastNotZ(job.prefix);
    if i >= 0 {
      var last := job.prefix + zs;
      CarryAt(last, i);
      assert Incremented(last)[i] == job.prefix[i] + 1;
    }
  }

  lemma {:induction false} StaysEnded(job: Job, k: nat, n: nat)
    requires !After(job, k).looping && k <= n
    ensures After(job, n) == After(job, k)
  {
    if k < n {
      StaysEnded(job, k, n - 1);
    }
  }

  // ---------- whether it ends ----------

  lemma MatchingPass(job: Job, k: nat)
    requires Matches(job, k)
    ensures Pass(job, AtCompletion(job, k)) == Search(Candidate(job, k), k + 1, false, false)
  {
  }

  lemma LeavingPass(job: Job, k: nat)
    requires k + 1 == Pow26(job.unknown) && LastNotZ(job.prefix) >= 0 && !Matches(job, k)
    ensures Pass(job, AtCompletion(job, k)) == Search(Incremented(Candidate(job, k)), k + 1, true, false)
  {
    AfterLastCompletion(job);
  }

  lemma StuckPass(job: Job, k: nat)
    requires LastNotZ(job.prefix) < 0 && !Matches(job, Pow26(job.unknown) - 1)
    ensures Pass(job, Stuck(job, k)) == Stuck(job, k + 1)
  {
    AfterLastCompletion(job);
    assert job.prefix <= Candidate(job, Pow26(job.unknown) - 1);
  }

  // The search that has hashed the last completion and still goes on.
  function Stuck(job: Job, k: nat): Search {
    Search(Candidate(job, Pow26(job.unknown) - 1), k, true, true)
  }

  // A search ends with the pass that hashes the first match, or else with the pass after the last completion.
  lemma MatchEnds(job: Job, k: nat)
    requires k < Pow26(job.unknown) && NoneBefore(job, k) && Matches(job, k)
    ensures After(job, k + 1) == Search(Candidate(job, k), k + 1, false, false)
  {
    PassIsCompletion(job, k);
    AfterPass(job, k, AtCompletion(job, k));
    MatchingPass(job, k);
  }

  lemma LeavingEnds(job: Job, k: nat)
    requires k + 1 == Pow26(job.unknown) && LastNotZ(job.prefix) >= 0 && NoneBefore(job, k + 1)
    ensures After(job, k + 1) == Search(Incremented(Candidate(job, k)), k + 1, true, false)
  {
    NotBefore(job, k, k + 1);
    PassIsCompletion(job, k);
    AfterPass(job, k, AtCompletion(job, k));
    LeavingPass(job, k);
  }

  // The search after its last pass.
  ghost function Last(job: Job): Search {
    var last := Candidate(job, Passes(job) - 1);
    Search(if Crackable(job) then last else Incremented(last), Passes(job), !Crackable(job), false)
  }

  lemma SearchEnds(job: Job)
    requires Endable(job)
    ensures After(job, Passes(job)) == Last(job)
  {
    var k := PassesOf(job);
    if Crackable(job) {
      MatchEnds(job, k);
    } else {
      LeavingEnds(job, k);
    }
  }

  // A search with neither comes to its last completion, and hashes that again and again.
  lemma {:induction false} SearchGoesOn(job: Job, k: nat)
    requires LastNotZ(job.prefix) < 0 && !Crackable(job) && k >= Pow26(job.unknown) - 1
    ensures After(job, k) == Stuck(job, k)
  {
    var i, last := k - 1, Pow26(job.unknown) - 1;
    if k == last {
      PassIsCompletion(job, k);
    } else {
      SearchGoesOn(job, i);
      AfterPass(job, i, Stuck(job, i));
      StuckPass(job, i);
    }
  }

  // Otherwise no pass is the last.
  lemma NeverEnds(job: Job, k: nat)
    requires !Endable(job)
    ensures After(job, k).looping
  {
    if k < Pow26(job.unknown) {
      PassIsCompletion(job, k);
    } else {
      SearchGoesOn(job, k);
    }
  }

  // Before its last pass a search goes on.
  lemma GoesOnUntil(job: Job, k: nat)
    requires k < Passes(job)
    ensures After(job, k) == AtCompletion(job, k)
  {
    var last := PassesOf(job);
    PassIsCompletion(job, k);
  }

  lemma EndedIsLast(job: Job, k: nat)
    requires !After(job, k).looping
    ensures Endable(job) && Passes(job) <= k && After(job, k) == Last(job)
  {
    if !Endable(job) {
      NeverEnds(job, k);
    }
    SearchEnds(job);
    if k < Passes(job) {
      GoesOnUntil(job, k);
    } else {
      StaysEnded(job, Passes(job), k);
    }
  }

  // When it has ended it says whether some completion has the hash, and the text is the first that has.
  lemma EndedSearch(job: Job, k: nat)
    requires !After(job, k).looping
    ensures var s := After(job, k);
      && s.fail == !Crackable(job) && s.hashCount == Passes(job) <= k
      && (!s.fail ==> s.text == Candidate(job, s.hashCount - 1) && job.hash(s.text) == job.exp)
  {
    EndedIsLast(job, k);
    var last := PassesOf(job);
  }

  // Pass i hashes completion i, and no two passes hash the same text.
  lemma HashedOnce(job: Job, i: nat, j: nat)
    requires i < Passes(job) && j < Passes(job)
    ensures After(job, i).looping && After(job, i).text == Candidate(job, i)
    ensures i != j ==> After(job, i).text != After(job, j).text
  {
    var last := PassesOf(job);
    GoesOnUntil(job, i);
    GoesOnUntil(job, j);
    if i != j {
      CandidateDiffers(job, i, j);
    }
  }

  // The loop ends within the values of hashCount exactly if a known letter is not a z, or some completion has
  // the hash, and the passes up to there are few enough.
  lemma EndsIff(job: Job)
    ensures Ends(job) <==> Endable(job) && Passes(job) < INT_LIMIT
  {
    if Endable(job) && Passes(job) < INT_LIMIT {
      SearchEnds(job);
      assert !After(job, Passes(job)).looping;
    }
    if Ends(job) {
      var k: nat :| k < INT_LIMIT && !After(job, k).looping;
      EndedIsLast(job, k);
    }
  }

  // What a hint alone says: the loop ends, whatever the hash and the hash function, if and only if some known
  // letter is not a z and there are at most six unknown letters.
  lemma EndsForEveryHash(prefix: seq<int>, unknown: nat)
    ensures (forall hash: seq<int> -> int, exp: int :: Ends(Job(prefix, unknown, hash, exp)))
      <==> LastNotZ(prefix) >= 0 && unknown <= 6
  {
    IntHolds(unknown);
    if LastNotZ(prefix) >= 0 && unknown <= 6 {
      forall hash: seq<int> -> int, exp: int ensures Ends(Job(prefix, unknown, hash, exp)) {
        var job := Job(prefix, unknown, hash, exp);
        EndsIff(job);
        var last := PassesOf(job);
      }
    } else {
      var job := Job(prefix, unknown, s => 0, 1);
      EndsIff(job);
      assert !Crackable(job);
    }
  }

  // As long as a search that ends goes on, it has not come to its last pass.
  lemma LoopingBefore(job: Job, k: nat)
    requires Ends(job) && After(job, k).looping
    ensures k < Passes(job) < INT_LIMIT
  {
    EndsIff(job);
    SearchEnds(job);
    if Passes(job) <= k {
      StaysEnded(job, Passes(job), k);
    }
  }

  lemma SingleLetter(job: Job, n: nat)
    requires job.prefix == [] && job.unknown == 1 && n < 26
    ensures Candidate(job, n) == [A + n] && Pow26(1) == 26
  {
    assert Digits(n, 1) == [A + n];
  }

  // The hint "." for a hash that no letter has: the loop does not end, and from pass 25 on it hashes "z".
  lemma SingleDotNeverEnds(job: Job)
    requires job.prefix == [] && job.unknown == 1 && forall c :: Letter(c) ==> job.hash([c]) != job.exp
    ensures !Ends(job) && !Crackable(job)
    ensures forall k: nat :: k >= 25 ==> After(job, k).looping && After(job, k).text == [Z]
  {
    forall n | 0 <= n < 26 ensures !Matches(job, n) {
      SingleLetter(job, n);
    }
    SingleLetter(job, 25);
    EndsIff(job);
    forall k: nat | k >= 25 ensures After(job, k).looping && After(job, k).text == [Z] {
      SearchGoesOn(job, k);
    }
  }

  // ---------- the code ----------

  // The buffer in which the search begins.
  method CopyHint(hint: seq<int>, prefixLength: nat) returns (text: array<int>)
    requires prefixLength <= |hint|
    ensures fresh(text) && text[..] == hint[..prefixLength] + Digits(0, |hint| - prefixLength)
  {
    text := new int[|hint|](i requires 0 <= i < |hint| => hint[i]);
    assert text[..] == hint;
    SetStringPosition(text, prefixLength, 0);
    assert text[..] == text[..prefixLength] + text[prefixLength..];
    assert hint[..prefixLength] == text[..prefixLength];
  }

  // What a hint sets up, for a hash function and the hash to find.
  ghost function JobOf(hint: seq<int>, hash: seq<int> -> int, exp: int): Job {
    Job(hint[..PrefixLength(hint)], |hint| - PrefixLength(hint), hash, exp)
  }

  // The locals have the values of s.
  predicate Is(s: Search, text: seq<int>, hashCount: nat, fail: bool, looping: bool) {
    s.text == text && s.hashCount == hashCount && s.fail == fail && s.looping == looping
  }

  // The body of the loop.
  method TryOne(text: array<int>, hint: seq<int>, prefixLength: nat, hash: seq<int> -> int, exp: int,
                ghost s: Search)
    returns (fail: bool, looping: bool)
    requires prefixLength == PrefixLength(hint) <= text.Length
    requires s.text == text[..] && s.fail && s.looping
    modifies text
    ensures Is(Pass(JobOf(hint, hash, exp), s), text[..], s.hashCount + 1, fail, looping)
  {
    if hash(text[..]) == exp {
      return false, false;
    }
    var r := IncrementString(text);
    return true, text[..prefixLength] == hint[..prefixLength];
  }

  // What is so before each pass, and after the last one.
  ghost predicate Follows(job: Job, s: Search) {
    s == After(job, s.hashCount) && (s.looping ==> s.fail)
  }

  lemma FollowsOn(job: Job, s: Search)
    requires Follows(job, s) && s.looping && Ends(job)
    ensures Follows(job, Pass(job, s)) && s.hashCount < Passes(job) < INT_LIMIT
  {
    var k := s.hashCount;
    LoopingBefore(job, k);
    AfterPass(job, k, s);
  }

  // The whole search for one hint. It has to be one whose search ends.
  method Crack(hint: seq<int>, hash: seq<int> -> int, exp: int)
    returns (text: array<int>, hashCount: i32, fail: bool)
    requires var job := JobOf(hint, hash, exp); Endable(job) && Passes(job) < INT_LIMIT
    ensures var job := JobOf(hint, hash, exp);
      && fail == !Crackable(job) && hashCount == Passes(job)
      && (!fail ==> text[..] == Candidate(job, hashCount - 1) && hash(text[..]) == exp)
  {
    ghost var job := JobOf(hint, hash, exp);
    EndsIff(job);
    var prefixLength := GetPrefixLength(hint);
    text := CopyHint(hint, prefixLength);
    hashCount, fail := 0, true;
    var looping := true;
    ghost var s := Begin(job);
    while looping
      invariant text.Length == |hint| && fresh(text)
      invariant Is(s, text[..], hashCount, fail, looping) && Follows(job, s)
      decreases Passes(job) - hashCount, looping
    {
      FollowsOn(job, s);
      fail, looping := TryOne(text, hint, prefixLength, hash, exp, s);
      s := Pass(job, s);
      hashCount := hashCount + 1;
    }
    EndedSearch(job, hashCount);
  }
}
