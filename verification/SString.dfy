// sstring.c on the vector, and join of shell.c.
module SString {
  import V = Vector

  // Strings are sequences of character codes other than 0.
  const SPACE: int := 32

  // ---------- split and join ----------

  // The pieces between the delimiters, the empty ones included.
  function Pieces(s: seq<int>, delimiter: int): (r: seq<seq<int>>)
    ensures |r| > 0
  {
    if s == [] then [[]]
    else
      var front, last := Pieces(s[..|s| - 1], delimiter), s[|s| - 1];
      if last == delimiter then front + [[]] else front[..|front| - 1] + [front[|front| - 1] + [last]]
  }

  function Joined(v: seq<seq<int>>, delimiter: int): seq<int> {
    if v == [] then [] else if |v| == 1 then v[0]
    else Joined(v[..|v| - 1], delimiter) + [delimiter] + v[|v| - 1]
  }

  lemma JoinedLonger(v: seq<seq<int>>, w: seq<int>, delimiter: int)
    requires v != []
    ensures Joined(v + [w], delimiter) == Joined(v, delimiter) + [delimiter] + w
  {
    assert (v + [w])[..|v|] == v;
  }

  // Joining the pieces gives the string back.
  lemma {:induction false} JoinOfPieces(s: seq<int>, delimiter: int)
    ensures Joined(Pieces(s, delimiter), delimiter) == s
  {
    if s != [] {
      var before, last := s[..|s| - 1], s[|s| - 1];
      JoinOfPieces(before, delimiter);
      var front := Pieces(before, delimiter);
      assert s == before + [last];
      if last == delimiter {
        JoinedLonger(front, [], delimiter);
      } else {
        JoinedExtended(front, last, delimiter);
      }
    }
  }

  lemma JoinedExtended(front: seq<seq<int>>, last: int, delimiter: int)
    requires front != []
    ensures Joined(front[..|front| - 1] + [front[|front| - 1] + [last]], delimiter) == Joined(front, delimiter) + [last]
  {
    var init, w := front[..|front| - 1], front[|front| - 1];
    assert front == init + [w];
    if init != [] {
      JoinedLonger(init, w, delimiter);
      JoinedLonger(init, w + [last], delimiter);
    }
  }

  // A piece without delimiters at the end of a string belongs to the last piece before it.
  lemma {:induction false} PiecesOfWord(s: seq<int>, w: seq<int>, delimiter: int)
    requires delimiter !in w
    ensures var p := Pieces(s, delimiter);
      Pieces(s + w, delimiter) == p[..|p| - 1] + [p[|p| - 1] + w]
  {
    var p := Pieces(s, delimiter);
    if w == [] {
      assert s + w == s && p[|p| - 1] + w == p[|p| - 1];
    } else {
      var front, last := w[..|w| - 1], w[|w| - 1];
      PiecesOfWord(s, front, delimiter);
      OneMoreLetter(p[..|p| - 1], p[|p| - 1], front, last, w);
      assert last in w;
      PiecesOfLetter(s + front, last, delimiter);
      assert s + w == s + front + [last];
    }
  }

  lemma PiecesOfLetter(s: seq<int>, last: int, delimiter: int)
    requires last != delimiter
    ensures var p := Pieces(s, delimiter);
      Pieces(s + [last], delimiter) == p[..|p| - 1] + [p[|p| - 1] + [last]]
  {
    assert (s + [last])[..|s|] == s;
  }

  lemma OneMoreLetter(init: seq<seq<int>>, piece: seq<int>, front: seq<int>, last: int, w: seq<int>)
    requires w == front + [last]
    ensures var q := init + [piece + front];
      q[..|q| - 1] + [q[|q| - 1] + [last]] == init + [piece + w]
  {
    assert piece + front + [last] == piece + w;
  }

  // Splitting a joined list gives the list back, if it is not empty and no element holds the delimiter.
  lemma {:induction false} PiecesOfJoin(v: seq<seq<int>>, delimiter: int)
    requires v != [] && forall w :: w in v ==> delimiter !in w
    ensures Pieces(Joined(v, delimiter), delimiter) == v
  {
    var init, w := v[..|v| - 1], v[|v| - 1];
    assert v == init + [w];
    if init == [] {
      PiecesOfWord([], w, delimiter);
      assert [] + w == w;
    } else {
      PiecesOfJoin(init, delimiter);
      var s := Joined(init, delimiter) + [delimiter];
      assert s[..|s| - 1] == Joined(init, delimiter);
      PiecesOfWord(s, w, delimiter);
    }
  }

  // The pieces of the first i characters: those that are complete, and the current one.
  ghost predicate SoFar(done: seq<seq<int>>, current: seq<int>, s: seq<int>, i: nat, delimiter: int) {
    i <= |s| && done + [current] == Pieces(s[..i], delimiter)
  }

  lemma SoFarNext(done: seq<seq<int>>, current: seq<int>, s: seq<int>, i: nat, delimiter: int)
    requires i < |s| && SoFar(done, current, s, i, delimiter)
    ensures s[i] == delimiter ==> SoFar(done + [current], [], s, i + 1, delimiter)
    ensures s[i] != delimiter ==> SoFar(done, current + [s[i]], s, i + 1, delimiter)
  {
    assert s[..i + 1][..i] == s[..i];
    assert (done + [current])[..|done|] == done;
  }

  lemma SoFarEnd(done: seq<seq<int>>, current: seq<int>, s: seq<int>, delimiter: int)
    requires SoFar(done, current, s, |s|, delimiter)
    ensures done + [current] == Pieces(s, delimiter)
  {
    assert s[..|s|] == s;
  }

  // The body of the loop in sstring_split.
  method SplitAt(toReturn: V.Vector<seq<int>>, temp: V.Vector<int>, currentChar: int, delimiter: int)
    requires toReturn.Valid() && temp.Valid()
    modifies toReturn, toReturn.elems, temp, temp.elems
    ensures toReturn.Valid() && temp.Valid()
    ensures toReturn.elems == old(toReturn.elems) || fresh(toReturn.elems)
    ensures temp.elems == old(temp.elems) || fresh(temp.elems)
    ensures currentChar == delimiter ==>
      toReturn.Contents() == old(toReturn.Contents()) + [old(temp.Contents())] && temp.Contents() == []
    ensures currentChar != delimiter ==>
      toReturn.Contents() == old(toReturn.Contents()) && temp.Contents() == old(temp.Contents()) + [currentChar]
  {
    if currentChar != delimiter {
      temp.PushBack(currentChar);
    } else {
      toReturn.PushBack(temp.Contents());
      temp.Clear();
    }
  }

  // sstring_split
  method Split(s: V.Vector<int>, delimiter: int) returns (toReturn: V.Vector<seq<int>>)
    requires s.Valid()
    ensures toReturn.Valid() && toReturn.Contents() == Pieces(s.Contents(), delimiter) && fresh(toReturn)
  {
    toReturn := new V.Vector<seq<int>>();
    var temp := new V.Vector<int>();
    ghost var chars := s.Contents();
    for i := 0 to s.size
      invariant temp.Valid() && toReturn.Valid() && fresh(temp) && fresh(temp.elems)
      invariant fresh(toReturn) && fresh(toReturn.elems)
      invariant SoFar(toReturn.Contents(), temp.Contents(), chars, i, delimiter)
    {
      SoFarNext(toReturn.Contents(), temp.Contents(), chars, i, delimiter);
      assert chars[i] == s.elems[i];
      SplitAt(toReturn, temp, s.elems[i], delimiter);
    }
    SoFarEnd(toReturn.Contents(), temp.Contents(), chars, delimiter);
    toReturn.PushBack(temp.Contents());
  }

  // sstring_append
  method Append(s: V.Vector<int>, addition: seq<int>)
    requires s.Valid()
    modifies s, s.elems
    ensures s.Valid() && s.Contents() == old(s.Contents()) + addition
    ensures s.elems == old(s.elems) || fresh(s.elems)
  {
    ghost var before := s.Contents();
    for i := 0 to |addition|
      invariant s.Valid() && s.Contents() == before + addition[..i]
      invariant s.elems == old(s.elems) || fresh(s.elems)
    {
      s.PushBack(addition[i]);
      assert addition[..i + 1] == addition[..i] + [addition[i]];
    }
  }

  // The first i words, each with a space behind it.
  ghost predicate JoinedSoFar(s: seq<int>, words: seq<seq<int>>, i: nat) {
    i <= |words| && s == if i == 0 then [] else Joined(words[..i], SPACE) + [SPACE]
  }

  lemma JoinedNext(s: seq<int>, words: seq<seq<int>>, i: nat)
    requires i < |words| && JoinedSoFar(s, words, i)
    ensures s + words[i] == Joined(words[..i + 1], SPACE)
    ensures JoinedSoFar(s + words[i] + [SPACE], words, i + 1)
  {
    assert words[..i + 1] == words[..i] + [words[i]];
    if i > 0 {
      JoinedLonger(words[..i], words[i], SPACE);
    }
  }

  // join of shell.c; there is no result for an empty vector.
  method Join(v: V.Vector<seq<int>>) returns (isNull: bool, res: seq<int>)
    requires v.Valid()
    ensures isNull <==> v.Contents() == []
    ensures !isNull ==> res == Joined(v.Contents(), SPACE)
  {
    if v.size == 0 {
      return true, [];
    }
    ghost var words := v.Contents();
    var s := new V.Vector<int>();
    for i := 0 to v.size - 1
      invariant s.Valid() && fresh(s) && fresh(s.elems)
      invariant JoinedSoFar(s.Contents(), words, i)
    {
      JoinedNext(s.Contents(), words, i);
      assert words[i] == v.elems[i];
      Append(s, v.elems[i]);
      Append(s, [SPACE]);
    }
    JoinedNext(s.Contents(), words, v.size - 1);
    assert words[..v.size] == words && words[v.size - 1] == v.elems[v.size - 1];
    Append(s, v.elems[v.size - 1]);
    return false, s.Contents();
  }

  // ---------- substitute ----------

  predicate OccursAt(s: seq<int>, target: seq<int>, p: nat) {
    p + |target| <= |s| && s[p..p + |target|] == target
  }

  // strstr: the first occurrence of target at or after p, -1 if there is none.
  function Find(s: seq<int>, target: seq<int>, p: nat): (r: int)
    requires p <= |s|
    ensures r == -1 || (r >= p && OccursAt(s, target, r))
    ensures forall q :: p <= q <= |s| && OccursAt(s, target, q) ==> 0 <= r <= q
    decreases |s| - p
  {
    if OccursAt(s, target, p) then p else if p == |s| then -1 else Find(s, target, p + 1)
  }

  // sstring_substitute: the first occurrence of target at or after offset is replaced, and nothing else.
  method Substitute(s: V.Vector<int>, offset: nat, target: seq<int>, substitution: seq<int>) returns (r: int)
    requires s.Valid()
    modifies s, s.elems
    ensures s.Valid()
    ensures r == 0 <==> offset <= |old(s.Contents())| && Find(old(s.Contents()), target, offset) >= 0
    ensures r != 0 ==> r == -1 && s.Contents() == old(s.Contents())
    ensures r == 0 ==>
      var before, p := old(s.Contents()), Find(old(s.Contents()), target, offset);
      OccursAt(before, target, p) && s.Contents() == before[..p] + substitution + before[p + |target|..]
  {
    ghost var before := s.Contents();
    if offset > s.size {
      return -1;
    }
    var position := Find(s.Contents(), target, offset);
    if position == -1 {
      return -1;
    }
    Cut(s, position, |target|);
    SplicedParts(before[..position], before[position + |target|..]);
    Paste(s, position, substitution);
    return 0;
  }

  function Spliced(a: seq<int>, mid: seq<int>, b: seq<int>): seq<int> {
    a + mid + b
  }

  // The first loop of sstring_substitute.
  method Cut(s: V.Vector<int>, position: nat, length: nat)
    requires s.Valid() && position + length <= s.size
    modifies s, s.elems
    ensures s.Valid() && s.elems == old(s.elems)
    ensures s.Contents() == Spliced(old(s.Contents())[..position], [], old(s.Contents())[position + length..])
  {
    ghost var before := s.Contents();
    assert Spliced(before[..position], [], before[position..]) == before;
    for i := 0 to length
      invariant s.Valid() && s.Contents() == Spliced(before[..position], [], before[position + i..])
      invariant s.elems == old(s.elems)
    {
      RemovedNext(before, position, i);
      s.Erase(position);
    }
  }

  lemma SplicedParts(a: seq<int>, b: seq<int>)
    ensures Spliced(a, [], b)[..|a|] == a && Spliced(a, [], b)[|a|..] == b
  {
  }

  lemma RemovedNext(s: seq<int>, position: nat, i: nat)
    requires position + i < |s|
    ensures V.Removed(Spliced(s[..position], [], s[position + i..]), position)
      == Spliced(s[..position], [], s[position + i + 1..])
  {
  }

  // The second one.
  method Paste(s: V.Vector<int>, position: nat, substitution: seq<int>)
    requires s.Valid() && position <= s.size
    modifies s, s.elems
    ensures s.Valid() && (s.elems == old(s.elems) || fresh(s.elems))
    ensures s.Contents() == Spliced(old(s.Contents())[..position], substitution, old(s.Contents())[position..])
  {
    ghost var a, b := s.Contents()[..position], s.Contents()[position..];
    var j := |substitution| - 1;
    assert Spliced(a, substitution[j + 1..], b) == s.Contents();
    while j >= 0
      invariant -1 <= j < |substitution| && s.Valid()
      invariant s.Contents() == Spliced(a, substitution[j + 1..], b)
      invariant s.elems == old(s.elems) || fresh(s.elems)
    {
      InsertedNext(a, substitution, j, b);
      s.Insert(position, substitution[j]);
      j := j - 1;
    }
    assert substitution[0..] == substitution;
  }

  lemma InsertedNext(a: seq<int>, mid: seq<int>, j: nat, b: seq<int>)
    requires j < |mid|
    ensures V.Inserted(Spliced(a, mid[j + 1..], b), |a|, mid[j]) == Spliced(a, mid[j..], b)
  {
  }
}
