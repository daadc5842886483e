// splitter.c: a file is cut into chunks at the ends of lines.
module Splitter {
  import opened Ranges

  const NEWLINE: int := 10

  // nextLine
  function LineEnd(data: seq<int>, p: nat): (q: nat)
    requires p <= |data|
    ensures p <= q <= |data| && (p < |data| ==> p < q)
    ensures q < |data| ==> q > 0 && data[q - 1] == NEWLINE
    ensures forall j :: p <= j < q - 1 ==> data[j] != NEWLINE
    decreases |data| - p
  {
    if p == |data| then p else if data[p] == NEWLINE then p + 1 else LineEnd(data, p + 1)
  }

  method NextLine(data: seq<int>, p: nat) returns (q: nat)
    requires p <= |data|
    ensures q == LineEnd(data, p)
  {
    q := p;
    while q < |data|
      invariant p <= q <= |data| && LineEnd(data, q) == LineEnd(data, p)
    {
      if data[q] == NEWLINE {
        return q + 1;
      }
      q := q + 1;
    }
  }

  // Where chunk i begins and chunk i - 1 ends.
  function Cut(data: seq<int>, count: nat, i: nat): (q: nat)
    requires count > 0 && i <= count
    ensures q <= |data|
  {
    RangesGrow(|data|, count, i, count);
    LastRange(|data|, count);
    if i == 0 then 0 else if i == count then |data| else LineEnd(data, RangeEnd(|data|, count, i))
  }

  function Chunk(data: seq<int>, count: nat, i: nat): seq<int>
    requires i < count
  {
    if Cut(data, count, i) <= Cut(data, count, i + 1) then data[Cut(data, count, i)..Cut(data, count, i + 1)] else []
  }

  // getSubrange and write_portion
  method WritePortion(data: seq<int>, count: nat, index: nat) returns (output: seq<int>)
    requires index < count
    ensures output == Chunk(data, count, index)
  {
    RangesGrow(|data|, count, index, index + 1);
    RangesGrow(|data|, count, index + 1, count);
    LastRange(|data|, count);
    var startOffset, endOffset := RangeEnd(|data|, count, index), RangeEnd(|data|, count, index + 1);
    if endOffset > |data| {
      endOffset := |data|;
    }
    var startPtr, endPtr;
    if index == 0 {
      startPtr := 0;
    } else {
      startPtr := NextLine(data, startOffset);
    }
    if index == count - 1 {
      endPtr := |data|;
    } else {
      endPtr := NextLine(data, endOffset);
    }
    output := [];
    if endPtr > startPtr {
      output := data[startPtr..endPtr];
    }
  }

  lemma {:induction false} LineEndsGrow(data: seq<int>, p: nat, q: nat)
    requires p <= q <= |data|
    ensures LineEnd(data, p) <= LineEnd(data, q)
    decreases q - p
  {
    if p < q && data[p] != NEWLINE {
      LineEndsGrow(data, p + 1, q);
    }
  }

  // No chunk ends before it begins, and no line is broken up: every cut is at the end of a line, or at one
  // of the ends of the file.
  ghost predicate CutIs(data: seq<int>, cuts: seq<nat>, i: nat)
    requires i + 1 < |cuts|
  {
    && cuts[i] <= cuts[i + 1] <= |data|
    && (0 < cuts[i] < |data| ==> data[cuts[i] - 1] == NEWLINE)
  }

  ghost predicate CutsAreFine(data: seq<int>, cuts: seq<nat>) {
    && |cuts| > 0 && cuts[0] == 0 && cuts[|cuts| - 1] == |data|
    && forall i :: 0 <= i < |cuts| - 1 ==> CutIs(data, cuts, i)
  }

  // Between the first and the last, cut i is behind the first newline at or after the i-th of the equal parts of the
  // file, or the end of the file if there is none.
  lemma CutIsNext(data: seq<int>, count: nat, i: nat)
    requires 0 < i < count
    ensures var p, q := |data| * i / count, Cut(data, count, i);
      && 0 <= p <= q <= |data| && (p < |data| ==> p < q)
      && (q < |data| ==> data[q - 1] == NEWLINE)
      && forall j :: p <= j < q - 1 ==> data[j] != NEWLINE
    ensures Cut(data, count, 0) == 0 && Cut(data, count, count) == |data|
  {
    RangesGrow(|data|, count, i, count);
    LastRange(|data|, count);
  }

  function Cuts(data: seq<int>, count: nat): (r: seq<nat>)
    requires count > 0
    ensures |r| == count + 1 && forall i :: 0 <= i <= count ==> r[i] == Cut(data, count, i)
  {
    seq(count + 1, i requires 0 <= i <= count => Cut(data, count, i))
  }

  lemma CutsFine(data: seq<int>, count: nat)
    requires count > 0
    ensures CutsAreFine(data, Cuts(data, count))
  {
    var cuts := Cuts(data, count);
    LastRange(|data|, count);
    forall i | 0 <= i < count ensures CutIs(data, cuts, i) {
      RangesGrow(|data|, count, i, i + 1);
      RangesGrow(|data|, count, i + 1, count);
      if 0 < i && i + 1 < count {
        LineEndsGrow(data, RangeEnd(|data|, count, i), RangeEnd(|data|, count, i + 1));
      }
    }
  }

  // The pieces before piece i, one after the other.
  function Joined(data: seq<int>, cuts: seq<nat>, i: nat): seq<int>
    requires i < |cuts|
  {
    if i == 0 then [] else Joined(data, cuts, i - 1) + Piece(data, cuts, i - 1)
  }

  function Piece(data: seq<int>, cuts: seq<nat>, i: nat): seq<int>
    requires i + 1 < |cuts|
  {
    if cuts[i] <= cuts[i + 1] <= |data| then data[cuts[i]..cuts[i + 1]] else []
  }

  // The pieces before piece i are the file up to its beginning.
  ghost predicate JoinsTo(data: seq<int>, cuts: seq<nat>, i: nat)
    requires i < |cuts|
  {
    cuts[i] <= |data| && Joined(data, cuts, i) == data[..cuts[i]]
  }

  lemma {:induction false} JoinedPrefix(data: seq<int>, cuts: seq<nat>, i: nat)
    requires CutsAreFine(data, cuts) && i < |cuts|
    ensures JoinsTo(data, cuts, i)
  {
    if i == 0 {
      assert data[..0] == [];
    } else {
      assert CutIs(data, cuts, i - 1);
      JoinedPrefix(data, cuts, i - 1);
      NextPrefix(data, cuts, i);
    }
  }

  lemma NextPrefix(data: seq<int>, cuts: seq<nat>, i: nat)
    requires 0 < i < |cuts| && CutIs(data, cuts, i - 1) && JoinsTo(data, cuts, i - 1)
    ensures JoinsTo(data, cuts, i)
  {
    NextPart(data, cuts[i - 1], cuts[i]);
  }

  lemma NextPart(data: seq<int>, p: nat, q: nat)
    requires p <= q <= |data|
    ensures data[..p] + data[p..q] == data[..q]
  {
  }

  // The pieces between the cuts are the chunks, and all chunks together are the file.
  lemma ChunksAreTheFile(data: seq<int>, count: nat)
    requires count > 0
    ensures forall i :: 0 <= i < count ==> Piece(data, Cuts(data, count), i) == Chunk(data, count, i)
    ensures Joined(data, Cuts(data, count), count) == data
  {
    var cuts := Cuts(data, count);
    CutsFine(data, count);
    JoinedPrefix(data, cuts, count);
    forall i | 0 <= i < count ensures Piece(data, cuts, i) == Chunk(data, count, i) {
      assert CutIs(data, cuts, i);
    }
  }
}
