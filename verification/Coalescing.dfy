// Between the calls of malloc, free and realloc no two neighbouring blocks are both free: the pair that resize
// can make is gone before malloc returns.
module Coalescing {
  import opened HeapLayout

  ghost predicate Coalesced(st: State) {
    forall i :: 0 <= i < |st.cells| - 1 ==> !(st.cells[i].free && st.cells[i + 1].free)
  }

  lemma {:induction false} NoPairs(cells: seq<Cell>)
    ensures Pairs(cells) == 0 <==> forall i :: 0 <= i < |cells| - 1 ==> !(cells[i].free && cells[i + 1].free)
  {
    if |cells| >= 2 {
      NoPairs(cells[1..]);
      assert forall i :: 0 < i < |cells| - 1 ==> cells[i] == cells[1..][i - 1] && cells[i + 1] == cells[1..][i];
    }
  }

  // What is left of the pairs when the free block k has been taken.
  lemma TakePairs(st: State, k: nat, size: nat)
    requires Inv(st) && k < |st.cells| && st.cells[k].free && size <= st.cells[k].size
    requires st.cells[k].addr in st.order
    ensures Pairs(Take(st, k, size).cells) <=
      Pairs(st.cells[..k]) + Seam([st.cells[k]], st.cells[k + 1..]) + Pairs(st.cells[k + 1..])
  {
    var c, a, b := st.cells[k], st.cells[..k], st.cells[k + 1..];
    CutFacts(c, size);
    CutSeams(a, [c], c, size, b);
    PairsOfThree(a, Cut(c, size), b);
  }

  lemma PairsAround(cells: seq<Cell>, k: nat)
    requires k < |cells|
    ensures Pairs(cells[..k]) + Seam([cells[k]], cells[k + 1..]) + Pairs(cells[k + 1..]) <= Pairs(cells)
  {
    assert cells == cells[..k] + [cells[k]] + cells[k + 1..];
    PairsOfThree(cells[..k], [cells[k]], cells[k + 1..]);
  }

  // malloc: the block that resize has added is the one that is taken, from its start.
  lemma MallocPairs(st: State, size: nat)
    requires Inv(st) && Pairs(st.cells) == 0
    ensures Pairs(Malloc(st, size).0.cells) == 0
  {
    var need := Align(size);
    var st1 := if st.cells == [] then Start(need) else st;
    MallocSteps(st1, need);
    var i := FirstFit(st1.order, st1.cells, need);
    if i < |st1.order| {
      var k := Position(st1.cells, st1.order[i]);
      TakePairs(st1, k, need);
      PairsAround(st1.cells, k);
    } else {
      GrowKeeps(st1, need);
      var st2, k := Grow(st1, need), |st1.cells|;
      TakePairs(st2, k, need);
      assert st2.cells[..k] == st1.cells && st2.cells[k + 1..] == [];
    }
  }

  lemma ExchangedPairs(a: seq<Cell>, mid: seq<Cell>, mid': seq<Cell>, b: seq<Cell>)
    requires mid != [] && mid' != []
    requires Seam(a, mid') <= Seam(a, mid) && Seam(mid', b) <= Seam(mid, b) && Pairs(mid') <= Pairs(mid)
    ensures Pairs(a + mid' + b) <= Pairs(a + mid + b)
  {
    PairsOfThree(a, mid, b);
    PairsOfThree(a, mid', b);
  }

  lemma FreePairs(st: State, k: nat)
    requires Inv(st) && k < |st.cells| && !st.cells[k].free && Pairs(st.cells) == 0
    ensures Pairs(HeapLayout.Free(st, k).cells) == 0
  {
    var lo, hi := Low(st.cells, k), High(st.cells, k);
    SplitAt(st.cells, lo, hi);
    FreedSeams(st.cells, k);
    ExchangedPairs(st.cells[..lo], st.cells[lo..hi], [Freed(st.cells, k)], st.cells[hi..]);
  }

  lemma ExtendPairs(st: State, k: nat, size: nat)
    requires Inv(st) && k < |st.cells| && !st.cells[k].free && CanExtend(st.cells, k, size) && Pairs(st.cells) == 0
    ensures Pairs(Extend(st, k, size).cells) == 0
  {
    var e, t := st.cells[k], st.cells[k + 1];
    var a, b := st.cells[..k], st.cells[k + 2..];
    SplitAt(st.cells, k, k + 2);
    assert st.cells[k..k + 2] == [e, t];
    CutFacts(Merge(e, t), size);
    CutSeams(a, [e, t], Merge(e, t), size, b);
    ExchangedPairs(a, [e, t], Cut(Merge(e, t), size), b);
  }

  lemma ReallocPairs(st: State, k: nat, size: nat)
    requires Inv(st) && k < |st.cells| && !st.cells[k].free && Pairs(st.cells) == 0
    ensures Pairs(Realloc(st, k, size).0.cells) == 0
  {
    if size == 0 {
      FreePairs(st, k);
    } else if st.cells[k].size >= size {
    } else if CanExtend(st.cells, k, size) {
      ExtendPairs(st, k, size);
    } else {
      MallocKeeps(st, size);
      MallocPairs(st, size);
      var m := Malloc(st, size).0;
      StillThere(st, m, k);
      FreePairs(m, Position(m.cells, st.cells[k].addr));
    }
  }

  lemma StepPairs(st: State, op: Op, st': State)
    requires Inv(st) && Follows(st, op, st') && Pairs(st.cells) == 0
    ensures Pairs(st'.cells) == 0
  {
    match op {
      case DoMalloc(size) => MallocPairs(st, size);
      case DoFree(addr) => FreePairs(st, Position(st.cells, addr));
      case DoRealloc(addr, size) => ReallocPairs(st, Position(st.cells, addr), size);
    }
  }

  lemma InitialPairs()
    ensures Pairs(Initial.cells) == 0
  {
  }

  // What one step of a run does.
  lemma RunStep(states: seq<State>, ops: seq<Op>, i: nat)
    requires IsRun(states, ops) && i + 1 < |states|
    ensures Pairs(states[i].cells) == 0 ==> Pairs(states[i + 1].cells) == 0
  {
    EveryRun(states, ops, i);
    assert Follows(states[i], ops[i], states[i + 1]);
    if Pairs(states[i].cells) == 0 {
      StepPairs(states[i], ops[i], states[i + 1]);
    }
  }

  lemma {:induction false} RunPairs(states: seq<State>, ops: seq<Op>, i: nat)
    requires IsRun(states, ops) && i < |states|
    ensures Pairs(states[i].cells) == 0
  {
    if i == 0 {
      InitialPairs();
    } else {
      RunPairs(states, ops, i - 1);
      RunStep(states, ops, i - 1);
    }
  }

  // In every state of every run no two neighbouring blocks are both free.
  lemma RunsStayCoalesced(states: seq<State>, ops: seq<Op>, i: nat)
    requires IsRun(states, ops) && i < |states|
    ensures Coalesced(states[i])
  {
    RunPairs(states, ops, i);
    NoPairs(states[i].cells);
  }

  // Within malloc there can be such a pair: resize does not look at the last block.
  lemma ResizeMakesPair(st: State, size: nat)
    requires Inv(st) && st.cells != [] && Pairs(st.cells) == 0
    ensures st.capacity > 0
    ensures Pairs(Grow(st, size).cells) == if st.cells[|st.cells| - 1].free then 1 else 0
  {
    GrowKeeps(st, size);
    var c := Grow(st, size).cells[|st.cells|];
    PairsOfConcat(st.cells, [c]);
  }
}
