// What malloc, free and realloc do, block by block: which block they choose, where they cut and join, and what
// becomes of the free list.
module HeapEffects {
  import opened Sequences
  import opened HeapLayout

  // ---------- the list without some entries ----------

  function Minus(s: seq<nat>, gone: set<nat>): seq<nat> {
    if s == [] then [] else (if s[0] in gone then [] else [s[0]]) + Minus(s[1..], gone)
  }

  lemma {:induction false} MinusConcat(a: seq<nat>, b: seq<nat>, gone: set<nat>)
    ensures Minus(a + b, gone) == Minus(a, gone) + Minus(b, gone)
  {
    if a == [] {
      assert a + b == b;
    } else {
      assert (a + b)[1..] == a[1..] + b;
      MinusConcat(a[1..], b, gone);
    }
  }

  lemma {:induction false} MinusTwice(s: seq<nat>, gone: set<nat>, more: set<nat>)
    ensures Minus(Minus(s, gone), more) == Minus(s, gone + more)
  {
    if s != [] {
      var first := if s[0] in gone then [] else [s[0]];
      MinusTwice(s[1..], gone, more);
      MinusConcat(first, Minus(s[1..], gone), more);
    }
  }

  lemma {:induction false} MinusNothing(s: seq<nat>, gone: set<nat>)
    requires forall x :: x in s ==> x !in gone
    ensures Minus(s, gone) == s
  {
    if s != [] {
      MinusNothing(s[1..], gone);
    }
  }

  lemma WithoutIsMinus(s: seq<nat>, x: nat)
    requires Distinct(s) && x in s
    ensures Without(s, x) == Minus(s, {x})
  {
    var i := IndexOf(s, x);
    assert s == s[..i] + [x] + s[i + 1..];
    OnlyOnce(s, i);
    MinusMiddle(s[..i], x, s[i + 1..]);
  }

  lemma OnlyOnce(s: seq<nat>, i: nat)
    requires Distinct(s) && i < |s|
    ensures s[i] !in s[..i] && s[i] !in s[i + 1..]
  {
  }

  lemma MinusMiddle(a: seq<nat>, x: nat, b: seq<nat>)
    requires x !in a && x !in b
    ensures Minus(a + [x] + b, {x}) == a + b
  {
    MinusConcat(a + [x], b, {x});
    MinusLast(a, x);
    MinusNothing(b, {x});
  }

  lemma MinusLast(a: seq<nat>, x: nat)
    requires x !in a
    ensures Minus(a + [x], {x}) == a
  {
    MinusConcat(a, [x], {x});
    MinusNothing(a, {x});
    MinusSingle(x, {x});
    assert a + [] == a;
  }

  lemma MinusSingle(x: nat, gone: set<nat>)
    ensures Minus([x], gone) == if x in gone then [] else [x]
  {
    assert [x][1..] == [];
  }

  // ---------- malloc ----------

  // need is size, rounded up to a multiple of 16.
  predicate Rounded(size: nat, need: nat) {
    need % 16 == 0 && size <= need < size + 16
  }

  lemma RoundedIsAlign(size: nat, need: nat)
    requires Rounded(size, need)
    ensures Align(size) == need
  {
  }

  // Block k becomes live. If more than two headers would be left over it is cut at `size`, and what is behind the
  // cut becomes a free block of its own, the last one on the list; otherwise it stays whole.
  ghost predicate IsTaken(cells: seq<Cell>, order: seq<nat>, k: nat, size: nat, cells': seq<Cell>, order': seq<nat>) {
    && k < |cells| && size <= cells[k].size
    && var c := cells[k];
       if c.size - size > 96 then
         && cells' == cells[..k] +
              [Cell(c.addr, size, false), Cell(c.addr + 48 + size, c.size - size - 48, true)] + cells[k + 1..]
         && order' == Minus(order, {c.addr}) + [c.addr + 48 + size]
       else
         && cells' == cells[..k] + [Cell(c.addr, c.size, false)] + cells[k + 1..]
         && order' == Minus(order, {c.addr})
  }

  lemma TakeIs(st: State, k: nat, size: nat)
    requires Inv(st) && k < |st.cells| && st.cells[k].free && size <= st.cells[k].size
    ensures st.cells[k].addr in st.order
    ensures var r := Take(st, k, size);
      IsTaken(st.cells, st.order, k, size, r.cells, r.order) && r.capacity == st.capacity && r.resizes == st.resizes
  {
    FreeIsListed(st, k);
    CutIs(st.cells[k], size);
    if st.cells[k].size - size > 96 {
      InsideIsFresh(st, k, st.cells[k].addr + 48 + size);
    }
    CutOrderIs(st.order, Cut(st.cells[k], size));
  }

  lemma CutOrderIs(order: seq<nat>, cut: seq<Cell>)
    requires Distinct(order) && cut != [] && cut[0].addr in order
    requires |cut| == 2 ==> cut[1].addr !in order
    ensures CutOrder(order, cut) == Minus(order, {cut[0].addr}) + if |cut| == 2 then [cut[1].addr] else []
  {
    if |cut| == 2 {
      AppendWithout(order, cut[1].addr, cut[0].addr);
    } else {
      WithoutIsMinus(order, cut[0].addr);
      assert Minus(order, {cut[0].addr}) + [] == Minus(order, {cut[0].addr});
    }
  }

  lemma CutIs(c: Cell, size: nat)
    requires size <= c.size
    ensures Cut(c, size) ==
      if c.size - size > 96 then [Cell(c.addr, size, false), Cell(c.addr + 48 + size, c.size - size - 48, true)]
      else [Cell(c.addr, c.size, false)]
  {
  }

  lemma AppendWithout(order: seq<nat>, x: nat, y: nat)
    requires Distinct(order) && x !in order && y in order && x != y
    ensures Without(order + [x], y) == Minus(order, {y}) + [x]
  {
    AppendElements(order, x);
    WithoutIsMinus(order + [x], y);
    MinusConcat(order, [x], {y});
    MinusSingle(x, {y});
  }

  // Entry i of the free list is block k.
  predicate ListedAt(st: State, i: nat, k: nat) {
    i < |st.order| && k < |st.cells| && st.cells[k].addr == st.order[i]
  }

  // It is the first one on the list that is large enough.
  ghost predicate FirstLarge(st: State, need: nat, i: nat, k: nat) {
    && ListedAt(st, i, k) && st.cells[k].size >= need
    && forall j: nat, l: nat :: j < i && ListedAt(st, j, l) ==> st.cells[l].size < need
  }

  ghost predicate NoneLarge(st: State, need: nat) {
    forall j: nat, l: nat :: ListedAt(st, j, l) ==> st.cells[l].size < need
  }

  // A new block at the end of the region, header included: a multiple of 16, of at least `least` bytes.
  ghost predicate IsNew(cells: seq<Cell>, order: seq<nat>, at: nat, least: nat, need: nat, r: State) {
    exists total: nat ::
      && Rounded(least, total) && total >= 48 && r.capacity == at + total
      && IsTaken(cells + [Cell(at, total - 48, true)], order + [at], |cells|, need, r.cells, r.order)
  }

  // malloc takes the first block on the list that is large enough. If there is none it asks for a new one at the end
  // of the region, of one byte less than the size, a header and the region up to then; and at the first call for
  // the size and 1023 bytes.
  ghost predicate MallocDoes(st: State, need: nat, r: State, addr: nat) {
    if st.cells == [] then addr == 0 && r.resizes == 0 && IsNew([], [], 0, need + 1023, need, r)
    else if NoneLarge(st, need) then
      && addr == st.capacity && r.resizes == st.resizes + 1
      && IsNew(st.cells, st.order, st.capacity, need + 48 + st.capacity - 1, need, r)
    else
      && r.capacity == st.capacity && r.resizes == st.resizes
      && exists i: nat, k: nat ::
        FirstLarge(st, need, i, k) && addr == st.cells[k].addr && IsTaken(st.cells, st.order, k, need, r.cells, r.order)
  }

  lemma MallocIs(st: State, size: nat, need: nat)
    requires Inv(st) && Rounded(size, need)
    ensures MallocDoes(st, need, Malloc(st, size).0, Malloc(st, size).1)
  {
    RoundedIsAlign(size, need);
    if st.cells == [] {
      FirstMalloc(st, size, need);
    } else {
      MallocSteps(st, need);
      var i := FirstFit(st.order, st.cells, need);
      FirstFitIsFirst(st.order, st.cells, need);
      FitsIsLarge(st, need);
      if i < |st.order| {
        var k := Position(st.cells, st.order[i]);
        forall j: nat, l: nat | j < i && ListedAt(st, j, l) ensures st.cells[l].size < need {
          assert !Fits(st.cells, st.order[j], need);
        }
        assert ListedAt(st, i, k) && FirstLarge(st, need, i, k);
        TakeIs(st, k, need);
      } else {
        forall j: nat, l: nat | ListedAt(st, j, l) ensures st.cells[l].size < need {
          assert !Fits(st.cells, st.order[j], need);
        }
        GrownMalloc(st, size, need);
      }
    }
  }

  // The block at the address of an entry is the only one there.
  lemma FitsIsLarge(st: State, need: nat)
    requires Inv(st) && st.cells != []
    ensures forall j: nat, l: nat :: ListedAt(st, j, l) ==>
      (Fits(st.cells, st.order[j], need) <==> st.cells[l].size >= need)
  {
    forall j: nat, l: nat | ListedAt(st, j, l) ensures Fits(st.cells, st.order[j], need) <==> st.cells[l].size >= need {
      PositionFound(st.cells, 0, st.capacity, l);
    }
  }

  lemma FirstMalloc(st: State, size: nat, need: nat)
    requires Inv(st) && st.cells == [] && Rounded(size, need) && Align(size) == need
    ensures MallocDoes(st, need, Malloc(st, size).0, Malloc(st, size).1)
  {
    var total := StartIs(need);
    var st1 := Start(need);
    MallocSteps(st1, need);
    StartFits(need);
    TakeIs(st1, 0, need);
    NewIs([], [], 0, need + 1023, need, Take(st1, 0, need), total);
  }

  lemma StartIs(need: nat) returns (total: nat)
    ensures Rounded(need + 1023, total) && total >= 48
    ensures Start(need) == State([] + [Cell(0, total - 48, true)], [] + [0], total, 0)
    ensures Position(Start(need).cells, 0) == 0
  {
    total := Start(need).capacity;
  }

  lemma NewIs(cells: seq<Cell>, order: seq<nat>, at: nat, least: nat, need: nat, r: State, total: nat)
    requires Rounded(least, total) && total >= 48 && r.capacity == at + total
    requires IsTaken(cells + [Cell(at, total - 48, true)], order + [at], |cells|, need, r.cells, r.order)
    ensures IsNew(cells, order, at, least, need, r)
  {
  }

  lemma GrownMalloc(st: State, size: nat, need: nat)
    requires Inv(st) && st.cells != [] && Align(size) == need && NoneLarge(st, need)
    requires FirstFit(st.order, st.cells, need) == |st.order|
    ensures MallocDoes(st, need, Malloc(st, size).0, Malloc(st, size).1)
  {
    GrowKeeps(st, need);
    MallocSteps(st, need);
    var g := Grow(st, need);
    TakeIs(g, |st.cells|, need);
    assert Rounded(need + 48 + st.capacity - 1, g.capacity - st.capacity);
  }

  // ---------- free ----------

  predicate LeftFree(cells: seq<Cell>, k: nat)
    requires k < |cells|
  {
    k > 0 && cells[k - 1].free
  }

  predicate RightFree(cells: seq<Cell>, k: nat)
    requires k < |cells|
  {
    k + 1 < |cells| && cells[k + 1].free
  }

  // The addresses of the neighbours that are free.
  function Neighbours(cells: seq<Cell>, k: nat): set<nat>
    requires k < |cells|
  {
    (if LeftFree(cells, k) then {cells[k - 1].addr} else {}) + (if RightFree(cells, k) then {cells[k + 1].addr} else {})
  }

  // One free block reaches from the beginning of the left neighbour, if that is free, to the end of the right one, if
  // that is; it is the last one on the list, and the neighbours are no longer there.
  ghost predicate FreeDoes(st: State, k: nat, r: State)
    requires k < |st.cells|
  {
    var lo := if LeftFree(st.cells, k) then k - 1 else k;
    var hi := if RightFree(st.cells, k) then k + 1 else k;
    && st.cells[lo].addr <= st.cells[hi].addr
    && r.cells == st.cells[..lo] +
         [Cell(st.cells[lo].addr, st.cells[hi].addr + st.cells[hi].size - st.cells[lo].addr, true)] + st.cells[hi + 1..]
    && r.order == Minus(st.order, Neighbours(st.cells, k)) + [st.cells[lo].addr]
    && r.capacity == st.capacity && r.resizes == st.resizes
  }

  lemma FreeIs(st: State, k: nat)
    requires Inv(st) && k < |st.cells| && !st.cells[k].free
    ensures FreeDoes(st, k, Free(st, k))
  {
    FreedIs(st.cells, 0, st.capacity, k);
    FreedOrderIs(st, k);
  }

  lemma FreedIs(cells: seq<Cell>, from: nat, to: nat, k: nat)
    requires Tiled(cells, from, to) && k < |cells|
    ensures var lo, hi := if LeftFree(cells, k) then k - 1 else k, if RightFree(cells, k) then k + 1 else k;
      && lo == Low(cells, k) && hi + 1 == High(cells, k) && cells[lo].addr <= cells[hi].addr
      && Freed(cells, k) == Cell(cells[lo].addr, cells[hi].addr + cells[hi].size - cells[lo].addr, true)
  {
    FreedFacts(cells, from, to, k);
    if k > 0 {
      TiledNeighbours(cells, from, to, k - 1);
    }
    if k + 1 < |cells| {
      TiledNeighbours(cells, from, to, k);
    }
  }

  lemma FreedOrderIs(st: State, k: nat)
    requires Inv(st) && k < |st.cells| && !st.cells[k].free
    ensures Free(st, k).order == Minus(st.order, Neighbours(st.cells, k)) +
      [if LeftFree(st.cells, k) then st.cells[k - 1].addr else st.cells[k].addr]
  {
    NeighboursListed(st, k);
    if !LeftFree(st.cells, k) && !RightFree(st.cells, k) {
      assert Neighbours(st.cells, k) == {};
      MinusNothing(st.order, {});
    } else if !LeftFree(st.cells, k) {
      assert Neighbours(st.cells, k) == {st.cells[k + 1].addr};
      WithoutIsMinus(st.order, st.cells[k + 1].addr);
    } else if !RightFree(st.cells, k) {
      assert Neighbours(st.cells, k) == {st.cells[k - 1].addr};
      WithoutIsMinus(st.order, st.cells[k - 1].addr);
    } else {
      assert Neighbours(st.cells, k) == {st.cells[k - 1].addr, st.cells[k + 1].addr};
      BothLeave(st.order, st.cells[k - 1].addr, st.cells[k + 1].addr);
    }
  }

  lemma BothLeave(order: seq<nat>, prev: nat, next: nat)
    requires Distinct(order) && prev in order && next in order && prev != next
    ensures next in Without(order, prev) + [prev]
    ensures prev in Without(Without(order, prev) + [prev], next)
    ensures Without(Without(Without(order, prev) + [prev], next), prev) + [prev] == Minus(order, {prev, next}) + [prev]
  {
    ReappendElements(order, prev, next);
    WithoutElements(order, prev);
    AppendElements(Without(order, prev), prev);
    var once := Without(order, prev) + [prev];
    WithoutIsMinus(order, prev);
    WithoutIsMinus(once, next);
    WithoutElements(once, next);
    WithoutIsMinus(Without(once, next), prev);
    MinusBoth(order, prev, next);
  }

  lemma MinusBoth(order: seq<nat>, prev: nat, next: nat)
    ensures Minus(Minus(Minus(order, {prev}) + [prev], {next}), {prev}) == Minus(order, {prev, next})
  {
    MinusTwice(Minus(order, {prev}) + [prev], {next}, {prev});
    MinusConcat(Minus(order, {prev}), [prev], {next} + {prev});
    MinusTwice(order, {prev}, {next} + {prev});
    assert {prev} + ({next} + {prev}) == {prev, next};
  }

  // ---------- realloc ----------

  // The right neighbour is free, and with it and its header there is room for size bytes. The comparison in the code
  // is on unsigned numbers and fails for sizes below that of a header.
  predicate RoomRight(st: State, k: nat, size: nat)
    requires k < |st.cells|
  {
    RightFree(st.cells, k) && size >= 48 && st.cells[k].size + 48 + st.cells[k + 1].size >= size
  }

  // realloc leaves the block where it is exactly if it is large enough, or there is room on its right. Then nothing
  // changes, or the block takes over its neighbour and is cut like one that malloc takes. Otherwise the result is
  // that of malloc, and the state that of free afterwards.
  lemma ReallocIs(st: State, k: nat, size: nat)
    requires Inv(st) && k < |st.cells| && !st.cells[k].free
    ensures size == 0 ==> Realloc(st, k, size) == (Free(st, k), 0)
    ensures size > 0 ==>
      (Realloc(st, k, size).1 == st.cells[k].addr <==> st.cells[k].size >= size || RoomRight(st, k, size))
    ensures 0 < size <= st.cells[k].size ==> Realloc(st, k, size).0 == st
    ensures st.cells[k].size < size && RoomRight(st, k, size) ==> GrowsInPlace(st, k, size, Realloc(st, k, size).0)
    ensures st.cells[k].size < size && !RoomRight(st, k, size) ==>
      Realloc(st, k, size).1 == Malloc(st, size).1 && IsMoved(st, k, Malloc(st, size).0, Realloc(st, k, size).0)
  {
    if st.cells[k].size < size {
      if RoomRight(st, k, size) {
        ExtendIs(st, k, size);
      } else {
        MoveIs(st, k, size);
      }
    }
  }

  lemma MoveIs(st: State, k: nat, size: nat)
    requires Inv(st) && k < |st.cells| && !st.cells[k].free && st.cells[k].size < size && !RoomRight(st, k, size)
    ensures Realloc(st, k, size).1 == Malloc(st, size).1 != st.cells[k].addr
    ensures IsMoved(st, k, Malloc(st, size).0, Realloc(st, k, size).0)
  {
    var j := ReallocMoves(st, k, size);
    MallocElsewhere(st, k, size);
    MovedFrom(st, k, Malloc(st, size).0, j);
  }

  lemma MallocElsewhere(st: State, k: nat, size: nat)
    requires Inv(st) && k < |st.cells| && !st.cells[k].free
    ensures Malloc(st, size).1 != st.cells[k].addr
  {
    MallocKeeps(st, size);
    assert st.cells[k] in Live(st.cells);
  }

  lemma ReallocMoves(st: State, k: nat, size: nat) returns (j: nat)
    requires Inv(st) && k < |st.cells| && !st.cells[k].free && st.cells[k].size < size && !RoomRight(st, k, size)
    ensures var m := Malloc(st, size).0;
      Inv(m) && j < |m.cells| && m.cells[j] == st.cells[k] && Realloc(st, k, size) == (Free(m, j), Malloc(st, size).1)
  {
    MallocKeeps(st, size);
    StillThere(st, Malloc(st, size).0, k);
    j := Position(Malloc(st, size).0.cells, st.cells[k].addr);
  }

  lemma MovedFrom(st: State, k: nat, m: State, j: nat)
    requires k < |st.cells| && Inv(m) && j < |m.cells| && m.cells[j] == st.cells[k] && !m.cells[j].free
    ensures IsMoved(st, k, m, Free(m, j))
  {
  }

  ghost predicate GrowsInPlace(st: State, k: nat, size: nat, r: State)
    requires k + 1 < |st.cells|
  {
    var e, t := st.cells[k], st.cells[k + 1];
    && r.capacity == st.capacity && r.resizes == st.resizes
    && IsTaken(st.cells[..k] + [Cell(e.addr, e.size + 48 + t.size, false)] + st.cells[k + 2..],
               Minus(st.order, {t.addr}), k, size, r.cells, r.order)
  }

  // The old block has been freed after malloc.
  ghost predicate IsMoved(st: State, k: nat, m: State, r: State)
    requires k < |st.cells|
  {
    Inv(m) && exists j: nat :: j < |m.cells| && m.cells[j] == st.cells[k] && !m.cells[j].free && r == Free(m, j)
  }

  lemma ExtendIs(st: State, k: nat, size: nat)
    requires Inv(st) && k < |st.cells| && !st.cells[k].free && st.cells[k].size < size && RoomRight(st, k, size)
    ensures CanExtend(st.cells, k, size) && GrowsInPlace(st, k, size, Extend(st, k, size))
  {
    var e, t := st.cells[k], st.cells[k + 1];
    NeighboursListed(st, k);
    ExtendedList(st, k);
    TakenStretch(st.cells[..k], Cell(e.addr, e.size + 48 + t.size, false), st.cells[k + 2..],
                 Minus(st.order, {t.addr}), size, Extend(st, k, size), Cut(Merge(e, t), size));
  }

  lemma TakenStretch(a: seq<Cell>, c: Cell, b: seq<Cell>, order: seq<nat>, size: nat, r: State, cut: seq<Cell>)
    requires size <= c.size && cut == Cut(Cell(c.addr, c.size, true), size) && Minus(order, {c.addr}) == order
    requires r.cells == a + cut + b && r.order == order + if |cut| == 2 then [cut[1].addr] else []
    ensures IsTaken(a + [c] + b, order, |a|, size, r.cells, r.order)
  {
    CutIs(Cell(c.addr, c.size, true), size);
    StretchedCells(a, c, b);
    assert order + [] == order;
  }

  lemma StretchedCells(a: seq<Cell>, c: Cell, b: seq<Cell>)
    ensures var cells := a + [c] + b; cells[..|a|] == a && cells[|a|] == c && cells[|a| + 1..] == b
  {
  }

  // The neighbour leaves the list, on which the block itself is not.
  lemma ExtendedList(st: State, k: nat)
    requires Inv(st) && k < |st.cells| && !st.cells[k].free && RightFree(st.cells, k)
    ensures st.cells[k + 1].addr in st.order
    ensures Without(st.order, st.cells[k + 1].addr) == Minus(st.order, {st.cells[k + 1].addr})
    ensures Minus(Minus(st.order, {st.cells[k + 1].addr}), {st.cells[k].addr}) ==
      Minus(st.order, {st.cells[k + 1].addr})
  {
    var t := st.cells[k + 1].addr;
    NeighboursListed(st, k);
    FreeIsListed(st, k);
    WithoutIsMinus(st.order, t);
    MinusIsPart(st.order, {t});
    MinusNothing(Minus(st.order, {t}), {st.cells[k].addr});
  }

  lemma {:induction false} MinusIsPart(s: seq<nat>, gone: set<nat>)
    ensures forall x :: x in Minus(s, gone) ==> x in s
  {
    if s != [] {
      MinusIsPart(s[1..], gone);
    }
  }
}
