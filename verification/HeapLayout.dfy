// alloc.c on values: the address-ordered blocks of the sbrk region, the order of the free list, and what
// malloc, free and realloc make of them.
module HeapLayout {
  import opened Sequences

  const STRUCT_SIZE: nat := 48
  const INITIAL_CAPACITY: nat := 1024

  // ALIGN(size)
  function Align(n: nat): (r: nat)
    ensures n <= r < n + 16 && r % 16 == 0
  {
    (n + 15) / 16 * 16
  }

  // A block: the address of its header (relative to the start of the region) and the size of its payload.
  datatype Cell = Cell(addr: nat, size: nat, free: bool) {
    function End(): nat { addr + STRUCT_SIZE + size }
  }

  // The blocks in address order, the addresses on the free list in list order, the size of the region and
  // the number of calls of resize so far.
  datatype State = State(cells: seq<Cell>, order: seq<nat>, capacity: nat, resizes: nat)

  // ---------- tiling ----------

  // The cells follow one another without gap or overlap from `from` to `to`.
  predicate Tiled(cells: seq<Cell>, from: nat, to: nat) {
    if cells == [] then from == to
    else cells[0].addr == from && Tiled(cells[1..], cells[0].End(), to)
  }

  function EndOf(cells: seq<Cell>, from: nat): nat {
    if cells == [] then from else cells[|cells| - 1].End()
  }

  lemma {:induction false} TiledConcat(a: seq<Cell>, b: seq<Cell>, from: nat, to: nat)
    ensures Tiled(a + b, from, to) <==> Tiled(a, from, EndOf(a, from)) && Tiled(b, EndOf(a, from), to)
  {
    if a == [] {
      assert a + b == b;
    } else {
      assert (a + b)[1..] == a[1..] + b;
      assert EndOf(a[1..], a[0].End()) == EndOf(a, from);
      TiledConcat(a[1..], b, a[0].End(), to);
    }
  }

  // A stretch of cells can be exchanged for another one that tiles the same range.
  lemma TiledExchange(a: seq<Cell>, mid: seq<Cell>, mid': seq<Cell>, b: seq<Cell>, from: nat, to: nat)
    requires Tiled(a + mid + b, from, to) && mid != [] && mid' != []
    requires Tiled(mid', mid[0].addr, EndOf(mid, 0))
    ensures Tiled(a + mid' + b, from, to)
  {
    TiledConcat(a + mid, b, from, to);
    TiledConcat(a, mid, from, EndOf(a + mid, from));
    TiledConcat(a, mid', from, EndOf(a + mid, from));
    TiledEnd(mid', mid[0].addr, EndOf(mid, 0));
    TiledConcat(a + mid', b, from, to);
  }

  lemma {:induction false} TiledEnd(cells: seq<Cell>, from: nat, to: nat)
    requires Tiled(cells, from, to)
    ensures EndOf(cells, from) == to
  {
    if cells != [] {
      TiledEnd(cells[1..], cells[0].End(), to);
    }
  }

  // Tiled cells are in address order and do not overlap, headers included.
  lemma {:induction false} TiledDisjoint(cells: seq<Cell>, from: nat, to: nat, i: nat, j: nat)
    requires Tiled(cells, from, to) && i < j < |cells|
    ensures from <= cells[i].addr && cells[i].End() <= cells[j].addr && cells[j].End() <= to
  {
    TiledWithin(cells[1..], cells[0].End(), to, j - 1);
    if i > 0 {
      TiledDisjoint(cells[1..], cells[0].End(), to, i - 1, j - 1);
    }
  }

  lemma {:induction false} TiledWithin(cells: seq<Cell>, from: nat, to: nat, i: nat)
    requires Tiled(cells, from, to) && i < |cells|
    ensures from <= cells[i].addr && cells[i].End() <= to
  {
    if i > 0 {
      TiledWithin(cells[1..], cells[0].End(), to, i - 1);
    } else if |cells| > 1 {
      TiledWithin(cells[1..], cells[0].End(), to, 0);
    }
  }

  function SumSizes(cells: seq<Cell>): nat {
    if cells == [] then 0 else cells[0].size + STRUCT_SIZE + SumSizes(cells[1..])
  }

  // Conservation: payloads and headers add up to the region.
  lemma {:induction false} TiledSum(cells: seq<Cell>, from: nat, to: nat)
    requires Tiled(cells, from, to)
    ensures from + SumSizes(cells) == to
  {
    if cells != [] {
      TiledSum(cells[1..], cells[0].End(), to);
    }
  }

  // ---------- free and live cells ----------

  function FreeAddrs(cells: seq<Cell>): set<nat> {
    set c | c in cells && c.free :: c.addr
  }

  function Live(cells: seq<Cell>): set<Cell> {
    set c | c in cells && !c.free
  }

  lemma PartsOfConcat(a: seq<Cell>, b: seq<Cell>)
    ensures FreeAddrs(a + b) == FreeAddrs(a) + FreeAddrs(b)
    ensures Live(a + b) == Live(a) + Live(b)
  {
  }

  function BothFree(c: Cell, d: Cell): nat {
    if c.free && d.free then 1 else 0
  }

  // The number of neighbouring free cells.
  function Pairs(cells: seq<Cell>): nat {
    if |cells| < 2 then 0 else BothFree(cells[0], cells[1]) + Pairs(cells[1..])
  }

  function Seam(a: seq<Cell>, b: seq<Cell>): nat {
    if a == [] || b == [] then 0 else BothFree(a[|a| - 1], b[0])
  }

  lemma {:induction false} PairsOfConcat(a: seq<Cell>, b: seq<Cell>)
    ensures Pairs(a + b) == Pairs(a) + Seam(a, b) + Pairs(b)
  {
    if a == [] {
      assert a + b == b;
    } else if |a| == 1 {
      assert (a + b)[1..] == b;
    } else {
      assert (a + b)[1..] == a[1..] + b;
      PairsOfConcat(a[1..], b);
    }
  }

  lemma PairsOfThree(a: seq<Cell>, mid: seq<Cell>, b: seq<Cell>)
    requires mid != []
    ensures Pairs(a + mid + b) == Pairs(a) + Seam(a, mid) + Pairs(mid) + Seam(mid, b) + Pairs(b)
  {
    PairsOfConcat(a + mid, b);
    PairsOfConcat(a, mid);
  }

  // ---------- the invariant ----------

  predicate Inv(st: State) {
    match st
    case State(cells, order, capacity, resizes) =>
      && (if cells == [] then capacity == INITIAL_CAPACITY && order == [] && resizes == 0
          else Tiled(cells, 0, capacity))
      && Distinct(order) && Elements(order) == FreeAddrs(cells)
      && Pairs(cells) <= resizes
  }

  const Initial: State := State([], [], INITIAL_CAPACITY, 0)

  lemma AddrsDiffer(st: State, i: nat, j: nat)
    requires Inv(st) && i < |st.cells| && j < |st.cells| && i != j
    ensures st.cells[i].addr != st.cells[j].addr
  {
    TiledDisjoint(st.cells, 0, st.capacity, if i < j then i else j, if i < j then j else i);
  }

  // The cells around a stretch of cells: none of them starts inside the stretch.
  lemma OutsideStretch(a: seq<Cell>, mid: seq<Cell>, b: seq<Cell>, from: nat, to: nat, c: Cell)
    requires Tiled(a + mid + b, from, to) && mid != [] && (c in a || c in b)
    ensures c.addr < mid[0].addr || c.addr >= EndOf(mid, 0)
  {
    var cells := a + mid + b;
    if c in a {
      var i :| 0 <= i < |a| && a[i] == c;
      assert cells[i] == c && cells[|a|] == mid[0];
      TiledDisjoint(cells, from, to, i, |a|);
    } else {
      var i :| 0 <= i < |b| && b[i] == c;
      var j := |a| + |mid|;
      assert cells[j + i] == c && cells[j - 1] == mid[|mid| - 1];
      TiledDisjoint(cells, from, to, j - 1, j + i);
    }
  }

  // What the exchange does to the free and the live cells.
  lemma ExchangedParts(a: seq<Cell>, mid: seq<Cell>, mid': seq<Cell>, b: seq<Cell>, to: nat)
    requires Tiled(a + mid + b, 0, to) && mid != []
    ensures FreeAddrs(a + mid' + b) == FreeAddrs(a + mid + b) - FreeAddrs(mid) + FreeAddrs(mid')
    ensures Live(a + mid' + b) == Live(a + mid + b) - Live(mid) + Live(mid')
  {
    PartsOfConcat(a + mid, b);
    PartsOfConcat(a, mid);
    PartsOfConcat(a + mid', b);
    PartsOfConcat(a, mid');
    forall c | c in a || c in b ensures c !in mid && c.addr !in FreeAddrs(mid) {
      OutsideStretch(a, mid, b, 0, to, c);
      StretchAddrs(a, mid, b, 0, to);
    }
  }

  // The part of the invariant that an exchange of a stretch has to re-establish: the free list.
  lemma Exchanged(st: State, st': State, a: seq<Cell>, mid: seq<Cell>, mid': seq<Cell>, b: seq<Cell>)
    requires Inv(st) && st.cells == a + mid + b && mid != [] && mid' != []
    requires st'.cells == a + mid' + b && st'.capacity == st.capacity && st'.resizes == st.resizes
    requires Tiled(mid', mid[0].addr, EndOf(mid, 0))
    requires Seam(a, mid') <= Seam(a, mid) && Seam(mid', b) <= Seam(mid, b) && Pairs(mid') <= Pairs(mid)
    requires Distinct(st'.order)
    requires Elements(st'.order) == Elements(st.order) - FreeAddrs(mid) + FreeAddrs(mid')
    ensures Inv(st')
    ensures Live(st'.cells) == Live(st.cells) - Live(mid) + Live(mid')
  {
    TiledExchange(a, mid, mid', b, 0, st.capacity);
    PairsOfThree(a, mid, b);
    PairsOfThree(a, mid', b);
    ExchangedParts(a, mid, mid', b, st.capacity);
  }

  lemma StretchAddrs(a: seq<Cell>, mid: seq<Cell>, b: seq<Cell>, from: nat, to: nat)
    requires Tiled(a + mid + b, from, to) && mid != []
    ensures forall c :: c in mid ==> mid[0].addr <= c.addr < EndOf(mid, 0)
  {
    TiledConcat(a + mid, b, from, to);
    TiledConcat(a, mid, from, EndOf(a + mid, from));
    forall c | c in mid ensures mid[0].addr <= c.addr < EndOf(mid, 0) {
      var i :| 0 <= i < |mid| && mid[i] == c;
      TiledWithin(mid, mid[0].addr, EndOf(a + mid, from), i);
      TiledEnd(mid, mid[0].addr, EndOf(a + mid, from));
    }
  }

  // ---------- malloc ----------

  // The position of the cell at an address.
  function Position(cells: seq<Cell>, addr: nat): (k: nat)
    ensures k <= |cells|
    ensures k < |cells| ==> cells[k].addr == addr
    ensures k == |cells| ==> forall c :: c in cells ==> c.addr != addr
  {
    if cells == [] || cells[0].addr == addr then 0 else 1 + Position(cells[1..], addr)
  }

  // The first entry of the free list whose block is large enough; the length of the list if there is none.
  function FirstFit(order: seq<nat>, cells: seq<Cell>, size: nat): (i: nat)
    ensures i <= |order|
  {
    if order == [] then 0
    else
      var k := Position(cells, order[0]);
      if k < |cells| && cells[k].size >= size then 0 else 1 + FirstFit(order[1..], cells, size)
  }

  // The cells that take the place of a block cut at `size`: with a rest of its own or without.
  function Cut(c: Cell, size: nat): (mid: seq<Cell>)
    requires size <= c.size
    ensures mid != []
  {
    if c.size - size > 2 * STRUCT_SIZE then
      [Cell(c.addr, size, false), Cell(c.addr + STRUCT_SIZE + size, c.size - size - STRUCT_SIZE, true)]
    else [c.(free := false)]
  }

  // The free list once `cut` has replaced a free block: its rest is appended, the block itself removed.
  function CutOrder(order: seq<nat>, cut: seq<Cell>): (r: seq<nat>)
    requires cut != [] && cut[0].addr in order
  {
    Without(if |cut| == 2 then order + [cut[1].addr] else order, cut[0].addr)
  }

  function Take(st: State, k: nat, size: nat): (r: State)
    requires k < |st.cells| && size <= st.cells[k].size && st.cells[k].addr in st.order
  {
    var cut := Cut(st.cells[k], size);
    st.(cells := st.cells[..k] + cut + st.cells[k + 1..], order := CutOrder(st.order, cut))
  }

  lemma SplitAt(cells: seq<Cell>, lo: nat, hi: nat)
    requires lo <= hi <= |cells|
    ensures cells == cells[..lo] + cells[lo..hi] + cells[hi..]
  {
  }

  // A new header inside a block is not on the free list.
  lemma InsideIsFresh(st: State, k: nat, x: nat)
    requires Inv(st) && k < |st.cells| && st.cells[k].addr < x < st.cells[k].End()
    ensures x !in st.order
  {
    if x in st.order {
      assert x in Elements(st.order);
      var c :| c in st.cells && c.addr == x;
      var i :| 0 <= i < |st.cells| && st.cells[i] == c;
      if i != k {
        TiledDisjoint(st.cells, 0, st.capacity, if i < k then i else k, if i < k then k else i);
      }
    }
  }

  lemma FreeIsListed(st: State, k: nat)
    requires Inv(st) && k < |st.cells|
    ensures st.cells[k].addr in st.order <==> st.cells[k].free
  {
    var c := st.cells[k];
    if c.free {
      assert c.addr in FreeAddrs(st.cells);
    } else if c.addr in st.order {
      assert c.addr in Elements(st.order);
      var d :| d in st.cells && d.free && d.addr == c.addr;
      var i :| 0 <= i < |st.cells| && st.cells[i] == d;
      AddrsDiffer(st, i, k);
    }
  }

  lemma CutFacts(c: Cell, size: nat)
    requires size <= c.size
    ensures var cut := Cut(c, size);
      && Tiled(cut, c.addr, c.End())
      && cut[0].addr == c.addr && !cut[0].free && cut[0].size >= size && 1 <= |cut| <= 2
      && Pairs(cut) == 0
      && FreeAddrs(cut) == (if |cut| == 2 then {cut[1].addr} else {})
      && Live(cut) == {cut[0]}
      && (|cut| == 2 ==> c.addr < cut[1].addr < c.End())
  {
    var cut := Cut(c, size);
    if |cut| == 2 {
      assert cut == [cut[0]] + [cut[1]];
      assert cut[1..] == [cut[1]];
    } else {
      assert cut == [c.(free := false)];
    }
  }

  lemma CutSeams(a: seq<Cell>, mid: seq<Cell>, c: Cell, size: nat, b: seq<Cell>)
    requires mid != [] && mid[|mid| - 1].free && size <= c.size
    ensures Seam(a, Cut(c, size)) == 0 && Seam(Cut(c, size), b) <= Seam(mid, b)
  {
    CutFacts(c, size);
  }

  // A stretch that ends in a free block is exchanged for one block cut at `size`.
  lemma CutExchanged(st: State, st': State, a: seq<Cell>, mid: seq<Cell>, c: Cell, size: nat, b: seq<Cell>)
    requires Inv(st) && st.cells == a + mid + b && mid != [] && mid[|mid| - 1].free
    requires c.addr == mid[0].addr && c.End() == EndOf(mid, 0) && size <= c.size
    requires st' == st.(cells := a + Cut(c, size) + b, order := st'.order)
    requires Distinct(st'.order)
    requires Elements(st'.order) == Elements(st.order) - FreeAddrs(mid) + FreeAddrs(Cut(c, size))
    ensures Inv(st')
    ensures Live(st'.cells) == Live(st.cells) - Live(mid) + {Cut(c, size)[0]}
  {
    CutFacts(c, size);
    CutSeams(a, mid, c, size, b);
    Exchanged(st, st', a, mid, Cut(c, size), b);
  }

  // Taking a free block keeps the invariant and adds one live cell of at least the wanted size.
  lemma TakeKeeps(st: State, k: nat, size: nat)
    requires Inv(st) && k < |st.cells| && st.cells[k].free && size <= st.cells[k].size
    ensures st.cells[k].addr in st.order
    ensures Inv(Take(st, k, size))
    ensures Live(Take(st, k, size).cells) == Live(st.cells) + {Cut(st.cells[k], size)[0]}
    ensures forall c :: c in Live(st.cells) ==> c.addr != st.cells[k].addr
  {
    var c, cut, a, b := st.cells[k], Cut(st.cells[k], size), st.cells[..k], st.cells[k + 1..];
    FreeIsListed(st, k);
    CutFacts(c, size);
    assert st.cells == a + [c] + b;
    CutOrderElements(st, k, cut);
    SingleCell(c);
    var r := st.(cells := a + cut + b, order := CutOrder(st.order, cut));
    CutExchanged(st, r, a, [c], c, size, b);
    LiveElsewhere(st, k);
  }

  lemma LiveElsewhere(st: State, k: nat)
    requires Inv(st) && k < |st.cells| && st.cells[k].free
    ensures forall d :: d in Live(st.cells) ==> d.addr != st.cells[k].addr
  {
    forall d | d in Live(st.cells) ensures d.addr != st.cells[k].addr {
      var i :| 0 <= i < |st.cells| && st.cells[i] == d;
      AddrsDiffer(st, i, k);
    }
  }

  lemma CutOrderElements(st: State, k: nat, cut: seq<Cell>)
    requires Inv(st) && k < |st.cells| && st.cells[k].addr in st.order
    requires 1 <= |cut| <= 2 && cut[0].addr == st.cells[k].addr
    requires |cut| == 2 ==> st.cells[k].addr < cut[1].addr < st.cells[k].End()
    ensures Distinct(CutOrder(st.order, cut))
    ensures Elements(CutOrder(st.order, cut))
      == Elements(st.order) - {cut[0].addr} + (if |cut| == 2 then {cut[1].addr} else {})
  {
    if |cut| == 2 {
      InsideIsFresh(st, k, cut[1].addr);
      AppendElements(st.order, cut[1].addr);
      WithoutElements(st.order + [cut[1].addr], cut[0].addr);
    } else {
      WithoutElements(st.order, cut[0].addr);
    }
  }

  // The first request: one sbrk for the whole initial region.
  function Start(size: nat): (r: State)
    ensures Inv(r) && r.cells != [] && r.cells[0].size >= size
  {
    var capacity := Align(size + INITIAL_CAPACITY - 1);
    State([Cell(0, capacity - STRUCT_SIZE, true)], [0], capacity, 0)
  }

  // resize: sbrk for one more free block at the end of the region.
  function Grow(st: State, size: nat): (r: State)
    requires st.capacity > 0
  {
    var total := Align(size + STRUCT_SIZE + st.capacity - 1);
    State(st.cells + [Cell(st.capacity, total - STRUCT_SIZE, true)], st.order + [st.capacity],
          st.capacity + total, st.resizes + 1)
  }

  // The new block may have a free neighbour, until malloc takes it: this is what the invariant counts, which
  // holds in between too.
  lemma GrowKeeps(st: State, size: nat)
    requires Inv(st) && st.cells != []
    ensures st.capacity > 0 && Inv(Grow(st, size))
    ensures Live(Grow(st, size).cells) == Live(st.cells)
  {
    TiledWithin(st.cells, 0, st.capacity, 0);
    var r := Grow(st, size);
    var c := r.cells[|st.cells|];
    TiledEnd(st.cells, 0, st.capacity);
    TiledConcat(st.cells, [c], 0, r.capacity);
    assert Tiled([c], st.capacity, r.capacity);
    PartsOfConcat(st.cells, [c]);
    PairsOfConcat(st.cells, [c]);
    if st.capacity in st.order {
      assert st.capacity in Elements(st.order);
      var d :| d in st.cells && d.addr == st.capacity;
      var i :| 0 <= i < |st.cells| && st.cells[i] == d;
      TiledWithin(st.cells, 0, st.capacity, i);
    }
    AppendElements(st.order, st.capacity);
  }

  lemma {:induction false} PositionFound(cells: seq<Cell>, from: nat, to: nat, k: nat)
    requires Tiled(cells, from, to) && k < |cells|
    ensures Position(cells, cells[k].addr) == k
  {
    if k > 0 {
      TiledDisjoint(cells, from, to, 0, k);
      PositionFound(cells[1..], cells[0].End(), to, k - 1);
    }
  }

  // The first fit is a block that is large enough, and no earlier one is.
  ghost predicate Fits(cells: seq<Cell>, addr: nat, size: nat) {
    Position(cells, addr) < |cells| && cells[Position(cells, addr)].size >= size
  }

  lemma {:induction false} FirstFitIsFirst(order: seq<nat>, cells: seq<Cell>, size: nat)
    ensures var i := FirstFit(order, cells, size);
      && (i < |order| ==> Fits(cells, order[i], size))
      && (forall j :: 0 <= j < i ==> !Fits(cells, order[j], size))
  {
    if order != [] {
      FirstFitIsFirst(order[1..], cells, size);
      var i := FirstFit(order, cells, size);
      forall j | 0 <= j < i ensures !Fits(cells, order[j], size) {
        assert j > 0 ==> order[j] == order[1..][j - 1];
      }
    }
  }

  lemma {:induction false} FirstFitAmong(order: seq<nat>, cells: seq<Cell>, size: nat, i: nat)
    requires i < |order| && Fits(cells, order[i], size)
    requires forall j :: 0 <= j < i ==> !Fits(cells, order[j], size)
    ensures FirstFit(order, cells, size) == i
  {
    if i > 0 {
      assert !Fits(cells, order[0], size);
      forall j | 0 <= j < i - 1 ensures !Fits(cells, order[1..][j], size) {
        assert !Fits(cells, order[j + 1], size);
      }
      FirstFitAmong(order[1..], cells, size, i - 1);
    }
  }

  // After resize the search succeeds, with the new block: malloc calls itself at most once.
  lemma FitAfterGrow(st: State, size: nat)
    requires Inv(st) && st.cells != [] && FirstFit(st.order, st.cells, size) == |st.order|
    ensures st.capacity > 0
    ensures FirstFit(Grow(st, size).order, Grow(st, size).cells, size) == |st.order|
    ensures Position(Grow(st, size).cells, st.capacity) == |st.cells|
  {
    GrowKeeps(st, size);
    var r := Grow(st, size);
    PositionFound(r.cells, 0, r.capacity, |st.cells|);
    FirstFitIsFirst(st.order, st.cells, size);
    forall j | 0 <= j < |st.order| ensures !Fits(r.cells, r.order[j], size) {
      assert !Fits(st.cells, st.order[j], size);
      assert st.order[j] in Elements(st.order);
      var c :| c in st.cells && c.addr == st.order[j];
      var i :| 0 <= i < |st.cells| && st.cells[i] == c;
      PositionFound(st.cells, 0, st.capacity, i);
      assert r.cells[i] == c;
      PositionFound(r.cells, 0, r.capacity, i);
    }
    assert Fits(r.cells, r.order[|st.order|], size);
    FirstFitAmong(r.order, r.cells, size, |st.order|);
  }

  // malloc, with the address of the block it hands out.
  function Malloc(st: State, size: nat): (r: (State, nat))
    requires Inv(st)
  {
    var need := Align(size);
    var st1 := if st.cells == [] then Start(need) else st;
    MallocSteps(st1, need);
    var i := FirstFit(st1.order, st1.cells, need);
    if i < |st1.order| then (Take(st1, Position(st1.cells, st1.order[i]), need), st1.order[i])
    else (Take(Grow(st1, need), |st1.cells|, need), st1.capacity)
  }

  lemma MallocSteps(st: State, need: nat)
    requires Inv(st) && st.cells != []
    ensures var i := FirstFit(st.order, st.cells, need);
      if i < |st.order| then
        var k := Position(st.cells, st.order[i]);
        k < |st.cells| && st.cells[k].free && st.cells[k].size >= need
      else
        st.capacity > 0 && Inv(Grow(st, need)) && Grow(st, need).cells[|st.cells|].size >= need
        && Grow(st, need).cells[|st.cells|].addr in Grow(st, need).order
  {
    var i := FirstFit(st.order, st.cells, need);
    FirstFitIsFirst(st.order, st.cells, need);
    if i < |st.order| {
      FreeIsListed(st, Position(st.cells, st.order[i]));
    } else {
      GrowKeeps(st, need);
    }
  }

  // One live block of at least the given size has been added, at an address no live block had.
  ghost predicate Gains(before: set<Cell>, after: set<Cell>, addr: nat, size: nat) {
    && (forall d :: d in before ==> d.addr != addr)
    && exists c: Cell :: c.addr == addr && c.size >= size && after == before + {c}
  }

  // malloc keeps the invariant, leaves every live block as it is, and adds one that is large enough.
  lemma MallocKeeps(st: State, size: nat)
    requires Inv(st)
    ensures Inv(Malloc(st, size).0)
    ensures Gains(Live(st.cells), Live(Malloc(st, size).0.cells), Malloc(st, size).1, size)
  {
    var need := Align(size);
    var st1 := if st.cells == [] then Start(need) else st;
    assert Live(st1.cells) == Live(st.cells);
    MallocSteps(st1, need);
    var i := FirstFit(st1.order, st1.cells, need);
    var st2, k := st1, Position(st1.cells, if i < |st1.order| then st1.order[i] else 0);
    if i == |st1.order| {
      GrowKeeps(st1, need);
      st2, k := Grow(st1, need), |st1.cells|;
    }
    TakeKeeps(st2, k, need);
    CutFacts(st2.cells[k], need);
    var c := Cut(st2.cells[k], need)[0];
    assert c.addr == Malloc(st, size).1 && c.size >= size;
    assert Live(Malloc(st, size).0.cells) == Live(st.cells) + {c};
  }

  // ---------- free ----------

  // coalesce: the first of two neighbours takes over the second, header included.
  function Merge(c: Cell, d: Cell): Cell {
    Cell(c.addr, c.size + d.size + STRUCT_SIZE, true)
  }

  function PrevFree(cells: seq<Cell>, k: nat): bool
    requires k < |cells|
  {
    k > 0 && cells[k - 1].free
  }

  function NextFree(cells: seq<Cell>, k: nat): bool
    requires k < |cells|
  {
    k + 1 < |cells| && cells[k + 1].free
  }

  // The block that results, and the stretch of blocks it replaces.
  function Freed(cells: seq<Cell>, k: nat): (c: Cell)
    requires k < |cells|
  {
    var mid := if PrevFree(cells, k) then Merge(cells[k - 1], cells[k]) else cells[k].(free := true);
    if NextFree(cells, k) then Merge(mid, cells[k + 1]) else mid
  }

  function Low(cells: seq<Cell>, k: nat): nat
    requires k < |cells|
  {
    if PrevFree(cells, k) then k - 1 else k
  }

  function High(cells: seq<Cell>, k: nat): nat
    requires k < |cells|
  {
    if NextFree(cells, k) then k + 2 else k + 1
  }

  // The neighbours that are free leave the list, the resulting block is appended. With two free neighbours
  // the code appends the left one, removes both and appends it again.
  function FreedOrder(order: seq<nat>, cells: seq<Cell>, k: nat): (r: seq<nat>)
    requires k < |cells|
    requires PrevFree(cells, k) ==> cells[k - 1].addr in order
    requires NextFree(cells, k) ==> cells[k + 1].addr in order
    requires PrevFree(cells, k) && NextFree(cells, k) ==> cells[k - 1].addr != cells[k + 1].addr
  {
    if !PrevFree(cells, k) && !NextFree(cells, k) then order + [cells[k].addr]
    else if !PrevFree(cells, k) then Without(order, cells[k + 1].addr) + [cells[k].addr]
    else if !NextFree(cells, k) then Without(order, cells[k - 1].addr) + [cells[k - 1].addr]
    else
      var prev, next := cells[k - 1].addr, cells[k + 1].addr;
      StaysIn(order, prev, next);
      var once := Without(order, prev) + [prev];
      StaysIn(once, next, prev);
      Without(Without(once, next), prev) + [prev]
  }

  lemma NeighboursListed(st: State, k: nat)
    requires Inv(st) && k < |st.cells|
    ensures PrevFree(st.cells, k) ==> st.cells[k - 1].addr in st.order
    ensures NextFree(st.cells, k) ==> st.cells[k + 1].addr in st.order
    ensures PrevFree(st.cells, k) && NextFree(st.cells, k) ==> st.cells[k - 1].addr != st.cells[k + 1].addr
  {
    if PrevFree(st.cells, k) {
      FreeIsListed(st, k - 1);
    }
    if NextFree(st.cells, k) {
      FreeIsListed(st, k + 1);
      if k > 0 {
        AddrsDiffer(st, k - 1, k + 1);
      }
    }
  }

  function Free(st: State, k: nat): (r: State)
    requires Inv(st) && k < |st.cells| && !st.cells[k].free
  {
    NeighboursListed(st, k);
    st.(cells := st.cells[..Low(st.cells, k)] + [Freed(st.cells, k)] + st.cells[High(st.cells, k)..],
        order := FreedOrder(st.order, st.cells, k))
  }

  lemma FreedOrderElements(st: State, k: nat)
    requires Inv(st) && k < |st.cells| && !st.cells[k].free
    ensures Distinct(Free(st, k).order)
    ensures Elements(Free(st, k).order) ==
      Elements(st.order) - (if NextFree(st.cells, k) then {st.cells[k + 1].addr} else {}) + {Freed(st.cells, k).addr}
  {
    NeighboursListed(st, k);
    FreeIsListed(st, k);
    var order, here := st.order, st.cells[k].addr;
    if !PrevFree(st.cells, k) && !NextFree(st.cells, k) {
      AppendElements(order, here);
    } else if !PrevFree(st.cells, k) {
      var next := st.cells[k + 1].addr;
      AddrsDiffer(st, k, k + 1);
      WithoutElements(order, next);
      assert here !in Elements(Without(order, next));
      AppendElements(Without(order, next), here);
    } else {
      var prev := st.cells[k - 1].addr;
      WithoutElements(order, prev);
      assert prev !in Elements(Without(order, prev));
      AppendElements(Without(order, prev), prev);
      if NextFree(st.cells, k) {
        ReappendElements(order, prev, st.cells[k + 1].addr);
      }
    }
  }

  lemma ReappendElements(order: seq<nat>, prev: nat, next: nat)
    requires Distinct(order) && prev in order && next in order && prev != next
    ensures next in Without(order, prev) + [prev]
    ensures prev in Without(Without(order, prev) + [prev], next)
    ensures var r := Without(Without(Without(order, prev) + [prev], next), prev) + [prev];
      Distinct(r) && Elements(r) == Elements(order) - {next} + {prev}
  {
    StaysIn(order, prev, next);
    WithoutElements(order, prev);
    assert prev !in Elements(Without(order, prev));
    AppendElements(Without(order, prev), prev);
    var once := Without(order, prev) + [prev];
    StaysIn(once, next, prev);
    WithoutElements(once, next);
    var twice := Without(once, next);
    WithoutElements(twice, prev);
    assert prev !in Elements(Without(twice, prev));
    AppendElements(Without(twice, prev), prev);
  }

  lemma FreedFacts(cells: seq<Cell>, from: nat, to: nat, k: nat)
    requires Tiled(cells, from, to) && k < |cells|
    ensures var lo, hi := Low(cells, k), High(cells, k);
      && Freed(cells, k).addr == cells[lo].addr && Freed(cells, k).End() == cells[hi - 1].End()
      && Freed(cells, k).free
  {
    if k > 0 {
      TiledNeighbours(cells, from, to, k - 1);
    }
    if k + 1 < |cells| {
      TiledNeighbours(cells, from, to, k);
    }
  }

  lemma {:induction false} TiledNeighbours(cells: seq<Cell>, from: nat, to: nat, k: nat)
    requires Tiled(cells, from, to) && k + 1 < |cells|
    ensures cells[k].End() == cells[k + 1].addr
  {
    if k > 0 {
      TiledNeighbours(cells[1..], cells[0].End(), to, k - 1);
    }
  }

  lemma AroundIndex(cells: seq<Cell>, lo: nat, k: nat, hi: nat)
    requires lo <= k < hi <= |cells|
    ensures cells[lo..hi] == cells[lo..k] + [cells[k]] + cells[k + 1..hi]
    ensures lo == k ==> cells[lo..k] == []
    ensures lo + 1 == k ==> cells[lo..k] == [cells[lo]]
    ensures hi == k + 1 ==> cells[k + 1..hi] == []
    ensures hi == k + 2 ==> cells[k + 1..hi] == [cells[k + 1]]
  {
  }

  lemma SingleCell(c: Cell)
    ensures FreeAddrs([c]) == (if c.free then {c.addr} else {})
    ensures Live([c]) == (if c.free then {} else {c})
  {
  }

  lemma StretchParts(cells: seq<Cell>, k: nat)
    requires k < |cells| && !cells[k].free
    ensures Live(cells[Low(cells, k)..High(cells, k)]) == {cells[k]}
    ensures FreeAddrs(cells[Low(cells, k)..High(cells, k)]) ==
      (if PrevFree(cells, k) then {cells[k - 1].addr} else {})
      + (if NextFree(cells, k) then {cells[k + 1].addr} else {})
  {
    var lo, hi := Low(cells, k), High(cells, k);
    var before, after := cells[lo..k], cells[k + 1..hi];
    AroundIndex(cells, lo, k, hi);
    PartsOfConcat(before + [cells[k]], after);
    PartsOfConcat(before, [cells[k]]);
    SingleCell(cells[k]);
    if PrevFree(cells, k) {
      SingleCell(cells[k - 1]);
    }
    if NextFree(cells, k) {
      SingleCell(cells[k + 1]);
    }
  }

  lemma FreedSeams(cells: seq<Cell>, k: nat)
    requires k < |cells| && !cells[k].free
    ensures var lo, hi := Low(cells, k), High(cells, k);
      && lo < hi <= |cells|
      && Seam(cells[..lo], [Freed(cells, k)]) <= Seam(cells[..lo], cells[lo..hi])
      && Seam([Freed(cells, k)], cells[hi..]) <= Seam(cells[lo..hi], cells[hi..])
  {
  }

  lemma FreedTile(cells: seq<Cell>, from: nat, to: nat, k: nat)
    requires Tiled(cells, from, to) && k < |cells|
    ensures var mid := cells[Low(cells, k)..High(cells, k)];
      mid != [] && Tiled([Freed(cells, k)], mid[0].addr, EndOf(mid, 0))
  {
    FreedFacts(cells, from, to, k);
    var c := Freed(cells, k);
    assert [c][1..] == [];
  }

  lemma FreedListed(st: State, k: nat)
    requires Inv(st) && k < |st.cells| && !st.cells[k].free
    ensures Distinct(Free(st, k).order)
    ensures var mid := st.cells[Low(st.cells, k)..High(st.cells, k)];
      Elements(Free(st, k).order) == Elements(st.order) - FreeAddrs(mid) + FreeAddrs([Freed(st.cells, k)])
  {
    FreedFacts(st.cells, 0, st.capacity, k);
    FreedOrderElements(st, k);
    StretchParts(st.cells, k);
    SingleCell(Freed(st.cells, k));
  }

  // free keeps the invariant and takes exactly one live block away.
  lemma FreeKeeps(st: State, k: nat)
    requires Inv(st) && k < |st.cells| && !st.cells[k].free
    ensures Inv(Free(st, k))
    ensures Live(Free(st, k).cells) == Live(st.cells) - {st.cells[k]}
  {
    var lo, hi, c := Low(st.cells, k), High(st.cells, k), Freed(st.cells, k);
    var a, mid, b := st.cells[..lo], st.cells[lo..hi], st.cells[hi..];
    SplitAt(st.cells, lo, hi);
    FreedTile(st.cells, 0, st.capacity, k);
    FreedFacts(st.cells, 0, st.capacity, k);
    FreedSeams(st.cells, k);
    FreedListed(st, k);
    StretchParts(st.cells, k);
    SingleCell(c);
    Exchanged(st, Free(st, k), a, mid, [c], b);
  }

  // ---------- realloc ----------

  // Whether realloc grows the block into its right neighbour. The comparison with size - STRUCT_SIZE is on
  // unsigned numbers: for sizes below STRUCT_SIZE it wraps and fails.
  predicate CanExtend(cells: seq<Cell>, k: nat, size: nat)
    requires k < |cells|
  {
    NextFree(cells, k) && size >= STRUCT_SIZE && cells[k].size + cells[k + 1].size >= size - STRUCT_SIZE
  }

  function Extend(st: State, k: nat, size: nat): (r: State)
    requires Inv(st) && k < |st.cells| && CanExtend(st.cells, k, size)
  {
    NeighboursListed(st, k);
    var cut := Cut(Merge(st.cells[k], st.cells[k + 1]), size);
    st.(cells := st.cells[..k] + cut + st.cells[k + 2..],
        order := Without(st.order, st.cells[k + 1].addr) + if |cut| == 2 then [cut[1].addr] else [])
  }

  lemma ExtendOrder(st: State, k: nat, size: nat)
    requires Inv(st) && k < |st.cells| && !st.cells[k].free && CanExtend(st.cells, k, size)
    ensures Distinct(Extend(st, k, size).order)
    ensures Elements(Extend(st, k, size).order) == Elements(st.order) - {st.cells[k + 1].addr}
      + FreeAddrs(Cut(Merge(st.cells[k], st.cells[k + 1]), size))
  {
    var t, cut := st.cells[k + 1], Cut(Merge(st.cells[k], st.cells[k + 1]), size);
    NeighboursListed(st, k);
    TiledNeighbours(st.cells, 0, st.capacity, k);
    CutFacts(Merge(st.cells[k], t), size);
    WithoutElements(st.order, t.addr);
    if |cut| == 2 {
      FreshInPair(st, k, cut[1].addr);
      assert cut[1].addr !in Elements(Without(st.order, t.addr));
      AppendElements(Without(st.order, t.addr), cut[1].addr);
    } else {
      assert Without(st.order, t.addr) + [] == Without(st.order, t.addr);
    }
  }

  lemma PairParts(e: Cell, t: Cell)
    requires !e.free && t.free
    ensures FreeAddrs([e, t]) == {t.addr} && Live([e, t]) == {e} && Pairs([e, t]) == 0
  {
    assert [e, t] == [e] + [t];
    PartsOfConcat([e], [t]);
    SingleCell(e);
    SingleCell(t);
  }

  lemma ExtendKeeps(st: State, k: nat, size: nat)
    requires Inv(st) && k < |st.cells| && !st.cells[k].free && CanExtend(st.cells, k, size)
    ensures var c := Cut(Merge(st.cells[k], st.cells[k + 1]), size)[0];
      && Inv(Extend(st, k, size)) && c.addr == st.cells[k].addr && c.size >= size
      && Live(Extend(st, k, size).cells) == Live(st.cells) - {st.cells[k]} + {c}
  {
    var e, t := st.cells[k], st.cells[k + 1];
    SplitAt(st.cells, k, k + 2);
    assert st.cells[k..k + 2] == [e, t];
    TiledNeighbours(st.cells, 0, st.capacity, k);
    CutFacts(Merge(e, t), size);
    PairParts(e, t);
    ExtendOrder(st, k, size);
    CutExchanged(st, Extend(st, k, size), st.cells[..k], [e, t], Merge(e, t), size, st.cells[k + 2..]);
  }

  // A header between a live block and the end of its free neighbour is on the list only if it is that
  // neighbour's.
  lemma FreshInPair(st: State, k: nat, x: nat)
    requires Inv(st) && k + 1 < |st.cells| && st.cells[k].addr < x < st.cells[k + 1].End()
    ensures x in st.order ==> x == st.cells[k + 1].addr
  {
    TiledNeighbours(st.cells, 0, st.capacity, k);
    if x < st.cells[k].End() {
      InsideIsFresh(st, k, x);
    } else if x > st.cells[k + 1].addr {
      InsideIsFresh(st, k + 1, x);
    }
  }

  // Where realloc leaves the block; 0 stands for the null pointer of a request for no bytes.
  function Realloc(st: State, k: nat, size: nat): (r: (State, nat))
    requires Inv(st) && k < |st.cells| && !st.cells[k].free
  {
    if size == 0 then (Free(st, k), 0)
    else if st.cells[k].size >= size then (st, st.cells[k].addr)
    else if CanExtend(st.cells, k, size) then (Extend(st, k, size), st.cells[k].addr)
    else
      MallocKeeps(st, size);
      var (m, addr) := Malloc(st, size);
      StillThere(st, m, k);
      (Free(m, Position(m.cells, st.cells[k].addr)), addr)
  }

  // A live cell that survives is found under its address.
  lemma StillThere(st: State, m: State, k: nat)
    requires Inv(st) && Inv(m) && k < |st.cells| && !st.cells[k].free && Live(st.cells) <= Live(m.cells)
    ensures Position(m.cells, st.cells[k].addr) < |m.cells|
    ensures m.cells[Position(m.cells, st.cells[k].addr)] == st.cells[k]
  {
    assert st.cells[k] in Live(st.cells);
    var i :| 0 <= i < |m.cells| && m.cells[i] == st.cells[k];
    PositionFound(m.cells, 0, m.capacity, i);
  }

  // The block has been replaced by one of at least the wanted size; no other live block is touched.
  ghost predicate Replaces(before: set<Cell>, gone: Cell, after: set<Cell>, addr: nat, size: nat) {
    exists c: Cell :: c.addr == addr && c.size >= size && after == before - {gone} + {c}
  }

  lemma ReallocKeeps(st: State, k: nat, size: nat)
    requires Inv(st) && k < |st.cells| && !st.cells[k].free
    ensures Inv(Realloc(st, k, size).0)
    ensures size == 0 ==> Live(Realloc(st, k, size).0.cells) == Live(st.cells) - {st.cells[k]}
    ensures size > 0 ==>
      Replaces(Live(st.cells), st.cells[k], Live(Realloc(st, k, size).0.cells), Realloc(st, k, size).1, size)
  {
    var e := st.cells[k];
    assert e in Live(st.cells);
    if size == 0 {
      FreeKeeps(st, k);
    } else if e.size >= size {
      assert Live(st.cells) == Live(st.cells) - {e} + {e};
    } else if CanExtend(st.cells, k, size) {
      ExtendKeeps(st, k, size);
    } else {
      MallocKeeps(st, size);
      var (m, addr) := Malloc(st, size);
      StillThere(st, m, k);
      FreeKeeps(m, Position(m.cells, e.addr));
      var c: Cell :| c.addr == addr && c.size >= size && Live(m.cells) == Live(st.cells) + {c};
      assert c != e;
      assert Live(Realloc(st, k, size).0.cells) == Live(st.cells) - {e} + {c};
    }
  }

  // ---------- alignment ----------

  predicate AlignedCells(cells: seq<Cell>) {
    forall c :: c in cells ==> c.addr % 16 == 0 && c.size % 16 == 0
  }

  predicate Aligned(st: State) {
    st.capacity % 16 == 0 && AlignedCells(st.cells)
  }

  lemma CutAligned(c: Cell, size: nat)
    requires c.addr % 16 == 0 && c.size % 16 == 0 && size <= c.size
    ensures AlignedCells(Cut(c, size)) <==> |Cut(c, size)| == 1 || size % 16 == 0
  {
    if |Cut(c, size)| == 2 {
      assert Cut(c, size)[0] in Cut(c, size);
    }
  }

  lemma TakeAligned(st: State, k: nat, size: nat)
    requires k < |st.cells| && size <= st.cells[k].size && st.cells[k].addr in st.order
    requires Aligned(st) && size % 16 == 0
    ensures Aligned(Take(st, k, size))
  {
    assert st.cells[k] in st.cells;
    CutAligned(st.cells[k], size);
  }

  lemma GrowAligned(st: State, size: nat)
    requires Aligned(st) && st.capacity > 0
    ensures Aligned(Grow(st, size))
  {
    assert (st.capacity + Align(size + STRUCT_SIZE + st.capacity - 1)) % 16 == 0;
  }

  lemma StartFits(need: nat)
    ensures FirstFit(Start(need).order, Start(need).cells, need) == 0
  {
  }

  // The first two steps of malloc: the size is rounded up, and the first block is there.
  lemma MallocStarted(st: State, size: nat)
    requires Inv(st)
    ensures var need := Align(size);
      var st1 := if st.cells == [] then Start(need) else st;
      && need % 16 == 0 && Inv(st1) && st1.cells != []
      && Malloc(st1, need) == Malloc(st, size)
      && (st.cells == [] ==> FirstFit(st1.order, st1.cells, need) < |st1.order|)
  {
    var need := Align(size);
    assert Align(need) == need;
    MallocSteps(if st.cells == [] then Start(need) else st, need);
    StartFits(need);
  }

  lemma MallocAligned(st: State, size: nat)
    requires Inv(st) && Aligned(st)
    ensures Aligned(Malloc(st, size).0)
  {
    var need := Align(size);
    MallocStarted(st, size);
    StartAligned(need);
    MallocListedAligned(if st.cells == [] then Start(need) else st, need);
  }

  lemma StartAligned(need: nat)
    requires need % 16 == 0
    ensures Aligned(Start(need))
  {
  }

  lemma MallocListedAligned(st: State, need: nat)
    requires Inv(st) && Aligned(st) && st.cells != [] && need % 16 == 0
    ensures Aligned(Malloc(st, need).0)
  {
    assert Align(need) == need;
    MallocSteps(st, need);
    var i := FirstFit(st.order, st.cells, need);
    if i < |st.order| {
      TakeAligned(st, Position(st.cells, st.order[i]), need);
    } else {
      GrowAligned(st, need);
      TakeAligned(Grow(st, need), |st.cells|, need);
    }
  }

  lemma MergeAligned(c: Cell, d: Cell)
    requires c.addr % 16 == 0 && c.size % 16 == 0 && d.size % 16 == 0
    ensures Merge(c, d).addr % 16 == 0 && Merge(c, d).size % 16 == 0
  {
  }

  lemma FreedAligned(cells: seq<Cell>, k: nat)
    requires k < |cells| && AlignedCells(cells)
    ensures Freed(cells, k).addr % 16 == 0 && Freed(cells, k).size % 16 == 0
  {
    assert cells[k] in cells;
    var mid := if PrevFree(cells, k) then Merge(cells[k - 1], cells[k]) else cells[k].(free := true);
    if PrevFree(cells, k) {
      assert cells[k - 1] in cells;
      MergeAligned(cells[k - 1], cells[k]);
    }
    if NextFree(cells, k) {
      assert cells[k + 1] in cells;
      MergeAligned(mid, cells[k + 1]);
    }
  }

  lemma FreeAligned(st: State, k: nat)
    requires Inv(st) && k < |st.cells| && !st.cells[k].free && Aligned(st)
    ensures Aligned(Free(st, k))
  {
    FreedAligned(st.cells, k);
  }

  // realloc cuts at the unrounded size when it grows in place: exactly then alignment can be lost.
  lemma ReallocAligned(st: State, k: nat, size: nat)
    requires Inv(st) && k < |st.cells| && !st.cells[k].free && Aligned(st)
    ensures Aligned(Realloc(st, k, size).0) <==>
      !(st.cells[k].size < size && CanExtend(st.cells, k, size) && size % 16 != 0
        && st.cells[k].size + st.cells[k + 1].size - size > STRUCT_SIZE)
  {
    var e := st.cells[k];
    assert e in st.cells;
    if size == 0 {
      FreeAligned(st, k);
    } else if e.size >= size {
    } else if CanExtend(st.cells, k, size) {
      var t := st.cells[k + 1];
      assert t in st.cells;
      var cut := Cut(Merge(e, t), size);
      CutAligned(Merge(e, t), size);
      var r := Extend(st, k, size);
      assert forall c :: c in cut ==> c in r.cells;
    } else {
      MallocKeeps(st, size);
      MallocAligned(st, size);
      var (m, addr) := Malloc(st, size);
      StillThere(st, m, k);
      FreeAligned(m, Position(m.cells, e.addr));
    }
  }

  // ---------- runs ----------

  datatype Op = DoMalloc(size: nat) | DoFree(addr: nat) | DoRealloc(addr: nat, size: nat)

  // free and realloc are called with the address of a live block.
  predicate Enabled(st: State, op: Op) {
    op.DoMalloc? || (Position(st.cells, op.addr) < |st.cells| && !st.cells[Position(st.cells, op.addr)].free)
  }

  function Step(st: State, op: Op): State {
    if !Inv(st) || !Enabled(st, op) then st
    else
      match op
      case DoMalloc(size) => Malloc(st, size).0
      case DoFree(addr) => Free(st, Position(st.cells, addr))
      case DoRealloc(addr, size) => Realloc(st, Position(st.cells, addr), size).0
  }

  // states are the states of a run of the allocator with the operations ops.
  ghost predicate IsRun(states: seq<State>, ops: seq<Op>) {
    && |states| == |ops| + 1 && states[0] == Initial
    && forall i :: 0 <= i < |ops| ==> Follows(states[i], ops[i], states[i + 1])
  }

  predicate Follows(st: State, op: Op, st': State) {
    Enabled(st, op) && st' == Step(st, op)
  }

  lemma StepKeeps(st: State, op: Op)
    requires Inv(st) && Enabled(st, op)
    ensures Inv(Step(st, op))
    ensures Aligned(st) && !op.DoRealloc? ==> Aligned(Step(st, op))
  {
    match op {
      case DoMalloc(size) =>
        MallocKeeps(st, size);
        if Aligned(st) {
          MallocAligned(st, size);
        }
      case DoFree(addr) =>
        FreeKeeps(st, Position(st.cells, addr));
        if Aligned(st) {
          FreeAligned(st, Position(st.cells, addr));
        }
      case DoRealloc(addr, size) =>
        ReallocKeeps(st, Position(st.cells, addr), size);
    }
  }

  lemma SizesAddUp(st: State)
    requires Inv(st)
    ensures st.cells != [] ==> SumSizes(st.cells) == st.capacity
  {
    if st.cells != [] {
      TiledSum(st.cells, 0, st.capacity);
    }
  }

  lemma InitialKeeps()
    ensures Inv(Initial) && Aligned(Initial)
  {
  }

  lemma FollowsKeeps(st: State, op: Op, st': State)
    requires Inv(st) && Follows(st, op, st')
    ensures Inv(st')
    ensures Aligned(st) && !op.DoRealloc? ==> Aligned(st')
  {
    StepKeeps(st, op);
  }

  // Every state of every run: the blocks tile the region, their sizes add up to it, the free list holds
  // exactly the free blocks.
  lemma {:induction false} EveryRun(states: seq<State>, ops: seq<Op>, i: nat)
    requires IsRun(states, ops) && i < |states|
    ensures Inv(states[i])
    ensures states[i].cells != [] ==> SumSizes(states[i].cells) == states[i].capacity
  {
    if i == 0 {
      InitialKeeps();
    } else {
      EveryRun(states, ops, i - 1);
      FollowsKeeps(states[i - 1], ops[i - 1], states[i]);
    }
    SizesAddUp(states[i]);
  }

  // Runs without realloc keep every block 16-byte aligned.
  lemma {:induction false} RunsKeepAligned(states: seq<State>, ops: seq<Op>, i: nat)
    requires IsRun(states, ops) && i < |states|
    requires forall j :: 0 <= j < i ==> !ops[j].DoRealloc?
    ensures Aligned(states[i])
  {
    if i == 0 {
      InitialKeeps();
    } else {
      RunsKeepAligned(states, ops, i - 1);
      EveryRun(states, ops, i - 1);
      FollowsKeeps(states[i - 1], ops[i - 1], states[i]);
    }
  }

  // A run that loses the alignment: malloc(100), then realloc of the block to 121 bytes.
  lemma FirstBlock()
    ensures Step(Initial, DoMalloc(100)) == State([Cell(0, 112, false), Cell(160, 928, true)], [160], 1136, 0)
    ensures Inv(Step(Initial, DoMalloc(100)))
  {
    var st := Start(112);
    assert st == State([Cell(0, 1088, true)], [0], 1136, 0);
    assert Position(st.cells, 0) == 0 && FirstFit(st.order, st.cells, 112) == 0;
    assert Take(st, 0, 112).order == [160];
    assert Take(st, 0, 112).cells == [Cell(0, 112, false), Cell(160, 928, true)];
    StepKeeps(Initial, DoMalloc(100));
  }

  lemma SecondBlock(st: State)
    requires st == Step(Initial, DoMalloc(100))
    ensures Enabled(st, DoRealloc(0, 121)) && Aligned(st) && !Aligned(Step(st, DoRealloc(0, 121)))
  {
    FirstBlock();
    assert Position(st.cells, 0) == 0;
    ReallocAligned(st, 0, 121);
  }

  // Two steps are a run.
  lemma RunOfTwo(op: Op, op': Op, st: State, st': State)
    requires Follows(Initial, op, st) && Follows(st, op', st')
    ensures IsRun([Initial, st, st'], [op, op'])
  {
  }

  lemma RunLosesAlignment() returns (states: seq<State>, ops: seq<Op>)
    ensures IsRun(states, ops) && ops == [DoMalloc(100), DoRealloc(0, 121)]
    ensures Aligned(states[1]) && !Aligned(states[2])
  {
    var st := Step(Initial, DoMalloc(100));
    SecondBlock(st);
    var st' := Step(st, DoRealloc(0, 121));
    RunOfTwo(DoMalloc(100), DoRealloc(0, 121), st, st');
    states, ops := [Initial, st, st'], [DoMalloc(100), DoRealloc(0, 121)];
  }
}
