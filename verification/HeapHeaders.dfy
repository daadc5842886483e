// The headers of alloc.c at their addresses, linked in address order, the free ones in a second doubly
// linked list, and what each step of the allocator makes of them. Pointers are addresses relative to the
// start of the region.
module HeapHeaders {
  import opened HeapLayout
  import opened Sequences

  const NULL: int := -1

  // metadata_entry_t
  datatype Header = Header(size: nat, free: int, next: int, prev: int, prevFree: int, nextFree: int)

  type Headers = map<int, Header>

  function SetFlag(hdr: Headers, p: int, free: int): Headers
    requires p in hdr
  {
    hdr[p := hdr[p].(free := free)]
  }

  function SetSize(hdr: Headers, p: int, size: nat): Headers
    requires p in hdr
  {
    hdr[p := hdr[p].(size := size)]
  }

  function SetNext(hdr: Headers, p: int, next: int): Headers
    requires p in hdr
  {
    hdr[p := hdr[p].(next := next)]
  }

  function SetPrev(hdr: Headers, p: int, prev: int): Headers
    requires p in hdr
  {
    hdr[p := hdr[p].(prev := prev)]
  }

  function SetNextFree(hdr: Headers, p: int, next: int): (r: Headers)
    requires p in hdr
    ensures SameBlocks(hdr, r)
  {
    hdr[p := hdr[p].(nextFree := next)]
  }

  function SetPrevFree(hdr: Headers, p: int, prev: int): (r: Headers)
    requires p in hdr
    ensures SameBlocks(hdr, r)
  {
    hdr[p := hdr[p].(prevFree := prev)]
  }

  lemma SameBlocksTransitive(a: Headers, b: Headers, c: Headers)
    requires SameBlocks(a, b) && SameBlocks(b, c)
    ensures SameBlocks(a, c)
  {
  }

  // ---------- what the headers represent ----------

  function CellAt(cells: seq<Cell>, k: int): int {
    if 0 <= k < |cells| then cells[k].addr else NULL
  }

  function ListAt(order: seq<nat>, i: int): int {
    if 0 <= i < |order| then order[i] else NULL
  }

  ghost predicate DistinctAddrs(cells: seq<Cell>) {
    forall i, j :: 0 <= i < j < |cells| ==> cells[i].addr != cells[j].addr
  }

  // The header of cell k, with its links to the neighbouring cells.
  ghost predicate HeaderIs(hdr: Headers, cells: seq<Cell>, k: nat)
    requires k < |cells|
  {
    var a := cells[k].addr;
    && a in hdr && hdr[a].size == cells[k].size && hdr[a].free == (if cells[k].free then 0 else 1)
    && hdr[a].next == CellAt(cells, k + 1) && hdr[a].prev == CellAt(cells, k - 1)
  }

  ghost predicate Chained(hdr: Headers, cells: seq<Cell>, head: int, end: int) {
    && DistinctAddrs(cells)
    && head == CellAt(cells, 0) && end == CellAt(cells, |cells| - 1)
    && (forall k :: 0 <= k < |cells| ==> HeaderIs(hdr, cells, k))
  }

  // The links of element i of the free list.
  ghost predicate LinkIs(hdr: Headers, order: seq<nat>, i: nat)
    requires i < |order|
  {
    && order[i] in hdr
    && hdr[order[i]].nextFree == ListAt(order, i + 1) && hdr[order[i]].prevFree == ListAt(order, i - 1)
  }

  ghost predicate Listed(hdr: Headers, order: seq<nat>, freeHead: int, freeEnd: int) {
    && Distinct(order)
    && freeHead == ListAt(order, 0) && freeEnd == ListAt(order, |order| - 1)
    && (forall i :: 0 <= i < |order| ==> LinkIs(hdr, order, i))
  }

  // hdr' differs from hdr in the free list's links at most.
  ghost predicate SameBlocks(hdr: Headers, hdr': Headers) {
    && hdr'.Keys == hdr.Keys
    && forall a :: a in hdr ==> (
         && hdr'[a].size == hdr[a].size && hdr'[a].free == hdr[a].free
         && hdr'[a].next == hdr[a].next && hdr'[a].prev == hdr[a].prev)
  }

  lemma ChainedStays(hdr: Headers, hdr': Headers, cells: seq<Cell>, head: int, end: int)
    requires Chained(hdr, cells, head, end) && SameBlocks(hdr, hdr')
    ensures Chained(hdr', cells, head, end)
  {
    forall k | 0 <= k < |cells| ensures HeaderIs(hdr', cells, k) {
      assert HeaderIs(hdr, cells, k);
    }
  }

  // ---------- removefromlist, addtolist ----------

  // The links of element j of the list once element i has been linked around.
  ghost predicate SkipIs(hdr: Headers, order: seq<nat>, i: nat, j: nat)
    requires i < |order| && j < |order|
  {
    && order[j] in hdr
    && hdr[order[j]].nextFree == (if j == i - 1 then ListAt(order, i + 1) else ListAt(order, j + 1))
    && hdr[order[j]].prevFree == (if j == i + 1 then ListAt(order, i - 1) else ListAt(order, j - 1))
  }

  ghost predicate Skipped(hdr: Headers, order: seq<nat>, i: nat)
    requires i < |order|
  {
    forall j :: 0 <= j < |order| && j != i ==> SkipIs(hdr, order, i, j)
  }

  // r is s without its element i.
  ghost predicate Drops<T>(s: seq<T>, i: nat, r: seq<T>) {
    && i < |s| && |r| == |s| - 1
    && (forall j :: 0 <= j < i ==> r[j] == s[j])
    && (forall j :: i <= j < |r| ==> r[j] == s[j + 1])
  }

  lemma DropsDistinct<T>(s: seq<T>, i: nat, r: seq<T>)
    requires Distinct(s) && Drops(s, i, r)
    ensures Distinct(r)
  {
    forall j, k | 0 <= j < k < |r| ensures r[j] != r[k] {
      assert r[j] == s[if j < i then j else j + 1];
      assert r[k] == s[if k < i then k else k + 1];
    }
  }

  lemma SkippedLink(hdr: Headers, order: seq<nat>, i: nat, r: seq<nat>, j: nat)
    requires Drops(order, i, r) && Skipped(hdr, order, i) && j < |r|
    ensures LinkIs(hdr, r, j)
  {
    var o := if j < i then j else j + 1;
    assert SkipIs(hdr, order, i, o);
  }

  lemma SkippedIsListed(hdr: Headers, order: seq<nat>, i: nat, r: seq<nat>)
    requires Distinct(order) && Drops(order, i, r) && Skipped(hdr, order, i)
    ensures Listed(hdr, r, ListAt(order, if i == 0 then 1 else 0),
                   ListAt(order, if i == |order| - 1 then i - 1 else |order| - 1))
  {
    DropsDistinct(order, i, r);
    forall j | 0 <= j < |r| ensures LinkIs(hdr, r, j) {
      SkippedLink(hdr, order, i, r, j);
    }
  }

  lemma WithoutDrops<T>(s: seq<T>, x: T) returns (i: nat, r: seq<T>)
    requires Distinct(s) && x in s
    ensures r == Without(s, x) && i < |s| && s[i] == x && Drops(s, i, r)
    ensures forall j :: 0 <= j < |s| && j != i ==> s[j] != x
  {
    i, r := IndexOf(s, x), Without(s, x);
  }

  // removefromlist, without the flag: the links of the headers and both ends of the list.
  method SkipFree(hdr: Headers, freeHead: int, freeEnd: int, ptr: nat, ghost order: seq<nat>)
    returns (hdr': Headers, freeHead': int, freeEnd': int, ghost order': seq<nat>)
    requires Listed(hdr, order, freeHead, freeEnd) && ptr in order
    ensures SameBlocks(hdr, hdr') && order' == Without(order, ptr)
    ensures Listed(hdr', order', freeHead', freeEnd')
  {
    hdr', freeHead', freeEnd' := hdr, freeHead, freeEnd;
    ghost var i: int;
    i, order' := WithoutDrops(order, ptr);
    assert LinkIs(hdr, order, i);
    assert i > 0 ==> LinkIs(hdr, order, i - 1);
    assert i + 1 < |order| ==> LinkIs(hdr, order, i + 1);
    if ptr == freeHead && ptr == freeEnd {
      freeHead', freeEnd' := NULL, NULL;
      assert |order| == 1;
    } else {
      if ptr == freeHead {
        freeHead' := hdr'[ptr].nextFree;
      } else {
        hdr' := SetNextFree(hdr', hdr'[ptr].prevFree, hdr'[ptr].nextFree);
      }
      ghost var half := hdr';
      if ptr == freeEnd {
        freeEnd' := hdr'[ptr].prevFree;
      } else {
        hdr' := SetPrevFree(hdr', hdr'[ptr].nextFree, hdr'[ptr].prevFree);
      }
      SameBlocksTransitive(hdr, half, hdr');
    }
    hdr' := ClearFree(hdr', ptr);
    forall j | 0 <= j < |order| && j != i ensures SkipIs(hdr', order, i, j) {
      assert LinkIs(hdr, order, j);
    }
    assert freeHead' == ListAt(order, if i == 0 then 1 else 0);
    assert freeEnd' == ListAt(order, if i == |order| - 1 then i - 1 else |order| - 1);
    SkippedIsListed(hdr', order, i, order');
  }

  // ptr->prevFree = NULL and ptr->nextFree = NULL, the last steps of every path of removefromlist.
  function ClearFree(hdr: Headers, ptr: int): (r: Headers)
    requires ptr in hdr
    ensures SameBlocks(hdr, r)
  {
    SetNextFree(SetPrevFree(hdr, ptr, NULL), ptr, NULL)
  }

  // hdr' has the free links that hdr has, for the blocks of a list.
  ghost predicate SameFreeLinks(hdr: Headers, hdr': Headers, order: seq<nat>) {
    forall a :: a in order && a in hdr ==> (
         && a in hdr'
         && hdr'[a].nextFree == hdr[a].nextFree && hdr'[a].prevFree == hdr[a].prevFree)
  }

  lemma ListedStays(hdr: Headers, hdr': Headers, order: seq<nat>, freeHead: int, freeEnd: int)
    requires Listed(hdr, order, freeHead, freeEnd) && SameFreeLinks(hdr, hdr', order)
    ensures Listed(hdr', order, freeHead, freeEnd)
  {
    forall i | 0 <= i < |order| ensures LinkIs(hdr', order, i) {
      assert LinkIs(hdr, order, i);
    }
  }

  lemma FlagKeepsChain(hdr: Headers, cells: seq<Cell>, head: int, end: int, k: nat, flag: bool)
    requires Chained(hdr, cells, head, end) && k < |cells|
    ensures HeaderIs(hdr, cells, k)
    ensures Chained(SetFlag(hdr, cells[k].addr, if flag then 0 else 1), Flagged(cells, k, flag), head, end)
  {
    assert HeaderIs(hdr, cells, k);
    var hdr', cells' := SetFlag(hdr, cells[k].addr, if flag then 0 else 1), Flagged(cells, k, flag);
    forall j | 0 <= j < |cells'| ensures HeaderIs(hdr', cells', j) {
      assert HeaderIs(hdr, cells, j);
    }
  }

  function Flagged(cells: seq<Cell>, k: nat, flag: bool): seq<Cell>
    requires k < |cells|
  {
    cells[k := cells[k].(free := flag)]
  }

  // The list with ptr linked in at its end.
  lemma AppendedIsListed(hdr: Headers, hdr': Headers, order: seq<nat>, freeHead: int, freeEnd: int, ptr: nat)
    requires Listed(hdr, order, freeHead, freeEnd) && ptr !in order && ptr in hdr
    requires freeEnd == NULL || freeEnd in hdr
    requires hdr' == AppendFree(hdr, freeEnd, ptr)
    ensures Listed(hdr', order + [ptr], if order == [] then ptr else freeHead, ptr)
  {
    var r := order + [ptr];
    forall i | 0 <= i < |r| ensures LinkIs(hdr', r, i) {
      if i < |order| {
        assert r[i] == order[i] && order[i] != ptr;
        assert LinkIs(hdr, order, i);
        assert i < |order| - 1 ==> order[i] != order[|order| - 1];
      }
    }
  }

  // The links that addtolist writes.
  function AppendFree(hdr: Headers, freeEnd: int, ptr: int): (r: Headers)
    requires ptr in hdr && (freeEnd == NULL || freeEnd in hdr)
    ensures SameBlocks(hdr, r)
  {
    if freeEnd == NULL then ClearFree(hdr, ptr)
    else SetNextFree(SetPrevFree(SetNextFree(hdr, freeEnd, ptr), ptr, freeEnd), ptr, NULL)
  }

  // The headers and the static variables that lead to them.
  datatype Links = Links(hdr: Headers, head: int, end: int, freeHead: int, freeEnd: int)

  ghost predicate Coherent(links: Links, cells: seq<Cell>, order: seq<nat>) {
    match links
    case Links(hdr, head, end, freeHead, freeEnd) =>
      Chained(hdr, cells, head, end) && Listed(hdr, order, freeHead, freeEnd)
  }

  function Zeros(n: nat): (r: seq<int>)
    ensures |r| == n && forall x :: 0 <= x < n ==> r[x] == 0
  {
    seq(n, _ => 0)
  }

  function Overwrite(mem: seq<int>, at: nat, bytes: seq<int>): (r: seq<int>)
    requires at + |bytes| <= |mem|
    ensures SameOutside(mem, r, at, at + |bytes|) && r[at..at + |bytes|] == bytes
  {
    mem[..at] + bytes + mem[at + |bytes|..]
  }

  // sbrk: the region grows at its end.
  function Sbrk(mem: seq<int>, total: nat): (r: seq<int>)
    ensures |r| == |mem| + total && mem <= r
  {
    mem + Zeros(total)
  }

  // The headers after resize, before addtolist.
  function ResizeHeaders(hdr: Headers, result: nat, size: nat, end: int): (r: Headers)
    requires end in hdr
  {
    SetNext(hdr[result := Header(size, 0, NULL, end, NULL, NULL)], end, result)
  }

  lemma ResizeIsChained(hdr: Headers, cells: seq<Cell>, head: int, end: int, result: nat, size: nat)
    requires Chained(hdr, cells, head, end) && cells != [] && NoCellAt(cells, result)
    ensures end in hdr
    ensures Chained(ResizeHeaders(hdr, result, size, end), cells + [Cell(result, size, true)], head, result)
    ensures forall order: seq<nat> :: result !in order ==>
      SameFreeLinks(hdr, ResizeHeaders(hdr, result, size, end), order)
  {
    var last := |cells| - 1;
    assert HeaderIs(hdr, cells, last);
    var hdr', cells' := ResizeHeaders(hdr, result, size, end), cells + [Cell(result, size, true)];
    forall j | 0 <= j < |cells'| ensures HeaderIs(hdr', cells', j) {
      if j < |cells| {
        assert HeaderIs(hdr, cells, j);
        assert j != last ==> cells[j].addr != cells[last].addr;
      }
    }
  }

  // Two states of the region that differ in [from, to) at most.
  ghost predicate SameOutside(mem: seq<int>, mem': seq<int>, from: nat, to: nat) {
    |mem'| == |mem| && forall x :: 0 <= x < |mem| && !(from <= x < to) ==> mem'[x] == mem[x]
  }

  ghost predicate NoCellAt(cells: seq<Cell>, addr: int) {
    forall k :: 0 <= k < |cells| ==> cells[k].addr != addr
  }

  function SplitCells(cells: seq<Cell>, k: nat, size: nat): (r: seq<Cell>)
    requires k < |cells| && size + STRUCT_SIZE <= cells[k].size
    ensures |r| == |cells| + 1 && r[k] == cells[k].(size := size)
    ensures r[k + 1] == Cell(cells[k].addr + STRUCT_SIZE + size, cells[k].size - size - STRUCT_SIZE, true)
    ensures forall j :: 0 <= j < k ==> r[j] == cells[j]
    ensures forall j :: k + 1 < j < |r| ==> r[j] == cells[j - 1]
  {
    cells[..k]
    + [cells[k].(size := size), Cell(cells[k].addr + STRUCT_SIZE + size, cells[k].size - size - STRUCT_SIZE, true)]
    + cells[k + 1..]
  }

  // The headers after split, before addtolist.
  function SplitHeaders(hdr: Headers, ptr: int, size: nat, end: int): (r: Headers)
    requires ptr in hdr && size + STRUCT_SIZE <= hdr[ptr].size
    requires ptr == end || hdr[ptr].next in hdr
  {
    var temp := ptr + STRUCT_SIZE + size;
    var added := hdr[temp := Header(hdr[ptr].size - size - STRUCT_SIZE, 0, hdr[ptr].next, ptr, NULL, NULL)];
    var cut := SetSize(SetNext(added, ptr, temp), ptr, size);
    if ptr != end then SetPrev(cut, cut[temp].next, temp) else cut
  }

  lemma SplitFreeLinks(hdr: Headers, ptr: nat, size: nat, end: int, order: seq<nat>)
    requires ptr in hdr && size + STRUCT_SIZE <= hdr[ptr].size && (ptr == end || hdr[ptr].next in hdr)
    requires ptr + STRUCT_SIZE + size !in order
    ensures SameFreeLinks(hdr, SplitHeaders(hdr, ptr, size, end), order)
  {
  }

  // The header at position j after split; o is the position it had before.
  lemma SplitHeaderIs(hdr: Headers, cells: seq<Cell>, end: int, k: nat, size: nat, j: nat, o: nat)
    requires k < |cells| && size + STRUCT_SIZE <= cells[k].size && HeaderIs(hdr, cells, k)
    requires k + 1 < |cells| ==> HeaderIs(hdr, cells, k + 1)
    requires cells[k].addr != end <==> k + 1 < |cells|
    requires j <= |cells| && j != k + 1 && o == (if j <= k then j else j - 1) && HeaderIs(hdr, cells, o)
    requires o != k ==> cells[o].addr != cells[k].addr
    requires k + 1 < |cells| && o != k + 1 ==> cells[o].addr != cells[k + 1].addr
    requires cells[o].addr != cells[k].addr + STRUCT_SIZE + size
    requires k + 1 < |cells| ==> cells[k + 1].addr != cells[k].addr + STRUCT_SIZE + size
    ensures HeaderIs(SplitHeaders(hdr, cells[k].addr, size, end), SplitCells(cells, k, size), j)
  {
  }

  lemma SplitIsChained(hdr: Headers, cells: seq<Cell>, head: int, end: int, k: nat, size: nat)
    requires Chained(hdr, cells, head, end) && k < |cells| && size + STRUCT_SIZE <= cells[k].size
    requires NoCellAt(cells, cells[k].addr + STRUCT_SIZE + size)
    ensures HeaderIs(hdr, cells, k) && (cells[k].addr == end || hdr[cells[k].addr].next in hdr)
    ensures Chained(SplitHeaders(hdr, cells[k].addr, size, end), SplitCells(cells, k, size), head,
                    if cells[k].addr != end then end else cells[k].addr + STRUCT_SIZE + size)
  {
    assert HeaderIs(hdr, cells, k);
    assert k + 1 < |cells| ==> HeaderIs(hdr, cells, k + 1);
    assert cells[k].addr != end <==> k + 1 < |cells|;
    var hdr', cells' := SplitHeaders(hdr, cells[k].addr, size, end), SplitCells(cells, k, size);
    forall j | 0 <= j < |cells'| ensures HeaderIs(hdr', cells', j) {
      if j != k + 1 {
        SplitHeaderIs(hdr, cells, end, k, size, j, if j <= k then j else j - 1);
      }
    }
    DistinctSplit(cells, k, size);
  }

  lemma DistinctSplit(cells: seq<Cell>, k: nat, size: nat)
    requires DistinctAddrs(cells) && k < |cells| && size + STRUCT_SIZE <= cells[k].size
    requires NoCellAt(cells, cells[k].addr + STRUCT_SIZE + size)
    ensures DistinctAddrs(SplitCells(cells, k, size))
  {
    var r := SplitCells(cells, k, size);
    forall i, j | 0 <= i < j < |r| ensures r[i].addr != r[j].addr {
      assert i != k + 1 ==> r[i].addr == cells[if i <= k then i else i - 1].addr;
      assert j != k + 1 ==> r[j].addr == cells[if j <= k then j else j - 1].addr;
    }
  }

  // The headers after coalesce.
  function CoalescedHeaders(hdr: Headers, current: int, next: int, end: int): (r: Headers)
    requires current in hdr && next in hdr && current != next
    requires next == end || (hdr[next].next in hdr && hdr[next].next != next)
    ensures forall order: seq<nat> :: SameFreeLinks(hdr, r, order)
  {
    var sized := SetFlag(SetSize(hdr, current, hdr[current].size + hdr[next].size + STRUCT_SIZE), current, 0);
    var linked := SetNext(sized, current, sized[next].next);
    if next != end then SetPrev(linked, linked[next].next, current) else linked
  }

  lemma CoalescedIsChained(hdr: Headers, cells: seq<Cell>, head: int, end: int, k: nat)
    requires Chained(hdr, cells, head, end) && k + 1 < |cells|
    ensures HeaderIs(hdr, cells, k) && HeaderIs(hdr, cells, k + 1) && cells[k].addr != cells[k + 1].addr
    ensures cells[k + 1].addr == end ||
      (hdr[cells[k + 1].addr].next in hdr && hdr[cells[k + 1].addr].next != cells[k + 1].addr)
    ensures Chained(CoalescedHeaders(hdr, cells[k].addr, cells[k + 1].addr, end), Merged(cells, k), head,
                    if cells[k + 1].addr != end then end else cells[k].addr)
  {
    assert HeaderIs(hdr, cells, k) && HeaderIs(hdr, cells, k + 1);
    assert k + 2 < |cells| ==> HeaderIs(hdr, cells, k + 2);
    assert cells[k + 1].addr != end <==> k + 2 < |cells|;
    var hdr', cells' := CoalescedHeaders(hdr, cells[k].addr, cells[k + 1].addr, end), Merged(cells, k);
    forall j | 0 <= j < |cells'| ensures HeaderIs(hdr', cells', j) {
      var o := if j <= k then j else j + 1;
      assert HeaderIs(hdr, cells, o);
      assert o != k ==> cells[o].addr != cells[k].addr;
      assert k + 2 < |cells| && o != k + 2 ==> cells[o].addr != cells[k + 2].addr;
    }
    DistinctMerged(cells, k);
  }

  function Merged(cells: seq<Cell>, k: nat): (r: seq<Cell>)
    requires k + 1 < |cells|
    ensures |r| == |cells| - 1 && r[k] == Merge(cells[k], cells[k + 1])
    ensures forall j :: 0 <= j < k ==> r[j] == cells[j]
    ensures forall j :: k < j < |r| ==> r[j] == cells[j + 1]
  {
    cells[..k] + [Merge(cells[k], cells[k + 1])] + cells[k + 2..]
  }

  lemma DistinctMerged(cells: seq<Cell>, k: nat)
    requires DistinctAddrs(cells) && k + 1 < |cells|
    ensures DistinctAddrs(Merged(cells, k))
  {
    var r := Merged(cells, k);
    forall i, j | 0 <= i < j < |r| ensures r[i].addr != r[j].addr {
      assert r[i].addr == cells[if i <= k then i else i + 1].addr;
      assert r[j].addr == cells[if j <= k then j else j + 1].addr;
    }
  }

  lemma {:induction false} NoFit(order: seq<nat>, cells: seq<Cell>, size: nat)
    requires forall j :: 0 <= j < |order| ==> !Fits(cells, order[j], size)
    ensures FirstFit(order, cells, size) == |order|
  {
    if order != [] {
      assert !Fits(cells, order[0], size);
      forall j | 0 <= j < |order| - 1 ensures !Fits(cells, order[1..][j], size) {
        assert !Fits(cells, order[j + 1], size);
      }
      NoFit(order[1..], cells, size);
    }
  }

  // An address on the free list is the address of a free block, under which it is found.
  lemma ListedBlock(st: State, a: nat) returns (k: nat)
    requires Inv(st) && a in st.order
    ensures k < |st.cells| && st.cells[k].addr == a && st.cells[k].free && Position(st.cells, a) == k
  {
    assert a in Elements(st.order);
    var c :| c in st.cells && c.free && c.addr == a;
    k :| 0 <= k < |st.cells| && st.cells[k] == c;
    PositionFound(st.cells, 0, st.capacity, k);
  }

  lemma NoCellInside(st: State, cells: seq<Cell>, k: nat, x: nat)
    requires Inv(st) && k < |st.cells| && st.cells[k].addr < x < st.cells[k].End()
    requires |cells| == |st.cells| && forall j :: 0 <= j < |cells| ==> cells[j].addr == st.cells[j].addr
    ensures NoCellAt(cells, x)
  {
    forall j | 0 <= j < |cells| ensures cells[j].addr != x {
      if j != k {
        TiledDisjoint(st.cells, 0, st.capacity, if j < k then j else k, if j < k then k else j);
      }
    }
  }

  // No block starts at x, no entry of the free list is x, and a header fits in there.
  ghost predicate RoomFor(x: nat, cells: seq<Cell>, order: seq<nat>, capacity: nat) {
    NoCellAt(cells, x) && x !in order && x + STRUCT_SIZE <= capacity
  }

  lemma RoomToCut(st: State, k: nat, need: nat)
    requires Inv(st) && k < |st.cells| && need <= st.cells[k].size
    ensures st.cells[k].size - need > 2 * STRUCT_SIZE ==>
      RoomFor(st.cells[k].addr + STRUCT_SIZE + need, st.cells, st.order, st.capacity)
  {
    TiledWithin(st.cells, 0, st.capacity, k);
    if st.cells[k].size - need > 2 * STRUCT_SIZE {
      InsideIsFresh(st, k, st.cells[k].addr + STRUCT_SIZE + need);
      NoCellInside(st, st.cells, k, st.cells[k].addr + STRUCT_SIZE + need);
    }
  }

  function CutAt(cells: seq<Cell>, k: nat, need: nat): seq<Cell>
    requires k < |cells| && need <= cells[k].size
  {
    cells[..k] + Cut(cells[k], need) + cells[k + 1..]
  }

  function CutListed(order: seq<nat>, cells: seq<Cell>, k: nat, need: nat): seq<nat>
    requires k < |cells| && need <= cells[k].size
  {
    if |Cut(cells[k], need)| == 2 then order + [Cut(cells[k], need)[1].addr] else order
  }

  lemma CutUsed(cells: seq<Cell>, k: nat, need: nat)
    requires k < |cells| && need <= cells[k].size
    ensures k < |CutAt(cells, k, need)| && CutAt(cells, k, need)[k].addr == cells[k].addr
    ensures Flagged(CutAt(cells, k, need), k, false) == CutAt(cells, k, need)
  {
    var r := CutAt(cells, k, need);
    assert r[k] == Cut(cells[k], need)[0];
    assert r[k] == r[k].(free := false);
  }

  // The cells once block k has been marked and cut.
  lemma CutCells(before: seq<Cell>, after: seq<Cell>, k: nat, need: nat)
    requires k < |before| && need <= before[k].size
    requires after == if before[k].size - need > 2 * STRUCT_SIZE
      then Flagged(SplitCells(Flagged(before, k, false), k, need), k + 1, true) else Flagged(before, k, false)
    ensures after == CutAt(before, k, need)
  {
  }

  // ---------- payloads ----------

  // The payload of each of the blocks is the same in both states of the region.
  ghost predicate KeepsPayloads(mem: seq<int>, mem': seq<int>, live: set<Cell>) {
    forall c :: c in live ==> SamePayload(mem, mem', c)
  }

  ghost predicate SamePayload(mem: seq<int>, mem': seq<int>, c: Cell) {
    && c.End() <= |mem| && c.End() <= |mem'|
    && mem'[c.addr + STRUCT_SIZE..c.End()] == mem[c.addr + STRUCT_SIZE..c.End()]
  }

  // A block, header included, lies outside the payloads of all other blocks.
  lemma BlockOutside(st: State, d: Cell, from: nat, to: nat, mem: seq<int>, mem': seq<int>, live: set<Cell>)
    requires Inv(st) && st.cells != [] && d in st.cells && d !in live && |mem| == st.capacity
    requires forall c :: c in live ==> c in st.cells
    requires d.addr <= from && to <= d.End() && SameOutside(mem, mem', from, to)
    ensures KeepsPayloads(mem, mem', live)
  {
    var j :| 0 <= j < |st.cells| && st.cells[j] == d;
    forall c | c in live ensures SamePayload(mem, mem', c) {
      var i :| 0 <= i < |st.cells| && st.cells[i] == c;
      TiledWithin(st.cells, 0, st.capacity, i);
      TiledDisjoint(st.cells, 0, st.capacity, if i < j then i else j, if i < j then j else i);
    }
  }

  lemma SamePayloads(st: State, mem: seq<int>)
    requires Inv(st) && (st.cells != [] ==> |mem| == st.capacity)
    ensures KeepsPayloads(mem, mem, Live(st.cells))
  {
    forall c | c in Live(st.cells) ensures SamePayload(mem, mem, c) {
      var i :| 0 <= i < |st.cells| && st.cells[i] == c;
      TiledWithin(st.cells, 0, st.capacity, i);
    }
  }

  // The blocks and the list are those of the specification, and only the header of a rest was written.
  lemma TakeDone(st: State, k: nat, need: nat, st': State, mem: seq<int>, mem': seq<int>)
    requires Inv(st) && k < |st.cells| && need <= st.cells[k].size && |mem| == st.capacity
    requires st.cells[k].addr in st.order && st.cells[k].addr in CutListed(st.order, st.cells, k, need)
    requires st'.cells == CutAt(st.cells, k, need)
    requires st'.order == Without(CutListed(st.order, st.cells, k, need), st.cells[k].addr)
    requires st'.capacity == st.capacity && st'.resizes == st.resizes
    requires var x := st.cells[k].addr + STRUCT_SIZE + need;
      if |Cut(st.cells[k], need)| == 2 then SameOutside(mem, mem', x, x + STRUCT_SIZE) else mem' == mem
    ensures Inv(st') && st' == Take(st, k, need) && KeepsPayloads(mem, mem', Live(st.cells))
  {
    FreeIsListed(st, k);
    TakeKeeps(st, k, need);
    SamePayloads(st, mem);
    assert st' == Take(st, k, need);
    var cut := Cut(st.cells[k], need);
    if |cut| == 2 {
      assert st'.cells[k + 1] == cut[1];
      BlockOutside(st', cut[1], cut[1].addr, cut[1].addr + STRUCT_SIZE, mem, mem', Live(st.cells));
    }
  }

  lemma SingleBlock(hdr: Headers, size: nat)
    requires 0 in hdr && hdr[0] == Header(size, 0, NULL, NULL, NULL, NULL)
    ensures Chained(hdr, [Cell(0, size, true)], 0, 0) && Listed(hdr, [0], 0, 0)
  {
    assert HeaderIs(hdr, [Cell(0, size, true)], 0);
  }

  // After resize, malloc calls itself; that call succeeds with the new block.
  lemma MallocGrown(st: State, need: nat)
    requires Inv(st) && st.cells != [] && FirstFit(st.order, st.cells, need) == |st.order| && need % 16 == 0
    ensures st.capacity > 0 && Inv(Grow(st, need)) && Align(need) == need
    ensures FirstFit(Grow(st, need).order, Grow(st, need).cells, need) < |Grow(st, need).order|
    ensures HeapLayout.Malloc(Grow(st, need), need) == HeapLayout.Malloc(st, need)
    ensures Live(Grow(st, need).cells) == Live(st.cells)
  {
    GrowKeeps(st, need);
    FitAfterGrow(st, need);
    MallocSteps(st, need);
  }

  lemma MallocFound(st: State, need: nat, i: nat) returns (k: nat)
    requires Inv(st) && st.cells != [] && need % 16 == 0
    requires i == FirstFit(st.order, st.cells, need) < |st.order|
    ensures k < |st.cells| && st.cells[k].addr == st.order[i] && need <= st.cells[k].size
    ensures HeapLayout.Malloc(st, need) == (Take(st, k, need), st.order[i])
  {
    assert Align(need) == need;
    MallocSteps(st, need);
    k := Position(st.cells, st.order[i]);
  }

  lemma NothingAtEnd(st: State)
    requires Inv(st) && st.cells != []
    ensures NoCellAt(st.cells, st.capacity) && st.capacity !in st.order
  {
    forall j | 0 <= j < |st.cells| ensures st.cells[j].addr != st.capacity {
      TiledWithin(st.cells, 0, st.capacity, j);
    }
    if st.capacity in st.order {
      var k := ListedBlock(st, st.capacity);
    }
  }

  lemma PrefixPayloads(st: State, mem: seq<int>, mem': seq<int>)
    requires Inv(st) && (st.cells != [] ==> |mem| == st.capacity) && mem <= mem'
    ensures KeepsPayloads(mem, mem', Live(st.cells))
  {
    SamePayloads(st, mem);
    forall c | c in Live(st.cells) ensures SamePayload(mem, mem', c) {
      assert SamePayload(mem, mem, c);
    }
  }

  lemma PayloadsTransitive(a: seq<int>, b: seq<int>, c: seq<int>, live: set<Cell>)
    requires KeepsPayloads(a, b, live) && KeepsPayloads(b, c, live)
    ensures KeepsPayloads(a, c, live)
  {
    forall d | d in live ensures SamePayload(a, c, d) {
      assert SamePayload(a, b, d) && SamePayload(b, c, d);
    }
  }

  // The cells after JoinNext, JoinPrev and JoinBoth.
  function JoinedNext(cells: seq<Cell>, k: nat): (r: seq<Cell>)
    requires k + 1 < |cells|
  {
    Flagged(Merged(Flagged(cells, k + 1, false), k), k, true)
  }

  function JoinedPrev(cells: seq<Cell>, k: nat): (r: seq<Cell>)
    requires 0 < k < |cells|
    ensures |r| == |cells| - 1
  {
    Flagged(Merged(Flagged(cells, k - 1, false), k - 1), k - 1, true)
  }

  function JoinedBoth(cells: seq<Cell>, k: nat): (r: seq<Cell>)
    requires 0 < k && k + 1 < |cells|
  {
    var once := JoinedPrev(cells, k);
    Flagged(Merged(Flagged(Flagged(once, k, false), k - 1, false), k - 1), k - 1, true)
  }

  predicate BothListed(order: seq<nat>, pre: nat, next: nat) {
    && pre in order && next in Without(order, pre) + [pre]
    && pre in Without(Without(order, pre) + [pre], next)
  }

  function BothOrder(order: seq<nat>, pre: nat, next: nat): seq<nat>
    requires BothListed(order, pre, next)
  {
    Without(Without(Without(order, pre) + [pre], next), pre) + [pre]
  }

  lemma BothSteps(order: seq<nat>, pre: nat, next: nat)
    requires Distinct(order) && pre in order && next in order && pre != next
    ensures BothListed(order, pre, next) && pre !in Without(order, pre)
    ensures pre !in Without(Without(Without(order, pre) + [pre], next), pre)
  {
    WithoutElements(order, pre);
    assert pre !in Elements(Without(order, pre));
    StaysIn(order, pre, next);
    AppendElements(Without(order, pre), pre);
    var once := Without(order, pre) + [pre];
    StaysIn(once, next, pre);
    WithoutElements(once, next);
    var twice := Without(once, next);
    WithoutElements(twice, pre);
    assert pre !in Elements(Without(twice, pre));
  }

  // What the steps of free need from the list.
  ghost predicate Joinable(cells: seq<Cell>, order: seq<nat>, k: nat)
    requires k < |cells|
  {
    && Distinct(order) && cells[k].addr !in order
    && (NextFree(cells, k) ==>
          cells[k + 1].addr in order && cells[k].addr !in Without(order, cells[k + 1].addr))
    && (PrevFree(cells, k) ==>
          cells[k - 1].addr in order && cells[k - 1].addr !in Without(order, cells[k - 1].addr))
    && (PrevFree(cells, k) && NextFree(cells, k) ==>
          cells[k - 1].addr != cells[k + 1].addr && BothListed(order, cells[k - 1].addr, cells[k + 1].addr))
  }

  // Blocks and list after the steps, on each of the four ways through free.
  ghost predicate Joined(cells: seq<Cell>, order: seq<nat>, k: nat, cells': seq<Cell>, order': seq<nat>)
    requires k < |cells| && Joinable(cells, order, k)
  {
    if !PrevFree(cells, k) && !NextFree(cells, k) then
      cells' == Flagged(cells, k, true) && order' == order + [cells[k].addr]
    else if !PrevFree(cells, k) then
      cells' == JoinedNext(cells, k) && order' == Without(order, cells[k + 1].addr) + [cells[k].addr]
    else if !NextFree(cells, k) then
      cells' == JoinedPrev(cells, k) && order' == Without(order, cells[k - 1].addr) + [cells[k - 1].addr]
    else
      cells' == JoinedBoth(cells, k) && order' == BothOrder(order, cells[k - 1].addr, cells[k + 1].addr)
  }

  // All four ways through free lead to the state that the specification asks for.
  lemma FreeDone(st: State, k: nat, st': State)
    requires Inv(st) && k < |st.cells| && !st.cells[k].free
    requires Joinable(Flagged(st.cells, k, true), st.order, k)
    requires Joined(Flagged(st.cells, k, true), st.order, k, st'.cells, st'.order)
    requires st'.capacity == st.capacity && st'.resizes == st.resizes
    ensures Inv(st') && st' == HeapLayout.Free(st, k)
  {
    FreeKeeps(st, k);
    FreedCellsAre(st.cells, st.order, k, st'.cells, st'.order);
    NeighboursListed(st, k);
    assert st'.order == FreedOrder(st.order, st.cells, k);
  }

  lemma FreedCellsAre(cells: seq<Cell>, order: seq<nat>, k: nat, cells': seq<Cell>, order': seq<nat>)
    requires k < |cells| && Joinable(Flagged(cells, k, true), order, k)
    requires Joined(Flagged(cells, k, true), order, k, cells', order')
    ensures cells' == cells[..Low(cells, k)] + [Freed(cells, k)] + cells[High(cells, k)..]
  {
    if PrevFree(cells, k) && NextFree(cells, k) {
      JoinedBothIs(cells, k);
    } else if PrevFree(cells, k) {
      JoinedPrevIs(cells, k);
    } else if NextFree(cells, k) {
      JoinedNextIs(cells, k);
    } else {
      assert cells' == cells[..k] + [cells[k].(free := true)] + cells[k + 1..];
    }
  }

  lemma JoinedNextIs(cells: seq<Cell>, k: nat)
    requires k + 1 < |cells| && cells[k + 1].free
    ensures JoinedNext(Flagged(cells, k, true), k) ==
      cells[..k] + [Merge(cells[k].(free := true), cells[k + 1])] + cells[k + 2..]
  {
  }

  lemma JoinedPrevIs(cells: seq<Cell>, k: nat)
    requires 0 < k < |cells| && cells[k - 1].free
    ensures JoinedPrev(Flagged(cells, k, true), k) ==
      cells[..k - 1] + [Merge(cells[k - 1], cells[k])] + cells[k + 1..]
  {
  }

  lemma JoinedBothIs(cells: seq<Cell>, k: nat)
    requires 0 < k && k + 1 < |cells| && cells[k - 1].free
    ensures JoinedBoth(Flagged(cells, k, true), k) ==
      cells[..k - 1] + [Merge(Merge(cells[k - 1], cells[k]), cells[k + 1])] + cells[k + 2..]
  {
    JoinedPrevIs(cells, k);
    var once := cells[..k - 1] + [Merge(cells[k - 1], cells[k])] + cells[k + 1..];
    assert once[k - 1] == Merge(cells[k - 1], cells[k]) && once[k] == cells[k + 1];
    assert once[..k - 1] == cells[..k - 1] && once[k + 1..] == cells[k + 2..];
  }

  lemma FreeSteps(st: State, k: nat)
    requires Inv(st) && k < |st.cells| && !st.cells[k].free
    ensures Joinable(Flagged(st.cells, k, true), st.order, k)
  {
    NeighboursListed(st, k);
    FreeIsListed(st, k);
    if NextFree(st.cells, k) {
      WithoutElements(st.order, st.cells[k + 1].addr);
      assert st.cells[k].addr !in Elements(Without(st.order, st.cells[k + 1].addr));
    }
    if PrevFree(st.cells, k) {
      WithoutElements(st.order, st.cells[k - 1].addr);
      assert st.cells[k - 1].addr !in Elements(Without(st.order, st.cells[k - 1].addr));
      if NextFree(st.cells, k) {
        BothSteps(st.order, st.cells[k - 1].addr, st.cells[k + 1].addr);
      }
    }
  }

  // ---------- realloc ----------

  // The headers after the block has taken over its right neighbour, which has left the free list.
  function TakenOverHeaders(hdr: Headers, entry: int, temp: int): (r: Headers)
    requires entry in hdr && temp in hdr && entry != temp
    requires hdr[temp].next == NULL || hdr[temp].next in hdr
    ensures forall order: seq<nat> :: SameFreeLinks(hdr, r, order)
  {
    var sized := SetSize(hdr, entry, hdr[entry].size + hdr[temp].size + STRUCT_SIZE);
    var linked := SetNext(sized, entry, sized[temp].next);
    if linked[temp].next != NULL then SetPrev(linked, linked[temp].next, entry) else linked
  }

  lemma TakenOverIsChained(hdr: Headers, cells: seq<Cell>, head: int, end: int, k: nat)
    requires Chained(hdr, cells, head, end) && k + 1 < |cells| && !cells[k].free
    ensures HeaderIs(hdr, cells, k) && HeaderIs(hdr, cells, k + 1) && cells[k].addr != cells[k + 1].addr
    ensures hdr[cells[k + 1].addr].next == NULL || hdr[cells[k + 1].addr].next in hdr
    ensures Chained(TakenOverHeaders(hdr, cells[k].addr, cells[k + 1].addr), Flagged(Merged(cells, k), k, false),
                    head, if hdr[cells[k + 1].addr].next != NULL then end else cells[k].addr)
  {
    CoalescedIsChained(hdr, cells, head, end, k);
    assert k + 2 < |cells| ==> HeaderIs(hdr, cells, k + 2);
    assert cells[k + 1].addr != end <==> k + 2 < |cells|;
    var coalesced := CoalescedHeaders(hdr, cells[k].addr, cells[k + 1].addr, end);
    FlagKeepsChain(coalesced, Merged(cells, k), head,
                   if cells[k + 1].addr != end then end else cells[k].addr, k, false);
    assert TakenOverHeaders(hdr, cells[k].addr, cells[k + 1].addr) == SetFlag(coalesced, cells[k].addr, 1);
  }

  function TakenOver(cells: seq<Cell>, k: nat): seq<Cell>
    requires k + 1 < |cells|
  {
    Flagged(Merged(Flagged(cells, k + 1, false), k), k, false)
  }

  // Room for the header of the rest, when realloc cuts the block it has extended.
  lemma RoomToExtend(st: State, k: nat, size: nat)
    requires Inv(st) && k < |st.cells| && CanExtend(st.cells, k, size)
    ensures st.cells[k + 1].addr in st.order && size <= Merge(st.cells[k], st.cells[k + 1]).size
    ensures Merge(st.cells[k], st.cells[k + 1]).size - size > 2 * STRUCT_SIZE ==>
      RoomFor(st.cells[k].addr + STRUCT_SIZE + size, TakenOver(st.cells, k),
              Without(st.order, st.cells[k + 1].addr), st.capacity)
  {
    var x := st.cells[k].addr + STRUCT_SIZE + size;
    NeighboursListed(st, k);
    TiledNeighbours(st.cells, 0, st.capacity, k);
    TiledWithin(st.cells, 0, st.capacity, k + 1);
    if Merge(st.cells[k], st.cells[k + 1]).size - size > 2 * STRUCT_SIZE {
      FreshInPair(st, k, x);
      WithoutElements(st.order, st.cells[k + 1].addr);
      assert x !in Elements(Without(st.order, st.cells[k + 1].addr));
      NoCellTaken(st, k, x);
    }
  }

  lemma NoCellTaken(st: State, k: nat, x: nat)
    requires Inv(st) && k + 1 < |st.cells| && st.cells[k].addr < x < st.cells[k + 1].End()
    ensures NoCellAt(TakenOver(st.cells, k), x)
  {
    var r := TakenOver(st.cells, k);
    forall j | 0 <= j < |r| ensures r[j].addr != x {
      if j < k {
        TiledDisjoint(st.cells, 0, st.capacity, j, k);
      } else if j > k {
        TiledDisjoint(st.cells, 0, st.capacity, k + 1, j + 1);
      }
    }
  }

  // Blocks and free list once block k has taken over its right neighbour and has been cut at size.
  ghost predicate ExtendedTo(cells: seq<Cell>, order: seq<nat>, k: nat, size: nat, cells': seq<Cell>, order': seq<nat>)
    requires k + 1 < |cells| && cells[k + 1].addr in order && size <= Merge(cells[k], cells[k + 1]).size
  {
    var merged, listed := Merge(cells[k], cells[k + 1]), Without(order, cells[k + 1].addr);
    if merged.size - size > 2 * STRUCT_SIZE then
      && cells' == Flagged(SplitCells(TakenOver(cells, k), k, size), k + 1, true)
      && order' == listed + [merged.addr + STRUCT_SIZE + size]
    else cells' == TakenOver(cells, k) && order' == listed
  }

  // n bytes at `from` in mem are the n bytes at `to` in mem'.
  ghost predicate SameUpTo(mem: seq<int>, mem': seq<int>, from: nat, to: nat, n: nat) {
    from + n <= |mem| && to + n <= |mem'| && mem'[to..to + n] == mem[from..from + n]
  }

  lemma ExtendedIs(st: State, k: nat, size: nat, st': State)
    requires Inv(st) && k < |st.cells| && !st.cells[k].free && CanExtend(st.cells, k, size)
    requires st.cells[k + 1].addr in st.order
    requires ExtendedTo(st.cells, st.order, k, size, st'.cells, st'.order)
    requires st'.capacity == st.capacity && st'.resizes == st.resizes
    ensures st' == Extend(st, k, size)
  {
    assert st'.order == st'.order + [];
  }

  // The blocks and the list are those of the specification, and only the header of a rest was written,
  // past the wanted bytes.
  lemma ExtendDone(st: State, k: nat, size: nat, st': State, mem: seq<int>, mem': seq<int>)
    requires Inv(st) && k < |st.cells| && !st.cells[k].free && CanExtend(st.cells, k, size) && |mem| == st.capacity
    requires st.cells[k].size <= size && st.cells[k + 1].addr in st.order
    requires ExtendedTo(st.cells, st.order, k, size, st'.cells, st'.order)
    requires st'.capacity == st.capacity && st'.resizes == st.resizes
    requires RestWritten(Merge(st.cells[k], st.cells[k + 1]), size, mem, mem')
    ensures Inv(st') && st' == Extend(st, k, size)
    ensures KeepsPayloads(mem, mem', Live(st.cells) - {st.cells[k]})
    ensures var at := st.cells[k].addr + STRUCT_SIZE; SameUpTo(mem, mem', at, at, st.cells[k].size)
  {
    ExtendedIs(st, k, size, st');
    ExtendKeeps(st, k, size);
    ExtendPayloads(st, k, size, mem, mem');
  }

  // Nothing has been written but the header of the rest, if block c has been cut at size.
  ghost predicate RestWritten(c: Cell, size: nat, mem: seq<int>, mem': seq<int>) {
    var x := c.addr + STRUCT_SIZE + size;
    if c.size - size > 2 * STRUCT_SIZE then SameOutside(mem, mem', x, x + STRUCT_SIZE) else mem' == mem
  }

  lemma ExtendPayloads(st: State, k: nat, size: nat, mem: seq<int>, mem': seq<int>)
    requires Inv(st) && k < |st.cells| && !st.cells[k].free && CanExtend(st.cells, k, size) && |mem| == st.capacity
    requires st.cells[k].size <= size
    requires var x := st.cells[k].addr + STRUCT_SIZE + size;
      if |Cut(Merge(st.cells[k], st.cells[k + 1]), size)| == 2 then SameOutside(mem, mem', x, x + STRUCT_SIZE)
      else mem' == mem
    ensures KeepsPayloads(mem, mem', Live(st.cells) - {st.cells[k]})
    ensures var at := st.cells[k].addr + STRUCT_SIZE; SameUpTo(mem, mem', at, at, st.cells[k].size)
  {
    var live, r := Live(st.cells) - {st.cells[k]}, Extend(st, k, size);
    var cut := Cut(Merge(st.cells[k], st.cells[k + 1]), size);
    SamePayloads(st, mem);
    ExtendKeeps(st, k, size);
    TiledWithin(st.cells, 0, st.capacity, k);
    if |cut| == 2 {
      assert r.cells[k + 1] == cut[1];
      BlockOutside(r, cut[1], cut[1].addr, cut[1].addr + STRUCT_SIZE, mem, mem', live);
    }
  }

  // memset to 0.
  function Cleared(ghost st: State, ghost before: seq<int>, mem: seq<int>, at: nat, n: nat): (r: seq<int>)
    requires at + n <= |mem| && KeepsPayloads(before, mem, Live(st.cells))
    requires forall mem' | SameOutside(mem, mem', at, at + n) :: KeepsPayloads(mem, mem', Live(st.cells))
    ensures |r| == |mem| && KeepsPayloads(before, r, Live(st.cells))
    ensures forall x :: at <= x < at + n ==> r[x] == 0
  {
    var r := Overwrite(mem, at, Zeros(n));
    PayloadsTransitive(before, mem, r, Live(st.cells));
    assert forall x :: at <= x < at + n ==> r[x] == r[at..at + n][x - at];
    r
  }

  // The block that malloc has added: within the region, and outside the payloads of the others.
  lemma NewBlock(st: State, m: State, size: nat, result: nat, mem: seq<int>)
    requires Inv(m) && |mem| == m.capacity && m.cells != []
    requires result >= STRUCT_SIZE && Gains(Live(st.cells), Live(m.cells), result - STRUCT_SIZE, size)
    ensures result + size <= |mem|
    ensures forall mem' | SameOutside(mem, mem', result, result + size) :: KeepsPayloads(mem, mem', Live(st.cells))
  {
    var c: Cell :| c.addr == result - STRUCT_SIZE && c.size >= size && Live(m.cells) == Live(st.cells) + {c};
    assert c in Live(m.cells);
    var i :| 0 <= i < |m.cells| && m.cells[i] == c;
    TiledWithin(m.cells, 0, m.capacity, i);
    forall mem' | SameOutside(mem, mem', result, result + size)
      ensures KeepsPayloads(mem, mem', Live(st.cells))
    {
      BlockOutside(m, c, result, result + size, mem, mem', Live(st.cells));
    }
  }

  // Room for the copy: the old block and the new one lie within the region.
  lemma CopyRoom(st: State, k: nat, m: State, size: nat, result: nat)
    requires k < |st.cells| && Inv(m) && m.cells != []
    requires st.cells[k] in Live(m.cells) && !st.cells[k].free
    requires result >= STRUCT_SIZE && Gains(Live(st.cells), Live(m.cells), result - STRUCT_SIZE, size)
    ensures st.cells[k].End() <= m.capacity && result + size <= m.capacity
  {
    var c: Cell :| c.addr == result - STRUCT_SIZE && c.size >= size && Live(m.cells) == Live(st.cells) + {c};
    LiveWithin(m, c);
    LiveWithin(m, st.cells[k]);
  }

  lemma LiveWithin(st: State, c: Cell)
    requires Inv(st) && c in Live(st.cells)
    ensures c.End() <= st.capacity
  {
    var i :| 0 <= i < |st.cells| && st.cells[i] == c;
    TiledWithin(st.cells, 0, st.capacity, i);
  }

  // After malloc and the copy: the bytes of the old block are in the new one, the others are untouched.
  lemma MovedPayloads(st: State, k: nat, m: State, size: nat, before: seq<int>, mid: seq<int>, after: seq<int>,
                      ptr: nat, result: nat)
    requires k < |st.cells| && !st.cells[k].free && st.cells[k].size <= size
    requires Inv(m) && m.cells != [] && |mid| == m.capacity
    requires result >= STRUCT_SIZE && Gains(Live(st.cells), Live(m.cells), result - STRUCT_SIZE, size)
    requires KeepsPayloads(before, mid, Live(st.cells))
    requires SameOutside(mid, after, result, result + st.cells[k].size)
    requires ptr == st.cells[k].addr + STRUCT_SIZE && SameUpTo(mid, after, ptr, result, st.cells[k].size)
    ensures KeepsPayloads(before, after, Live(st.cells))
    ensures SameUpTo(before, after, ptr, result, st.cells[k].size)
  {
    NewBlock(st, m, size, result, mid);
    assert SameOutside(mid, after, result, result + size);
    PayloadsTransitive(before, mid, after, Live(st.cells));
    assert st.cells[k] in Live(st.cells);
    assert SamePayload(before, mid, st.cells[k]);
  }

  // What realloc of a live block promises: the state, the result, the bytes of all other live blocks, and
  // the first bytes of this one, as many as the smaller of its sizes has.
  ghost predicate ReallocDone(st: State, k: nat, size: nat, st': State, result: int, mem: seq<int>, mem': seq<int>)
    requires Inv(st) && k < |st.cells| && !st.cells[k].free
  {
    && st' == HeapLayout.Realloc(st, k, size).0
    && result == (if size == 0 then NULL else HeapLayout.Realloc(st, k, size).1 + STRUCT_SIZE)
    && KeepsPayloads(mem, mem', Live(st.cells) - {st.cells[k]})
    && (size > 0 ==>
          SameUpTo(mem, mem', st.cells[k].addr + STRUCT_SIZE, result,
                   if size < st.cells[k].size then size else st.cells[k].size))
  }
}
