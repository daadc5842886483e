// The functions of alloc.c on the static variables and the headers in the region.
module Allocator {
  import opened HeapLayout
  import opened Sequences
  import opened HeapHeaders

  method LinkSplit(hdr: Headers, end: int, ptr: nat, size: nat) returns (hdr': Headers, end': int, temp: nat)
    requires ptr in hdr && size + STRUCT_SIZE <= hdr[ptr].size && (ptr == end || hdr[ptr].next in hdr)
    ensures temp == ptr + STRUCT_SIZE + size
    ensures hdr' == SplitHeaders(hdr, ptr, size, end) && end' == if ptr != end then end else temp
  {
    hdr', end' := hdr, end;
    temp := ptr + STRUCT_SIZE + size;
    hdr' := hdr'[temp := Header(hdr'[ptr].size - size - STRUCT_SIZE, 0, hdr'[ptr].next, ptr, NULL, NULL)];
    hdr' := SetNext(hdr', ptr, temp);
    hdr' := SetSize(hdr', ptr, size);
    if ptr != end' {
      hdr' := SetPrev(hdr', hdr'[temp].next, temp);
    } else {
      end' := temp;
    }
  }

  method HeaderImage() returns (image: seq<int>)
    ensures |image| == STRUCT_SIZE
  {
    image := Zeros(STRUCT_SIZE);
  }

  // The static variables of alloc.c, and the region.
  class Heap {
    var capacity: nat
    var head: int
    var end: int
    var freeHead: int
    var freeEnd: int
    var hdr: Headers
    var mem: seq<int>
    ghost var cells: seq<Cell>
    ghost var order: seq<nat>
    ghost var resizes: nat

    // The initial values of the static variables.
    constructor ()
      ensures Valid() && Abs() == Initial
    {
      capacity, head, end, freeHead, freeEnd := INITIAL_CAPACITY, NULL, NULL, NULL, NULL;
      hdr, mem, cells, order, resizes := map[], [], [], [], 0;
    }

    ghost predicate Linked()
      reads this`hdr, this`cells, this`head, this`end, this`order, this`freeHead, this`freeEnd
    {
      Coherent(Links(hdr, head, end, freeHead, freeEnd), cells, order)
    }

    method RemoveFromList(ptr: nat, ghost k: nat)
      requires Linked() && ptr in order && k < |cells| && cells[k].addr == ptr
      modifies this`hdr, this`freeHead, this`freeEnd, this`order, this`cells
      ensures Linked() && order == Without(old(order), ptr) && cells == Flagged(old(cells), k, false)
    {
      FlagKeepsChain(hdr, cells, head, end, k, false);
      ghost var before := hdr;
      hdr := SetFlag(hdr, ptr, 1);
      cells := Flagged(cells, k, false);
      ListedStays(before, hdr, order, freeHead, freeEnd);
      ghost var flagged := hdr;
      hdr, freeHead, freeEnd, order := SkipFree(hdr, freeHead, freeEnd, ptr, order);
      ChainedStays(flagged, hdr, cells, head, end);
    }

    method AddToList(ptr: nat, ghost k: nat)
      requires Linked() && ptr !in order && k < |cells| && cells[k].addr == ptr
      modifies this`hdr, this`freeHead, this`freeEnd, this`order, this`cells
      ensures Linked() && order == old(order) + [ptr] && cells == Flagged(old(cells), k, true)
    {
      FlagKeepsChain(hdr, cells, head, end, k, true);
      ghost var before := hdr;
      hdr := SetFlag(hdr, ptr, 0);
      cells := Flagged(cells, k, true);
      ListedStays(before, hdr, order, freeHead, freeEnd);
      ghost var flagged := hdr;
      assert order != [] ==> LinkIs(hdr, order, |order| - 1);
      AppendedIsListed(hdr, AppendFree(hdr, freeEnd, ptr), order, freeHead, freeEnd, ptr);
      if freeHead == NULL {
        freeEnd := ptr;
        freeHead := ptr;
        hdr := ClearFree(hdr, ptr);
      } else {
        hdr := SetNextFree(hdr, freeEnd, ptr);
        hdr := SetPrevFree(hdr, ptr, freeEnd);
        hdr := SetNextFree(hdr, ptr, NULL);
        freeEnd := ptr;
      }
      order := order + [ptr];
      ChainedStays(flagged, hdr, cells, head, end);
    }

    // coalesce: the block takes over its right neighbour.
    method Coalesce(current: nat, next: nat, ghost k: nat)
      requires Linked() && k + 1 < |cells| && cells[k].addr == current && cells[k + 1].addr == next
      modifies this`hdr, this`end, this`cells
      ensures Linked() && cells == Merged(old(cells), k)
    {
      CoalescedIsChained(hdr, cells, head, end, k);
      ghost var coalesced := CoalescedHeaders(hdr, current, next, end);
      ListedStays(hdr, coalesced, order, freeHead, freeEnd);
      hdr := SetSize(hdr, current, hdr[current].size + hdr[next].size + STRUCT_SIZE);
      hdr := SetFlag(hdr, current, 0);
      hdr := SetNext(hdr, current, hdr[next].next);
      if next != end {
        hdr := SetPrev(hdr, hdr[next].next, current);
      } else {
        end := current;
      }
      assert hdr == coalesced;
      cells := Merged(cells, k);
    }

    // split, up to addtolist: the new header and its links.
    method SplitLinks(ptr: nat, size: nat, ghost k: nat) returns (temp: nat)
      requires Linked() && k < |cells| && cells[k].addr == ptr && size + STRUCT_SIZE <= cells[k].size
      requires ptr + STRUCT_SIZE + size !in order && NoCellAt(cells, ptr + STRUCT_SIZE + size)
      modifies this`hdr, this`end, this`cells
      ensures temp == ptr + STRUCT_SIZE + size
      ensures Linked() && cells == SplitCells(old(cells), k, size)
    {
      SplitIsChained(hdr, cells, head, end, k, size);
      SplitFreeLinks(hdr, ptr, size, end, order);
      ListedStays(hdr, SplitHeaders(hdr, ptr, size, end), order, freeHead, freeEnd);
      hdr, end, temp := LinkSplit(hdr, end, ptr, size);
      cells := SplitCells(cells, k, size);
    }

    // split: the block is cut at `size`; its rest becomes a free block of its own.
    method Split(ptr: nat, size: nat, ghost k: nat) returns (temp: nat)
      requires Linked() && k < |cells| && cells[k].addr == ptr && size + STRUCT_SIZE <= cells[k].size
      requires ptr + STRUCT_SIZE + size !in order && NoCellAt(cells, ptr + STRUCT_SIZE + size)
      requires ptr + 2 * STRUCT_SIZE + size <= |mem|
      modifies this`hdr, this`end, this`cells, this`freeHead, this`freeEnd, this`order, this`mem
      ensures temp == ptr + STRUCT_SIZE + size
      ensures Linked() && cells == Flagged(SplitCells(old(cells), k, size), k + 1, true) && order == old(order) + [temp]
      ensures SameOutside(old(mem), mem, temp, temp + STRUCT_SIZE)
    {
      WriteHeader(ptr + STRUCT_SIZE + size);
      temp := SplitLinks(ptr, size, k);
      AddToList(temp, k + 1);
    }

    // resize, up to addtolist: the header of the new block and its links.
    method LinkBlock(result: nat, size: nat)
      requires Linked() && cells != [] && NoCellAt(cells, result) && result !in order
      modifies this`hdr, this`end, this`cells
      ensures Linked() && cells == old(cells) + [Cell(result, size, true)]
    {
      ResizeIsChained(hdr, cells, head, end, result, size);
      ListedStays(hdr, ResizeHeaders(hdr, result, size, end), order, freeHead, freeEnd);
      hdr := hdr[result := Header(size, 0, NULL, end, NULL, NULL)];
      hdr := SetNext(hdr, end, result);
      end := result;
      cells := cells + [Cell(result, size, true)];
    }

    // resize: one more block from sbrk at the end of the region.
    method Resize(size: nat)
      requires Linked() && cells != [] && capacity == |mem| > 0
      requires NoCellAt(cells, capacity) && capacity !in order
      modifies this
      ensures Linked() && Abs() == Grow(old(Abs()), size)
      ensures |mem| == capacity && old(mem) <= mem
    {
      var total := Align(size + STRUCT_SIZE + capacity - 1);
      var result: nat := capacity;
      mem := Sbrk(mem, total);
      LinkBlock(result, total - STRUCT_SIZE);
      AddToList(result, |cells| - 1);
      capacity := capacity + total;
      resizes := resizes + 1;
    }

    ghost function Abs(): State
      reads this`cells, this`order, this`capacity, this`resizes
    {
      State(cells, order, capacity, resizes)
    }

    ghost predicate Valid()
      reads this
    {
      Linked() && Inv(Abs()) && |mem| == if cells == [] then 0 else capacity
    }

    // The first-fit loop of malloc.
    method Search(need: nat) returns (p: int, ghost i: nat)
      requires Valid()
      ensures i == FirstFit(order, cells, need) && p == ListAt(order, i)
    {
      p := freeHead;
      i := 0;
      while p != NULL
        invariant i <= |order| && p == ListAt(order, i)
        invariant forall j :: 0 <= j < i ==> !Fits(cells, order[j], need)
        decreases |order| - i
      {
        ghost var k := ListedBlock(Abs(), order[i]);
        assert HeaderIs(hdr, cells, k) && LinkIs(hdr, order, i);
        if hdr[p].free == 0 && hdr[p].size >= need {
          FirstFitAmong(order, cells, need, i);
          return;
        }
        p := hdr[p].nextFree;
        i := i + 1;
      }
      NoFit(order, cells, need);
    }

    method MarkUsed(p: nat, ghost k: nat)
      requires Linked() && k < |cells| && cells[k].addr == p
      modifies this`hdr, this`cells
      ensures Linked() && cells == Flagged(old(cells), k, false)
    {
      FlagKeepsChain(hdr, cells, head, end, k, false);
      ListedStays(hdr, SetFlag(hdr, p, 1), order, freeHead, freeEnd);
      hdr := SetFlag(hdr, p, 1);
      cells := Flagged(cells, k, false);
    }

    // The block p is marked used and cut, if that pays.
    method MarkAndCut(p: nat, need: nat, ghost k: nat)
      requires Linked() && p in order && k < |cells| && cells[k].addr == p && need <= cells[k].size
      requires cells[k].size - need > 2 * STRUCT_SIZE ==> RoomFor(p + STRUCT_SIZE + need, cells, order, |mem|)
      modifies this`hdr, this`end, this`cells, this`freeHead, this`freeEnd, this`order, this`mem
      ensures Linked() && p in order
      ensures cells == CutAt(old(cells), k, need) && order == CutListed(old(order), old(cells), k, need)
      ensures if |Cut(old(cells)[k], need)| == 2
        then SameOutside(old(mem), mem, p + STRUCT_SIZE + need, p + 2 * STRUCT_SIZE + need) else mem == old(mem)
    {
      ghost var before := cells;
      MarkUsed(p, k);
      assert HeaderIs(hdr, cells, k);
      if hdr[p].size - need > 2 * STRUCT_SIZE {
        var temp := Split(p, need, k);
      }
      CutCells(before, cells, k, need);
    }

    // The part of malloc that hands out the free block p: it is cut, if that pays, and leaves the list.
    method TakeBlock(p: nat, need: nat, ghost k: nat)
      requires Valid() && p in order && k < |cells| && cells[k].addr == p && need <= cells[k].size
      modifies this
      ensures Valid() && p in old(order) && Abs() == Take(old(Abs()), k, need)
      ensures KeepsPayloads(old(mem), mem, Live(old(cells)))
    {
      ghost var st, before := Abs(), mem;
      RoomToCut(st, k, need);
      MarkAndCut(p, need, k);
      CutUsed(st.cells, k, need);
      RemoveFromList(p, k);
      TakeDone(st, k, need, Abs(), before, mem);
    }

    // The first call of malloc: one sbrk and one free block.
    method Init(need: nat)
      requires Valid() && cells == []
      modifies this
      ensures Valid() && Abs() == Start(need)
    {
      capacity := Align(need + capacity - 1);
      mem := Sbrk(mem, capacity);
      hdr := hdr[0 := Header(capacity - STRUCT_SIZE, 0, NULL, NULL, NULL, NULL)];
      head, end, freeHead, freeEnd := 0, 0, 0, 0;
      cells, order := Start(need).cells, Start(need).order;
      SingleBlock(hdr, capacity - STRUCT_SIZE);
    }

    // malloc; the result is the address of the payload.
    method Malloc(size: nat) returns (result: nat)
      requires Valid()
      modifies this
      ensures Valid() && (Abs(), result - STRUCT_SIZE) == HeapLayout.Malloc(old(Abs()), size)
      ensures KeepsPayloads(old(mem), mem, Live(old(cells)))
      decreases if FirstFit(order, cells, Align(size)) < |order| then 0 else 1, 2
    {
      ghost var st := Abs();
      var need := Align(size);
      MallocStarted(st, size);
      if head == NULL {
        Init(need);
      }
      result := MallocListed(need);
    }

    // The rest of malloc, when there are blocks: the search, and what comes of it.
    method MallocListed(need: nat) returns (result: nat)
      requires Valid() && cells != [] && need % 16 == 0
      modifies this
      ensures Valid() && (Abs(), result - STRUCT_SIZE) == HeapLayout.Malloc(old(Abs()), need)
      ensures KeepsPayloads(old(mem), mem, Live(old(cells)))
      decreases if FirstFit(order, cells, need) < |order| then 0 else 1, 1
    {
      var p, i := Search(need);
      if p != NULL {
        ghost var k := MallocFound(Abs(), need, i);
        TakeBlock(p, need, k);
        return p + STRUCT_SIZE;
      }
      result := ResizeAndMalloc(need);
    }

    // The branch of malloc for which no block is large enough.
    method ResizeAndMalloc(need: nat) returns (result: nat)
      requires Valid() && cells != [] && FirstFit(order, cells, need) == |order| && need % 16 == 0
      modifies this
      ensures Valid() && (Abs(), result - STRUCT_SIZE) == HeapLayout.Malloc(old(Abs()), need)
      ensures KeepsPayloads(old(mem), mem, Live(old(cells)))
      decreases 1, 0
    {
      ghost var st, before := Abs(), mem;
      MallocGrown(st, need);
      NothingAtEnd(st);
      Resize(need);
      PrefixPayloads(st, before, mem);
      ghost var mid := mem;
      result := Malloc(need);
      PayloadsTransitive(before, mid, mem, Live(st.cells));
    }

    // free: temp -> free = 0, before the neighbours are looked at.
    method MarkFree(p: nat, ghost k: nat)
      requires Linked() && k < |cells| && cells[k].addr == p
      modifies this`hdr, this`cells
      ensures Linked() && cells == Flagged(old(cells), k, true)
    {
      FlagKeepsChain(hdr, cells, head, end, k, true);
      ListedStays(hdr, SetFlag(hdr, p, 0), order, freeHead, freeEnd);
      hdr := SetFlag(hdr, p, 0);
      cells := Flagged(cells, k, true);
    }

    // One free neighbour: it leaves the list, the two become one block, and that is appended.
    method JoinNext(p: nat, next: nat, ghost k: nat)
      requires Linked() && k + 1 < |cells| && cells[k].addr == p && cells[k + 1].addr == next
      requires next in order && p !in Without(order, next)
      modifies this`hdr, this`end, this`cells, this`freeHead, this`freeEnd, this`order
      ensures Linked() && order == Without(old(order), next) + [p]
      ensures cells == Flagged(Merged(Flagged(old(cells), k + 1, false), k), k, true)
    {
      RemoveFromList(next, k + 1);
      Coalesce(p, next, k);
      AddToList(p, k);
    }

    method JoinPrev(pre: nat, p: nat, ghost k: nat)
      requires Linked() && 0 < k < |cells| && cells[k].addr == p && cells[k - 1].addr == pre
      requires pre in order && pre !in Without(order, pre)
      modifies this`hdr, this`end, this`cells, this`freeHead, this`freeEnd, this`order
      ensures Linked() && order == Without(old(order), pre) + [pre]
      ensures cells == Flagged(Merged(Flagged(old(cells), k - 1, false), k - 1), k - 1, true)
    {
      RemoveFromList(pre, k - 1);
      Coalesce(pre, p, k - 1);
      AddToList(pre, k - 1);
    }

    // Two free neighbours: after the left one, which is back on the list, both leave it.
    method JoinAgain(pre: nat, next: nat, ghost k: nat)
      requires Linked() && k + 1 < |cells| && cells[k].addr == pre && cells[k + 1].addr == next
      requires next in order && pre in Without(order, next) && pre !in Without(Without(order, next), pre)
      modifies this`hdr, this`end, this`cells, this`freeHead, this`freeEnd, this`order
      ensures Linked() && order == Without(Without(old(order), next), pre) + [pre]
      ensures cells ==
        Flagged(Merged(Flagged(Flagged(old(cells), k + 1, false), k, false), k), k, true)
    {
      RemoveFromList(next, k + 1);
      RemoveFromList(pre, k);
      Coalesce(pre, next, k);
      AddToList(pre, k);
    }

    // Two free neighbours: the block joins the left one, then that one joins the right one.
    method JoinBoth(pre: nat, p: nat, next: nat, ghost k: nat)
      requires Linked() && 0 < k && k + 1 < |cells|
      requires cells[k - 1].addr == pre && cells[k].addr == p && cells[k + 1].addr == next
      requires Distinct(order) && pre in order && next in order && pre != next
      modifies this`hdr, this`end, this`cells, this`freeHead, this`freeEnd, this`order
      ensures Linked() && cells == JoinedBoth(old(cells), k)
      ensures BothListed(old(order), pre, next) && order == BothOrder(old(order), pre, next)
    {
      BothSteps(order, pre, next);
      JoinPrev(pre, p, k);
      JoinAgain(pre, next, k - 1);
    }

    // free, once the flag is set: the block joins its free neighbours.
    method Join(temp: nat, ghost k: nat)
      requires Linked() && k < |cells| && cells[k].addr == temp && Joinable(cells, order, k)
      modifies this`hdr, this`end, this`cells, this`freeHead, this`freeEnd, this`order
      ensures Linked() && Joined(old(cells), old(order), k, cells, order)
    {
      var pre, next, free1, free2 := LookAround(temp, k);
      if !free2 && !free1 {
        AddToList(temp, k);
      } else if !free1 && free2 {
        JoinNext(temp, next, k);
      } else if !free2 && free1 {
        JoinPrev(pre, temp, k);
      } else {
        JoinBoth(pre, temp, next, k);
      }
    }

    // free, of a payload address that malloc or realloc has returned.
    method Free(ptr: nat, ghost k: nat)
      requires Valid() && k < |cells| && !cells[k].free && ptr == cells[k].addr + STRUCT_SIZE
      modifies this
      ensures Valid() && Abs() == HeapLayout.Free(old(Abs()), k) && mem == old(mem)
    {
      ghost var st := Abs();
      var temp := ptr - STRUCT_SIZE;
      MarkFree(temp, k);
      FreeSteps(st, k);
      Join(temp, k);
      FreeDone(st, k, Abs());
    }

    // The neighbours of a block, and whether they are free.
    method LookAround(temp: nat, ghost k: nat) returns (pre: int, next: int, free1: bool, free2: bool)
      requires Linked() && k < |cells| && cells[k].addr == temp
      ensures pre == CellAt(cells, k - 1) && next == CellAt(cells, k + 1)
      ensures free1 == PrevFree(cells, k) && free2 == NextFree(cells, k)
    {
      assert HeaderIs(hdr, cells, k);
      assert k > 0 ==> HeaderIs(hdr, cells, k - 1);
      assert k + 1 < |cells| ==> HeaderIs(hdr, cells, k + 1);
      pre, next := hdr[temp].prev, hdr[temp].next;
      free1 := pre != NULL && hdr[pre].free == 0;
      free2 := next != NULL && hdr[next].free == 0;
    }

    // realloc, where the block takes over its free right neighbour.
    method TakeOver(entry: nat, temp: nat, ghost k: nat)
      requires Linked() && k + 1 < |cells| && cells[k].addr == entry && cells[k + 1].addr == temp
      requires temp in order && !cells[k].free
      modifies this`hdr, this`end, this`cells, this`freeHead, this`freeEnd, this`order
      ensures Linked() && order == Without(old(order), temp) && cells == TakenOver(old(cells), k)
    {
      RemoveFromList(temp, k + 1);
      TakenOverIsChained(hdr, cells, head, end, k);
      ghost var after := TakenOverHeaders(hdr, entry, temp);
      ListedStays(hdr, after, order, freeHead, freeEnd);
      assert cells[k] == old(cells)[k];
      hdr := SetSize(hdr, entry, hdr[entry].size + hdr[temp].size + STRUCT_SIZE);
      hdr := SetNext(hdr, entry, hdr[temp].next);
      if hdr[temp].next != NULL {
        hdr := SetPrev(hdr, hdr[temp].next, entry);
      } else {
        end := entry;
      }
      cells := Flagged(Merged(cells, k), k, false);
    }

    // The extended block is cut, if that pays.
    method CutExtended(entry: nat, size: nat, ghost k: nat)
      requires Linked() && k < |cells| && cells[k].addr == entry && size <= cells[k].size
      requires cells[k].size - size > 2 * STRUCT_SIZE ==> RoomFor(entry + STRUCT_SIZE + size, cells, order, |mem|)
      modifies this`hdr, this`end, this`cells, this`freeHead, this`freeEnd, this`order, this`mem
      ensures Linked()
      ensures if old(cells)[k].size - size > 2 * STRUCT_SIZE
        then cells == Flagged(SplitCells(old(cells), k, size), k + 1, true)
          && order == old(order) + [entry + STRUCT_SIZE + size]
        else cells == old(cells) && order == old(order)
      ensures RestWritten(old(cells)[k], size, old(mem), mem)
    {
      assert HeaderIs(hdr, cells, k);
      if hdr[entry].size - size > 2 * STRUCT_SIZE {
        var rest := Split(entry, size, k);
      }
    }

    method CutTaken(entry: nat, temp: nat, size: nat, ghost k: nat)
      requires Linked() && k + 1 < |cells| && cells[k].addr == entry && cells[k + 1].addr == temp
      requires temp in order && !cells[k].free && size <= Merge(cells[k], cells[k + 1]).size
      requires Merge(cells[k], cells[k + 1]).size - size > 2 * STRUCT_SIZE ==>
        RoomFor(entry + STRUCT_SIZE + size, TakenOver(cells, k), Without(order, temp), |mem|)
      modifies this`hdr, this`end, this`cells, this`freeHead, this`freeEnd, this`order, this`mem
      ensures Linked() && ExtendedTo(old(cells), old(order), k, size, cells, order)
      ensures RestWritten(Merge(old(cells)[k], old(cells)[k + 1]), size, old(mem), mem)
    {
      TakeOver(entry, temp, k);
      CutExtended(entry, size, k);
    }

    method ExtendBlock(entry: nat, temp: nat, size: nat, ghost k: nat)
      requires Valid() && k + 1 < |cells| && !cells[k].free && CanExtend(cells, k, size) && cells[k].size <= size
      requires cells[k].addr == entry && cells[k + 1].addr == temp
      modifies this
      ensures Valid() && Abs() == Extend(old(Abs()), k, size)
      ensures KeepsPayloads(old(mem), mem, Live(old(cells)) - {old(cells)[k]})
      ensures SameUpTo(old(mem), mem, entry + STRUCT_SIZE, entry + STRUCT_SIZE, old(cells)[k].size)
    {
      ghost var st, before := Abs(), mem;
      RoomToExtend(st, k, size);
      CutTaken(entry, temp, size, k);
      ExtendDone(st, k, size, Abs(), before, mem);
    }

    // memcpy
    method CopyBytes(dst: nat, src: nat, n: nat)
      requires dst + n <= |mem| && src + n <= |mem|
      modifies this`mem
      ensures SameOutside(old(mem), mem, dst, dst + n) && mem[dst..dst + n] == old(mem)[src..src + n]
    {
      mem := Overwrite(mem, dst, mem[src..src + n]);
    }

    // The payload of block k of st goes to the block that malloc has added.
    method CopyPayload(dst: nat, src: nat, n: nat, ghost st: State, ghost k: nat, ghost m: State, ghost size: nat,
                       ghost before: seq<int>)
      requires k < |st.cells| && !st.cells[k].free && src == st.cells[k].addr + STRUCT_SIZE
      requires n == st.cells[k].size <= size && st.cells[k] in Live(m.cells)
      requires Inv(m) && m.cells != [] && |mem| == m.capacity
      requires dst >= STRUCT_SIZE && Gains(Live(st.cells), Live(m.cells), dst - STRUCT_SIZE, size)
      requires KeepsPayloads(before, mem, Live(st.cells))
      modifies this`mem
      ensures |mem| == |old(mem)|
      ensures KeepsPayloads(before, mem, Live(st.cells)) && SameUpTo(before, mem, src, dst, n)
    {
      ghost var mid := mem;
      CopyRoom(st, k, m, size, dst);
      CopyBytes(dst, src, n);
      MovedPayloads(st, k, m, size, before, mid, mem, src, dst);
    }

    // realloc, where the block moves: malloc and memcpy.
    method MallocAndCopy(ptr: nat, size: nat, ghost k: nat) returns (result: nat)
      requires Valid() && k < |cells| && !cells[k].free && ptr == cells[k].addr + STRUCT_SIZE
      requires cells[k].size < size
      modifies this
      ensures Valid() && (Abs(), result - STRUCT_SIZE) == HeapLayout.Malloc(old(Abs()), size)
      ensures KeepsPayloads(old(mem), mem, Live(old(cells)))
      ensures SameUpTo(old(mem), mem, ptr, result, old(cells)[k].size)
    {
      ghost var st, before := Abs(), mem;
      assert HeaderIs(hdr, cells, k);
      var n := hdr[ptr - STRUCT_SIZE].size;
      assert n == st.cells[k].size;
      MallocKeeps(st, size);
      result := Malloc(size);
      ghost var m := Abs();
      StillThere(st, m, k);
      CopyPayload(result, ptr, n, st, k, m, size, before);
    }

    method MoveBlock(ptr: nat, size: nat, ghost k: nat) returns (result: nat)
      requires Valid() && k < |cells| && !cells[k].free && ptr == cells[k].addr + STRUCT_SIZE
      requires cells[k].size < size && !CanExtend(cells, k, size)
      modifies this
      ensures Valid() && (Abs(), result - STRUCT_SIZE) == HeapLayout.Realloc(old(Abs()), k, size)
      ensures KeepsPayloads(old(mem), mem, Live(old(cells)))
      ensures SameUpTo(old(mem), mem, ptr, result, old(cells)[k].size)
    {
      ghost var st := Abs();
      MallocKeeps(st, size);
      result := MallocAndCopy(ptr, size, k);
      StillThere(st, Abs(), k);
      Free(ptr, Position(cells, st.cells[k].addr));
    }

    // realloc of a null pointer or of a live block.
    method Realloc(ptr: int, size: nat, ghost k: nat) returns (result: int)
      requires Valid()
      requires ptr != NULL ==> k < |cells| && !cells[k].free && ptr == cells[k].addr + STRUCT_SIZE
      modifies this
      ensures Valid()
      ensures ptr == NULL ==> (Abs(), result - STRUCT_SIZE) == HeapLayout.Malloc(old(Abs()), size)
      ensures ptr == NULL ==> KeepsPayloads(old(mem), mem, Live(old(cells)))
      ensures ptr != NULL ==> ReallocDone(old(Abs()), k, size, Abs(), result, old(mem), mem)
    {
      ghost var st := Abs();
      if ptr == NULL {
        result := Malloc(size);
        return;
      }
      if size == 0 {
        SamePayloads(st, mem);
        Free(ptr, k);
        return NULL;
      }
      result := ReallocSized(ptr, size, k);
    }

    // realloc of a live block to a size other than 0.
    method ReallocSized(ptr: nat, size: nat, ghost k: nat) returns (result: int)
      requires Valid() && k < |cells| && !cells[k].free && ptr == cells[k].addr + STRUCT_SIZE && size > 0
      modifies this
      ensures Valid() && ReallocDone(old(Abs()), k, size, Abs(), result, old(mem), mem)
    {
      ghost var st := Abs();
      assert HeaderIs(hdr, cells, k);
      var entry := ptr - STRUCT_SIZE;
      if hdr[entry].size >= size {
        SamePayloads(st, mem);
        TiledWithin(cells, 0, capacity, k);
        return ptr;
      }
      var fits := RightFits(entry, size, k);
      if !fits {
        result := MoveBlock(ptr, size, k);
      } else {
        ExtendBlock(entry, hdr[entry].next, size, k);
        result := ptr;
      }
    }

    // The test of realloc for a free right neighbour that is large enough.
    method RightFits(entry: nat, size: nat, ghost k: nat) returns (fits: bool)
      requires Linked() && k < |cells| && cells[k].addr == entry
      ensures fits == CanExtend(cells, k, size) && (fits ==> HeaderIs(hdr, cells, k))
    {
      assert HeaderIs(hdr, cells, k);
      assert k + 1 < |cells| ==> HeaderIs(hdr, cells, k + 1);
      var temp := hdr[entry].next;
      // size - STRUCT_SIZE is unsigned: below STRUCT_SIZE it wraps to more than any two blocks hold.
      fits := !(temp == NULL || hdr[temp].free == 1 || size < STRUCT_SIZE
                || hdr[entry].size + hdr[temp].size < size - STRUCT_SIZE);
    }

    // calloc
    method Calloc(num: nat, size: nat) returns (result: nat)
      requires Valid()
      modifies this
      ensures Valid() && (Abs(), result - STRUCT_SIZE) == HeapLayout.Malloc(old(Abs()), num * size)
      ensures KeepsPayloads(old(mem), mem, Live(old(cells)))
      ensures result + num * size <= |mem| && forall x :: result <= x < result + num * size ==> mem[x] == 0
    {
      result := CallocBytes(num * size);
    }

    method CallocBytes(total: nat) returns (result: nat)
      requires Valid()
      modifies this
      ensures Valid() && (Abs(), result - STRUCT_SIZE) == HeapLayout.Malloc(old(Abs()), total)
      ensures KeepsPayloads(old(mem), mem, Live(old(cells)))
      ensures result + total <= |mem| && forall x :: result <= x < result + total ==> mem[x] == 0
    {
      ghost var st, before := Abs(), mem;
      MallocKeeps(st, total);
      result := Malloc(total);
      NewBlock(st, Abs(), total, result, mem);
      mem := Cleared(st, before, mem, result, total);
    }

    // The bytes of a header that is written for the first time are not modelled.
    method WriteHeader(addr: nat)
      requires addr + STRUCT_SIZE <= |mem|
      modifies this`mem
      ensures SameOutside(old(mem), mem, addr, addr + STRUCT_SIZE)
    {
      var image := HeaderImage();
      mem := Overwrite(mem, addr, image);
    }
  }
}
