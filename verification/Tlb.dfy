// tlb.c: the lines as a singly linked list that is relinked in place.
module Tlb {
  import opened TlbOrder

  class Node {
    const addr: nat
    const entry: Entry
    var next: Node?

    constructor (addr: nat, entry: Entry)
      ensures this.addr == addr && this.entry == entry && next == null
    {
      this.addr, this.entry, next := addr, entry, null;
    }
  }

  function LineOf(n: Node): Line {
    Line(n.addr, n.entry)
  }

  function Lines(nodes: seq<Node>): (r: seq<Line>)
    ensures |r| == |nodes|
  {
    seq(|nodes|, i requires 0 <= i < |nodes| => LineOf(nodes[i]))
  }

  function NodeAt(nodes: seq<Node>, i: int): Node? {
    if 0 <= i < |nodes| then nodes[i] else null
  }

  ghost predicate NoNodeTwice(nodes: seq<Node>) {
    forall i, j :: 0 <= i < j < |nodes| ==> nodes[i] != nodes[j]
  }

  ghost predicate LinkIs(nodes: seq<Node>, i: nat)
    requires i < |nodes|
    reads nodes
  {
    nodes[i].next == NodeAt(nodes, i + 1)
  }

  class Tlb {
    var head: Node
    ghost var nodes: seq<Node>

    ghost predicate Valid()
      reads this, nodes
    {
      && |nodes| > 0 && head == nodes[0] && NoNodeTwice(nodes)
      && forall i :: 0 <= i < |nodes| ==> LinkIs(nodes, i)
    }

    ghost function Repr(): set<Node>
      reads this
    {
      set n | n in nodes
    }

    ghost function Contents(): seq<Line>
      reads this
    {
      Lines(nodes)
    }

    // tlb_create
    constructor ()
      ensures Valid() && Contents() == FRESH && fresh(nodes)
    {
      var first := new Node(0, Null);
      head := first;
      nodes := [first];
    }

    // The node behind slow becomes the head of the list.
    method Promote(slow: Node, fast: Node, ghost i: nat)
      requires Valid() && i + 1 < |nodes| && slow == nodes[i] && fast == nodes[i + 1]
      modifies this, Repr()
      ensures Valid() && nodes == ToFront(old(nodes), i + 1) && Repr() == old(Repr())
    {
      ghost var before := nodes;
      slow.next := fast.next;
      fast.next := head;
      head := fast;
      nodes := ToFront(nodes, i + 1);
      forall j | 0 <= j < |nodes| ensures LinkIs(nodes, j) {
        var o := if j == 0 then i + 1 else if j <= i + 1 then j - 1 else j;
        assert nodes[j] == before[o];
        assert old(LinkIs(before, o));
        assert old(LinkIs(before, i + 1));
      }
    }

    // tlb_get_pte
    method Get(baseVirtualAddr: nat) returns (entry: Entry)
      requires Valid()
      modifies this, Repr()
      ensures Valid() && (Contents(), entry) == Lookup(old(Contents()), baseVirtualAddr)
      ensures Repr() == old(Repr())
    {
      if head.addr == baseVirtualAddr {
        FoundAt(Contents(), baseVirtualAddr, 0);
        assert ToFront(Contents(), 0) == Contents();
        return head.entry;
      }
      var slow, fast := head, head.next;
      ghost var i := 0;
      assert LinkIs(nodes, 0);
      while fast != null
        invariant i < |nodes| && slow == nodes[i] && fast == NodeAt(nodes, i + 1)
        invariant nodes == old(nodes) && head == old(head) && Valid()
        invariant forall j :: 0 <= j <= i ==> nodes[j].addr != baseVirtualAddr
        decreases |nodes| - i
      {
        assert LinkIs(nodes, i) && LinkIs(nodes, i + 1);
        if fast.addr == baseVirtualAddr {
          FoundAt(Contents(), baseVirtualAddr, i + 1);
          LinesToFront(nodes, i + 1);
          Promote(slow, fast, i);
          return fast.entry;
        }
        fast := fast.next;
        slow := slow.next;
        i := i + 1;
      }
      NotFound(Contents(), baseVirtualAddr);
      return Null;
    }

    // tlb_add_pte
    method Add(baseVirtualAddr: nat, entry: Entry)
      requires Valid()
      modifies this, Repr()
      ensures Valid() && Contents() == Insert(old(Contents()), baseVirtualAddr, entry)
      ensures fresh(Repr() - old(Repr()))
    {
      var numNodes := 2;
      var slow, fast := head, head.next;
      ghost var i := 0;
      assert LinkIs(nodes, 0);
      while fast != null && fast.next != null
        invariant i < |nodes| && slow == nodes[i] && fast == NodeAt(nodes, i + 1) && numNodes == i + 2
        invariant i + 1 < |nodes| || i == 0
        invariant Valid()
        decreases |nodes| - i
      {
        assert LinkIs(nodes, i) && LinkIs(nodes, i + 1);
        numNodes := numNodes + 1;
        fast := fast.next;
        slow := slow.next;
        i := i + 1;
      }
      assert i + 1 < |nodes| ==> LinkIs(nodes, i + 1);
      assert |nodes| > 1 ==> numNodes == |nodes|;
      if numNodes >= MAX_NODES {
        slow.next := null;
        nodes := nodes[..|nodes| - 1];
        forall j | 0 <= j < |nodes| ensures LinkIs(nodes, j) {
          assert old(LinkIs(nodes, j));
        }
      }
      assert nodes == Truncate(old(nodes)) && Valid();
      PushFront(baseVirtualAddr, entry);
    }

    // The last lines of tlb_add_pte.
    method PushFront(baseVirtualAddr: nat, entry: Entry)
      requires Valid()
      modifies this
      ensures Valid() && Contents() == [Line(baseVirtualAddr, entry)] + old(Contents())
      ensures fresh(Repr() - old(Repr()))
    {
      ghost var kept := nodes;
      var newHead := new Node(baseVirtualAddr, entry);
      newHead.next := head;
      head := newHead;
      nodes := [newHead] + nodes;
      forall j | 0 <= j < |nodes| ensures LinkIs(nodes, j) {
        if j > 0 {
          assert old(LinkIs(kept, j - 1));
        }
      }
    }

    // tlb_flush
    method Flush()
      requires Valid()
      modifies this
      ensures Valid() && Contents() == FRESH && fresh(nodes)
    {
      var first := new Node(0, Null);
      head := first;
      nodes := [first];
    }

    // The use that mmu.c makes of the list for one memory access of the current process; pte is the address
    // of the entry in the page table.
    method Translate(baseVirtualAddr: nat, pte: Entry) returns (entry: Entry, hit: bool)
      requires Valid() && pte != Null
      modifies this, Repr()
      ensures Valid() && Contents() == Access(old(Contents()), baseVirtualAddr, pte).0
      ensures hit <==> Access(old(Contents()), baseVirtualAddr, pte).1 != Null
      ensures entry == if hit then Access(old(Contents()), baseVirtualAddr, pte).1 else pte
    {
      entry := Get(baseVirtualAddr);
      hit := entry != Null;
      if entry == Null {
        entry := pte;
        Add(baseVirtualAddr, pte);
      }
    }
  }

  lemma LinesToFront(nodes: seq<Node>, i: nat)
    requires i < |nodes|
    ensures Lines(ToFront(nodes, i)) == ToFront(Lines(nodes), i)
  {
  }

  lemma {:induction false} FoundAt(l: seq<Line>, addr: nat, i: nat)
    requires i < |l| && l[i].addr == addr && forall j :: 0 <= j < i ==> l[j].addr != addr
    ensures Find(l, addr) == i
  {
    if i > 0 {
      FoundAt(l[1..], addr, i - 1);
    }
  }

  lemma NotFound(l: seq<Line>, addr: nat)
    requires forall j :: 0 <= j < |l| ==> l[j].addr != addr
    ensures Find(l, addr) == |l|
  {
  }
}
