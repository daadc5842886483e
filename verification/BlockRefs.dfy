// The block references of minixfs: which data blocks the inodes refer to, directly, through the pointer to
// the indirect block, and from that block.
module BlockRefs {

  const UNASSIGNED: int := -1
  const NUM_DIRECT_BLOCKS: nat := 11
  const NUM_INDIRECT_BLOCKS: nat := NUM_DIRECT_BLOCKS

  // 16 kilobytes, as numbers of 4 bytes each.
  const WORDS: nat := 4096

  // The references of an inode in the order in which they are assigned: the direct slots, the indirect
  // pointer, the slots of the indirect block.
  const INDIRECT: nat := NUM_DIRECT_BLOCKS
  const SLOTS: nat := NUM_DIRECT_BLOCKS + 1 + NUM_INDIRECT_BLOCKS

  datatype Inode = Inode(nlink: nat, direct: seq<int>, indirect: int)

  // The inodes, the data map, and the data blocks as sequences of numbers.
  datatype Disk = Disk(inodes: seq<Inode>, used: seq<bool>, data: seq<seq<int>>)

  predicate Formed(d: Disk) {
    && |d.used| == |d.data|
    && (forall k :: 0 <= k < |d.inodes| ==> |d.inodes[k].direct| == NUM_DIRECT_BLOCKS)
    && (forall b :: 0 <= b < |d.data| ==> |d.data[b]| == WORDS)
  }

  predicate Live(d: Disk, k: nat) {
    k < |d.inodes| && d.inodes[k].nlink > 0
  }

  predicate IsBlock(d: Disk, b: int) {
    0 <= b < |d.used|
  }

  // The block that slot s of inode k refers to.
  function RefAt(d: Disk, k: nat, s: nat): int
    requires Formed(d) && k < |d.inodes| && s < SLOTS
  {
    if s < INDIRECT then d.inodes[k].direct[s]
    else if s == INDIRECT then d.inodes[k].indirect
    else if IsBlock(d, d.inodes[k].indirect) then d.data[d.inodes[k].indirect][s - INDIRECT - 1]
    else UNASSIGNED
  }

  predicate Slot(d: Disk, k: nat, s: nat) {
    Live(d, k) && s < SLOTS
  }

  // ---------- the invariant ----------

  predicate Marked(d: Disk, k: nat, s: nat)
    requires Formed(d) && Slot(d, k, s)
  {
    RefAt(d, k, s) == UNASSIGNED || (IsBlock(d, RefAt(d, k, s)) && d.used[RefAt(d, k, s)])
  }

  predicate Apart(d: Disk, k: nat, s: nat, l: nat, t: nat)
    requires Formed(d) && Slot(d, k, s) && Slot(d, l, t)
  {
    (k == l && s == t) || RefAt(d, k, s) == UNASSIGNED || RefAt(d, k, s) != RefAt(d, l, t)
  }

  ghost predicate Referenced(d: Disk, b: int)
    requires Formed(d)
  {
    exists k, s :: Slot(d, k, s) && RefAt(d, k, s) == b
  }

  predicate Before(d: Disk, k: nat, s: nat, t: nat)
    requires Formed(d) && Slot(d, k, s) && Slot(d, k, t)
  {
    s < t && RefAt(d, k, t) != UNASSIGNED ==> RefAt(d, k, s) != UNASSIGNED
  }

  // A block is marked used if and only if exactly one slot of one live inode refers to it; the assigned
  // slots of an inode come before the others.
  ghost predicate Inv(d: Disk) {
    && Formed(d)
    && (forall k, s :: Slot(d, k, s) ==> Marked(d, k, s))
    && (forall k, s, l, t :: Slot(d, k, s) && Slot(d, l, t) ==> Apart(d, k, s, l, t))
    && (forall b :: 0 <= b < |d.used| && d.used[b] ==> Referenced(d, b))
    && (forall k, s, t :: Slot(d, k, s) && Slot(d, k, t) ==> Before(d, k, s, t))
  }

  // ---------- assigning a block to a slot ----------

  function Zeros(): (r: seq<int>)
    ensures |r| == WORDS
  {
    seq(WORDS, _ => 0)
  }

  // The indirect block as add_single_indirect_block leaves it.
  function Cleared(words: seq<int>): (r: seq<int>)
    requires |words| == WORDS
    ensures |r| == WORDS
  {
    NoBlocks(NUM_INDIRECT_BLOCKS) + words[NUM_INDIRECT_BLOCKS..]
  }

  // Slot s of inode k gets block b. With the indirect pointer the link count becomes 1.
  function Assign(d: Disk, k: nat, s: nat, b: nat): (r: Disk)
    requires Formed(d) && Slot(d, k, s) && IsBlock(d, b)
    requires s > INDIRECT ==> IsBlock(d, d.inodes[k].indirect)
    ensures Formed(r) && |r.inodes| == |d.inodes| && |r.used| == |d.used|
  {
    var node := d.inodes[k];
    var marked := d.used[b := true];
    if s < INDIRECT then
      Disk(d.inodes[k := node.(direct := node.direct[s := b])], marked, d.data)
    else if s == INDIRECT then
      Disk(d.inodes[k := node.(indirect := b, nlink := 1)], marked, d.data[b := Cleared(d.data[b])])
    else
      var i := node.indirect;
      Disk(d.inodes, marked, d.data[i := d.data[i][s - INDIRECT - 1 := b]])
  }

  // A slot that can be assigned next.
  ghost predicate Next(d: Disk, k: nat, s: nat, b: int) {
    && Inv(d) && Slot(d, k, s) && IsBlock(d, b) && !d.used[b] && RefAt(d, k, s) == UNASSIGNED
    && (forall t :: 0 <= t < s ==> RefAt(d, k, t) != UNASSIGNED)
  }

  // Two inodes never share an indirect block, and no indirect block is free.
  lemma OwnIndirect(d: Disk, k: nat, l: nat)
    requires Inv(d) && Live(d, k) && Live(d, l) && d.inodes[k].indirect != UNASSIGNED
    ensures IsBlock(d, d.inodes[k].indirect) && d.used[d.inodes[k].indirect]
    ensures k != l ==> d.inodes[k].indirect != d.inodes[l].indirect
  {
    assert Slot(d, k, INDIRECT) && Slot(d, l, INDIRECT);
    assert Marked(d, k, INDIRECT) && Apart(d, k, INDIRECT, l, INDIRECT);
    assert RefAt(d, k, INDIRECT) == d.inodes[k].indirect && RefAt(d, l, INDIRECT) == d.inodes[l].indirect;
  }

  lemma NextHasIndirect(d: Disk, k: nat, s: nat, b: int)
    requires Next(d, k, s, b)
    ensures s > INDIRECT ==> IsBlock(d, d.inodes[k].indirect) && d.inodes[k].indirect != b
    ensures s == INDIRECT ==> d.inodes[k].indirect == UNASSIGNED
  {
    if s > INDIRECT {
      assert RefAt(d, k, INDIRECT) != UNASSIGNED;
      OwnIndirect(d, k, k);
    }
  }

  // All references but the one that is assigned stay what they are.
  lemma AssignRefs(d: Disk, k: nat, s: nat, b: int, l: nat, t: nat)
    requires Next(d, k, s, b) && Slot(d, l, t)
    ensures s > INDIRECT ==> IsBlock(d, d.inodes[k].indirect)
    ensures Slot(Assign(d, k, s, b), l, t)
    ensures RefAt(Assign(d, k, s, b), l, t) == if l == k && t == s then b else RefAt(d, l, t)
  {
    NextHasIndirect(d, k, s, b);
    if d.inodes[l].indirect != UNASSIGNED {
      OwnIndirect(d, l, k);
    }
  }

  lemma AssignKeeps(d: Disk, k: nat, s: nat, b: int)
    requires Next(d, k, s, b)
    ensures s > INDIRECT ==> IsBlock(d, d.inodes[k].indirect)
    ensures Inv(Assign(d, k, s, b))
  {
    NextHasIndirect(d, k, s, b);
    var r := Assign(d, k, s, b);
    forall l, t | Slot(r, l, t)
      ensures Slot(d, l, t) && RefAt(r, l, t) == (if l == k && t == s then b else RefAt(d, l, t)) && Marked(r, l, t)
    {
      AssignRefs(d, k, s, b, l, t);
      assert Marked(d, l, t);
    }
    forall l, t, m, u | Slot(r, l, t) && Slot(r, m, u) ensures Apart(r, l, t, m, u) {
      assert Marked(d, l, t) && Marked(d, m, u) && Apart(d, l, t, m, u);
    }
    forall c | 0 <= c < |r.used| && r.used[c] ensures Referenced(r, c) {
      if c == b {
        AssignRefs(d, k, s, b, k, s);
      } else {
        assert Referenced(d, c);
        var l, t :| Slot(d, l, t) && RefAt(d, l, t) == c;
        AssignRefs(d, k, s, b, l, t);
      }
    }
    forall l, t, u | Slot(r, l, t) && Slot(r, l, u) ensures Before(r, l, t, u) {
      assert Before(d, l, t, u);
    }
  }

  // ---------- zeroing ----------

  function Zero(d: Disk, b: nat): (r: Disk)
    requires Formed(d) && IsBlock(d, b)
    ensures Formed(r)
  {
    d.(data := d.data[b := Zeros()])
  }

  lemma ZeroRefs(d: Disk, b: nat, l: nat, t: nat)
    requires Formed(d) && IsBlock(d, b) && Slot(d, l, t) && d.inodes[l].indirect != b
    ensures Slot(Zero(d, b), l, t) && RefAt(Zero(d, b), l, t) == RefAt(d, l, t)
  {
  }

  // The block of a slot other than the indirect pointer can be zeroed.
  lemma ZeroKeeps(d: Disk, k: nat, s: nat)
    requires Inv(d) && Slot(d, k, s) && s != INDIRECT && RefAt(d, k, s) != UNASSIGNED
    ensures IsBlock(d, RefAt(d, k, s)) && Inv(Zero(d, RefAt(d, k, s)))
    ensures forall l, t :: Slot(d, l, t) ==> RefAt(Zero(d, RefAt(d, k, s)), l, t) == RefAt(d, l, t)
  {
    assert Marked(d, k, s);
    var b := RefAt(d, k, s);
    var r := Zero(d, b);
    forall l, t | Slot(d, l, t) ensures Slot(r, l, t) && RefAt(r, l, t) == RefAt(d, l, t) {
      assert Slot(d, l, INDIRECT);
      assert Apart(d, k, s, l, INDIRECT);
      ZeroRefs(d, b, l, t);
    }
    SameRefs(d, r);
  }

  // The invariant is about the references and the data map only.
  lemma SameRefs(d: Disk, r: Disk)
    requires Inv(d) && Formed(r) && r.used == d.used
    requires forall l, t :: Slot(d, l, t) <==> Slot(r, l, t)
    requires forall l, t :: Slot(d, l, t) && Slot(r, l, t) ==> RefAt(r, l, t) == RefAt(d, l, t)
    ensures Inv(r)
  {
    forall l, t | Slot(r, l, t) ensures Marked(r, l, t) {
      assert Marked(d, l, t);
    }
    forall l, t, m, u | Slot(r, l, t) && Slot(r, m, u) ensures Apart(r, l, t, m, u) {
      assert Apart(d, l, t, m, u);
    }
    forall c | 0 <= c < |r.used| && r.used[c] ensures Referenced(r, c) {
      assert Referenced(d, c);
      var l, t :| Slot(d, l, t) && RefAt(d, l, t) == c;
      assert Slot(r, l, t);
    }
    forall l, t, u | Slot(r, l, t) && Slot(r, l, u) ensures Before(r, l, t, u) {
      assert Before(d, l, t, u);
    }
  }

  // ---------- free_inode, init_inode ----------

  predicate RefersTo(d: Disk, k: nat, b: int)
    requires Formed(d) && k < |d.inodes|
  {
    exists s :: 0 <= s < SLOTS && RefAt(d, k, s) == b
  }

  function FreedMap(d: Disk, k: nat): (r: seq<bool>)
    requires Formed(d) && k < |d.inodes|
    ensures |r| == |d.used| && forall b :: 0 <= b < |r| ==> r[b] == (d.used[b] && !RefersTo(d, k, b))
  {
    seq(|d.used|, b requires 0 <= b < |d.used| => d.used[b] && !RefersTo(d, k, b))
  }

  // The inode is no longer live; every block that it refers to is marked unused. Its slots are not reset.
  function Free(d: Disk, k: nat): (r: Disk)
    requires Formed(d) && k < |d.inodes|
    ensures Formed(r)
  {
    Disk(d.inodes[k := Inode(0, d.inodes[k].direct, d.inodes[k].indirect)], FreedMap(d, k), d.data)
  }

  lemma FreeKeeps(d: Disk, k: nat)
    requires Inv(d) && Live(d, k)
    ensures Inv(Free(d, k))
    ensures forall l :: Live(Free(d, k), l) <==> Live(d, l) && l != k
  {
    var r := Free(d, k);
    forall l, t | Slot(r, l, t)
      ensures Slot(d, l, t) && l != k && RefAt(r, l, t) == RefAt(d, l, t) && Marked(r, l, t)
    {
      assert Marked(d, l, t);
      forall s | 0 <= s < SLOTS ensures RefAt(d, l, t) == UNASSIGNED || RefAt(d, k, s) != RefAt(d, l, t) {
        assert Slot(d, k, s);
        assert Apart(d, l, t, k, s);
      }
    }
    forall l, t, m, u | Slot(r, l, t) && Slot(r, m, u) ensures Apart(r, l, t, m, u) {
      assert Apart(d, l, t, m, u);
    }
    forall c | 0 <= c < |r.used| && r.used[c] ensures Referenced(r, c) {
      assert Referenced(d, c);
      var l, t :| Slot(d, l, t) && RefAt(d, l, t) == c;
      assert l != k;
      assert Slot(r, l, t);
    }
    forall l, t, u | Slot(r, l, t) && Slot(r, l, u) ensures Before(r, l, t, u) {
      assert Before(d, l, t, u);
    }
  }

  function NoBlocks(n: nat): (r: seq<int>)
    ensures |r| == n && forall i :: 0 <= i < n ==> r[i] == UNASSIGNED
  {
    seq(n, _ => UNASSIGNED)
  }

  function Init(d: Disk, k: nat): (r: Disk)
    requires Formed(d) && k < |d.inodes|
    ensures Formed(r)
  {
    Disk(d.inodes[k := Inode(1, NoBlocks(NUM_DIRECT_BLOCKS), UNASSIGNED)], d.used, d.data)
  }

  lemma InitKeeps(d: Disk, k: nat)
    requires Inv(d) && k < |d.inodes| && !Live(d, k)
    ensures Inv(Init(d, k))
  {
    var r := Init(d, k);
    forall l, t | Slot(r, l, t)
      ensures RefAt(r, l, t) == (if l == k then UNASSIGNED else RefAt(d, l, t)) && (l != k ==> Slot(d, l, t))
      ensures Marked(r, l, t)
    {
      if l != k {
        assert Marked(d, l, t);
      }
    }
    forall l, t, m, u | Slot(r, l, t) && Slot(r, m, u) ensures Apart(r, l, t, m, u) {
      if l != k && m != k {
        assert Apart(d, l, t, m, u);
      } else if l != k {
        assert Marked(d, l, t);
      }
    }
    forall c | 0 <= c < |r.used| && r.used[c] ensures Referenced(r, c) {
      assert Referenced(d, c);
      var l, t :| Slot(d, l, t) && RefAt(d, l, t) == c;
      assert Slot(r, l, t);
    }
    forall l, t, u | Slot(r, l, t) && Slot(r, l, u) ensures Before(r, l, t, u) {
      if l != k {
        assert Before(d, l, t, u);
      }
    }
  }
}
