// What the allocation of data blocks for one inode leaves unchanged, and how many blocks it takes.
module BlockGrowth {
  import opened BlockRefs

  // ---------- counting ----------

  // The number of blocks that are not in use.
  function FreeCount(used: seq<bool>): nat {
    if used == [] then 0 else (if used[0] then 0 else 1) + FreeCount(used[1..])
  }

  lemma {:induction false} FreeCountMark(used: seq<bool>, b: nat)
    requires b < |used| && !used[b]
    ensures FreeCount(used[b := true]) == FreeCount(used) - 1
  {
    if b > 0 {
      assert used[b := true][1..] == used[1..][b - 1 := true];
      FreeCountMark(used[1..], b - 1);
    } else {
      assert used[b := true][1..] == used[1..];
    }
  }

  lemma {:induction false} FreeCountZero(used: seq<bool>)
    ensures FreeCount(used) == 0 <==> forall b :: 0 <= b < |used| ==> used[b]
  {
    if used != [] {
      FreeCountZero(used[1..]);
      assert forall b :: 0 < b < |used| ==> used[b] == used[1..][b - 1];
    }
  }

  lemma {:induction false} FreeCountIs(used: seq<bool>)
    ensures FreeCount(used) == |set b | 0 <= b < |used| && !used[b]|
  {
    if used != [] {
      var rest, last := used[..|used| - 1], |used| - 1;
      FreeCountLast(rest, used[last]);
      assert used == rest + [used[last]];
      FreeCountIs(rest);
      var some, all := set b | 0 <= b < |rest| && !rest[b], set b | 0 <= b < |used| && !used[b];
      assert all == some + if used[last] then {} else {last};
    }
  }

  lemma {:induction false} FreeCountLast(used: seq<bool>, x: bool)
    ensures FreeCount(used + [x]) == FreeCount(used) + if x then 0 else 1
  {
    if used != [] {
      assert (used + [x])[1..] == used[1..] + [x];
      FreeCountLast(used[1..], x);
    }
  }

  // The number of slots below m that are not assigned.
  function Missing(d: Disk, k: nat, m: nat): (n: nat)
    requires Formed(d) && k < |d.inodes| && m <= SLOTS
  {
    if m == 0 then 0 else Missing(d, k, m - 1) + if RefAt(d, k, m - 1) == UNASSIGNED then 1 else 0
  }

  lemma {:induction false} MissingIs(d: Disk, k: nat, m: nat)
    requires Formed(d) && k < |d.inodes| && m <= SLOTS
    ensures Missing(d, k, m) == |set s: nat | s < m && RefAt(d, k, s) == UNASSIGNED|
  {
    if m > 0 {
      MissingIs(d, k, m - 1);
      var some, all := set s: nat | s < m - 1 && RefAt(d, k, s) == UNASSIGNED,
                       set s: nat | s < m && RefAt(d, k, s) == UNASSIGNED;
      assert all == some + if RefAt(d, k, m - 1) == UNASSIGNED then {m - 1} else {};
    }
  }

  lemma {:induction false} MissingSame(d: Disk, r: Disk, k: nat, m: nat)
    requires Formed(d) && Formed(r) && k < |d.inodes| == |r.inodes| && m <= SLOTS
    requires forall s :: 0 <= s < m ==> RefAt(r, k, s) == RefAt(d, k, s)
    ensures Missing(r, k, m) == Missing(d, k, m)
  {
    if m > 0 {
      MissingSame(d, r, k, m - 1);
    }
  }

  lemma {:induction false} MissingOneLess(d: Disk, r: Disk, k: nat, m: nat, i: nat)
    requires Formed(d) && Formed(r) && k < |d.inodes| == |r.inodes| && i < m <= SLOTS
    requires RefAt(d, k, i) == UNASSIGNED && RefAt(r, k, i) != UNASSIGNED
    requires forall s :: 0 <= s < m && s != i ==> RefAt(r, k, s) == RefAt(d, k, s)
    ensures Missing(r, k, m) == Missing(d, k, m) - 1
  {
    if i == m - 1 {
      MissingSame(d, r, k, i);
    } else {
      MissingOneLess(d, r, k, m - 1, i);
    }
  }

  lemma {:induction false} NoneMissing(d: Disk, k: nat, m: nat)
    requires Formed(d) && k < |d.inodes| && m <= SLOTS
    ensures Missing(d, k, m) == 0 <==> forall s :: 0 <= s < m ==> RefAt(d, k, s) != UNASSIGNED
  {
    if m > 0 {
      NoneMissing(d, k, m - 1);
    }
  }

  // ---------- what is kept ----------

  // A slot of inode k that was assigned still is; one that has been assigned since refers to a block that
  // was free, and, unless it is the pointer to the indirect block, to one that is all zeros.
  predicate SlotKept(d: Disk, r: Disk, k: nat, s: nat)
    requires Formed(d) && Formed(r) && k < |d.inodes| == |r.inodes| && |d.used| == |r.used| && s < SLOTS
  {
    var before, after := RefAt(d, k, s), RefAt(r, k, s);
    if before != UNASSIGNED then after == before
    else after != UNASSIGNED ==>
      IsBlock(d, after) && !d.used[after] && (s != INDIRECT ==> r.data[after] == Zeros())
  }

  // A block that was in use still is, with the same contents, but for the slots of the indirect block of inode k.
  predicate BlockKept(d: Disk, r: Disk, k: nat, b: nat)
    requires Formed(d) && Formed(r) && k < |d.inodes| == |r.inodes| && b < |d.used| == |r.used|
  {
    d.used[b] ==>
      && r.used[b] && BehindSlots(r, b) == BehindSlots(d, b)
      && (b != d.inodes[k].indirect ==> r.data[b] == d.data[b])
  }

  // The words of a block that are no slots when it is an indirect block.
  function BehindSlots(d: Disk, b: nat): seq<int>
    requires Formed(d) && b < |d.used|
  {
    d.data[b][NUM_INDIRECT_BLOCKS..]
  }

  ghost predicate Kept(d: Disk, r: Disk, k: nat) {
    && Formed(d) && Formed(r) && k < |d.inodes| == |r.inodes| && |d.used| == |r.used|
    && (forall l :: 0 <= l < |d.inodes| && l != k ==> r.inodes[l] == d.inodes[l])
    && (forall s :: 0 <= s < SLOTS ==> SlotKept(d, r, k, s))
    && (forall b :: 0 <= b < |d.used| ==> BlockKept(d, r, k, b))
    && r.inodes[k].nlink == LinksAfter(d.inodes[k], r.inodes[k].indirect)
  }

  // The link count becomes 1 with a new pointer to an indirect block.
  function LinksAfter(node: Inode, indirect: int): nat {
    if indirect != node.indirect then 1 else node.nlink
  }

  lemma KeptSame(d: Disk, k: nat)
    requires Formed(d) && k < |d.inodes|
    ensures Kept(d, d, k)
  {
  }

  lemma KeptTransitive(d: Disk, e: Disk, r: Disk, k: nat)
    requires Inv(e) && Live(e, k) && Kept(d, e, k) && Kept(e, r, k)
    ensures Kept(d, r, k)
  {
    forall s | 0 <= s < SLOTS ensures SlotKept(d, r, k, s) {
      assert SlotKept(d, e, k, s) && SlotKept(e, r, k, s);
      assert Slot(e, k, s) && Slot(e, k, INDIRECT);
      assert Marked(e, k, s) && Apart(e, k, s, k, INDIRECT);
      if RefAt(e, k, s) != UNASSIGNED {
        assert BlockKept(e, r, k, RefAt(e, k, s));
      } else if RefAt(r, k, s) != UNASSIGNED {
        assert BlockKept(d, e, k, RefAt(r, k, s));
      }
    }
    assert SlotKept(d, e, k, INDIRECT) && SlotKept(e, r, k, INDIRECT);
    assert RefAt(d, k, INDIRECT) == d.inodes[k].indirect && RefAt(e, k, INDIRECT) == e.inodes[k].indirect;
    assert RefAt(r, k, INDIRECT) == r.inodes[k].indirect;
    forall b | 0 <= b < |d.used| ensures BlockKept(d, r, k, b) {
      assert BlockKept(d, e, k, b) && BlockKept(e, r, k, b);
      assert SlotKept(d, e, k, INDIRECT);
      assert RefAt(d, k, INDIRECT) == d.inodes[k].indirect && RefAt(e, k, INDIRECT) == e.inodes[k].indirect;
    }
  }

  // The other files keep their blocks and what is in them.
  lemma OtherFilesUntouched(d: Disk, r: Disk, k: nat, l: nat, s: nat)
    requires Inv(d) && Kept(d, r, k) && Live(d, k) && Slot(d, l, s) && l != k && RefAt(d, l, s) != UNASSIGNED
    ensures Slot(r, l, s) && RefAt(r, l, s) == RefAt(d, l, s)
    ensures IsBlock(d, RefAt(d, l, s)) && r.data[RefAt(d, l, s)] == d.data[RefAt(d, l, s)]
  {
    OwnBlock(d, r, k, l, s);
    if s > INDIRECT {
      assert Slot(d, l, INDIRECT);
      assert Before(d, l, INDIRECT, s);
      OwnBlock(d, r, k, l, INDIRECT);
    }
  }

  lemma OwnBlock(d: Disk, r: Disk, k: nat, l: nat, s: nat)
    requires Inv(d) && Kept(d, r, k) && Live(d, k) && Slot(d, l, s) && l != k && RefAt(d, l, s) != UNASSIGNED
    ensures IsBlock(d, RefAt(d, l, s)) && r.data[RefAt(d, l, s)] == d.data[RefAt(d, l, s)]
  {
    assert Slot(d, k, INDIRECT);
    assert Marked(d, l, s) && Apart(d, l, s, k, INDIRECT);
    assert BlockKept(d, r, k, RefAt(d, l, s));
    assert RefAt(d, k, INDIRECT) == d.inodes[k].indirect;
  }

  // ---------- one slot ----------

  function AssignZeroed(d: Disk, k: nat, s: nat, b: nat): (r: Disk)
    requires Formed(d) && Slot(d, k, s) && IsBlock(d, b)
    requires s > INDIRECT ==> IsBlock(d, d.inodes[k].indirect)
    ensures Formed(r) && |r.inodes| == |d.inodes| && |r.used| == |d.used|
  {
    if s == INDIRECT then Assign(d, k, s, b) else Zero(Assign(d, k, s, b), b)
  }

  lemma StepRefs(d: Disk, k: nat, s: nat, b: int)
    requires Next(d, k, s, b)
    ensures s > INDIRECT ==> IsBlock(d, d.inodes[k].indirect)
    ensures var r := AssignZeroed(d, k, s, b);
      && Inv(r) && Live(r, k)
      && forall t :: 0 <= t < SLOTS ==> RefAt(r, k, t) == if t == s then b else RefAt(d, k, t)
  {
    AssignKeeps(d, k, s, b);
    var e := Assign(d, k, s, b);
    forall t | 0 <= t < SLOTS ensures RefAt(e, k, t) == if t == s then b else RefAt(d, k, t) {
      AssignRefs(d, k, s, b, k, t);
    }
    assert Slot(e, k, s);
    if s != INDIRECT {
      ZeroKeeps(e, k, s);
      assert forall t :: 0 <= t < SLOTS ==> Slot(e, k, t);
    }
  }

  lemma StepKept(d: Disk, k: nat, s: nat, b: int)
    requires Next(d, k, s, b)
    ensures s > INDIRECT ==> IsBlock(d, d.inodes[k].indirect)
    ensures Kept(d, AssignZeroed(d, k, s, b), k)
  {
    StepRefs(d, k, s, b);
    NextHasIndirect(d, k, s, b);
    var r := AssignZeroed(d, k, s, b);
    forall t | 0 <= t < SLOTS ensures SlotKept(d, r, k, t) {
    }
    forall c | 0 <= c < |d.used| ensures BlockKept(d, r, k, c) {
    }
  }

  // ---------- the work of minixfs_min_blockcount ----------

  // From d, the slots of inode k below i have been assigned on the way to all slots below m.
  ghost predicate Progress(d: Disk, r: Disk, k: nat, i: nat, m: nat) {
    && i <= m <= SLOTS && Inv(r) && Live(r, k) && Kept(d, r, k) && CanReach(d, r)
    && (forall s :: 0 <= s < i ==> RefAt(r, k, s) != UNASSIGNED)
    && (forall s :: m <= s < SLOTS ==> RefAt(r, k, s) == RefAt(d, k, s))
    && FreeCount(r.used) - Missing(r, k, m) == FreeCount(d.used) - Missing(d, k, m)
  }

  lemma ProgressStep(d: Disk, r: Disk, k: nat, i: nat, m: nat, b: int)
    requires Progress(d, r, k, i, m) && i < m && IsBlock(r, b) && !r.used[b] && RefAt(r, k, i) == UNASSIGNED
    ensures i > INDIRECT ==> IsBlock(r, r.inodes[k].indirect)
    ensures Progress(d, AssignZeroed(r, k, i, b), k, i + 1, m)
  {
    assert Next(r, k, i, b);
    StepRefs(r, k, i, b);
    StepKept(r, k, i, b);
    var r' := AssignZeroed(r, k, i, b);
    KeptTransitive(d, r, r', k);
    assert Assigns(r, r', k, i, b);
    ChangeReach(d, r, r');
    FreeCountMark(r.used, b);
    MissingOneLess(r, r', k, m, i);
  }

  // A slot that is assigned already is passed over.
  lemma ProgressSkip(d: Disk, r: Disk, k: nat, i: nat, m: nat)
    requires Progress(d, r, k, i, m) && i < m && RefAt(r, k, i) != UNASSIGNED
    ensures Progress(d, r, k, i + 1, m)
  {
  }

  // ---------- runs ----------

  // A block is assigned to the next slot of a file, a file is freed, or an inode becomes a new file.
  ghost predicate Changes(d: Disk, r: Disk) {
    || (exists k, s, b :: Next(d, k, s, b) && Assigns(d, r, k, s, b))
    || (exists k :: Live(d, k) && Formed(d) && r == Free(d, k))
    || (exists k :: 0 <= k < |d.inodes| && !Live(d, k) && Formed(d) && r == Init(d, k))
  }

  ghost predicate Assigns(d: Disk, r: Disk, k: nat, s: nat, b: int)
    requires Next(d, k, s, b)
  {
    NextHasIndirect(d, k, s, b);
    r == AssignZeroed(d, k, s, b)
  }

  ghost predicate IsRun(disks: seq<Disk>) {
    forall j :: 0 <= j < |disks| - 1 ==> Changes(disks[j], disks[j + 1])
  }

  // Some run leads from d to r.
  ghost predicate CanReach(d: Disk, r: Disk) {
    exists disks: seq<Disk> :: disks != [] && IsRun(disks) && disks[0] == d && disks[|disks| - 1] == r
  }

  lemma SameReach(d: Disk)
    ensures CanReach(d, d)
  {
    assert IsRun([d]);
  }

  lemma ChangeReach(d: Disk, e: Disk, r: Disk)
    requires CanReach(d, e) && Changes(e, r)
    ensures CanReach(d, r)
  {
    var disks: seq<Disk> :| disks != [] && IsRun(disks) && disks[0] == d && disks[|disks| - 1] == e;
    assert IsRun(disks + [r]);
  }

  // In every state of every run a block is in use if and only if exactly one slot of one live inode refers
  // to it.
  lemma {:induction false} EveryRun(disks: seq<Disk>, i: nat)
    requires i < |disks| && Inv(disks[0]) && IsRun(disks)
    ensures Inv(disks[i])
  {
    if i > 0 {
      EveryRun(disks, i - 1);
      ChangeKeeps(disks[i - 1], disks[i]);
    }
  }

  lemma ChangeKeeps(d: Disk, r: Disk)
    requires Inv(d) && Changes(d, r)
    ensures Inv(r)
  {
    if k, s, b :| Next(d, k, s, b) && Assigns(d, r, k, s, b) {
      StepRefs(d, k, s, b);
    } else if k :| Live(d, k) && r == Free(d, k) {
      FreeKeeps(d, k);
    } else {
      var k :| 0 <= k < |d.inodes| && !Live(d, k) && r == Init(d, k);
      InitKeeps(d, k);
    }
  }

  // The user of a block is unique, and a block without one is free.
  lemma OneUser(d: Disk, b: nat)
    requires Inv(d) && b < |d.used|
    ensures d.used[b] <==> Referenced(d, b)
    ensures forall k, s, l, t :: Slot(d, k, s) && Slot(d, l, t) && RefAt(d, k, s) == b && RefAt(d, l, t) == b ==>
      k == l && s == t
  {
    forall k, s | Slot(d, k, s) && RefAt(d, k, s) == b ensures d.used[b] {
      assert Marked(d, k, s);
    }
    forall k, s, l, t | Slot(d, k, s) && Slot(d, l, t) && RefAt(d, k, s) == b && RefAt(d, l, t) == b
      ensures k == l && s == t
    {
      assert Apart(d, k, s, l, t);
    }
  }
}
