// Block allocation of minixfs_provided.c and minixfs_utils.c on the inodes, the data map and the data blocks.
module MiniFs {
  import opened BlockRefs
  import opened BlockGrowth

  // The first unassigned slot from start on, end if there is none.
  function FirstHole(d: Disk, k: nat, start: nat, end: nat): (s: nat)
    requires Formed(d) && k < |d.inodes| && start <= end <= SLOTS
    ensures start <= s <= end && (s < end ==> RefAt(d, k, s) == UNASSIGNED)
    ensures forall t :: start <= t < s ==> RefAt(d, k, t) != UNASSIGNED
    decreases end - start
  {
    if start == end || RefAt(d, k, start) == UNASSIGNED then start else FirstHole(d, k, start + 1, end)
  }

  lemma {:induction false} HoleAt(d: Disk, k: nat, start: nat, end: nat, s: nat)
    requires Formed(d) && k < |d.inodes| && start <= s < end <= SLOTS && RefAt(d, k, s) == UNASSIGNED
    requires forall t :: start <= t < s ==> RefAt(d, k, t) != UNASSIGNED
    ensures FirstHole(d, k, start, end) == s
    decreases s - start
  {
    if start < s {
      HoleAt(d, k, start + 1, end, s);
    }
  }

  predicate AllUsed(d: Disk) {
    forall b :: 0 <= b < |d.used| ==> d.used[b]
  }

  // The outcome of an attempt to assign a block to slot s; there is no slot left if s is end.
  predicate Attempted(d: Disk, r: Disk, k: nat, s: nat, end: nat, result: int)
    requires Formed(d) && Live(d, k) && s <= end <= SLOTS
    requires INDIRECT < s < end ==> IsBlock(d, d.inodes[k].indirect)
  {
    if s == end then result == 0 && r == d
    else if AllUsed(d) then result == UNASSIGNED && r == d
    else IsBlock(d, result) && !d.used[result] && r == Assign(d, k, s, result)
  }

  // The same for the pointer to the indirect block, which is left alone if there is one; success is 0.
  ghost predicate PointerAttempted(d: Disk, r: Disk, k: nat, result: int)
    requires Formed(d) && Live(d, k)
  {
    if d.inodes[k].indirect != UNASSIGNED then result == 0 && r == d
    else if AllUsed(d) then result == UNASSIGNED && r == d
    else result == 0 && exists b :: IsBlock(d, b) && !d.used[b] && r == Assign(d, k, INDIRECT, b)
  }

  class FileSystem {
    var inodes: seq<Inode>
    var used: seq<bool>
    var data: seq<seq<int>>

    function Abs(): Disk
      reads this
    {
      Disk(inodes, used, data)
    }

    // first_unused_data: any block that is not in use.
    method FirstUnusedData() returns (b: int)
      ensures b == UNASSIGNED <==> AllUsed(Abs())
      ensures b != UNASSIGNED ==> IsBlock(Abs(), b) && !used[b]
    {
      if exists c :: 0 <= c < |used| && !used[c] {
        b :| 0 <= b < |used| && !used[b];
      } else {
        b := UNASSIGNED;
      }
    }

    // set_data_used; numbers that are not blocks are ignored.
    method SetDataUsed(b: int, mark: bool)
      modifies this`used
      ensures used == if IsBlock(old(Abs()), b) then old(used)[b := mark] else old(used)
    {
      if b < 0 || b >= |used| {
        return;
      }
      used := used[b := mark];
    }

    // add_data_block_to_inode
    method AddDataBlockToInode(k: nat) returns (r: int)
      requires Formed(Abs()) && Live(Abs(), k)
      modifies this
      ensures Attempted(old(Abs()), Abs(), k, FirstHole(old(Abs()), k, 0, INDIRECT), INDIRECT, r)
      ensures Abs() == old(Abs()) || FilledDirect(old(Abs()), Abs(), k, r)
    {
      ghost var d := Abs();
      for i := 0 to NUM_DIRECT_BLOCKS
        invariant Abs() == d && forall t :: 0 <= t < i ==> RefAt(d, k, t) != UNASSIGNED
      {
        if inodes[k].direct[i] == UNASSIGNED {
          HoleAt(d, k, 0, INDIRECT, i);
          var firstData := FirstUnusedData();
          if firstData == UNASSIGNED {
            return UNASSIGNED;
          }
          inodes := inodes[k := inodes[k].(direct := inodes[k].direct[i := firstData])];
          SetDataUsed(firstData, true);
          return firstData;
        }
      }
      return 0;
    }

    // add_data_block_to_indirect_block, for the indirect block of inode k.
    method AddDataBlockToIndirectBlock(k: nat) returns (r: int)
      requires Formed(Abs()) && Live(Abs(), k) && IsBlock(Abs(), inodes[k].indirect)
      modifies this
      ensures Attempted(old(Abs()), Abs(), k, FirstHole(old(Abs()), k, INDIRECT + 1, SLOTS), SLOTS, r)
      ensures Abs() == old(Abs()) || FilledIndirect(old(Abs()), Abs(), k, r)
    {
      ghost var d := Abs();
      var blocks := inodes[k].indirect;
      for i := 0 to NUM_INDIRECT_BLOCKS
        invariant Abs() == d && forall j :: 0 <= j < i ==> data[blocks][j] != UNASSIGNED
      {
        if data[blocks][i] == UNASSIGNED {
          IndirectHole(d, k, i);
          var firstData := FirstUnusedData();
          if firstData == UNASSIGNED {
            return UNASSIGNED;
          }
          data := data[blocks := data[blocks][i := firstData]];
          SetDataUsed(firstData, true);
          return firstData;
        }
      }
      FirstHoleIs(d, k);
      return 0;
    }

    // add_single_indirect_block
    method AddSingleIndirectBlock(k: nat) returns (r: int)
      requires Formed(Abs()) && Live(Abs(), k)
      modifies this
      ensures PointerAttempted(old(Abs()), Abs(), k, r)
      ensures Abs() == old(Abs()) || exists b: int :: FilledPointer(old(Abs()), Abs(), k, b)
    {
      ghost var d := Abs();
      if inodes[k].indirect != UNASSIGNED {
        return 0;
      }
      var firstData := FirstUnusedData();
      if firstData == UNASSIGNED {
        return UNASSIGNED;
      }
      inodes := inodes[k := inodes[k].(indirect := firstData)];
      SetDataUsed(firstData, true);
      inodes := inodes[k := inodes[k].(nlink := 1)];
      ghost var target, words := Assign(d, k, INDIRECT, firstData), data[firstData];
      for i := 0 to NUM_INDIRECT_BLOCKS
        invariant inodes == target.inodes && used == target.used
        invariant |data| == |d.data| && |data[firstData]| == WORDS
        invariant data == d.data[firstData := data[firstData]]
        invariant forall j :: 0 <= j < WORDS ==> data[firstData][j] == if j < i then UNASSIGNED else words[j]
      {
        data := data[firstData := data[firstData][i := UNASSIGNED]];
      }
      assert data[firstData] == Cleared(words);
      assert Abs() == Assign(d, k, INDIRECT, firstData);
      assert FilledPointer(d, Abs(), k, firstData);
      return 0;
    }

    // memset to 0
    method ZeroBlock(b: nat)
      requires Formed(Abs()) && IsBlock(Abs(), b)
      modifies this`data
      ensures Abs() == Zero(old(Abs()), b)
    {
      data := data[b := Zeros()];
    }

    // One pass of the loops over the direct slots.
    method EnsureDirect(k: nat, i: nat, ghost d: Disk, ghost m: nat) returns (err: int)
      requires Progress(d, Abs(), k, i, m) && i < m && i < NUM_DIRECT_BLOCKS
      modifies this
      ensures if err == UNASSIGNED then OutOfBlocks(d, Abs(), k, i, m) else Progress(d, Abs(), k, i + 1, m)
    {
      err := 0;
      if inodes[k].direct[i] == UNASSIGNED {
        ghost var before := Abs();
        HoleAt(before, k, 0, INDIRECT, i);
        err := AddDataBlockToInode(k);
        if err == UNASSIGNED {
          return;
        }
        ProgressStep(d, before, k, i, m, err);
        ZeroBlock(inodes[k].direct[i]);
      }
    }

    method EnsurePointer(k: nat, ghost d: Disk, ghost m: nat) returns (err: int)
      requires Progress(d, Abs(), k, INDIRECT, m) && INDIRECT < m
      modifies this
      ensures if err == UNASSIGNED then OutOfBlocks(d, Abs(), k, INDIRECT, m)
        else Progress(d, Abs(), k, INDIRECT + 1, m)
    {
      ghost var before := Abs();
      err := AddSingleIndirectBlock(k);
      if Abs() != before {
        ghost var b :| IsBlock(before, b) && !before.used[b] && Abs() == Assign(before, k, INDIRECT, b);
        ProgressStep(d, before, k, INDIRECT, m, b);
      }
    }

    method EnsureIndirect(k: nat, i: nat, ghost d: Disk, ghost m: nat) returns (err: int)
      requires Progress(d, Abs(), k, INDIRECT + 1 + i, m) && INDIRECT + 1 + i < m
      modifies this
      ensures if err == UNASSIGNED then OutOfBlocks(d, Abs(), k, INDIRECT + 1 + i, m)
        else Progress(d, Abs(), k, INDIRECT + 2 + i, m)
    {
      ghost var before, s := Abs(), INDIRECT + 1 + i;
      HasIndirect(d, before, k, s, m);
      if data[inodes[k].indirect][i] != UNASSIGNED {
        ProgressSkip(d, before, k, s, m);
        return 0;
      }
      err := FillIndirect(k, i);
      if err != UNASSIGNED {
        ProgressStep(d, before, k, s, m, err);
      }
    }

    // The body of the last loop, for the first empty slot.
    method FillIndirect(k: nat, i: nat) returns (err: int)
      requires Formed(Abs()) && Live(Abs(), k) && IsBlock(Abs(), inodes[k].indirect) && i < NUM_INDIRECT_BLOCKS
      requires RefAt(Abs(), k, INDIRECT + 1 + i) == UNASSIGNED
      requires forall t :: INDIRECT < t < INDIRECT + 1 + i ==> RefAt(Abs(), k, t) != UNASSIGNED
      modifies this
      ensures err == UNASSIGNED ==> AllUsed(old(Abs())) && Abs() == old(Abs())
      ensures err != UNASSIGNED ==> IsBlock(old(Abs()), err) && !old(used)[err]
      ensures err != UNASSIGNED ==> Abs() == AssignZeroed(old(Abs()), k, INDIRECT + 1 + i, err)
    {
      HoleAt(Abs(), k, INDIRECT + 1, SLOTS, INDIRECT + 1 + i);
      var blocks := inodes[k].indirect;
      err := AddDataBlockToIndirectBlock(k);
      if err != UNASSIGNED {
        ZeroBlock(data[blocks][i]);
      }
    }

    // The part of minixfs_min_blockcount for the indirect block.
    method EnsureIndirects(k: nat, blockCount: nat, ghost d: Disk, ghost m: nat) returns (err: int)
      requires Progress(d, Abs(), k, INDIRECT, m) && m == INDIRECT + 1 + blockCount
      modifies this
      ensures if err == UNASSIGNED then HasFailed(d, Abs(), k, m) else Progress(d, Abs(), k, m, m)
    {
      err := EnsurePointer(k, d, m);
      if err == UNASSIGNED {
        Fails(d, Abs(), k, INDIRECT, m);
        return;
      }
      var i := 0;
      while i < blockCount
        invariant i <= blockCount && Progress(d, Abs(), k, INDIRECT + 1 + i, m)
      {
        err := EnsureIndirect(k, i, d, m);
        if err == UNASSIGNED {
          Fails(d, Abs(), k, INDIRECT + 1 + i, m);
          return;
        }
        i := i + 1;
      }
      return 0;
    }

    // The two branches of minixfs_min_blockcount, on the way to all slots below m.
    method EnsureBlocks(k: nat, blockCount: int, ghost m: nat) returns (r: int)
      requires Inv(Abs()) && Live(Abs(), k) && blockCount <= NUM_DIRECT_BLOCKS + NUM_INDIRECT_BLOCKS
      requires m == if blockCount < 0 then 0 else if blockCount < NUM_DIRECT_BLOCKS then blockCount else blockCount + 1
      modifies this
      ensures if r == 0 then Progress(old(Abs()), Abs(), k, m, m)
        else r == UNASSIGNED && HasFailed(old(Abs()), Abs(), k, m)
    {
      ghost var d := Abs();
      KeptSame(d, k);
      SameReach(d);
      var err := 0;
      var i := 0;
      if blockCount < NUM_DIRECT_BLOCKS {
        while i < blockCount
          invariant i <= m && Progress(d, Abs(), k, i, m)
        {
          err := EnsureDirect(k, i, d, m);
          if err == UNASSIGNED {
            Fails(d, Abs(), k, i, m);
            return UNASSIGNED;
          }
          i := i + 1;
        }
      } else {
        while i < NUM_DIRECT_BLOCKS
          invariant i <= NUM_DIRECT_BLOCKS && Progress(d, Abs(), k, i, m)
        {
          err := EnsureDirect(k, i, d, m);
          if err == UNASSIGNED {
            Fails(d, Abs(), k, i, m);
            return UNASSIGNED;
          }
          i := i + 1;
        }
        err := EnsureIndirects(k, blockCount - NUM_DIRECT_BLOCKS, d, m);
        if err == UNASSIGNED {
          return UNASSIGNED;
        }
      }
      return 0;
    }

    // minixfs_min_blockcount for an inode that exists. After success the file has the wanted number of data blocks,
    // and from 11 on the indirect block; no other slot has been assigned. It fails exactly if fewer blocks are free
    // than slots are missing. Either way it is a run of assignments, the invariant holds again, and no block that
    // was in use has changed, but for the slots of the inode's own indirect block.
    method MinBlockcount(k: nat, blockCount: int) returns (r: int)
      requires Inv(Abs()) && Live(Abs(), k) && blockCount <= NUM_DIRECT_BLOCKS + NUM_INDIRECT_BLOCKS
      modifies this
      ensures Inv(Abs()) && Kept(old(Abs()), Abs(), k) && CanReach(old(Abs()), Abs()) && (r == 0 || r == UNASSIGNED)
      ensures r == 0 ==> forall j :: 0 <= j < blockCount ==> HasDataBlock(Abs(), k, j)
      ensures r == 0 && blockCount >= NUM_DIRECT_BLOCKS ==> inodes[k].indirect != UNASSIGNED
      ensures forall s :: 0 <= s < SLOTS && (if s < NUM_DIRECT_BLOCKS then s >= blockCount else s > blockCount) ==>
        RefAt(Abs(), k, s) == RefAt(old(Abs()), k, s)
      ensures r == 0 <==> |Wanting(old(Abs()), k, blockCount)| <= |set b | 0 <= b < |old(used)| && !old(used)[b]|
      ensures inodes[k].nlink == if inodes[k].indirect != old(inodes)[k].indirect then 1 else old(inodes)[k].nlink
    {
      ghost var d := Abs();
      ghost var m :=
        if blockCount < 0 then 0 else if blockCount < NUM_DIRECT_BLOCKS then blockCount else blockCount + 1;
      NeedIs(d, k, blockCount, m);
      r := EnsureBlocks(k, blockCount, m);
      if r == 0 {
        Succeeds(d, Abs(), k, blockCount, m);
        Outcome(d, Abs(), k, m, blockCount, m);
      } else {
        ghost var i :| OutOfBlocks(d, Abs(), k, i, m);
        Outcome(d, Abs(), k, i, blockCount, m);
      }
    }

    // The two loops of free_inode.
    method FreeDirects(k: nat, ghost d: Disk)
      requires Formed(d) && k < |d.inodes| && FreedSlots(d, used, k, 0, 0)
      requires inodes == Free(d, k).inodes && data == d.data
      modifies this`used
      ensures FreedSlots(d, used, k, 0, INDIRECT)
    {
      for i := 0 to NUM_DIRECT_BLOCKS
        invariant FreedSlots(d, used, k, 0, i)
      {
        ghost var before := used;
        if inodes[k].direct[i] != UNASSIGNED {
          SetDataUsed(inodes[k].direct[i], false);
        }
        FreedStep(d, before, used, k, 0, i);
      }
    }

    method FreeIndirects(k: nat, ghost d: Disk)
      requires Formed(d) && k < |d.inodes| && FreedSlots(d, used, k, INDIRECT + 1, INDIRECT + 1)
      requires IsBlock(d, d.inodes[k].indirect)
      requires inodes == Free(d, k).inodes && data == d.data
      modifies this`used
      ensures FreedSlots(d, used, k, INDIRECT + 1, SLOTS)
    {
      var indirect := inodes[k].indirect;
      for i := 0 to NUM_DIRECT_BLOCKS
        invariant FreedSlots(d, used, k, INDIRECT + 1, INDIRECT + 1 + i)
      {
        ghost var before := used;
        if data[indirect][i] != UNASSIGNED {
          SetDataUsed(data[indirect][i], false);
        }
        FreedStep(d, before, used, k, INDIRECT + 1, INDIRECT + 1 + i);
      }
    }

    // free_inode: the blocks of the inode become free; the slots keep their old values.
    method FreeInode(k: nat)
      requires Inv(Abs()) && Live(Abs(), k)
      modifies this
      ensures Inv(Abs()) && Abs() == Free(old(Abs()), k) && Changes(old(Abs()), Abs())
      ensures |used| == |old(used)| && data == old(data)
      ensures forall b :: 0 <= b < |used| ==>
        (used[b] <==> old(used)[b] && forall s :: 0 <= s < SLOTS ==> RefAt(old(Abs()), k, s) != b)
      ensures inodes == old(inodes)[k := Inode(0, old(inodes)[k].direct, old(inodes)[k].indirect)]
    {
      ghost var d := Abs();
      FreeKeeps(d, k);
      assert Slot(d, k, INDIRECT) && Marked(d, k, INDIRECT);
      inodes := inodes[k := inodes[k].(nlink := 0)];
      FreeDirects(k, d);
      var indirect := inodes[k].indirect;
      ghost var e := d.(used := used);
      if indirect != UNASSIGNED {
        FreeIndirects(k, e);
      }
      ghost var slots := used;
      SetDataUsed(indirect, false);
      FreedAll(d, k, e.used, slots, used);
    }

    // init_inode for an inode that is not in use.
    method InitInode(k: nat)
      requires Inv(Abs()) && k < |inodes| && !Live(Abs(), k)
      modifies this
      ensures Inv(Abs()) && Abs() == Init(old(Abs()), k) && Changes(old(Abs()), Abs())
      ensures used == old(used) && data == old(data)
      ensures inodes == old(inodes)[k := Inode(1, seq(NUM_DIRECT_BLOCKS, _ => UNASSIGNED), UNASSIGNED)]
    {
      ghost var d := Abs();
      InitKeeps(d, k);
      inodes := inodes[k := inodes[k].(nlink := 1)];
      inodes := inodes[k := inodes[k].(indirect := UNASSIGNED)];
      for i := 0 to NUM_DIRECT_BLOCKS
        invariant used == d.used && data == d.data
        invariant |inodes| == |d.inodes| && |inodes[k].direct| == NUM_DIRECT_BLOCKS
        invariant inodes == d.inodes[k := Inode(1, inodes[k].direct, UNASSIGNED)]
        invariant forall j :: 0 <= j < i ==> inodes[k].direct[j] == UNASSIGNED
      {
        inodes := inodes[k := inodes[k].(direct := inodes[k].direct[i := UNASSIGNED])];
      }
      assert inodes[k].direct == NoBlocks(NUM_DIRECT_BLOCKS);
    }
  }

  // The first empty word of the indirect block is the first hole behind the pointer to it.
  lemma IndirectHole(d: Disk, k: nat, i: nat)
    requires Formed(d) && k < |d.inodes| && IsBlock(d, d.inodes[k].indirect) && i < NUM_INDIRECT_BLOCKS
    requires d.data[d.inodes[k].indirect][i] == UNASSIGNED
    requires forall j :: 0 <= j < i ==> d.data[d.inodes[k].indirect][j] != UNASSIGNED
    ensures FirstHole(d, k, INDIRECT + 1, SLOTS) == INDIRECT + 1 + i
  {
    forall t | INDIRECT < t < INDIRECT + 1 + i ensures RefAt(d, k, t) != UNASSIGNED {
      assert d.data[d.inodes[k].indirect][t - INDIRECT - 1] != UNASSIGNED;
    }
    HoleAt(d, k, INDIRECT + 1, SLOTS, INDIRECT + 1 + i);
  }

  lemma FirstHoleIs(d: Disk, k: nat)
    requires Formed(d) && k < |d.inodes| && IsBlock(d, d.inodes[k].indirect)
    requires forall j :: 0 <= j < NUM_INDIRECT_BLOCKS ==> d.data[d.inodes[k].indirect][j] != UNASSIGNED
    ensures FirstHole(d, k, INDIRECT + 1, SLOTS) == SLOTS
  {
    forall t | INDIRECT < t < SLOTS ensures RefAt(d, k, t) != UNASSIGNED {
      assert d.data[d.inodes[k].indirect][t - INDIRECT - 1] != UNASSIGNED;
    }
  }

  // Data block number j of the file: a direct one, or one that the indirect block refers to.
  predicate HasDataBlock(d: Disk, k: nat, j: nat)
    requires Formed(d) && k < |d.inodes|
  {
    if j < NUM_DIRECT_BLOCKS then d.inodes[k].direct[j] != UNASSIGNED
    else
      && IsBlock(d, d.inodes[k].indirect) && j - NUM_DIRECT_BLOCKS < WORDS
      && d.data[d.inodes[k].indirect][j - NUM_DIRECT_BLOCKS] != UNASSIGNED
  }

  // The slots that a file of the given number of blocks has to fill: the direct ones below it, and from 11 on the
  // pointer to the indirect block, which is slot 11, and those behind it.
  function Wanting(d: Disk, k: nat, blockCount: int): set<nat>
    requires Formed(d) && k < |d.inodes|
  {
    set s: nat | s < SLOTS && (if s < NUM_DIRECT_BLOCKS then s < blockCount else s <= blockCount)
                 && RefAt(d, k, s) == UNASSIGNED
  }

  lemma NeedIs(d: Disk, k: nat, blockCount: int, m: nat)
    requires Formed(d) && k < |d.inodes| && blockCount <= NUM_DIRECT_BLOCKS + NUM_INDIRECT_BLOCKS
    requires m == if blockCount < 0 then 0 else if blockCount < NUM_DIRECT_BLOCKS then blockCount else blockCount + 1
    ensures m <= SLOTS && FreeCount(d.used) == |set b | 0 <= b < |d.used| && !d.used[b]|
    ensures Missing(d, k, m) == |Wanting(d, k, blockCount)|
  {
    FreeCountIs(d.used);
    MissingIs(d, k, m);
    assert (set s: nat | s < m && RefAt(d, k, s) == UNASSIGNED) == Wanting(d, k, blockCount);
  }

  // What holds after success and after failure.
  lemma Outcome(d: Disk, r: Disk, k: nat, i: nat, blockCount: int, m: nat)
    requires Progress(d, r, k, i, m) && blockCount <= NUM_DIRECT_BLOCKS + NUM_INDIRECT_BLOCKS
    requires m == if blockCount < 0 then 0 else if blockCount < NUM_DIRECT_BLOCKS then blockCount else blockCount + 1
    ensures Inv(r) && Kept(d, r, k) && CanReach(d, r)
    ensures forall s :: 0 <= s < SLOTS && (if s < NUM_DIRECT_BLOCKS then s >= blockCount else s > blockCount) ==>
      RefAt(r, k, s) == RefAt(d, k, s)
    ensures r.inodes[k].nlink == if r.inodes[k].indirect != d.inodes[k].indirect then 1 else d.inodes[k].nlink
  {
  }

  lemma Succeeds(d: Disk, r: Disk, k: nat, blockCount: int, m: nat)
    requires Formed(d) && k < |d.inodes| && blockCount <= NUM_DIRECT_BLOCKS + NUM_INDIRECT_BLOCKS
    requires m == if blockCount < 0 then 0 else if blockCount < NUM_DIRECT_BLOCKS then blockCount else blockCount + 1
    requires Progress(d, r, k, m, m)
    ensures Missing(d, k, m) <= FreeCount(d.used)
    ensures forall j :: 0 <= j < blockCount ==> HasDataBlock(r, k, j)
    ensures blockCount >= NUM_DIRECT_BLOCKS ==> r.inodes[k].indirect != UNASSIGNED
  {
    NoneMissing(r, k, m);
    forall j | 0 <= j < blockCount ensures HasDataBlock(r, k, j) {
      assert RefAt(r, k, if j < NUM_DIRECT_BLOCKS then j else j + 1) != UNASSIGNED;
      if j >= NUM_DIRECT_BLOCKS {
        HasIndirect(d, r, k, m, m);
      }
    }
    if blockCount >= NUM_DIRECT_BLOCKS {
      assert RefAt(r, k, INDIRECT) != UNASSIGNED;
    }
  }

  // Block b has been assigned to a slot of inode k that was empty, and nothing else has changed.
  ghost predicate FilledDirect(d: Disk, r: Disk, k: nat, b: int)
    requires Formed(d) && k < |d.inodes|
  {
    && IsBlock(d, b) && !d.used[b] && r.used == d.used[b := true] && r.data == d.data
    && exists i :: 0 <= i < NUM_DIRECT_BLOCKS && d.inodes[k].direct[i] == UNASSIGNED
         && (forall j :: 0 <= j < i ==> d.inodes[k].direct[j] != UNASSIGNED)
         && r.inodes == d.inodes[k := Inode(d.inodes[k].nlink, d.inodes[k].direct[i := b], d.inodes[k].indirect)]
  }

  ghost predicate FilledIndirect(d: Disk, r: Disk, k: nat, b: int)
    requires Formed(d) && k < |d.inodes| && IsBlock(d, d.inodes[k].indirect)
  {
    var at := d.inodes[k].indirect;
    && IsBlock(d, b) && !d.used[b] && r.used == d.used[b := true] && r.inodes == d.inodes
    && exists i :: 0 <= i < NUM_INDIRECT_BLOCKS && d.data[at][i] == UNASSIGNED
         && (forall j :: 0 <= j < i ==> d.data[at][j] != UNASSIGNED)
         && r.data == d.data[at := d.data[at][i := b]]
  }

  // Block b has become the indirect block, with empty slots, and the link count is 1.
  ghost predicate FilledPointer(d: Disk, r: Disk, k: nat, b: int)
    requires Formed(d) && k < |d.inodes|
  {
    && IsBlock(d, b) && !d.used[b] && r.used == d.used[b := true] && d.inodes[k].indirect == UNASSIGNED
    && r.inodes == d.inodes[k := Inode(1, d.inodes[k].direct, b)]
    && |r.data| == |d.data| && |r.data[b]| == WORDS && r.data == d.data[b := r.data[b]]
    && forall i :: 0 <= i < WORDS ==> r.data[b][i] == if i < NUM_INDIRECT_BLOCKS then UNASSIGNED else d.data[b][i]
  }

  // used is the data map of d without the blocks of the slots in the range.
  ghost predicate FreedSlots(d: Disk, used: seq<bool>, k: nat, start: nat, end: nat) {
    && Formed(d) && k < |d.inodes| && start <= end <= SLOTS && |used| == |d.used|
    && forall b :: 0 <= b < |used| ==>
      used[b] == (d.used[b] && forall s :: start <= s < end ==> RefAt(d, k, s) != b)
  }

  lemma FreedStep(d: Disk, before: seq<bool>, after: seq<bool>, k: nat, start: nat, s: nat)
    requires FreedSlots(d, before, k, start, s) && s < SLOTS
    requires after == if IsBlock(d, RefAt(d, k, s)) then before[RefAt(d, k, s) := false] else before
    ensures FreedSlots(d, after, k, start, s + 1)
  {
  }

  lemma FreedAll(d: Disk, k: nat, direct: seq<bool>, slots: seq<bool>, after: seq<bool>)
    requires Formed(d) && k < |d.inodes| && (d.inodes[k].indirect == UNASSIGNED || IsBlock(d, d.inodes[k].indirect))
    requires FreedSlots(d, direct, k, 0, INDIRECT)
    requires if d.inodes[k].indirect == UNASSIGNED then slots == direct
      else FreedSlots(d.(used := direct), slots, k, INDIRECT + 1, SLOTS)
    requires after == if IsBlock(d, d.inodes[k].indirect) then slots[d.inodes[k].indirect := false] else slots
    ensures after == FreedMap(d, k)
  {
    var e := d.(used := direct);
    assert forall s :: 0 <= s < SLOTS ==> RefAt(e, k, s) == RefAt(d, k, s);
    forall b | 0 <= b < |d.used| ensures after[b] == FreedMap(d, k)[b] {
      assert RefAt(d, k, INDIRECT) == d.inodes[k].indirect;
      if after[b] {
        assert forall s :: 0 <= s < SLOTS ==> RefAt(d, k, s) != b;
      } else if d.used[b] && direct[b] && !slots[b] {
        var s :| INDIRECT < s < SLOTS && RefAt(e, k, s) == b;
        assert RefAt(d, k, s) == b;
      }
    }
  }

  // The attempt has failed at slot i: nothing has changed since, and no block is free.
  ghost predicate OutOfBlocks(d: Disk, r: Disk, k: nat, i: nat, m: nat) {
    Progress(d, r, k, i, m) && i < m && AllUsed(r) && RefAt(r, k, i) == UNASSIGNED
  }

  ghost predicate HasFailed(d: Disk, r: Disk, k: nat, m: nat) {
    && Formed(d) && k < |d.inodes| && m <= SLOTS && Missing(d, k, m) > FreeCount(d.used)
    && exists i :: OutOfBlocks(d, r, k, i, m)
  }

  lemma Fails(d: Disk, r: Disk, k: nat, i: nat, m: nat)
    requires OutOfBlocks(d, r, k, i, m) && Formed(d) && k < |d.inodes|
    ensures HasFailed(d, r, k, m)
  {
    FreeCountZero(r.used);
    NoneMissing(r, k, m);
  }

  lemma HasIndirect(d: Disk, r: Disk, k: nat, i: nat, m: nat)
    requires Progress(d, r, k, i, m) && i > INDIRECT
    ensures IsBlock(r, r.inodes[k].indirect)
  {
    assert RefAt(r, k, INDIRECT) != UNASSIGNED;
    OwnIndirect(r, k, k);
  }
}
