/** The life of one file in a fresh filesystem, end to end: the operations are enabled, the write
    succeeds if the file fits one extent, the bytes written are the bytes there, and unlinking
    returns every block. */
module FirstFile {
  import opened Types
  import opened FreeScan
  import opened Greedy
  import opened Names
  import opened Translation
  import opened Spec
  import opened Allocation
  import opened Ownership
  import opened Contents
  import opened Conservation
  import opened Namespace

  // ---------------------------------------------------------------- room for the first file

  lemma {:induction false} ScanRuns(used: set<nat>, i: nat, hi: nat, length: nat, m: nat)
    requires length <= i && i + m <= hi && length + m <= MAX_EXTENT_LENGTH
    requires forall b: nat | i <= b < i + m :: b !in used
    ensures Scan(used, i, hi, length) == Scan(used, i + m, hi, length + m)
    decreases m
  {
    if m > 0 {
      ScanRuns(used, i + 1, hi, length + 1, m - 1);
    }
  }

  /** With only its first block taken, the data region begins with one long extent. */
  lemma LongExtent(lo: nat, hi: nat, m: nat)
    requires lo + 1 < hi && m == Min(MAX_EXTENT_LENGTH, hi - lo - 1)
    ensures Extent(lo + 1, m) in Scan({lo}, lo, hi, 0)
  {
    assert Scan({lo}, lo, hi, 0) == [] + Scan({lo}, lo + 1, hi, 0) == Scan({lo}, lo + 1, hi, 0);
    ScanRuns({lo}, lo + 1, hi, 0, m);
    assert Extent(lo + 1, m) in Emit(lo + 1 + m, m);
  }

  /** So a file that fits it is given one extent. */
  lemma OneExtent(g: Geometry, s: Slot, target: nat)
    requires ValidGeometry(g) && s.extents == [] && s.extentsBlock == 0 && !s.hasIndirect
    requires 0 < target <= Min(MAX_EXTENT_LENGTH, g.totalBlocks - g.dataStart - 1)
    ensures Obtainable(g, {g.dataStart}, s) >= target
    ensures AllocateBlocks(g, {g.dataStart}, s, target).slot.extentsBlock == 0
  {
    var used, free := {g.dataStart}, FreeList(g, {g.dataStart});
    var m := Min(MAX_EXTENT_LENGTH, g.totalBlocks - g.dataStart - 1);
    LongExtent(g.dataStart, g.totalBlocks, m);
    LongestFirst(g, used, Extent(g.dataStart + 1, m));
    assert free[..1] == [] + [free[0]] && TotalLength(free[..1]) == TotalLength(free[..1][..0]) + free[0].length;
    PrefixGrows(free, 1, Min(|free|, SlotsLeft(g, s)));
    assert TakeCount(free, target, SlotsLeft(g, s)) == 1;
    IndexPicked(g, used, s, target);
  }

  lemma LongestFirst(g: Geometry, used: set<nat>, e: Extent)
    requires ValidGeometry(g) && e in Scan(used, g.dataStart, g.totalBlocks, 0)
    ensures var free := FreeList(g, used);
      free != [] && free[0].length >= e.length
  {
    FreeListFacts(g, used);
    FreeListHas(g, used, e);
    var free := FreeList(g, used);
    var i :| 0 <= i < |free| && free[i] == e;
    assert i == 0 || !(free[i].length > free[0].length);
  }

  // ---------------------------------------------------------------- create, write, unlink

  lemma ThirdNumber(st: State)
    requires |st.table| >= 3 && st.table[0].ino == ROOT_INO && st.table[1].ino == 2
    requires st.table[0].mode != 0 && st.table[1].mode != 0
    requires forall k | 2 <= k < |st.table| :: st.table[k] == EMPTY_SLOT
    ensures NewIno(st, 3) && FreeSlotFrom(st.table, 0) == Some(2)
  {
    FirstFreeSlot(st.table, 2, 0);
    forall s | s in st.table ensures s.ino != 3 {
      var k :| 0 <= k < |st.table| && st.table[k] == s;
      assert k < 2 || s == EMPTY_SLOT;
    }
  }

  /** The state after the creation. */
  ghost predicate OneEmptyFile(g: Geometry, st: State, name: Name) {
    && Inv(g, st) && IndexInv(st) && Lost(st) == {} && FileSlot(g, st, 1)
    && st.table[1] == EMPTY_SLOT.(mode := st.table[1].mode, ino := st.table[1].ino) && st.table[1].ino != 0
    && st.used == {g.dataStart} && IsDir(st.table[0].mode) && Owned(st.table[0]) == {g.dataStart}
    && LegalName(name) && DirEntry(name, st.table[1].ino) in NamesOf(st.table[0])
    && forall k | 2 <= k < |st.table| :: st.table[k] == EMPTY_SLOT
  }

  /** Creating a file in the root directory takes slot 1 and leaves it empty; the directory takes
      the first data block. */
  lemma Created(g: Geometry, st: State, name: Name, ino: nat, mode: nat)
    requires Fresh(g, st) && g.maxFiles >= 2 && g.blockSize >= 68
    requires LegalName(name) && 1 < ino < U32 && IsReg(mode) && mode < 0x1_0000
    ensures Enabled(g, st, Create(0, name, ino, mode))
    ensures OneEmptyFile(g, Next(g, st, Create(0, name, ino, mode)), name)
  {
    FreshAccounts(g, st);
    var op := Create(0, name, ino, mode);
    assert FreeSlotFrom(st.table, 0) == Some(1);
    NextKeepsInv(g, st, op);
    NextAccounts(g, st, op);
    assert FreshEntries(g)[0] == FREE_ENTRY;
    assert AddEntry(FreshEntries(g), DirEntry(name, ino))[0] == DirEntry(name, ino);
  }

  /** What is written to an empty file is what it holds, exactly if there is room; its name and the
      other slots stay. */
  lemma Written(g: Geometry, st: State, data: seq<byte>)
    requires Addressable(g) && Inv(g, st) && IndexInv(st) && Lost(st) == {}
    requires FileSlot(g, st, 1) && st.table[1].size == 0
    ensures var write := Write(1, 0, data, false, |data|);
      && Enabled(g, st, write)
      && var st' := Next(g, st, write);
      && Inv(g, st') && IndexInv(st') && Lost(st') == {} && st'.table == st.table[1 := st'.table[1]]
      && st'.table[1].mode == st.table[1].mode && st'.table[1].ino == st.table[1].ino
      && (WriteCode(g, st, 1, 0, data, false, |data|) == |data| <==> HasRoom(g, st.used, st.table[1], |data|))
      && (HasRoom(g, st.used, st.table[1], |data|) ==> Content(g, st', 1) == data)
  {
    var write := Write(1, 0, data, false, |data|);
    NextKeepsInv(g, st, write);
    NextAccounts(g, st, write);
    OneSlotChanges(g, st, data);
    WriteSucceedsIff(g, st, 1, 0, data, false, |data|);
    if HasRoom(g, st.used, st.table[1], |data|) {
      WriteRefinesSplice(g, st, 1, 0, data, false, |data|);
    }
  }

  lemma OneSlotChanges(g: Geometry, st: State, data: seq<byte>)
    requires Inv(g, st) && FileSlot(g, st, 1)
    ensures var st' := WriteNext(g, st, 1, 0, data, false, |data|);
      && |st'.table| == |st.table| && st'.table == st.table[1 := st'.table[1]]
      && SameNode(st.table[1], st'.table[1])
  {
    assert SlotOk(g, st.table[1]);
    WriteSameNode(g, st, 1, 0, data, false, |data|);
  }

  /** A file of one extent finds room and gets no index block. */
  lemma SmallFits(g: Geometry, st: State, data: seq<byte>)
    requires ValidGeometry(g) && FileSlot(g, st, 1) && st.used == {g.dataStart}
    requires st.table[1] == EMPTY_SLOT.(mode := st.table[1].mode, ino := st.table[1].ino)
    requires Target(g, |data|) <= Min(MAX_EXTENT_LENGTH, g.totalBlocks - g.dataStart - 1)
    ensures HasRoom(g, st.used, st.table[1], |data|)
    ensures WriteNext(g, st, 1, 0, data, false, |data|).table[1].extentsBlock == 0
  {
    var s := st.table[1];
    assert AllocatedBytes(g, s) == 0;
    if data != [] {
      TargetCovers(g, |data|);
      OneExtent(g, s, Target(g, |data|));
      assert Allocate(g, st.used, s, |data|) == AllocateBlocks(g, st.used, s, Target(g, |data|));
    }
  }

  /** Unlinking it leaves no allocated block but the directory's, unless it had an index block. */
  lemma Unlinked(g: Geometry, st: State, name: Name)
    requires Inv(g, st) && IndexInv(st) && Enabled(g, st, Unlink(0, name, 1)) && Lost(st) == {}
    requires st.table[1].extentsBlock == 0
    requires forall k | 2 <= k < |st.table| :: st.table[k] == EMPTY_SLOT
    ensures var st' := Next(g, st, Unlink(0, name, 1));
      Inv(g, st') && st'.used == Owned(st.table[0])
  {
    var op := Unlink(0, name, 1);
    NextKeepsInv(g, st, op);
    NextAccounts(g, st, op);
    UnlinkedTable(g, st, name);
    var st' := Next(g, st, op);
    assert SlotOk(g, st'.table[0]) && Owned(st'.table[0]) <= st'.used;
    forall b: nat | b in st'.used ensures b in Owned(st'.table[0]) {
      assert b !in Lost(st');
      AccountedByRoot(st'.table, b);
    }
  }

  lemma UnlinkedTable(g: Geometry, st: State, name: Name)
    requires Inv(g, st) && Enabled(g, st, Unlink(0, name, 1))
    requires forall k | 2 <= k < |st.table| :: st.table[k] == EMPTY_SLOT
    ensures var st' := Next(g, st, Unlink(0, name, 1));
      && |st'.table| > 0 && Owned(st'.table[0]) == Owned(st.table[0]) && st'.table[0].extentsBlock == 0
      && forall k | 1 <= k < |st'.table| :: Claimed(st'.table[k]) == {}
  {
    assert SlotOk(g, st.table[0]);
    assert st.table[0].names.Some?;
  }

  lemma WriteThenUnlink(g: Geometry, st: State, name: Name, data: seq<byte>)
    requires Addressable(g) && OneEmptyFile(g, st, name)
    ensures var write, unlink := Write(1, 0, data, false, |data|), Unlink(0, name, 1);
      && Enabled(g, st, write)
      && var full := Next(g, st, write);
      && Inv(g, full) && Enabled(g, full, unlink)
      && (HasRoom(g, st.used, st.table[1], |data|) ==> Content(g, full, 1) == data)
      && (Target(g, |data|) <= Min(MAX_EXTENT_LENGTH, g.totalBlocks - g.dataStart - 1) ==>
            WriteCode(g, st, 1, 0, data, false, |data|) == |data|
            && Content(g, full, 1) == data && Next(g, full, unlink).used == {g.dataStart})
  {
    Written(g, st, data);
    if Target(g, |data|) <= Min(MAX_EXTENT_LENGTH, g.totalBlocks - g.dataStart - 1) {
      SmallFits(g, st, data);
      Unlinked(g, Next(g, st, Write(1, 0, data, false, |data|)), name);
    }
  }

  /** Create, write, unlink: a run every fresh filesystem has. Data that fits one extent is
      written, read back as content, and leaves nothing behind but the directory's block. */
  lemma FileLife(g: Geometry, st: State, name: Name, ino: nat, mode: nat, data: seq<byte>)
    requires Addressable(g) && Fresh(g, st) && g.maxFiles >= 2 && g.blockSize >= 68
    requires LegalName(name) && 1 < ino < U32 && IsReg(mode) && mode < 0x1_0000
    ensures var create, write, unlink := Create(0, name, ino, mode), Write(1, 0, data, false, |data|), Unlink(0, name, 1);
      && Runnable(g, st, [create, write, unlink])
      && var empty := Next(g, st, create);
      && FileSlot(g, empty, 1)
      && var full, end := Next(g, empty, write), Run(g, st, [create, write, unlink]);
      && Inv(g, full) && Inv(g, end)
      && (HasRoom(g, empty.used, empty.table[1], |data|) ==> Content(g, full, 1) == data)
      && (Target(g, |data|) <= Min(MAX_EXTENT_LENGTH, g.totalBlocks - g.dataStart - 1) ==>
            WriteCode(g, empty, 1, 0, data, false, |data|) == |data|
            && Content(g, full, 1) == data && end.used == {g.dataStart})
  {
    var create, write, unlink := Create(0, name, ino, mode), Write(1, 0, data, false, |data|), Unlink(0, name, 1);
    Created(g, st, name, ino, mode);
    var empty := Next(g, st, create);
    WriteThenUnlink(g, empty, name, data);
    NextKeepsInv(g, Next(g, empty, write), unlink);
    ThreeSteps(g, st, create, write, unlink);
  }
}
