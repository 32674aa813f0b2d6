/** What every operation leaves behind: each field of the slots it touches, the blocks it takes and
    gives back, the entries it changes, and that all else stays. */
module Outcomes {
  import opened Types
  import opened Names
  import opened Spec
  import opened Allocation
  import opened Ownership

  /** S_ISREG and S_ISDIR test the top four of the sixteen mode bits. */
  lemma ModeBits(mode: nat)
    ensures IsReg(mode) <==> 0x8000 <= mode < 0x9000
    ensures IsDir(mode) <==> 0x4000 <= mode < 0x5000
  {
  }

  // ---------------------------------------------------------------- blocks and entries

  /** `b` is the first unallocated block of the data region. */
  ghost predicate FirstFree(g: Geometry, used: set<nat>, b: nat) {
    g.dataStart <= b < g.totalBlocks && b !in used && forall c: nat | g.dataStart <= c < b :: c in used
  }

  ghost predicate NoneFree(g: Geometry, used: set<nat>) {
    forall b: nat | g.dataStart <= b < g.totalBlocks :: b in used
  }

  /** `from` becomes `to` as one block is taken for it: the first free one, or none if none is. */
  ghost predicate TakesBlock(g: Geometry, used: set<nat>, used': set<nat>, block: nat) {
    if NoneFree(g, used) then used' == used && block == 0
    else FirstFree(g, used, block) && used' == used + {block}
  }

  /** A directory is brought into memory: one not in memory gets free entries, as many as fit a
      block, and a block. */
  ghost predicate Loads(g: Geometry, used: set<nat>, dir: Slot, used': set<nat>, dir': Slot)
    requires g.blockSize > 0
  {
    if dir.names.Some? then used' == used && dir' == dir
    else
      && dir'.names.Some? && |dir'.names.value| == g.blockSize / 68
      && (forall k | 0 <= k < |dir'.names.value| :: dir'.names.value[k] == DirEntry([], 0))
      && TakesBlock(g, used, used', dir'.dirBlock)
      && dir' == dir.(names := dir'.names, dirBlock := dir'.dirBlock)
  }

  /** `e` is put into the first free of the entries, if there is one. */
  ghost predicate Entered(before: seq<DirEntry>, after: seq<DirEntry>, e: DirEntry) {
    && |after| == |before|
    && forall k | 0 <= k < |before| ::
         after[k] == if before[k].ino == 0 && (forall j | 0 <= j < k :: before[j].ino != 0) then e else before[k]
  }

  /** Every entry with the name is cleared. */
  ghost predicate Cleared(before: seq<DirEntry>, after: seq<DirEntry>, name: Name) {
    && |after| == |before|
    && forall k | 0 <= k < |before| :: after[k] == if before[k].name == name then DirEntry([], 0) else before[k]
  }

  /** Slots other than `i` and `j` stay, and so does the storage. */
  ghost predicate OthersStay(st: State, st': State, i: nat, j: nat) {
    && st'.store == st.store && |st'.table| == |st.table|
    && forall k | 0 <= k < |st.table| && k != i && k != j :: st'.table[k] == st.table[k]
  }

  lemma LoadNamesLoads(g: Geometry, st: State, p: nat)
    requires Inv(g, st) && DirSlot(st, p)
    ensures var (used, dir) := LoadNames(g, st.used, st.table[p]);
      Loads(g, st.used, st.table[p], used, dir) && dir.names.Some?
  {
    assert SlotOk(g, st.table[p]);
  }

  lemma AddEntryEnters(entries: seq<DirEntry>, e: DirEntry)
    ensures Entered(entries, AddEntry(entries, e), e)
  {
    FreeFromFacts(entries, 0);
  }

  // ---------------------------------------------------------------- create and mkdir

  /** What create and mkdir write into the slot they claim. */
  function NewSlot(op: Op, parentIno: nat): Slot
    requires op.Create? || op.Mkdir?
  {
    if op.Create? then Slot(op.ino, op.mode, 0, 0, [], 0, false, 0, 0, None)
    else Slot(op.ino, 0x4000 + op.perm, 0, 0, [], 0, false, 0, parentIno, None)
  }

  lemma ClaimOutcome(g: Geometry, st: State, i: nat, claimed: Slot, parent: nat, name: Name) returns (dir: Slot)
    requires Inv(g, st) && DirSlot(st, parent) && i < |st.table| && i != parent
    ensures var st' := Claim(g, st, i, claimed, parent, name);
      && OthersStay(st, st', i, parent) && st'.table[i] == claimed
      && Loads(g, st.used, st.table[parent], st'.used, dir)
      && st'.table[parent] == dir.(names := Some(NamesOf(st'.table[parent])))
      && Entered(NamesOf(dir), NamesOf(st'.table[parent]), DirEntry(name, claimed.ino))
  {
    LoadNamesLoads(g, st, parent);
    dir := LoadNames(g, st.used, st.table[parent]).1;
    AddEntryEnters(NamesOf(dir), DirEntry(name, claimed.ino));
  }

  /** The first free slot is filled in whole, and the name goes into the parent's first free entry. */
  lemma CreateOutcome(g: Geometry, st: State, op: Op, i: nat) returns (dir: Slot)
    requires Inv(g, st) && Enabled(g, st, op) && (op.Create? || op.Mkdir?)
    requires i < |st.table| && st.table[i].mode == 0 && forall k | 0 <= k < i :: st.table[k].mode != 0
    ensures var st' := Next(g, st, op);
      && OthersStay(st, st', i, op.parent) && i != op.parent
      && st'.table[i] == NewSlot(op, st.table[op.parent].ino)
      && Loads(g, st.used, st.table[op.parent], st'.used, dir)
      && st'.table[op.parent] == dir.(names := Some(NamesOf(st'.table[op.parent])))
      && Entered(NamesOf(dir), NamesOf(st'.table[op.parent]), DirEntry(op.name, op.ino))
  {
    FirstFreeSlot(st.table, i, 0);
    assert SlotOk(g, st.table[i]);
    dir := ClaimOutcome(g, st, i, NewSlot(op, st.table[op.parent].ino), op.parent, op.name);
  }

  /** Without a free slot nothing happens. */
  lemma CreateFails(g: Geometry, st: State, op: Op)
    requires Enabled(g, st, op) && (op.Create? || op.Mkdir?)
    requires forall k | 0 <= k < |st.table| :: st.table[k].mode != 0
    ensures Next(g, st, op) == st
  {
  }

  // ---------------------------------------------------------------- unlink and rmdir

  lemma DropOutcome(g: Geometry, st: State, used: set<nat>, c: nat, parent: nat, name: Name)
    requires c < |st.table| && DirSlot(st, parent) && c != parent && st.table[parent].names.Some?
    ensures var st' := DropName(g, State(used, st.table[c := EMPTY_SLOT], st.store), parent, name);
      && OthersStay(st, st', c, parent) && st'.used == used
      && st'.table[c] == Slot(0, 0, 0, 0, [], 0, false, 0, 0, None)
      && st'.table[parent] == st.table[parent].(names := Some(NamesOf(st'.table[parent])))
      && Cleared(NamesOf(st.table[parent]), NamesOf(st'.table[parent]), name)
  {
  }

  /** The file's slot is zeroed, the blocks of its extents are free again, the name is cleared. */
  lemma UnlinkOutcome(g: Geometry, st: State, parent: nat, name: Name, c: nat)
    requires Inv(g, st) && Enabled(g, st, Unlink(parent, name, c))
    ensures var st' := Next(g, st, Unlink(parent, name, c));
      && OthersStay(st, st', c, parent) && c != parent
      && st'.table[c] == Slot(0, 0, 0, 0, [], 0, false, 0, 0, None)
      && (forall b: nat :: b in st'.used <==>
            b in st.used && !exists e :: e in st.table[c].extents && e.start <= b < e.start + e.length)
      && st'.table[parent] == st.table[parent].(names := Some(NamesOf(st'.table[parent])))
      && Cleared(NamesOf(st.table[parent]), NamesOf(st'.table[parent]), name)
  {
    var freed := BlocksOf(st.table[c].extents);
    DropOutcome(g, st, st.used - freed, c, parent, name);
    forall b: nat ensures b in freed <==> exists e :: e in st.table[c].extents && e.start <= b < e.start + e.length {
      assert forall e :: b in Blocks(e) <==> e.start <= b < e.start + e.length;
    }
  }

  /** A directory without a block, or with no entry in use, is zeroed, its block is free again and
      its name is cleared; with any other nothing happens. */
  lemma RmdirOutcome(g: Geometry, st: State, parent: nat, name: Name, c: nat)
    requires Inv(g, st) && Enabled(g, st, Rmdir(parent, name, c))
    ensures var st', dir := Next(g, st, Rmdir(parent, name, c)), st.table[c];
      if dir.dirBlock != 0 && exists e :: e in NamesOf(dir) && e.ino != 0 then st' == st
      else
        && OthersStay(st, st', c, parent)
        && st'.used == (if dir.dirBlock != 0 then st.used - {dir.dirBlock} else st.used)
        && st'.table[c] == Slot(0, 0, 0, 0, [], 0, false, 0, 0, None)
        && st'.table[parent] == st.table[parent].(names := Some(NamesOf(st'.table[parent])))
        && Cleared(NamesOf(st.table[parent]), NamesOf(st'.table[parent]), name)
  {
    var dir := st.table[c];
    assert forall k | 0 <= k < |NamesOf(dir)| :: NamesOf(dir)[k] in NamesOf(dir);
    DropOutcome(g, st, if dir.dirBlock != 0 then st.used - {dir.dirBlock} else st.used, c, parent, name);
  }

  // ---------------------------------------------------------------- files

  /** The extents a request for `bytes` adds: none if nothing is wanting. */
  function Added(g: Geometry, used: set<nat>, s: Slot, bytes: int): seq<Extent>
    requires ValidGeometry(g)
  {
    if bytes <= 0 then [] else Taken(g, used, s, Target(g, bytes))
  }

  /** The slot grows by the extents, the blocks that become allocated are theirs and that of a
      new index block, and nothing but the size may change besides. */
  ghost predicate Grows(g: Geometry, st: State, st': State, slot: nat, more: seq<Extent>)
    requires slot < |st.table| && slot < |st'.table|
  {
    var s, s' := st.table[slot], st'.table[slot];
    && s'.extents == s.extents + more
    && s' == s.(extents := s'.extents, size := s'.size, inodeSize := s'.inodeSize,
                hasIndirect := s'.hasIndirect, extentsBlock := s'.extentsBlock)
    && st'.used == st.used + BlocksOf(more) + NewIndex(s, s')
  }

  lemma AllocateGrows(g: Geometry, st: State, slot: nat, bytes: nat, s': Slot, store: seq<byte>)
    requires Inv(g, st) && slot < |st.table| && IsReg(st.table[slot].mode) && bytes > 0
    requires var r := Allocate(g, st.used, st.table[slot], bytes);
      s' == r.slot.(size := s'.size, inodeSize := s'.inodeSize)
    ensures Grows(g, st, State(Allocate(g, st.used, st.table[slot], bytes).used, st.table[slot := s'], store), slot,
                  Taken(g, st.used, st.table[slot], Target(g, bytes)))
  {
    assert SlotOk(g, st.table[slot]);
    TargetCovers(g, bytes);
    AllocateConserves(g, st.used, st.table[slot], Target(g, bytes));
  }

  lemma StaysPut(g: Geometry, st: State, slot: nat, s': Slot, store: seq<byte>)
    requires slot < |st.table| && s' == st.table[slot].(size := s'.size, inodeSize := s'.inodeSize)
    ensures Grows(g, st, State(st.used, st.table[slot := s'], store), slot, [])
  {
    assert st.table[slot].extents + [] == st.table[slot].extents;
    assert BlocksOf([]) == {};
  }

  /** A write adds extents exactly if what is allocated beyond the size does not take the bytes, and
      then asks for the bytes that are wanting. */
  lemma WriteOutcome(g: Geometry, st: State, slot: nat, at: nat, data: seq<byte>, append: bool, landed: nat)
    requires Inv(g, st) && FileSlot(g, st, slot)
    ensures var st', s := WriteNext(g, st, slot, at, data, append, landed), st.table[slot];
      && |st'.table| == |st.table| && st'.table == st.table[slot := st'.table[slot]]
      && Grows(g, st, st', slot, Added(g, st.used, s, s.size + |data| - AllocatedBytes(g, s)))
  {
    var st', s := WriteNext(g, st, slot, at, data, append, landed), st.table[slot];
    var spare := AllocatedBytes(g, s) - s.size;
    assert st' == State(st'.used, st.table[slot := st'.table[slot]], st'.store);
    if spare >= |data| {
      StaysPut(g, st, slot, st'.table[slot], st'.store);
    } else {
      AllocateGrows(g, st, slot, |data| - spare, st'.table[slot], st'.store);
    }
  }

  /** setattr: the same size changes nothing, size 0 drops the extents and frees their blocks, and
      a larger size asks for all the bytes added unless the allocation covers it. */
  lemma SetSizeOutcome(g: Geometry, st: State, slot: nat, newSize: nat)
    requires Inv(g, st) && Enabled(g, st, SetSize(slot, newSize))
    ensures var st', s := Next(g, st, SetSize(slot, newSize)), st.table[slot];
      && |st'.table| == |st.table| && st'.store == st.store && st'.table == st.table[slot := st'.table[slot]]
      && (newSize == s.size ==> st' == st)
      && (newSize < s.size ==>
            && st'.table[slot] == s.(extents := [], size := 0, inodeSize := 0)
            && forall b: nat :: b in st'.used <==>
                 b in st.used && !exists e :: e in s.extents && e.start <= b < e.start + e.length)
      && (newSize > s.size ==>
            Grows(g, st, st', slot, Added(g, st.used, s, if AllocatedBytes(g, s) >= newSize then 0 else newSize - s.size)))
  {
    var st', s := Next(g, st, SetSize(slot, newSize)), st.table[slot];
    assert SlotOk(g, s);
    assert st.table[slot := s] == st.table;
    if newSize > s.size {
      if AllocatedBytes(g, s) >= newSize {
        StaysPut(g, st, slot, st'.table[slot], st.store);
      } else {
        AllocateGrows(g, st, slot, newSize - s.size, st'.table[slot], st.store);
      }
    }
    forall b: nat ensures b in BlocksOf(s.extents) <==> exists e :: e in s.extents && e.start <= b < e.start + e.length {
      assert forall e :: b in Blocks(e) <==> e.start <= b < e.start + e.length;
    }
  }

  /** Reading makes the index array of a file with four or more extents present, and reserves its
      block if it has none. */
  lemma ReadOutcome(g: Geometry, st: State, slot: nat, pos: nat, count: nat)
    requires Inv(g, st) && Enabled(g, st, Read(slot, pos, count))
    ensures var st', s := Next(g, st, Read(slot, pos, count)), st.table[slot];
      if pos >= s.size || |s.extents| < 4 || s.hasIndirect then st' == st
      else
        && OthersStay(st, st', slot, slot)
        && st'.table[slot] == s.(hasIndirect := true, extentsBlock := st'.table[slot].extentsBlock)
        && (if s.extentsBlock != 0 then st'.used == st.used && st'.table[slot].extentsBlock == s.extentsBlock
            else TakesBlock(g, st.used, st'.used, st'.table[slot].extentsBlock))
  {
    assert st.table[slot := st.table[slot]] == st.table;
  }

  /** Closing drops the index array and nothing else. */
  lemma ReleaseOutcome(g: Geometry, st: State, slot: nat)
    requires Inv(g, st) && Enabled(g, st, Release(slot))
    ensures var st' := Next(g, st, Release(slot));
      OthersStay(st, st', slot, slot) && st'.used == st.used
      && st'.table[slot] == st.table[slot].(hasIndirect := false)
  {
  }

  /** Looking up brings the directory into memory and does nothing else. */
  lemma LookupOutcome(g: Geometry, st: State, parent: nat, name: Name)
    requires Inv(g, st) && Enabled(g, st, Lookup(parent, name))
    ensures var st' := Next(g, st, Lookup(parent, name));
      OthersStay(st, st', parent, parent) && Loads(g, st.used, st.table[parent], st'.used, st'.table[parent])
  {
    LoadNamesLoads(g, st, parent);
  }
}
