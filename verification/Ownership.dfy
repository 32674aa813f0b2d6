/** Block ownership over whole runs: data extents and directory blocks of all slots are legal,
    allocated and pairwise disjoint after every operation, whatever it returned. */
module Ownership {
  import opened Types
  import opened Names
  import opened Translation
  import opened Spec
  import opened Allocation

  // ---------------------------------------------------------------- the invariant

  ghost predicate FileOk(g: Geometry, s: Slot)
    requires g.blockSize > 0
  {
    && Legal(g, s.extents) && PairwiseApart(s.extents)
    && |s.extents| <= MaxExtents(g)
    && (|s.extents| > DIRECT_EXTENTS ==> s.hasIndirect)
    && s.size == s.inodeSize <= AllocatedBytes(g, s)
    && s.dirBlock == 0 && s.names.None?
  }

  ghost predicate DirOk(g: Geometry, s: Slot) {
    && s.extents == [] && s.extentsBlock == 0 && s.size == s.inodeSize == 0
    && (s.dirBlock != 0 ==> g.dataStart <= s.dirBlock < g.totalBlocks && s.names.Some?)
    && (s.names.Some? ==> |s.names.value| == MaxDirEntries(g))
  }

  ghost predicate SlotOk(g: Geometry, s: Slot)
    requires g.blockSize > 0
  {
    if s.mode == 0 then s == EMPTY_SLOT
    else if IsReg(s.mode) then FileOk(g, s)
    else IsDir(s.mode) && DirOk(g, s)
  }

  /** The blocks that belong to a slot. */
  function Owned(s: Slot): set<nat> {
    BlocksOf(s.extents) + if s.dirBlock != 0 then {s.dirBlock} else {}
  }

  ghost predicate Inv(g: Geometry, st: State) {
    && ValidGeometry(g) && |st.table| == g.maxFiles && Holds(g, st.store)
    && (forall b | b in st.used :: g.dataStart <= b < g.totalBlocks)
    && (forall i | 0 <= i < |st.table| :: SlotOk(g, st.table[i]) && Owned(st.table[i]) <= st.used)
    && (forall i, j | 0 <= i < j < |st.table| :: Owned(st.table[i]) !! Owned(st.table[j]))
  }

  // ---------------------------------------------------------------- changing one slot

  /** One slot changes: it may own `more` blocks, none of them allocated before, and no longer
      own the blocks in `less`, which are released. */
  lemma ChangeSlot(g: Geometry, st: State, i: nat, s': Slot, used': set<nat>, more: set<nat>, less: set<nat>)
    requires Inv(g, st) && i < |st.table| && SlotOk(g, s')
    requires more !! st.used && less <= Owned(st.table[i])
    requires Owned(s') == Owned(st.table[i]) - less + more
    requires st.used - less + more <= used'
    requires forall b | b in used' :: g.dataStart <= b < g.totalBlocks
    ensures Inv(g, State(used', st.table[i := s'], st.store))
  {
    forall j | 0 <= j < |st.table| && j != i
      ensures Owned(st.table[j]) <= used' && Owned(st.table[j]) !! Owned(s')
    {
      assert Owned(st.table[j]) <= st.used && Owned(st.table[i]) <= st.used;
      assert if i < j then Owned(st.table[i]) !! Owned(st.table[j]) else Owned(st.table[j]) !! Owned(st.table[i]);
    }
    assert Owned(st.table[i]) <= st.used;
  }

  lemma NewStore(g: Geometry, st: State, store: seq<byte>)
    requires Inv(g, st) && Holds(g, store)
    ensures Inv(g, State(st.used, st.table, store))
  {
  }

  // ---------------------------------------------------------------- growing a file

  lemma PairwiseApartConcat(s: seq<Extent>, t: seq<Extent>)
    requires PairwiseApart(s) && PairwiseApart(t)
    requires forall a, b | a in s && b in t :: Apart(a, b)
    ensures PairwiseApart(s + t)
  {
    var u := s + t;
    forall i, j | 0 <= i < j < |u| ensures Apart(u[i], u[j]) {
      if i < |s| <= j {
        assert u[i] in s && u[j] in t;
      } else if |s| <= i {
        assert u[i] == t[i - |s|] && u[j] == t[j - |s|];
      }
    }
  }

  lemma DisjointConcat(g: Geometry, s: seq<Extent>, t: seq<Extent>)
    requires Legal(g, s) && Legal(g, t) && PairwiseApart(s) && PairwiseApart(t)
    requires BlocksOf(s) !! BlocksOf(t)
    ensures PairwiseApart(s + t) && Legal(g, s + t)
  {
    forall a, b | a in s && b in t ensures Apart(a, b) {
      assert LegalExtent(g, a) && LegalExtent(g, b);
      DisjointIsApart(g, s, t, a, b);
    }
    PairwiseApartConcat(s, t);
  }

  lemma GrewIsOk(g: Geometry, s: Slot, s': Slot, taken: seq<Extent>)
    requires ValidGeometry(g) && FileOk(g, s) && Grew(s, s', taken)
    requires Legal(g, taken) && PairwiseApart(taken) && BlocksOf(s.extents) !! BlocksOf(taken)
    requires |s'.extents| <= MaxExtents(g) && (|s'.extents| > DIRECT_EXTENTS ==> s'.hasIndirect)
    ensures FileOk(g, s') && AllocatedBytes(g, s') >= AllocatedBytes(g, s)
  {
    DisjointConcat(g, s.extents, taken);
    GrewBound(g, s, s', taken, 0, 0);
  }

  /** A file slot that grew by extents free until now keeps the invariant. */
  lemma GrewKeepsInv(g: Geometry, st: State, i: nat, taken: seq<Extent>, r: Grant)
    requires Inv(g, st) && i < |st.table| && IsReg(st.table[i].mode)
    requires Legal(g, taken) && PairwiseApart(taken) && BlocksOf(taken) !! st.used
    requires Granted(g, st.used, st.table[i], taken, r)
    requires |r.slot.extents| <= MaxExtents(g) && (|r.slot.extents| > DIRECT_EXTENTS ==> r.slot.hasIndirect)
    ensures FileOk(g, r.slot) && Inv(g, State(r.used, st.table[i := r.slot], st.store))
  {
    var s := st.table[i];
    assert SlotOk(g, s) && Owned(s) == BlocksOf(s.extents) && Owned(s) <= st.used;
    GrewIsOk(g, s, r.slot, taken);
    BlocksOfConcat(s.extents, taken);
    assert forall e | e in taken :: LegalExtent(g, e);
    ChangeSlot(g, st, i, r.slot, r.used, BlocksOf(taken), {});
  }

  lemma AllocateKeepsInv(g: Geometry, st: State, i: nat, bytes: nat)
    requires Inv(g, st) && i < |st.table| && IsReg(st.table[i].mode) && bytes > 0
    ensures var r := Allocate(g, st.used, st.table[i], bytes);
      && FileOk(g, r.slot) && r.slot.mode == st.table[i].mode && r.slot.size == st.table[i].size
      && Inv(g, State(r.used, st.table[i := r.slot], st.store))
  {
    assert SlotOk(g, st.table[i]);
    TargetCovers(g, bytes);
    var target := Target(g, bytes);
    AllocateConserves(g, st.used, st.table[i], target);
    GrewKeepsInv(g, st, i, Taken(g, st.used, st.table[i], target),
                 AllocateBlocks(g, st.used, st.table[i], target));
  }

  lemma MakeRoomKeepsInv(g: Geometry, st: State, i: nat, count: nat)
    requires Inv(g, st) && i < |st.table| && IsReg(st.table[i].mode)
    ensures var r := MakeRoom(g, st.used, st.table[i], count);
      && FileOk(g, r.slot) && r.slot.mode == st.table[i].mode && r.slot.size == st.table[i].size
      && Inv(g, State(r.used, st.table[i := r.slot], st.store))
      && (r.ok ==> AllocatedBytes(g, r.slot) >= st.table[i].size + count)
  {
    var s := st.table[i];
    var available := AllocatedBytes(g, s) - s.size;
    if available < count {
      AllocateKeepsInv(g, st, i, count - available);
      AllocateBound(g, st.used, s, count - available);
    } else {
      assert st.table[i := s] == st.table;
    }
  }

  lemma Resize(g: Geometry, st: State, i: nat, n: nat)
    requires Inv(g, st) && i < |st.table| && IsReg(st.table[i].mode)
    requires n <= AllocatedBytes(g, st.table[i])
    ensures Inv(g, State(st.used, st.table[i := SizedTo(st.table[i], n)], st.store))
  {
    ChangeSlot(g, st, i, SizedTo(st.table[i], n), st.used, {}, {});
  }

  // ---------------------------------------------------------------- the operations

  /** A file slot, its storage and its size change together. */
  lemma StoreAndResize(g: Geometry, st: State, i: nat, store: seq<byte>, n: nat)
    requires Inv(g, st) && i < |st.table| && IsReg(st.table[i].mode)
    requires |store| == |st.store| && n <= AllocatedBytes(g, st.table[i])
    ensures Inv(g, State(st.used, st.table, store))
    ensures Inv(g, State(st.used, st.table[i := SizedTo(st.table[i], n)], store))
  {
    NewStore(g, st, store);
    Resize(g, State(st.used, st.table, store), i, n);
  }

  lemma WroteKeepsInv(g: Geometry, st: State, slot: nat, r: Grant, pos: nat, data: seq<byte>, landed: nat)
    requires slot < |st.table| && Inv(g, State(r.used, st.table[slot := r.slot], st.store))
    requires IsReg(r.slot.mode) && (data == [] ==> pos <= AllocatedBytes(g, r.slot))
    ensures Inv(g, Wrote(g, st, slot, r, pos, data, landed))
  {
    var mid := State(r.used, st.table[slot := r.slot], st.store);
    var n := Landed(g, r.slot, pos, |data|, landed);
    var store := WriteBytes(g, r.slot.extents, st.store, pos, data[..n]);
    WriteBytesLength(g, r.slot.extents, st.store, pos, data[..n]);
    LandedFits(g, r.slot, pos, |data|, landed);
    if n == |data| && pos + n > r.slot.size {
      StoreAndResize(g, mid, slot, store, pos + n);
      assert mid.table[slot := SizedTo(r.slot, pos + n)] == st.table[slot := SizedTo(r.slot, pos + n)];
    } else {
      NewStore(g, mid, store);
    }
  }

  lemma LandedFits(g: Geometry, s: Slot, pos: nat, count: nat, landed: nat)
    requires count == 0 ==> pos <= AllocatedBytes(g, s)
    ensures var n := Landed(g, s, pos, count, landed);
      n <= count && (n == count ==> pos + n <= AllocatedBytes(g, s))
  {
  }

  lemma WriteKeepsInv(g: Geometry, st: State, slot: nat, at: nat, data: seq<byte>, append: bool, landed: nat)
    requires Inv(g, st) && FileSlot(g, st, slot)
    requires !PushesSize(g, st.table[slot], at, data, append)
    ensures Inv(g, WriteNext(g, st, slot, at, data, append, landed))
  {
    var s := st.table[slot];
    MakeRoomKeepsInv(g, st, slot, |data|);
    var r := MakeRoom(g, st.used, s, |data|);
    if r.ok {
      WroteKeepsInv(g, st, slot, r, WritePos(s, at, append), data, landed);
    }
  }

  /** The size stays within the allocation exactly unless a write of no bytes is made past it. */
  lemma WriteKeepsInvIff(g: Geometry, st: State, slot: nat, at: nat, data: seq<byte>, append: bool, landed: nat)
    requires Inv(g, st) && FileSlot(g, st, slot)
    ensures Inv(g, WriteNext(g, st, slot, at, data, append, landed))
            <==> !PushesSize(g, st.table[slot], at, data, append)
  {
    if PushesSize(g, st.table[slot], at, data, append) {
      var st' := WriteNext(g, st, slot, at, data, append, landed);
      assert st'.table[slot] == SizedTo(st.table[slot], at);
      assert !SlotOk(g, st'.table[slot]);
    } else {
      WriteKeepsInv(g, st, slot, at, data, append, landed);
    }
  }

  lemma SetSizeKeepsInv(g: Geometry, st: State, slot: nat, newSize: nat)
    requires Inv(g, st) && Enabled(g, st, SetSize(slot, newSize))
    ensures Inv(g, SetSizeNext(g, st, slot, newSize))
  {
    var s := st.table[slot];
    if newSize < s.inodeSize {
      assert Owned(s) == BlocksOf(s.extents);
      assert TotalLength([]) == 0;
      ChangeSlot(g, st, slot, SizedTo(s.(extents := []), 0), st.used - BlocksOf(s.extents), {}, BlocksOf(s.extents));
    } else if newSize > s.inodeSize {
      var needed := newSize - s.size;
      if AllocatedBytes(g, s) - s.size >= needed {
        Resize(g, st, slot, newSize);
      } else {
        AllocateKeepsInv(g, st, slot, needed);
        AllocateBound(g, st.used, s, needed);
        var r := Allocate(g, st.used, s, needed);
        var mid := State(r.used, st.table[slot := r.slot], st.store);
        if r.ok {
          Resize(g, mid, slot, newSize);
          assert mid.table[slot := SizedTo(r.slot, newSize)] == st.table[slot := SizedTo(r.slot, newSize)];
        }
      }
    }
  }

  lemma ReserveKeepsInv(g: Geometry, st: State, slot: nat, need: bool)
    requires Inv(g, st) && slot < |st.table| && IsReg(st.table[slot].mode)
    ensures var (used, s) := ReserveIf(need, g, st.used, st.table[slot]);
      Inv(g, State(used, st.table[slot := s], st.store))
  {
    var (used, s) := ReserveIf(need, g, st.used, st.table[slot]);
    ReserveFacts(g, st.used, st.table[slot], need);
    assert s.extents == st.table[slot].extents;
    ChangeSlot(g, st, slot, s, used, {}, {});
  }

  /** Loading a directory may give it a block; changing its names does not touch blocks. */
  lemma LoadKeepsInv(g: Geometry, st: State, dir: nat, names: seq<DirEntry>)
    requires Inv(g, st) && DirSlot(st, dir) && |names| == MaxDirEntries(g)
    ensures var (used, s) := LoadNames(g, st.used, st.table[dir]);
      Inv(g, State(used, st.table[dir := s.(names := Some(names))], st.store))
  {
    var s := st.table[dir];
    var (used, s') := LoadNames(g, st.used, s);
    var gained := if s'.dirBlock != s.dirBlock then {s'.dirBlock} else {};
    ChangeSlot(g, st, dir, s'.(names := Some(names)), used, gained, {});
  }

  lemma AddKeepsInv(g: Geometry, st: State, dir: nat, e: DirEntry)
    requires Inv(g, st) && DirSlot(st, dir)
    ensures var (used, s) := AddName(g, st.used, st.table[dir], e);
      Inv(g, State(used, st.table[dir := s], st.store))
  {
    var (used, s) := LoadNames(g, st.used, st.table[dir]);
    assert |NamesOf(s)| == MaxDirEntries(g);
    LoadKeepsInv(g, st, dir, AddEntry(NamesOf(s), e));
  }

  lemma RemoveKeepsInv(g: Geometry, st: State, dir: nat, name: Name)
    requires Inv(g, st) && DirSlot(st, dir)
    ensures Inv(g, DropName(g, st, dir, name))
  {
    var (used, s) := LoadNames(g, st.used, st.table[dir]);
    assert |NamesOf(s)| == MaxDirEntries(g);
    LoadKeepsInv(g, st, dir, RemoveEntry(NamesOf(s), name));
  }

  lemma ClaimKeepsInv(g: Geometry, st: State, i: nat, claimed: Slot, parent: nat, name: Name)
    requires Inv(g, st) && i < |st.table| && st.table[i].mode == 0 && DirSlot(st, parent)
    requires SlotOk(g, claimed) && Owned(claimed) == {}
    ensures Inv(g, Claim(g, st, i, claimed, parent, name))
  {
    var mid := State(st.used, st.table[i := claimed], st.store);
    ChangeSlot(g, st, i, claimed, st.used, {}, {});
    AddKeepsInv(g, mid, parent, DirEntry(name, claimed.ino));
  }

  lemma UnlinkKeepsInv(g: Geometry, st: State, op: Op)
    requires Inv(g, st) && Enabled(g, st, op) && op.Unlink?
    ensures Inv(g, Next(g, st, op))
  {
    var s := st.table[op.slot];
    assert Owned(s) == BlocksOf(s.extents);
    ChangeSlot(g, st, op.slot, EMPTY_SLOT, st.used - BlocksOf(s.extents), {}, BlocksOf(s.extents));
    RemoveKeepsInv(g, State(st.used - BlocksOf(s.extents), st.table[op.slot := EMPTY_SLOT], st.store),
                   op.parent, op.name);
  }

  lemma RmdirKeepsInv(g: Geometry, st: State, op: Op)
    requires Inv(g, st) && Enabled(g, st, op) && op.Rmdir?
    ensures Inv(g, Next(g, st, op))
  {
    var s := st.table[op.slot];
    if LooksEmpty(s) {
      var used := if s.dirBlock != 0 then st.used - {s.dirBlock} else st.used;
      ChangeSlot(g, st, op.slot, EMPTY_SLOT, used, {}, Owned(s));
      RemoveKeepsInv(g, State(used, st.table[op.slot := EMPTY_SLOT], st.store), op.parent, op.name);
    }
  }

  lemma CreateKeepsInv(g: Geometry, st: State, op: Op)
    requires Inv(g, st) && Enabled(g, st, op) && (op.Create? || op.Mkdir?)
    ensures Inv(g, Next(g, st, op))
  {
    if FreeSlotFrom(st.table, 0).Some? {
      var i := FreeSlotFrom(st.table, 0).value;
      if op.Create? {
        ClaimKeepsInv(g, st, i, ClaimedFile(st.table[i], op.ino, op.mode), op.parent, op.name);
      } else {
        ClaimKeepsInv(g, st, i, ClaimedDir(st.table[i], op.ino, op.perm, st.table[op.parent].ino),
                      op.parent, op.name);
      }
    }
  }

  lemma LookupKeepsInv(g: Geometry, st: State, op: Op)
    requires Inv(g, st) && Enabled(g, st, op) && op.Lookup?
    ensures Inv(g, Next(g, st, op))
  {
    LoadKeepsInv(g, st, op.parent, NamesOf(LoadNames(g, st.used, st.table[op.parent]).1));
  }

  lemma ReleaseKeepsInv(g: Geometry, st: State, op: Op)
    requires Inv(g, st) && Enabled(g, st, op) && op.Release?
    ensures Inv(g, Next(g, st, op))
  {
    ChangeSlot(g, st, op.slot, st.table[op.slot].(hasIndirect := false), st.used, {}, {});
  }

  /** Every operation keeps the invariant, whatever it returns. */
  lemma NextKeepsInv(g: Geometry, st: State, op: Op)
    requires Inv(g, st) && Enabled(g, st, op)
    ensures Inv(g, Next(g, st, op))
  {
    match op
    case Create(_, _, _, _) => CreateKeepsInv(g, st, op);
    case Mkdir(_, _, _, _) => CreateKeepsInv(g, st, op);
    case Unlink(_, _, _) => UnlinkKeepsInv(g, st, op);
    case Rmdir(_, _, _) => RmdirKeepsInv(g, st, op);
    case Write(slot, pos, data, append, landed) => WriteKeepsInv(g, st, slot, pos, data, append, landed);
    case Read(slot, _, _) => ReserveKeepsInv(g, st, slot, |st.table[slot].extents| >= DIRECT_EXTENTS);
    case SetSize(slot, newSize) => SetSizeKeepsInv(g, st, slot, newSize);
    case Release(_) => ReleaseKeepsInv(g, st, op);
    case Lookup(_, _) => LookupKeepsInv(g, st, op);
  }

  // ---------------------------------------------------------------- whole runs

  lemma FreshIsInv(g: Geometry, st: State)
    requires Fresh(g, st)
    ensures Inv(g, st)
  {
    assert forall i | 0 <= i < |st.table| :: Owned(st.table[i]) == {};
  }

  /** Ownership safety: it holds after every run from a fresh filesystem. */
  lemma {:induction false} RunKeepsInv(g: Geometry, st: State, ops: seq<Op>)
    requires Inv(g, st) && Runnable(g, st, ops)
    ensures Inv(g, Run(g, st, ops))
    decreases |ops|
  {
    if ops != [] {
      NextKeepsInv(g, st, ops[0]);
      RunKeepsInv(g, Next(g, st, ops[0]), ops[1..]);
    }
  }

  /** What the invariant means for two blocks a reader can name. */
  lemma NoBlockHasTwoOwners(g: Geometry, st: State, ops: seq<Op>, i: nat, j: nat, b: nat)
    requires Fresh(g, st) && Runnable(g, st, ops)
    requires i < |Run(g, st, ops).table| && j < |Run(g, st, ops).table|
    requires b in Owned(Run(g, st, ops).table[i])
    ensures b in Run(g, st, ops).used && g.dataStart <= b < g.totalBlocks
    ensures Run(g, st, ops).table[i].mode != 0
    ensures b in Owned(Run(g, st, ops).table[j]) ==> i == j
    ensures PairwiseApart(Run(g, st, ops).table[i].extents)
  {
    FreshIsInv(g, st);
    RunKeepsInv(g, st, ops);
    var end := Run(g, st, ops);
    assert SlotOk(g, end.table[i]) && Owned(end.table[i]) <= end.used;
    if i < j {
      assert Owned(end.table[i]) !! Owned(end.table[j]);
    } else if j < i {
      assert Owned(end.table[j]) !! Owned(end.table[i]);
    }
  }
}
