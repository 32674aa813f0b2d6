/** Accounting for allocated blocks over whole runs: every allocated block belongs to a slot, or is
    the index block of a file that was unlinked; and when an index block is file data as well. */
module Conservation {
  import opened Types
  import opened Names
  import opened Spec
  import opened Allocation
  import opened Ownership

  /** Blocks a slot owns, and the block it names as its index block. */
  function Claimed(s: Slot): set<nat> {
    Owned(s) + if s.extentsBlock != 0 then {s.extentsBlock} else {}
  }

  ghost predicate Accounted(table: seq<Slot>, b: nat) {
    exists i :: 0 <= i < |table| && b in Claimed(table[i])
  }

  /** Allocated blocks that no slot accounts for. */
  ghost function Lost(st: State): set<nat> {
    set b | b in st.used && !Accounted(st.table, b)
  }

  /** An index block is allocated and no other slot's; only a file with more than four extents
      can have it among its own data. */
  ghost predicate IndexOk(st: State, i: nat)
    requires i < |st.table|
  {
    var b := st.table[i].extentsBlock;
    b != 0 ==>
      && b in st.used
      && (b in Owned(st.table[i]) ==> |st.table[i].extents| > DIRECT_EXTENTS)
      && forall j | 0 <= j < |st.table| && j != i :: b !in Claimed(st.table[j])
  }

  ghost predicate IndexInv(st: State) {
    forall i | 0 <= i < |st.table| :: IndexOk(st, i)
  }

  // ---------------------------------------------------------------- changing one slot

  /** What a step may do to one slot: it claims no block that was allocated and not its own, only
      its own blocks are released, and only blocks it claims are newly allocated. */
  ghost predicate Fair(st: State, i: nat, s': Slot, used': set<nat>)
    requires i < |st.table|
  {
    && st.used - Owned(st.table[i]) <= used'
    && used' - st.used <= Claimed(s')
    && (forall b | b in Claimed(s') :: b in Claimed(st.table[i]) || b !in st.used)
    && (s'.extentsBlock != 0 ==>
          && s'.extentsBlock in used'
          && (s'.extentsBlock == st.table[i].extentsBlock || s'.extentsBlock !in st.used)
          && (s'.extentsBlock in Owned(s') ==> |s'.extents| > DIRECT_EXTENTS))
  }

  lemma ClaimedApart(g: Geometry, st: State, i: nat, j: nat)
    requires Inv(g, st) && IndexInv(st) && i < |st.table| && j < |st.table| && i != j
    ensures Claimed(st.table[i]) !! Claimed(st.table[j]) && Claimed(st.table[i]) <= st.used
  {
    assert Owned(st.table[i]) <= st.used && Owned(st.table[j]) <= st.used;
    assert if i < j then Owned(st.table[i]) !! Owned(st.table[j]) else Owned(st.table[j]) !! Owned(st.table[i]);
    assert IndexOk(st, i) && IndexOk(st, j);
  }

  lemma FairKeepsIndex(g: Geometry, st: State, i: nat, s': Slot, used': set<nat>, store': seq<byte>)
    requires Inv(g, st) && IndexInv(st) && i < |st.table| && Fair(st, i, s', used')
    ensures IndexInv(State(used', st.table[i := s'], store'))
  {
    var st' := State(used', st.table[i := s'], store');
    forall k | 0 <= k < |st.table| ensures IndexOk(st', k) {
      assert IndexOk(st, k);
      forall j | 0 <= j < |st.table| && j != k
        ensures Claimed(st.table[j]) !! Claimed(st.table[k])
        ensures Claimed(st.table[j]) <= st.used && Claimed(st.table[k]) <= st.used
      {
        ClaimedApart(g, st, j, k);
      }
    }
  }

  ghost predicate Elsewhere(table: seq<Slot>, i: nat, b: nat) {
    exists j :: 0 <= j < |table| && j != i && b in Claimed(table[j])
  }

  lemma AccountedSplits(table: seq<Slot>, i: nat, s': Slot, b: nat)
    requires i < |table|
    ensures Accounted(table[i := s'], b) <==> b in Claimed(s') || Elsewhere(table, i, b)
  {
    var t := table[i := s'];
    if Accounted(t, b) {
      var j :| 0 <= j < |t| && b in Claimed(t[j]);
      assert j != i ==> t[j] == table[j];
    }
    if Elsewhere(table, i, b) {
      var j :| 0 <= j < |table| && j != i && b in Claimed(table[j]);
      assert b in Claimed(t[j]);
    }
    if b in Claimed(s') {
      assert b in Claimed(t[i]);
    }
  }

  lemma ClaimedOnce(g: Geometry, st: State, i: nat, b: nat)
    requires Inv(g, st) && IndexInv(st) && i < |st.table|
    ensures b in Claimed(st.table[i]) ==> !Elsewhere(st.table, i, b)
  {
    forall j | 0 <= j < |st.table| && j != i ensures Claimed(st.table[i]) !! Claimed(st.table[j]) {
      ClaimedApart(g, st, i, j);
    }
  }

  /** Lost afterwards is what was lost before, and what the slot gave up without releasing it. */
  lemma FairLoses(g: Geometry, st: State, i: nat, s': Slot, used': set<nat>, store': seq<byte>, given: set<nat>)
    requires Inv(g, st) && IndexInv(st) && i < |st.table| && Fair(st, i, s', used')
    requires given == (Claimed(st.table[i]) - Claimed(s')) * used'
    ensures Lost(State(used', st.table[i := s'], store')) == Lost(st) + given
  {
    var st' := State(used', st.table[i := s'], store');
    assert st.table[i := st.table[i]] == st.table;
    forall b ensures b in Lost(st') <==> b in Lost(st) || b in given {
      AccountedSplits(st.table, i, s', b);
      AccountedSplits(st.table, i, st.table[i], b);
      ClaimedOnce(g, st, i, b);
      ElsewhereUsed(g, st, i, b);
    }
  }

  lemma ElsewhereUsed(g: Geometry, st: State, i: nat, b: nat)
    requires Inv(g, st) && IndexInv(st) && i < |st.table|
    ensures Elsewhere(st.table, i, b) ==> b in st.used
    ensures b in Claimed(st.table[i]) ==> b in st.used
  {
    assert Owned(st.table[i]) <= st.used && IndexOk(st, i);
    if Elsewhere(st.table, i, b) {
      var j :| 0 <= j < |st.table| && j != i && b in Claimed(st.table[j]);
      ClaimedApart(g, st, j, i);
    }
  }

  /** A step keeps the index blocks in order and loses exactly the blocks `given`. */
  ghost predicate Accounts(st: State, st': State, given: set<nat>) {
    IndexInv(st') && Lost(st') == Lost(st) + given
  }

  lemma SlotStep(g: Geometry, st: State, i: nat, s': Slot, used': set<nat>, store': seq<byte>, given: set<nat>)
    requires Inv(g, st) && IndexInv(st) && i < |st.table| && Fair(st, i, s', used')
    requires given == (Claimed(st.table[i]) - Claimed(s')) * used'
    ensures Accounts(st, State(used', st.table[i := s'], store'), given)
  {
    FairKeepsIndex(g, st, i, s', used', store');
    FairLoses(g, st, i, s', used', store', given);
  }

  // ---------------------------------------------------------------- the operations

  /** A slot that keeps its claims. */
  lemma KeepStep(g: Geometry, st: State, i: nat, s': Slot, store': seq<byte>)
    requires Inv(g, st) && IndexInv(st) && i < |st.table|
    requires s'.extents == st.table[i].extents && s'.dirBlock == st.table[i].dirBlock
    requires s'.extentsBlock == st.table[i].extentsBlock
    ensures Accounts(st, State(st.used, st.table[i := s'], store'), {})
  {
    assert IndexOk(st, i);
    ElsewhereUsed(g, st, i, s'.extentsBlock);
    SlotStep(g, st, i, s', st.used, store', {});
  }

  /** An allocation, whatever it returns, and the size that may follow it. */
  lemma GrantStep(g: Geometry, st: State, i: nat, bytes: nat, s': Slot, store': seq<byte>)
    requires Inv(g, st) && IndexInv(st) && i < |st.table| && IsReg(st.table[i].mode) && bytes > 0
    requires var r := Allocate(g, st.used, st.table[i], bytes);
      s' == r.slot || exists n: nat :: s' == SizedTo(r.slot, n)
    ensures Accounts(st, State(Allocate(g, st.used, st.table[i], bytes).used, st.table[i := s'], store'), {})
  {
    var s, target := st.table[i], Target(g, bytes);
    assert SlotOk(g, s) && IndexOk(st, i);
    TargetCovers(g, bytes);
    AllocateConserves(g, st.used, s, target);
    NewIndexIsLate(g, st.used, s, target);
    var r, taken := AllocateBlocks(g, st.used, s, target), Taken(g, st.used, s, target);
    BlocksOfConcat(s.extents, taken);
    GrewIsFair(st, i, r.slot, taken, r.used, s');
    SlotStep(g, st, i, s', r.used, store', {});
  }

  lemma GrewIsFair(st: State, i: nat, grown: Slot, taken: seq<Extent>, used': set<nat>, s': Slot)
    requires i < |st.table| && IndexOk(st, i) && Owned(st.table[i]) <= st.used
    requires Grew(st.table[i], grown, taken) && BlocksOf(taken) !! st.used
    requires BlocksOf(grown.extents) == BlocksOf(st.table[i].extents) + BlocksOf(taken)
    requires used' == st.used + BlocksOf(taken) + NewIndex(st.table[i], grown)
    requires NewIndex(st.table[i], grown) !! st.used
    requires grown.extentsBlock != st.table[i].extentsBlock ==> st.table[i].extentsBlock == 0
    requires NewIndex(st.table[i], grown) != {} && taken != [] ==> |grown.extents| > DIRECT_EXTENTS
    requires s' == grown || exists n: nat :: s' == SizedTo(grown, n)
    ensures Fair(st, i, s', used') && (Claimed(st.table[i]) - Claimed(s')) * used' == {}
  {
    assert Claimed(s') == Claimed(grown);
    assert taken == [] ==> BlocksOf(taken) == {};
    assert Owned(grown) == Owned(st.table[i]) + BlocksOf(taken);
  }

  lemma WriteAccounts(g: Geometry, st: State, op: Op)
    requires Inv(g, st) && IndexInv(st) && Enabled(g, st, op) && op.Write?
    ensures Accounts(st, Next(g, st, op), {})
  {
    var s := st.table[op.slot];
    var available := AllocatedBytes(g, s) - s.size;
    var r, st' := MakeRoom(g, st.used, s, |op.data|), Next(g, st, op);
    var n := st'.table[op.slot].size;
    assert st'.table[op.slot] == r.slot || st'.table[op.slot] == SizedTo(r.slot, n);
    assert st' == State(r.used, st.table[op.slot := st'.table[op.slot]], st'.store);
    if available < |op.data| {
      GrantStep(g, st, op.slot, |op.data| - available, st'.table[op.slot], st'.store);
    } else {
      KeepStep(g, st, op.slot, st'.table[op.slot], st'.store);
    }
  }

  lemma TruncateAccounts(g: Geometry, st: State, op: Op)
    requires Inv(g, st) && IndexInv(st) && Enabled(g, st, op) && op.SetSize?
    requires op.newSize < st.table[op.slot].inodeSize
    ensures Accounts(st, Next(g, st, op), {})
  {
    var s := st.table[op.slot];
    assert SlotOk(g, s) && IndexOk(st, op.slot);
    SlotStep(g, st, op.slot, SizedTo(s.(extents := []), 0), st.used - BlocksOf(s.extents), st.store, {});
  }

  lemma SetSizeAccounts(g: Geometry, st: State, op: Op)
    requires Inv(g, st) && IndexInv(st) && Enabled(g, st, op) && op.SetSize?
    ensures Accounts(st, Next(g, st, op), {})
  {
    var s, newSize := st.table[op.slot], op.newSize;
    if newSize < s.inodeSize {
      TruncateAccounts(g, st, op);
    } else if newSize > s.inodeSize && AllocatedBytes(g, s) - s.size < newSize - s.size {
      GrantStep(g, st, op.slot, newSize - s.size, Next(g, st, op).table[op.slot], st.store);
    } else {
      KeepStep(g, st, op.slot, Next(g, st, op).table[op.slot], st.store);
    }
  }

  lemma ReadAccounts(g: Geometry, st: State, op: Op)
    requires Inv(g, st) && IndexInv(st) && Enabled(g, st, op) && op.Read?
    ensures Accounts(st, Next(g, st, op), {})
  {
    var s, need := st.table[op.slot], |st.table[op.slot].extents| >= DIRECT_EXTENTS;
    if op.pos < s.size {
      var (used, s') := ReserveIf(need, g, st.used, s);
      ReserveFacts(g, st.used, s, need);
      assert s'.extents == s.extents && IndexOk(st, op.slot) && Owned(s) <= st.used;
      SlotStep(g, st, op.slot, s', used, st.store, {});
    }
  }

  /** A directory loaded, and its names changed. */
  lemma DirStep(g: Geometry, st: State, p: nat, names: seq<DirEntry>)
    requires Inv(g, st) && IndexInv(st) && DirSlot(st, p)
    ensures var (used, dir) := LoadNames(g, st.used, st.table[p]);
      Accounts(st, State(used, st.table[p := dir.(names := Some(names))], st.store), {})
  {
    var (used, dir) := LoadNames(g, st.used, st.table[p]);
    assert SlotOk(g, st.table[p]);
    SlotStep(g, st, p, dir.(names := Some(names)), used, st.store, {});
  }

  lemma Chain(a: State, b: State, c: State, given: set<nat>)
    requires Accounts(a, b, given) && Accounts(b, c, {})
    ensures Accounts(a, c, given)
  {
  }

  lemma ClaimAccounts(g: Geometry, st: State, op: Op)
    requires Inv(g, st) && IndexInv(st) && Enabled(g, st, op) && (op.Create? || op.Mkdir?)
    ensures Accounts(st, Next(g, st, op), {})
  {
    if FreeSlotFrom(st.table, 0).Some? {
      var i := FreeSlotFrom(st.table, 0).value;
      assert SlotOk(g, st.table[i]);
      var claimed := if op.Create? then ClaimedFile(st.table[i], op.ino, op.mode)
                     else ClaimedDir(st.table[i], op.ino, op.perm, st.table[op.parent].ino);
      var mid := State(st.used, st.table[i := claimed], st.store);
      KeepStep(g, st, i, claimed, st.store);
      ChangeSlot(g, st, i, claimed, st.used, {}, {});
      var dir := LoadNames(g, mid.used, mid.table[op.parent]).1;
      DirStep(g, mid, op.parent, AddEntry(NamesOf(dir), DirEntry(op.name, claimed.ino)));
      Chain(st, mid, Next(g, st, op), {});
    }
  }

  /** Freeing a slot, whose blocks were released, and dropping its name. */
  lemma DropAccounts(g: Geometry, st: State, i: nat, parent: nat, name: Name, given: set<nat>)
    requires Inv(g, st) && IndexInv(st) && i < |st.table| && i != parent && DirSlot(st, parent)
    requires given == Claimed(st.table[i]) - Owned(st.table[i])
    ensures Accounts(st, DropName(g, State(st.used - Owned(st.table[i]), st.table[i := EMPTY_SLOT], st.store),
                                  parent, name), given)
  {
    var used := st.used - Owned(st.table[i]);
    var mid := State(used, st.table[i := EMPTY_SLOT], st.store);
    assert IndexOk(st, i) && Owned(EMPTY_SLOT) == {} && Claimed(EMPTY_SLOT) == {};
    SlotStep(g, st, i, EMPTY_SLOT, used, st.store, given);
    ChangeSlot(g, st, i, EMPTY_SLOT, used, {}, Owned(st.table[i]));
    var dir := LoadNames(g, used, mid.table[parent]).1;
    DirStep(g, mid, parent, RemoveEntry(NamesOf(dir), name));
    Chain(st, mid, DropName(g, mid, parent, name), given);
  }

  /** Unlink gives up the index block of the file, unless it is among the file's own data. */
  function Loses(st: State, op: Op): set<nat> {
    if op.Unlink? && op.slot < |st.table| then Claimed(st.table[op.slot]) - Owned(st.table[op.slot]) else {}
  }

  lemma UnlinkAccounts(g: Geometry, st: State, op: Op)
    requires Inv(g, st) && IndexInv(st) && Enabled(g, st, op) && op.Unlink?
    ensures Accounts(st, Next(g, st, op), Loses(st, op))
  {
    assert SlotOk(g, st.table[op.slot]) && Owned(st.table[op.slot]) == BlocksOf(st.table[op.slot].extents);
    DropAccounts(g, st, op.slot, op.parent, op.name, Loses(st, op));
  }

  lemma RmdirAccounts(g: Geometry, st: State, op: Op)
    requires Inv(g, st) && IndexInv(st) && Enabled(g, st, op) && op.Rmdir?
    ensures Accounts(st, Next(g, st, op), {})
  {
    var s := st.table[op.slot];
    if LooksEmpty(s) {
      assert SlotOk(g, s) && BlocksOf([]) == {};
      assert st.used - Owned(s) == if s.dirBlock != 0 then st.used - {s.dirBlock} else st.used;
      DropAccounts(g, st, op.slot, op.parent, op.name, {});
    }
  }

  lemma LookupAccounts(g: Geometry, st: State, op: Op)
    requires Inv(g, st) && IndexInv(st) && Enabled(g, st, op) && op.Lookup?
    ensures Accounts(st, Next(g, st, op), {})
  {
    DirStep(g, st, op.parent, NamesOf(LoadNames(g, st.used, st.table[op.parent]).1));
  }

  lemma ReleaseAccounts(g: Geometry, st: State, op: Op)
    requires Inv(g, st) && IndexInv(st) && Enabled(g, st, op) && op.Release?
    ensures Accounts(st, Next(g, st, op), {})
  {
    KeepStep(g, st, op.slot, st.table[op.slot].(hasIndirect := false), st.store);
  }

  /** One step keeps the index blocks in order, brings no lost block back, and loses exactly the
      index block of an unlinked file when that is not the file's own data. */
  lemma NextAccounts(g: Geometry, st: State, op: Op)
    requires Inv(g, st) && IndexInv(st) && Enabled(g, st, op)
    ensures IndexInv(Next(g, st, op)) && Lost(Next(g, st, op)) == Lost(st) + Loses(st, op)
  {
    match op
    case Create(_, _, _, _) => ClaimAccounts(g, st, op);
    case Mkdir(_, _, _, _) => ClaimAccounts(g, st, op);
    case Unlink(_, _, _) => UnlinkAccounts(g, st, op);
    case Rmdir(_, _, _) => RmdirAccounts(g, st, op);
    case Write(_, _, _, _, _) => WriteAccounts(g, st, op);
    case Read(_, _, _) => ReadAccounts(g, st, op);
    case SetSize(_, _) => SetSizeAccounts(g, st, op);
    case Release(_) => ReleaseAccounts(g, st, op);
    case Lookup(_, _) => LookupAccounts(g, st, op);
  }

  // ---------------------------------------------------------------- shared index blocks

  /** The index block is among the file's own data. */
  predicate Shares(s: Slot) {
    s.extentsBlock != 0 && s.extentsBlock in Owned(s)
  }

  /** The bytes an operation asks the allocator for on behalf of slot `i`, 0 if it does not. */
  function Demand(g: Geometry, st: State, op: Op, i: nat): nat
    requires i < |st.table|
  {
    var s := st.table[i];
    match op
    case Write(slot, _, data, _, _) =>
      if slot == i && s.size <= AllocatedBytes(g, s) < s.size + |data|
      then |data| - (AllocatedBytes(g, s) - s.size) else 0
    case SetSize(slot, newSize) =>
      if slot == i && newSize > s.inodeSize && s.size <= AllocatedBytes(g, s) < newSize
      then newSize - s.size else 0
    case _ => 0
  }

  /** The operation makes slot `i` grow so that the index block picked for it is handed out again. */
  ghost predicate Overlaps(g: Geometry, st: State, op: Op, i: nat)
    requires ValidGeometry(g) && i < |st.table|
  {
    Demand(g, st, op, i) > 0 && IndexOverlaps(g, st.used, st.table[i], Target(g, Demand(g, st, op, i)))
  }

  lemma GrantShares(g: Geometry, st: State, i: nat, bytes: nat)
    requires Inv(g, st) && IndexInv(st) && i < |st.table| && IsReg(st.table[i].mode) && bytes > 0
    ensures Shares(Allocate(g, st.used, st.table[i], bytes).slot)
            <==> Shares(st.table[i]) || IndexOverlaps(g, st.used, st.table[i], Target(g, bytes))
  {
    var s, target := st.table[i], Target(g, bytes);
    assert SlotOk(g, s) && IndexOk(st, i) && Owned(s) <= st.used;
    TargetCovers(g, bytes);
    AllocateConserves(g, st.used, s, target);
    IndexBlockSharedIff(g, st.used, s, target);
    BlocksOfConcat(s.extents, Taken(g, st.used, s, target));
  }

  lemma WriteShares(g: Geometry, st: State, op: Op)
    requires Inv(g, st) && IndexInv(st) && Enabled(g, st, op) && op.Write?
    ensures Shares(Next(g, st, op).table[op.slot]) <==> Shares(st.table[op.slot]) || Overlaps(g, st, op, op.slot)
  {
    var s := st.table[op.slot];
    var r := MakeRoom(g, st.used, s, |op.data|);
    var s' := Next(g, st, op).table[op.slot];
    assert s' == r.slot || s' == SizedTo(r.slot, s'.size);
    SizeKeepsShares(r.slot, s'.size);
    if Demand(g, st, op, op.slot) > 0 {
      GrantShares(g, st, op.slot, Demand(g, st, op, op.slot));
    }
  }

  lemma SizeKeepsShares(s: Slot, n: nat)
    ensures Shares(SizedTo(s, n)) <==> Shares(s)
  {
  }

  lemma ExtendedSlot(g: Geometry, st: State, op: Op)
    requires Inv(g, st) && Enabled(g, st, op) && op.SetSize? && op.newSize > st.table[op.slot].inodeSize
    ensures var s, s' := st.table[op.slot], Next(g, st, op).table[op.slot];
      var grown := if Demand(g, st, op, op.slot) > 0 then Allocate(g, st.used, s, Demand(g, st, op, op.slot)).slot else s;
      s' == grown || s' == SizedTo(grown, op.newSize)
  {
  }

  lemma ExtendShares(g: Geometry, st: State, op: Op)
    requires Inv(g, st) && IndexInv(st) && Enabled(g, st, op) && op.SetSize?
    requires op.newSize > st.table[op.slot].inodeSize
    ensures Shares(Next(g, st, op).table[op.slot]) <==> Shares(st.table[op.slot]) || Overlaps(g, st, op, op.slot)
  {
    var s, bytes := st.table[op.slot], Demand(g, st, op, op.slot);
    ExtendedSlot(g, st, op);
    if bytes > 0 {
      SizeKeepsShares(Allocate(g, st.used, s, bytes).slot, op.newSize);
      GrantShares(g, st, op.slot, bytes);
    } else {
      SizeKeepsShares(s, op.newSize);
    }
  }

  lemma SetSizeShares(g: Geometry, st: State, op: Op)
    requires Inv(g, st) && IndexInv(st) && Enabled(g, st, op) && op.SetSize?
    ensures Shares(Next(g, st, op).table[op.slot]) <==> Shares(st.table[op.slot]) || Overlaps(g, st, op, op.slot)
  {
    assert IndexOk(st, op.slot);
    if op.newSize > st.table[op.slot].inodeSize {
      ExtendShares(g, st, op);
    } else {
      assert SlotOk(g, st.table[op.slot]);
    }
  }

  lemma ReadShares(g: Geometry, st: State, op: Op)
    requires Inv(g, st) && IndexInv(st) && Enabled(g, st, op) && op.Read?
    ensures Shares(Next(g, st, op).table[op.slot]) <==> Shares(st.table[op.slot])
  {
    assert Owned(st.table[op.slot]) <= st.used;
    ReserveFacts(g, st.used, st.table[op.slot], |st.table[op.slot].extents| >= DIRECT_EXTENTS);
  }

  /** The part of a slot that only operations on it change. */
  ghost predicate SameFile(s: Slot, s': Slot) {
    s'.mode == s.mode && s'.ino == s.ino && s'.extents == s.extents && s'.extentsBlock == s.extentsBlock
  }

  lemma FileOpsKeepOthers(g: Geometry, st: State, op: Op, i: nat)
    requires Enabled(g, st, op) && (op.Write? || op.Read? || op.SetSize? || op.Release?)
    requires i < |st.table| && op.slot != i
    ensures |Next(g, st, op).table| == |st.table| && Next(g, st, op).table[i] == st.table[i]
  {
  }

  lemma DropsKeepOthers(g: Geometry, st: State, op: Op, i: nat)
    requires Enabled(g, st, op) && (op.Unlink? || op.Rmdir?) && i < |st.table| && op.slot != i
    ensures |Next(g, st, op).table| == |st.table| && SameFile(st.table[i], Next(g, st, op).table[i])
  {
  }

  lemma DirOpsKeepOthers(g: Geometry, st: State, op: Op, i: nat)
    requires Enabled(g, st, op) && (op.Create? || op.Mkdir? || op.Unlink? || op.Rmdir? || op.Lookup?)
    requires i < |st.table| && (if op.Unlink? || op.Rmdir? then op.slot != i else st.table[i].mode != 0)
    ensures |Next(g, st, op).table| == |st.table| && SameFile(st.table[i], Next(g, st, op).table[i])
  {
    if op.Unlink? || op.Rmdir? {
      DropsKeepOthers(g, st, op, i);
    }
  }

  lemma FreeSlotsStayClean(g: Geometry, st: State, op: Op, i: nat)
    requires Inv(g, st) && Enabled(g, st, op) && (op.Create? || op.Mkdir? || op.Lookup?)
    requires i < |st.table| && st.table[i].mode == 0
    ensures |Next(g, st, op).table| == |st.table| && Next(g, st, op).table[i].extentsBlock == 0
  {
    assert SlotOk(g, st.table[i]);
  }

  /** Shares is decided by extents and index block: directories and free slots have none. */
  lemma SharesOfFile(g: Geometry, st: State, st': State, i: nat)
    requires Inv(g, st) && Inv(g, st') && i < |st.table| && SameFile(st.table[i], st'.table[i])
    ensures Shares(st'.table[i]) <==> Shares(st.table[i])
  {
    assert SlotOk(g, st.table[i]) && SlotOk(g, st'.table[i]);
  }

  lemma OthersKeepIndex(g: Geometry, st: State, op: Op, i: nat)
    requires Inv(g, st) && Enabled(g, st, op) && i < |st.table|
    requires op.Create? || op.Mkdir? || op.Lookup? || op.slot != i
    ensures i < |Next(g, st, op).table|
    ensures Shares(Next(g, st, op).table[i]) <==> Shares(st.table[i])
  {
    NextKeepsInv(g, st, op);
    assert SlotOk(g, st.table[i]);
    if op.Write? || op.Read? || op.SetSize? || op.Release? {
      FileOpsKeepOthers(g, st, op, i);
    } else if st.table[i].mode == 0 && !op.Unlink? && !op.Rmdir? {
      FreeSlotsStayClean(g, st, op, i);
    } else {
      DirOpsKeepOthers(g, st, op, i);
      SharesOfFile(g, st, Next(g, st, op), i);
    }
  }

  lemma RemovedShares(g: Geometry, st: State, op: Op)
    requires Inv(g, st) && Enabled(g, st, op) && (op.Unlink? || op.Rmdir?)
    ensures |Next(g, st, op).table| == |st.table|
    ensures Shares(Next(g, st, op).table[op.slot]) ==> op.Rmdir? && Shares(st.table[op.slot])
    ensures op.Rmdir? ==> !Shares(st.table[op.slot])
  {
    assert SlotOk(g, st.table[op.slot]);
  }

  /** A file's index block is among its data exactly if it was before and the file is still there,
      or if this operation is an allocation that goes on to the extent that covers it. */
  lemma NextSharesIff(g: Geometry, st: State, op: Op, i: nat)
    requires Inv(g, st) && IndexInv(st) && Enabled(g, st, op) && i < |st.table|
    ensures i < |Next(g, st, op).table|
    ensures Shares(Next(g, st, op).table[i]) <==>
              (Shares(st.table[i]) && !(op.Unlink? && op.slot == i)) || Overlaps(g, st, op, i)
  {
    if op.Create? || op.Mkdir? || op.Lookup? || op.slot != i {
      OthersKeepIndex(g, st, op, i);
    } else if op.Unlink? || op.Rmdir? {
      RemovedShares(g, st, op);
    } else if op.Read? {
      ReadShares(g, st, op);
    } else if op.Write? {
      WriteShares(g, st, op);
    } else if op.SetSize? {
      SetSizeShares(g, st, op);
    }
  }

  // ---------------------------------------------------------------- whole runs

  /** The index blocks a run loses, one unlink after the other. */
  ghost function LostAlong(g: Geometry, st: State, ops: seq<Op>): set<nat>
    requires Runnable(g, st, ops)
    decreases |ops|
  {
    if ops == [] then {} else Loses(st, ops[0]) + LostAlong(g, Next(g, st, ops[0]), ops[1..])
  }

  lemma {:induction false} RunAccounts(g: Geometry, st: State, ops: seq<Op>)
    requires Inv(g, st) && IndexInv(st) && Runnable(g, st, ops)
    ensures IndexInv(Run(g, st, ops)) && Lost(Run(g, st, ops)) == Lost(st) + LostAlong(g, st, ops)
    decreases |ops|
  {
    if ops != [] {
      NextKeepsInv(g, st, ops[0]);
      NextAccounts(g, st, ops[0]);
      RunAccounts(g, Next(g, st, ops[0]), ops[1..]);
    }
  }

  lemma FreshAccounts(g: Geometry, st: State)
    requires Fresh(g, st)
    ensures Inv(g, st) && IndexInv(st) && Lost(st) == {}
  {
    FreshIsInv(g, st);
  }

  /** Where every block is after a run: allocated exactly if a slot claims it or an unlink lost
      it, and never both. */
  lemma EveryBlock(g: Geometry, st: State, ops: seq<Op>, b: nat)
    requires Fresh(g, st) && Runnable(g, st, ops)
    ensures var end := Run(g, st, ops);
      && (b in end.used <==> Accounted(end.table, b) || b in LostAlong(g, st, ops))
      && !(Accounted(end.table, b) && b in LostAlong(g, st, ops))
  {
    FreshAccounts(g, st);
    RunKeepsInv(g, st, ops);
    RunAccounts(g, st, ops);
    var end := Run(g, st, ops);
    assert b in Lost(end) <==> b in LostAlong(g, st, ops);
    if Accounted(end.table, b) {
      var i :| 0 <= i < |end.table| && b in Claimed(end.table[i]);
      ElsewhereUsed(g, end, i, b);
    }
  }

  /** Unlinking a file loses its index block exactly when the block is not among its data. */
  lemma UnlinkLosesIff(g: Geometry, st: State, ops: seq<Op>, op: Op)
    requires Fresh(g, st) && Runnable(g, st, ops) && Enabled(g, Run(g, st, ops), op) && op.Unlink?
    ensures var end := Run(g, st, ops);
      var s := end.table[op.slot];
      s.extentsBlock != 0 ==>
        (s.extentsBlock in Lost(Next(g, end, op)) <==> s.extentsBlock !in BlocksOf(s.extents))
  {
    FreshAccounts(g, st);
    RunKeepsInv(g, st, ops);
    RunAccounts(g, st, ops);
    var end := Run(g, st, ops);
    NextAccounts(g, end, op);
    assert SlotOk(g, end.table[op.slot]);
    ClaimedIsNotLost(end, op.slot);
  }

  lemma ClaimedIsNotLost(st: State, i: nat)
    requires i < |st.table|
    ensures Claimed(st.table[i]) !! Lost(st)
  {
    forall b | b in Claimed(st.table[i]) ensures b !in Lost(st) {
      assert Accounted(st.table, b);
    }
  }

  /** No operation of the run hands an index block out again. */
  ghost predicate NeverOverlaps(g: Geometry, st: State, ops: seq<Op>)
    requires Runnable(g, st, ops)
    decreases |ops|
  {
    if ops == [] then true
    else
      && (forall i | 0 <= i < |st.table| :: !Overlaps(g, st, ops[0], i))
      && NeverOverlaps(g, Next(g, st, ops[0]), ops[1..])
  }

  /** In such a run no index block is ever file data, so every unlink of a file that has one
      loses it. */
  lemma {:induction false} RunSharesNone(g: Geometry, st: State, ops: seq<Op>)
    requires Inv(g, st) && IndexInv(st) && Runnable(g, st, ops) && NeverOverlaps(g, st, ops)
    requires forall s | s in st.table :: !Shares(s)
    ensures forall s | s in Run(g, st, ops).table :: !Shares(s)
    decreases |ops|
  {
    if ops != [] {
      var st' := Next(g, st, ops[0]);
      NextKeepsInv(g, st, ops[0]);
      NextAccounts(g, st, ops[0]);
      forall i | 0 <= i < |st.table| ensures i < |st'.table| && !Shares(st'.table[i]) {
        assert st.table[i] in st.table;
        NextSharesIff(g, st, ops[0], i);
      }
      assert |st'.table| == |st.table|;
      RunSharesNone(g, st', ops[1..]);
    }
  }

  /** The root stays a directory in slot 0. */
  lemma {:induction false} RunKeepsRoot(g: Geometry, st: State, ops: seq<Op>)
    requires Inv(g, st) && Runnable(g, st, ops) && |st.table| > 0
    requires IsDir(st.table[0].mode) && st.table[0].ino == ROOT_INO
    ensures |Run(g, st, ops).table| > 0 && IsDir(Run(g, st, ops).table[0].mode)
    decreases |ops|
  {
    if ops != [] {
      NextKeepsInv(g, st, ops[0]);
      NextKeepsRoot(g, st, ops[0]);
      RunKeepsRoot(g, Next(g, st, ops[0]), ops[1..]);
    }
  }

  lemma NextKeepsRoot(g: Geometry, st: State, op: Op)
    requires Inv(g, st) && Enabled(g, st, op) && |st.table| > 0
    requires IsDir(st.table[0].mode) && st.table[0].ino == ROOT_INO
    ensures |Next(g, st, op).table| > 0
    ensures IsDir(Next(g, st, op).table[0].mode) && Next(g, st, op).table[0].ino == ROOT_INO
  {
    if op.Write? || op.Read? || op.SetSize? || op.Release? {
      FileOpsKeepOthers(g, st, op, 0);
    } else {
      DirOpsKeepOthers(g, st, op, 0);
    }
  }

  lemma AccountedByRoot(table: seq<Slot>, b: nat)
    requires |table| > 0 && forall i | 1 <= i < |table| :: Claimed(table[i]) == {}
    ensures Accounted(table, b) <==> b in Claimed(table[0])
  {
  }

  /** Once every file and directory but the root is gone, only the root's block and the lost index
      blocks are allocated. */
  lemma EmptyAgain(g: Geometry, st: State, ops: seq<Op>)
    requires Fresh(g, st) && Runnable(g, st, ops)
    requires forall i | 1 <= i < |Run(g, st, ops).table| :: Claimed(Run(g, st, ops).table[i]) == {}
    ensures |Run(g, st, ops).table| > 0
    ensures Run(g, st, ops).used == Owned(Run(g, st, ops).table[0]) + LostAlong(g, st, ops)
  {
    FreshAccounts(g, st);
    RunKeepsInv(g, st, ops);
    RunKeepsRoot(g, st, ops);
    var end := Run(g, st, ops);
    assert SlotOk(g, end.table[0]) && Claimed(end.table[0]) == Owned(end.table[0]);
    forall b: nat ensures b in end.used <==> b in Owned(end.table[0]) || b in LostAlong(g, st, ops) {
      EveryBlock(g, st, ops, b);
      AccountedByRoot(end.table, b);
    }
  }
}
