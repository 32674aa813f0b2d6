/** The filesystem as a deterministic state machine over abstract slots: what every operation
    of kernel/extent_alloc.c, file.c, inode.c and directory.c does to the bitmap, the file
    table and the storage bytes. The imperative code is proved to refine it. */
module Spec {
  import opened Types
  import opened Bitmap
  import opened FreeScan
  import opened ExtentOrder
  import opened Names
  import opened Translation

  // ---------------------------------------------------------------- slots and state

  /** A file-table slot, with the direct and indirect extent arrays seen as one sequence. */
  datatype Slot = Slot(
    ino: nat,
    mode: nat,
    size: nat,
    inodeSize: nat,           // i_size of the in-core inode bound to the slot
    extents: seq<Extent>,
    extentsBlock: nat,
    hasIndirect: bool,
    dirBlock: nat,
    parentIno: nat,
    names: Option<seq<DirEntry>>)

  const EMPTY_SLOT := Slot(0, 0, 0, 0, [], 0, false, 0, 0, None)
  const S_IFDIR: nat := 0x4000
  const ROOT_INO: nat := 1

  predicate IsReg(mode: nat) { mode / 0x1000 == 8 }

  predicate IsDir(mode: nat) { mode / 0x1000 == 4 }

  datatype State = State(used: set<nat>, table: seq<Slot>, store: seq<byte>)

  function AllocatedBytes(g: Geometry, s: Slot): nat {
    TotalLength(s.extents) * g.blockSize
  }

  // ---------------------------------------------------------------- allocation

  datatype Grant = Grant(used: set<nat>, slot: Slot, ok: bool)

  /** The free extents in the order the allocator takes them. */
  function FreeList(g: Geometry, used: set<nat>): seq<Extent>
    requires g.dataStart <= g.totalBlocks
  {
    SortAll(Scan(used, g.dataStart, g.totalBlocks, 0))
  }

  /** Blocks asked of the allocator: the demand in whole blocks, and half as much again. */
  function Target(g: Geometry, bytes: nat): nat
    requires g.blockSize > 0
  {
    ((bytes + g.blockSize - 1) / g.blockSize) * 1500 / 1000
  }

  /** portfs_alloc_indirect_extents: make the indirect array present, reserving a block for
      it on the first occasion. */
  function Reserve(g: Geometry, used: set<nat>, s: Slot): (set<nat>, Slot) {
    if s.hasIndirect then (used, s)
    else if s.extentsBlock != 0 then (used, s.(hasIndirect := true))
    else
      match LeastFree(used, g.dataStart, g.totalBlocks)
      case None => (used, s.(hasIndirect := true))
      case Some(b) => (used + {b}, s.(hasIndirect := true, extentsBlock := b))
  }

  function ReserveIf(need: bool, g: Geometry, used: set<nat>, s: Slot): (set<nat>, Slot) {
    if need then Reserve(g, used, s) else (used, s)
  }

  /** One round of the allocation loop: mark the extent's blocks, then append it. */
  function GrabOne(g: Geometry, used: set<nat>, s: Slot, e: Extent): Grant {
    var (used', s') := ReserveIf(|s.extents| >= DIRECT_EXTENTS, g, used + Blocks(e), s);
    Grant(used', s'.(extents := s'.extents + [e]), true)
  }

  /** The allocation loop, with `remaining` blocks still wanted. */
  function Grab(g: Geometry, used: set<nat>, s: Slot, free: seq<Extent>, remaining: nat): Grant
    requires g.blockSize > 0
    decreases |free|
  {
    if free == [] || |s.extents| >= MaxExtents(g) then Grant(used, s, false)
    else
      var mid := GrabOne(g, used, s, free[0]);
      if free[0].length >= remaining then mid
      else Grab(g, mid.used, mid.slot, free[1..], remaining - free[0].length)
  }

  /** Allocation of at least `target` blocks. The free list is taken before the index block is
      reserved. */
  function AllocateBlocks(g: Geometry, used: set<nat>, s: Slot, target: nat): Grant
    requires ValidGeometry(g)
  {
    var free := FreeList(g, used);
    var (used', s') := ReserveIf(|s.extents| >= DIRECT_EXTENTS, g, used, s);
    Grab(g, used', s', free, target)
  }

  /** portfs_allocate_memory. */
  function Allocate(g: Geometry, used: set<nat>, s: Slot, bytes: nat): Grant
    requires ValidGeometry(g) && bytes > 0
  {
    AllocateBlocks(g, used, s, Target(g, bytes))
  }

  // ---------------------------------------------------------------- directories

  /** portfs_load_dir_data for a directory never loaded before: give it a block if it has none
      and one is free, and an empty slot array in any case. */
  function LoadNames(g: Geometry, used: set<nat>, dir: Slot): (set<nat>, Slot) {
    if dir.names.Some? then (used, dir)
    else
      var loaded := dir.(names := Some(FreshEntries(g)));
      if dir.dirBlock != 0 then (used, loaded)
      else
        match LeastFree(used, g.dataStart, g.totalBlocks)
        case None => (used, loaded)
        case Some(b) => (used + {b}, loaded.(dirBlock := b))
  }

  function NamesOf(dir: Slot): seq<DirEntry> {
    if dir.names.Some? then dir.names.value else []
  }

  function AddName(g: Geometry, used: set<nat>, dir: Slot, e: DirEntry): (set<nat>, Slot) {
    var (used', dir') := LoadNames(g, used, dir);
    (used', dir'.(names := Some(AddEntry(NamesOf(dir'), e))))
  }

  function RemoveName(g: Geometry, used: set<nat>, dir: Slot, name: Name): (set<nat>, Slot) {
    var (used', dir') := LoadNames(g, used, dir);
    (used', dir'.(names := Some(RemoveEntry(NamesOf(dir'), name))))
  }

  /** portfs_is_dir_empty: a directory without a block counts as empty. */
  predicate LooksEmpty(dir: Slot) {
    dir.dirBlock == 0 || AllFree(NamesOf(dir))
  }

  /** The first free slot from `i` on. */
  function FreeSlotFrom(table: seq<Slot>, i: nat): (r: Option<nat>)
    ensures r.Some? ==>
      && i <= r.value < |table| && table[r.value].mode == 0
      && forall k | i <= k < r.value :: table[k].mode != 0
    ensures r.None? ==> forall k | i <= k < |table| :: table[k].mode != 0
    decreases |table| - i
  {
    if i >= |table| then None
    else if table[i].mode == 0 then Some(i)
    else FreeSlotFrom(table, i + 1)
  }

  lemma {:induction false} FirstFreeSlot(table: seq<Slot>, k: nat, i: nat)
    requires i <= k < |table| && table[k].mode == 0 && forall j | i <= j < k :: table[j].mode != 0
    ensures FreeSlotFrom(table, i) == Some(k)
    decreases k - i
  {
    if i < k {
      FirstFreeSlot(table, k, i + 1);
    }
  }

  // ---------------------------------------------------------------- operations

  datatype Op =
    | Create(parent: nat, name: Name, ino: nat, mode: nat)
    | Mkdir(parent: nat, name: Name, ino: nat, perm: nat)
    | Unlink(parent: nat, name: Name, slot: nat)
    | Rmdir(parent: nat, name: Name, slot: nat)
    | Write(slot: nat, pos: nat, data: seq<byte>, append: bool, landed: nat)
    | Read(slot: nat, pos: nat, count: nat)
    | SetSize(slot: nat, newSize: nat)
    | Release(slot: nat)
    | Lookup(parent: nat, name: Name)

  function Min(a: nat, b: nat): nat { if a <= b then a else b }

  function Max(a: nat, b: nat): nat { if a >= b then a else b }

  /** What create and mkdir share: claim slot `i` for `claimed`, then enter it in the parent. */
  function Claim(g: Geometry, st: State, i: nat, claimed: Slot, parent: nat, name: Name): State
    requires i < |st.table| && parent < |st.table|
  {
    var table := st.table[i := claimed];
    var (used, dir) := AddName(g, st.used, table[parent], DirEntry(name, claimed.ino));
    State(used, table[parent := dir], st.store)
  }

  function DropName(g: Geometry, st: State, parent: nat, name: Name): State
    requires parent < |st.table|
  {
    var (used, dir) := RemoveName(g, st.used, st.table[parent], name);
    State(used, st.table[parent := dir], st.store)
  }

  function ClaimedFile(s: Slot, ino: nat, mode: nat): Slot {
    s.(mode := mode, ino := ino, size := 0, inodeSize := 0)
  }

  function ClaimedDir(s: Slot, ino: nat, perm: nat, parentIno: nat): Slot {
    s.(mode := S_IFDIR + perm, ino := ino, size := 0, inodeSize := 0, parentIno := parentIno)
  }

  /** The slot after making room for `count` bytes on top of the current size. */
  function MakeRoom(g: Geometry, used: set<nat>, s: Slot, count: nat): Grant
    requires ValidGeometry(g) && s.size <= AllocatedBytes(g, s)
  {
    var available := AllocatedBytes(g, s) - s.size;
    if available < count then Allocate(g, used, s, count - available) else Grant(used, s, true)
  }

  function WritePos(s: Slot, pos: nat, append: bool): nat {
    if append then s.size else pos
  }

  /** Bytes of a request at `pos` that land: all that fit the allocation, unless a storage
      write falls short first. */
  function Landed(g: Geometry, s: Slot, pos: nat, count: nat, landed: nat): nat {
    var room := if pos <= AllocatedBytes(g, s) then AllocatedBytes(g, s) - pos else 0;
    Min(landed, Min(count, room))
  }

  function SizedTo(s: Slot, n: nat): Slot {
    s.(size := n, inodeSize := n)
  }

  /** portfs_file_write's return value: the request succeeds when every byte of it landed. */
  function WriteCode(g: Geometry, st: State, slot: nat, at: nat, data: seq<byte>, append: bool,
                     landed: nat): int
    requires ValidGeometry(g) && FileSlot(g, st, slot)
  {
    var s := st.table[slot];
    var grant := MakeRoom(g, st.used, s, |data|);
    if !grant.ok then -ENOSPC
    else if Landed(g, grant.slot, WritePos(s, at, append), |data|, landed) == |data| then |data|
    else -EIO
  }

  /** The write loop and what follows it, once there is room. */
  function Wrote(g: Geometry, st: State, slot: nat, grant: Grant, pos: nat, data: seq<byte>, landed: nat): State
    requires slot < |st.table|
  {
    var n := Landed(g, grant.slot, pos, |data|, landed);
    var store := WriteBytes(g, grant.slot.extents, st.store, pos, data[..n]);
    var grows := n == |data| && pos + n > grant.slot.size;
    State(grant.used, st.table[slot := if grows then SizedTo(grant.slot, pos + n) else grant.slot], store)
  }

  /** portfs_file_write. */
  function WriteNext(g: Geometry, st: State, slot: nat, at: nat, data: seq<byte>, append: bool,
                     landed: nat): State
    requires ValidGeometry(g) && FileSlot(g, st, slot)
  {
    var s := st.table[slot];
    var grant := MakeRoom(g, st.used, s, |data|);
    if !grant.ok then State(grant.used, st.table[slot := grant.slot], st.store)
    else Wrote(g, st, slot, grant, WritePos(s, at, append), data, landed)
  }

  /** portfs_extend and the zero case of portfs_truncate, as portfs_setattr selects them. */
  function SetSizeNext(g: Geometry, st: State, slot: nat, newSize: nat): State
    requires Enabled(g, st, SetSize(slot, newSize))
  {
    var s := st.table[slot];
    if newSize < s.inodeSize then
      State(st.used - BlocksOf(s.extents), st.table[slot := SizedTo(s.(extents := []), 0)], st.store)
    else if newSize > s.inodeSize then
      var needed := newSize - s.size;
      var grant := if AllocatedBytes(g, s) - s.size >= needed then Grant(st.used, s, true)
                   else Allocate(g, st.used, s, needed);
      State(grant.used,
            st.table[slot := if grant.ok then SizedTo(grant.slot, newSize) else grant.slot],
            st.store)
    else st
  }

  /** What the kernel guarantees of a call, and the cases in which the code is defined. */
  ghost predicate Enabled(g: Geometry, st: State, op: Op) {
    && ValidGeometry(g)
    && |st.table| == g.maxFiles
    && match op
       case Create(parent, name, ino, mode) =>
         && IsReg(mode) && mode < 0x1_0000
         && NewName(st, parent, name) && NewIno(st, ino)
       case Mkdir(parent, name, ino, perm) =>
         && perm < 0x1000
         && NewName(st, parent, name) && NewIno(st, ino)
       case Unlink(parent, name, slot) =>
         && NamedBy(st, parent, name, slot) && IsReg(st.table[slot].mode)
       case Rmdir(parent, name, slot) =>
         && NamedBy(st, parent, name, slot) && IsDir(st.table[slot].mode)
         && slot != parent && st.table[slot].ino != ROOT_INO
       case Write(slot, pos, data, append, landed) =>
         FileSlot(g, st, slot) && !PushesSize(g, st.table[slot], pos, data, append)
       case Read(slot, pos, count) => FileSlot(g, st, slot)
       case SetSize(slot, newSize) =>
         && FileSlot(g, st, slot)
         && st.table[slot].inodeSize == st.table[slot].size
         && (newSize < st.table[slot].inodeSize ==>
               newSize == 0 && |st.table[slot].extents| <= DIRECT_EXTENTS)
       case Release(slot) =>
         && slot < |st.table| && IsReg(st.table[slot].mode)
         && |st.table[slot].extents| <= DIRECT_EXTENTS
       case Lookup(parent, name) => DirSlot(st, parent) && LegalName(name)
  }

  /** A write of no bytes past the allocation: the loop does nothing, and the size follows the
      position all the same. */
  predicate PushesSize(g: Geometry, s: Slot, pos: nat, data: seq<byte>, append: bool) {
    data == [] && !append && pos > AllocatedBytes(g, s)
  }

  ghost predicate FileSlot(g: Geometry, st: State, slot: nat) {
    && slot < |st.table| && IsReg(st.table[slot].mode)
    && st.table[slot].size <= AllocatedBytes(g, st.table[slot])
  }

  ghost predicate DirSlot(st: State, parent: nat) {
    && parent < |st.table| && IsDir(st.table[parent].mode)
  }

  /** A negative dentry: the name is legal and not in the directory. */
  ghost predicate NewName(st: State, parent: nat, name: Name) {
    && DirSlot(st, parent) && LegalName(name)
    && forall e | e in NamesOf(st.table[parent]) :: e.name != name
  }

  /** A fresh inode number, as iunique returns it. */
  ghost predicate NewIno(st: State, ino: nat) {
    && 1 < ino < U32
    && forall s | s in st.table :: s.ino != ino
  }

  /** A positive dentry: the directory has the name, with the slot's inode number. */
  ghost predicate NamedBy(st: State, parent: nat, name: Name, slot: nat) {
    && DirSlot(st, parent) && LegalName(name) && slot < |st.table|
    && st.table[slot].ino != 0
    && DirEntry(name, st.table[slot].ino) in NamesOf(st.table[parent])
  }

  function Next(g: Geometry, st: State, op: Op): State
    requires Enabled(g, st, op)
  {
    match op
    case Create(parent, name, ino, mode) =>
      (match FreeSlotFrom(st.table, 0)
       case None => st
       case Some(i) => Claim(g, st, i, ClaimedFile(st.table[i], ino, mode), parent, name))
    case Mkdir(parent, name, ino, perm) =>
      (match FreeSlotFrom(st.table, 0)
       case None => st
       case Some(i) =>
         Claim(g, st, i, ClaimedDir(st.table[i], ino, perm, st.table[parent].ino), parent, name))
    case Unlink(parent, name, slot) =>
      var freed := State(st.used - BlocksOf(st.table[slot].extents), st.table[slot := EMPTY_SLOT], st.store);
      DropName(g, freed, parent, name)
    case Rmdir(parent, name, slot) =>
      if !LooksEmpty(st.table[slot]) then st
      else
        var used := if st.table[slot].dirBlock != 0 then st.used - {st.table[slot].dirBlock} else st.used;
        DropName(g, State(used, st.table[slot := EMPTY_SLOT], st.store), parent, name)
    case Write(slot, pos, data, append, landed) => WriteNext(g, st, slot, pos, data, append, landed)
    case Read(slot, pos, count) =>
      var s := st.table[slot];
      if pos >= s.size then st
      else
        var (used, s') := ReserveIf(|s.extents| >= DIRECT_EXTENTS, g, st.used, s);
        State(used, st.table[slot := s'], st.store)
    case SetSize(slot, newSize) => SetSizeNext(g, st, slot, newSize)
    case Release(slot) => State(st.used, st.table[slot := st.table[slot].(hasIndirect := false)], st.store)
    case Lookup(parent, name) =>
      var (used, dir) := LoadNames(g, st.used, st.table[parent]);
      State(used, st.table[parent := dir], st.store)
  }

  /** portfs_get_inode_by_number: the first slot from `i` on that carries the number. */
  function SlotByNumber(table: seq<Slot>, ino: nat, i: nat): (r: Option<nat>)
    ensures r.Some? ==>
      && i <= r.value < |table| && table[r.value].ino == ino
      && forall k | i <= k < r.value :: table[k].ino != ino
    ensures r.None? ==> forall k | i <= k < |table| :: table[k].ino != ino
    decreases |table| - i
  {
    if i >= |table| then None
    else if table[i].ino == ino then Some(i)
    else SlotByNumber(table, ino, i + 1)
  }

  /** What portfs_lookup finds in a loaded directory: the slot whose number the name has. */
  function Resolve(st: State, parent: nat, name: Name): Option<nat>
    requires parent < |st.table|
  {
    var entries := NamesOf(st.table[parent]);
    match NamedFrom(entries, name, 0)
    case None => None
    case Some(k) => if k < |entries| then SlotByNumber(st.table, entries[k].ino, 0) else None
  }

  // ---------------------------------------------------------------- runs

  /** A run: operations applied one after the other, each when it is enabled. */
  ghost predicate Runnable(g: Geometry, st: State, ops: seq<Op>)
    decreases |ops|
  {
    ops == [] || (Enabled(g, st, ops[0]) && Runnable(g, Next(g, st, ops[0]), ops[1..]))
  }

  ghost function Run(g: Geometry, st: State, ops: seq<Op>): State
    requires Runnable(g, st, ops)
    decreases |ops|
  {
    if ops == [] then st else Run(g, Next(g, st, ops[0]), ops[1..])
  }

  lemma Prepend(g: Geometry, st: State, a: Op, ops: seq<Op>)
    requires Enabled(g, st, a) && Runnable(g, Next(g, st, a), ops)
    ensures Runnable(g, st, [a] + ops) && Run(g, st, [a] + ops) == Run(g, Next(g, st, a), ops)
  {
    assert ([a] + ops)[1..] == ops;
  }

  lemma {:induction false} RunExtends(g: Geometry, st: State, ops: seq<Op>, op: Op)
    requires Runnable(g, st, ops) && Enabled(g, Run(g, st, ops), op)
    ensures Runnable(g, st, ops + [op]) && Run(g, st, ops + [op]) == Next(g, Run(g, st, ops), op)
    decreases |ops|
  {
    if ops == [] {
      assert [] + [op] == [op] + [];
      Prepend(g, st, op, []);
    } else {
      RunExtends(g, Next(g, st, ops[0]), ops[1..], op);
      assert ops + [op] == [ops[0]] + (ops[1..] + [op]);
      Prepend(g, st, ops[0], ops[1..] + [op]);
    }
  }

  lemma ThreeSteps(g: Geometry, st: State, a: Op, b: Op, c: Op)
    requires Enabled(g, st, a) && Enabled(g, Next(g, st, a), b) && Enabled(g, Next(g, Next(g, st, a), b), c)
    ensures Runnable(g, st, [a, b, c])
    ensures Run(g, st, [a, b, c]) == Next(g, Next(g, Next(g, st, a), b), c)
  {
    var s1 := Next(g, st, a);
    var s2 := Next(g, s1, b);
    Prepend(g, s2, c, []);
    Prepend(g, s1, b, [c] + []);
    Prepend(g, st, a, [b] + ([c] + []));
    assert [a] + ([b] + ([c] + [])) == [a, b, c];
  }

  /** The root directory as mounting creates it in the first slot of a zeroed table. */
  const ROOT_SLOT := EMPTY_SLOT.(mode := S_IFDIR + 0x1ED, ino := ROOT_INO, parentIno := ROOT_INO)

  /** A freshly formatted and mounted filesystem. */
  ghost predicate Fresh(g: Geometry, st: State) {
    && ValidGeometry(g)
    && 0 < g.maxFiles == |st.table|
    && g.totalBlocks * g.blockSize <= |st.store|
    && st.used == {}
    && st.table[0] == ROOT_SLOT
    && forall i | 1 <= i < |st.table| :: st.table[i] == EMPTY_SLOT
  }
}
