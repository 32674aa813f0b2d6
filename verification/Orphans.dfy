/** The two ways an operation breaks the namespace, as runs from a fresh filesystem: a directory
    that never got a block is removed with the file in it, and a full directory drops a name. */
module Orphans {
  import opened Types
  import opened Bitmap
  import opened Names
  import opened Spec
  import opened Ownership
  import opened Namespace
  import opened FirstFile

  // ---------------------------------------------------------------- a directory without a block

  /** The root holds one directory, in slot 1, and has the only data block. */
  ghost predicate OneDirectory(g: Geometry, st: State, dir: Name) {
    && Inv(g, st) && Named(st, 0) && |st.table| == g.maxFiles >= 3
    && st.used == {g.dataStart}
    && IsDir(st.table[0].mode) && st.table[0].ino == ROOT_INO && DirEntry(dir, 2) in NamesOf(st.table[0])
    && IsDir(st.table[1].mode) && st.table[1] == EMPTY_SLOT.(mode := st.table[1].mode, ino := 2, parentIno := ROOT_INO)
    && forall k | 2 <= k < |st.table| :: st.table[k] == EMPTY_SLOT
  }

  lemma MadeDirectory(g: Geometry, st: State, dir: Name, perm: nat)
    requires Fresh(g, st) && g.maxFiles >= 3 && g.blockSize >= 68 && LegalName(dir) && perm < 0x1000
    ensures Enabled(g, st, Mkdir(0, dir, 2, perm))
    ensures OneDirectory(g, Next(g, st, Mkdir(0, dir, 2, perm)), dir)
  {
    FreshIsInv(g, st);
    FreshIsNamed(g, st);
    var op := Mkdir(0, dir, 2, perm);
    assert FreeSlotFrom(st.table, 0) == Some(1);
    NextKeepsInv(g, st, op);
    ClaimKeepsNamedIff(g, st, 0, 1, ClaimedDir(st.table[1], 2, perm, ROOT_INO), 0, dir);
    assert FreshEntries(g)[0] == FREE_ENTRY;
    assert AddEntry(FreshEntries(g), DirEntry(dir, 2))[0] == DirEntry(dir, 2);
  }

  /** It now holds a file, in memory only. */
  ghost predicate FileWithoutBlock(g: Geometry, st: State, dir: Name, file: Name) {
    && Inv(g, st) && Named(st, 0) && |st.table| == g.maxFiles >= 3
    && IsDir(st.table[0].mode) && DirEntry(dir, 2) in NamesOf(st.table[0])
    && IsDir(st.table[1].mode) && st.table[1].ino == 2 && st.table[1].dirBlock == 0
    && DirEntry(file, 3) in NamesOf(st.table[1]) && st.table[2].mode != 0 && st.table[2].ino == 3
  }

  lemma FilledWithoutBlock(g: Geometry, st: State, dir: Name, file: Name, mode: nat)
    requires OneDirectory(g, st, dir) && g.totalBlocks == g.dataStart + 1 && g.blockSize >= 68
    requires LegalName(file) && IsReg(mode) && mode < 0x1_0000
    ensures Enabled(g, st, Create(1, file, 3, mode))
    ensures FileWithoutBlock(g, Next(g, st, Create(1, file, 3, mode)), dir, file)
  {
    var op, claimed := Create(1, file, 3, mode), ClaimedFile(EMPTY_SLOT, 3, mode);
    ThirdNumber(st);
    NextKeepsInv(g, st, op);
    ClaimKeepsNamedIff(g, st, 0, 2, claimed, 1, file);
    ClaimView(g, st, 2, claimed, 1, file);
    NoBlockLeft(g, st, file);
  }

  /** The directory's slots are made, but no block is left for them. */
  lemma NoBlockLeft(g: Geometry, st: State, file: Name)
    requires ValidGeometry(g) && g.totalBlocks == g.dataStart + 1 && g.blockSize >= 68 && st.used == {g.dataStart}
    requires |st.table| > 1 && st.table[1].names.None? && st.table[1].dirBlock == 0
    ensures var (used, dir) := AddName(g, st.used, st.table[1], DirEntry(file, 3));
      && used == st.used && dir.dirBlock == 0 && DirEntry(file, 3) in NamesOf(dir)
      && dir.mode == st.table[1].mode && dir.ino == st.table[1].ino
  {
    assert LeastFree(st.used, g.dataStart, g.totalBlocks).None?;
    assert FreshEntries(g)[0] == FREE_ENTRY;
    assert AddEntry(FreshEntries(g), DirEntry(file, 3))[0] == DirEntry(file, 3);
  }

  lemma RemovedAnyway(g: Geometry, st: State, dir: Name, file: Name)
    requires FileWithoutBlock(g, st, dir, file) && LegalName(dir)
    ensures var op := Rmdir(0, dir, 1);
      Enabled(g, st, op) && Orphan(Next(g, st, op), 2) && !Named(Next(g, st, op), 0)
  {
    var k :| 0 <= k < |NamesOf(st.table[1])| && NamesOf(st.table[1])[k] == DirEntry(file, 3);
    assert Ent(st, 1, k) == InoOf(st, 2) == 3;
    RmdirKeepsNamedIff(g, st, 0, 0, dir, 1);
    RmdirOrphansChild(g, st, 0, 0, dir, 1, k, 2);
  }

  /** On a filesystem with one data block: make a directory, create a file in it, remove the
      directory. Removing it succeeds, and the file is in use under no name. */
  lemma RmdirOrphans(g: Geometry, st: State, dir: Name, file: Name, perm: nat, mode: nat)
    requires Fresh(g, st) && g.totalBlocks == g.dataStart + 1 && g.maxFiles >= 3 && g.blockSize >= 68
    requires LegalName(dir) && LegalName(file) && perm < 0x1000 && IsReg(mode) && mode < 0x1_0000
    ensures var ops := [Mkdir(0, dir, 2, perm), Create(1, file, 3, mode), Rmdir(0, dir, 1)];
      && Runnable(g, st, ops) && Orphan(Run(g, st, ops), 2) && !Named(Run(g, st, ops), 0)
  {
    var a, b, c := Mkdir(0, dir, 2, perm), Create(1, file, 3, mode), Rmdir(0, dir, 1);
    MadeDirectory(g, st, dir, perm);
    FilledWithoutBlock(g, Next(g, st, a), dir, file, mode);
    RemovedAnyway(g, Next(g, Next(g, st, a), b), dir, file);
    ThreeSteps(g, st, a, b, c);
  }

  // ---------------------------------------------------------------- a full directory

  /** Creating files under the names from the `k`-th on, in the root directory. */
  function Creates(names: seq<Name>, k: nat, mode: nat): seq<Op>
    decreases |names| - k
  {
    if k >= |names| then [] else [Create(0, names[k], k + 2, mode)] + Creates(names, k + 1, mode)
  }

  /** One name more than a directory has entries. */
  ghost predicate TooMany(g: Geometry, names: seq<Name>) {
    && |names| == g.blockSize / 68 + 1
    && (forall i | 0 <= i < |names| :: LegalName(names[i]))
    && forall i, j | 0 <= i < j < |names| :: names[i] != names[j]
  }

  /** The first `k` files are created and fill the first `k` entries of the root. */
  ghost predicate HasCreated(g: Geometry, st: State, names: seq<Name>, k: nat)
    requires k <= |names|
  {
    && Inv(g, st) && Named(st, 0) && |st.table| == g.maxFiles >= |names| + 1
    && IsDir(st.table[0].mode) && st.table[0].ino == ROOT_INO
    && (k > 0 ==> st.table[0].names.Some?)
    && (forall i | 0 <= i < |NamesOf(st.table[0])| ::
          NamesOf(st.table[0])[i] == if i < k then DirEntry(names[i], i + 2) else FREE_ENTRY)
    && (forall i | 1 <= i < |st.table| :: if i <= k then st.table[i].mode != 0 && st.table[i].ino == i + 1
                                           else st.table[i] == EMPTY_SLOT)
  }

  lemma NextCreateEnabled(g: Geometry, st: State, names: seq<Name>, k: nat, mode: nat)
    requires TooMany(g, names) && k < |names| && HasCreated(g, st, names, k)
    requires IsReg(mode) && mode < 0x1_0000
    ensures Enabled(g, st, Create(0, names[k], k + 2, mode))
    ensures FreeSlotFrom(st.table, 0) == Some(k + 1) && st.table[k + 1] == EMPTY_SLOT
    ensures HasEntryRoom(g, st.table[0]) <==> k < MaxDirEntries(g)
  {
    FirstFreeSlot(st.table, k + 1, 0);
    assert SlotOk(g, st.table[0]) && k + 2 < U32;
    forall e | e in NamesOf(st.table[0]) ensures e.name != names[k] {
      var i :| 0 <= i < |NamesOf(st.table[0])| && NamesOf(st.table[0])[i] == e;
    }
    assert forall s | s in st.table :: s.ino != k + 2;
    if k < MaxDirEntries(g) && st.table[0].names.Some? {
      assert st.table[0].names.value[k].ino == 0;
    }
  }

  lemma {:induction false} FirstFreeEntry(entries: seq<DirEntry>, k: nat)
    requires k < |entries| && entries[k].ino == 0 && forall i | 0 <= i < k :: entries[i].ino != 0
    ensures FreeFrom(entries, 0) == Some(k)
  {
    FreeFromFacts(entries, 0);
  }

  lemma CreateFills(g: Geometry, st: State, names: seq<Name>, k: nat, mode: nat)
    requires TooMany(g, names) && k < MaxDirEntries(g) && HasCreated(g, st, names, k)
    requires IsReg(mode) && mode < 0x1_0000
    ensures Enabled(g, st, Create(0, names[k], k + 2, mode))
    ensures HasCreated(g, Next(g, st, Create(0, names[k], k + 2, mode)), names, k + 1)
  {
    var op := Create(0, names[k], k + 2, mode);
    NextCreateEnabled(g, st, names, k, mode);
    NextKeepsInv(g, st, op);
    var claimed := ClaimedFile(st.table[k + 1], k + 2, mode);
    ClaimKeepsNamedIff(g, st, 0, k + 1, claimed, 0, names[k]);
    ClaimView(g, st, k + 1, claimed, 0, names[k]);
    EntryFills(g, st, names, k);
  }

  /** The root's entries after the `k`-th name went into the first free one. */
  lemma EntryFills(g: Geometry, st: State, names: seq<Name>, k: nat)
    requires TooMany(g, names) && k < MaxDirEntries(g) && HasCreated(g, st, names, k)
    ensures var dir := AddName(g, st.used, st.table[0], DirEntry(names[k], k + 2)).1;
      && dir.names.Some? && dir.mode == st.table[0].mode && dir.ino == ROOT_INO
      && forall i | 0 <= i < |NamesOf(dir)| ::
           NamesOf(dir)[i] == if i < k + 1 then DirEntry(names[i], i + 2) else FREE_ENTRY
  {
    LoadNamesFacts(g, st.used, st.table[0]);
    assert SlotOk(g, st.table[0]);
    FirstFreeEntry(NamesOf(LoadNames(g, st.used, st.table[0]).1), k);
  }

  lemma {:induction false} CreatesOverflow(g: Geometry, st: State, names: seq<Name>, k: nat, mode: nat)
    requires TooMany(g, names) && k < |names| && HasCreated(g, st, names, k)
    requires IsReg(mode) && mode < 0x1_0000
    ensures Runnable(g, st, Creates(names, k, mode)) && !Named(Run(g, st, Creates(names, k, mode)), 0)
    ensures Orphan(Run(g, st, Creates(names, k, mode)), |names|)
    decreases |names| - k
  {
    var op := Create(0, names[k], k + 2, mode);
    NextCreateEnabled(g, st, names, k, mode);
    if k < MaxDirEntries(g) {
      CreateFills(g, st, names, k, mode);
      CreatesOverflow(g, Next(g, st, op), names, k + 1, mode);
      Prepend(g, st, op, Creates(names, k + 1, mode));
    } else {
      ClaimKeepsNamedIff(g, st, 0, k + 1, ClaimedFile(st.table[k + 1], k + 2, mode), 0, names[k]);
      FullOrphansClaimed(g, st, 0, k + 1, ClaimedFile(st.table[k + 1], k + 2, mode), 0, names[k]);
      assert Creates(names, k, mode) == [op] + [];
      Prepend(g, st, op, []);
    }
  }

  /** Creating one file more than the root has entries: every creation returns success, and the
      last file is in use under no name. */
  lemma CreateOrphans(g: Geometry, st: State, names: seq<Name>, mode: nat)
    requires Fresh(g, st) && TooMany(g, names) && g.maxFiles >= |names| + 1
    requires IsReg(mode) && mode < 0x1_0000
    ensures Runnable(g, st, Creates(names, 0, mode)) && !Named(Run(g, st, Creates(names, 0, mode)), 0)
    ensures Orphan(Run(g, st, Creates(names, 0, mode)), |names|)
  {
    FreshIsInv(g, st);
    FreshIsNamed(g, st);
    CreatesOverflow(g, st, names, 0, mode);
  }
}
