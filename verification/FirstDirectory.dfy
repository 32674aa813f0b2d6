/** The life of one directory in a fresh filesystem, end to end: it is made, a file is created in it
    and unlinked again, and then it can be removed, block and name and all. */
module FirstDirectory {
  import opened Types
  import opened Names
  import opened Spec
  import opened Ownership
  import opened FirstFile
  import opened Orphans
  import opened Outcomes

  /** The root names the directory in slot 1, which has the second data block. */
  ghost predicate DirectoryThere(g: Geometry, st: State, dir: Name) {
    && Inv(g, st) && |st.table| == g.maxFiles >= 3 && st.used == {g.dataStart, g.dataStart + 1}
    && IsDir(st.table[0].mode) && DirEntry(dir, 2) in NamesOf(st.table[0]) && st.table[0].ino == ROOT_INO
    && IsDir(st.table[1].mode) && st.table[1].ino == 2 && st.table[1].dirBlock == g.dataStart + 1
    && st.table[1].names.Some?
    && forall k | 3 <= k < |st.table| :: st.table[k] == EMPTY_SLOT
  }

  /** It holds one file, in slot 2. */
  ghost predicate FileInside(g: Geometry, st: State, dir: Name, file: Name) {
    && DirectoryThere(g, st, dir)
    && DirEntry(file, 3) in NamesOf(st.table[1])
    && (forall e | e in NamesOf(st.table[1]) && e.ino != 0 :: e == DirEntry(file, 3))
    && IsReg(st.table[2].mode) && st.table[2].ino == 3 && st.table[2].extents == []
  }

  /** The directory's first entry is free, and it gets the second block. */
  lemma BlockForDirectory(g: Geometry, st: State, used': set<nat>, dir': Slot, after: seq<DirEntry>, e: DirEntry)
    requires g.blockSize >= 68 && g.totalBlocks >= g.dataStart + 2 && st.used == {g.dataStart}
    requires |st.table| > 1 && st.table[1].names.None? && Loads(g, st.used, st.table[1], used', dir')
    requires Entered(NamesOf(dir'), after, e) && e.ino != 0
    ensures dir'.dirBlock == g.dataStart + 1 && used' == {g.dataStart, g.dataStart + 1}
    ensures e in after && forall x | x in after && x.ino != 0 :: x == e
  {
    assert g.dataStart + 1 !in st.used;
    assert NamesOf(dir')[0] == DirEntry([], 0) && after[0] == e;
  }

  lemma Filled(g: Geometry, st: State, dir: Name, file: Name, mode: nat)
    requires OneDirectory(g, st, dir) && g.totalBlocks >= g.dataStart + 2 && g.blockSize >= 68
    requires LegalName(file) && IsReg(mode) && mode < 0x1_0000
    ensures Enabled(g, st, Create(1, file, 3, mode))
    ensures FileInside(g, Next(g, st, Create(1, file, 3, mode)), dir, file)
  {
    var op := Create(1, file, 3, mode);
    ThirdNumber(st);
    NextKeepsInv(g, st, op);
    var st' := Next(g, st, op);
    var loaded := CreateOutcome(g, st, op, 2);
    BlockForDirectory(g, st, st'.used, loaded, NamesOf(st'.table[1]), DirEntry(file, 3));
  }

  /** It is empty again. */
  ghost predicate EmptyDirectory(g: Geometry, st: State, dir: Name) {
    && DirectoryThere(g, st, dir) && st.table[2] == EMPTY_SLOT
    && forall e | e in NamesOf(st.table[1]) :: e.ino == 0
  }

  lemma Emptied(g: Geometry, st: State, dir: Name, file: Name)
    requires FileInside(g, st, dir, file) && LegalName(file)
    ensures Enabled(g, st, Unlink(1, file, 2)) && EmptyDirectory(g, Next(g, st, Unlink(1, file, 2)), dir)
  {
    var op := Unlink(1, file, 2);
    NextKeepsInv(g, st, op);
    UnlinkOutcome(g, st, 1, file, 2);
    var before, after := NamesOf(st.table[1]), NamesOf(Next(g, st, op).table[1]);
    forall e | e in after ensures e.ino == 0 {
      var k :| 0 <= k < |after| && after[k] == e;
      assert before[k] in before;
    }
  }

  lemma Removed(g: Geometry, st: State, dir: Name)
    requires EmptyDirectory(g, st, dir) && LegalName(dir)
    ensures Enabled(g, st, Rmdir(0, dir, 1))
    ensures var st' := Next(g, st, Rmdir(0, dir, 1));
      && |st'.table| >= 3 && st'.used == {g.dataStart} && Resolve(st', 0, dir).None?
      && forall k | 1 <= k < |st'.table| :: st'.table[k] == EMPTY_SLOT
  {
    RmdirOutcome(g, st, 0, dir, 1);
    NamedFromFacts(NamesOf(Next(g, st, Rmdir(0, dir, 1)).table[0]), dir, 0);
  }

  /** Make a directory, create a file in it, unlink the file, remove the directory: a run every fresh
      filesystem with two data blocks has. Before the removal the directory has a block and only
      free entries; afterwards its slot is free, its block is unallocated and its name resolves to
      nothing. */
  lemma DirectoryLife(g: Geometry, st: State, dir: Name, file: Name, perm: nat, mode: nat)
    requires Fresh(g, st) && g.totalBlocks >= g.dataStart + 2 && g.maxFiles >= 3 && g.blockSize >= 68
    requires LegalName(dir) && LegalName(file) && perm < 0x1000 && IsReg(mode) && mode < 0x1_0000
    ensures var ops, rmdir := [Mkdir(0, dir, 2, perm), Create(1, file, 3, mode), Unlink(1, file, 2)], Rmdir(0, dir, 1);
      && Runnable(g, st, ops) && EmptyDirectory(g, Run(g, st, ops), dir)
      && Runnable(g, st, ops + [rmdir])
      && var end := Run(g, st, ops + [rmdir]);
      && |end.table| >= 3 && end.used == {g.dataStart} && Resolve(end, 0, dir).None?
      && forall k | 1 <= k < |end.table| :: end.table[k] == EMPTY_SLOT
  {
    var a, b, c := Mkdir(0, dir, 2, perm), Create(1, file, 3, mode), Unlink(1, file, 2);
    MadeDirectory(g, st, dir, perm);
    Filled(g, Next(g, st, a), dir, file, mode);
    Emptied(g, Next(g, Next(g, st, a), b), dir, file);
    ThreeSteps(g, st, a, b, c);
    Removed(g, Run(g, st, [a, b, c]), dir);
    RunExtends(g, st, [a, b, c], Rmdir(0, dir, 1));
  }
}
