/** The namespace over whole runs: directory entries name slots in use, every slot in use but
    the root is named by exactly one entry, and stays reachable from the root. */
module Namespace {
  import opened Types
  import opened Bitmap
  import opened Names
  import opened Spec
  import opened Allocation
  import opened Ownership

  // ---------------------------------------------------------------- the directory graph

  /** The inode number of a slot in use, and the one a directory entry holds; 0 for none. */
  function InoOf(st: State, i: nat): nat {
    if i < |st.table| && st.table[i].mode != 0 then st.table[i].ino else 0
  }

  function Ent(st: State, d: nat, k: nat): nat {
    if d < |st.table| && IsDir(st.table[d].mode) then InoAt(NamesOf(st.table[d]), k) else 0
  }

  function InoAt(entries: seq<DirEntry>, k: nat): nat {
    if k < |entries| then entries[k].ino else 0
  }

  ghost predicate Edge(st: State, d: nat, i: nat) {
    InoOf(st, i) != 0 && exists k: nat :: Ent(st, d, k) == InoOf(st, i)
  }

  ghost predicate IsPath(st: State, path: seq<nat>) {
    forall n | 0 <= n < |path| - 1 :: Edge(st, path[n], path[n + 1])
  }

  ghost predicate Leads(st: State, root: nat, path: seq<nat>, i: nat) {
    path != [] && path[0] == root && path[|path| - 1] == i && IsPath(st, path)
  }

  ghost predicate Reachable(st: State, root: nat, i: nat) {
    exists path :: Leads(st, root, path, i)
  }

  ghost predicate UniqueNumbers(st: State) {
    forall i: nat, j: nat | InoOf(st, i) != 0 && InoOf(st, i) == InoOf(st, j) :: i == j
  }

  ghost predicate NothingDangles(st: State, root: nat) {
    forall d: nat, k: nat | Ent(st, d, k) != 0 :: Held(st, root, Ent(st, d, k))
  }

  ghost predicate Held(st: State, root: nat, ino: nat) {
    exists i: nat :: i != root && InoOf(st, i) == ino
  }

  ghost predicate NamedOnce(st: State) {
    forall d: nat, k: nat, d': nat, k': nat | Ent(st, d, k) != 0 && Ent(st, d, k) == Ent(st, d', k') ::
      d == d' && k == k'
  }

  ghost predicate AllReachable(st: State, root: nat) {
    forall i: nat | InoOf(st, i) != 0 :: Reachable(st, root, i)
  }

  ghost predicate Graph(st: State, root: nat) {
    && InoOf(st, root) == ROOT_INO
    && UniqueNumbers(st) && NothingDangles(st, root) && NamedOnce(st) && AllReachable(st, root)
  }

  /** Every slot in use but the root is named by an entry; together with NamedOnce, by one. */
  lemma NamedByExactlyOne(st: State, root: nat, i: nat)
    requires Graph(st, root) && InoOf(st, i) != 0 && i != root
    ensures exists d: nat, k: nat :: Ent(st, d, k) == InoOf(st, i)
    ensures forall d: nat, k: nat, d': nat, k': nat |
              Ent(st, d, k) == InoOf(st, i) && Ent(st, d', k') == InoOf(st, i) :: d == d' && k == k'
  {
    assert Reachable(st, root, i);
    var path :| Leads(st, root, path, i);
    assert |path| > 1;
    assert Edge(st, path[|path| - 2], path[|path| - 2 + 1]);
  }

  // ---------------------------------------------------------------- adding and removing a node

  /** `st'` has one node and one entry more. */
  ghost predicate NodeAdded(st: State, st': State, i: nat, p: nat, f: nat, ino: nat) {
    && (forall j: nat :: InoOf(st', j) == if j == i then ino else InoOf(st, j))
    && (forall d: nat, k: nat :: Ent(st', d, k) == if d == p && k == f then ino else Ent(st, d, k))
  }

  lemma AddNode(st: State, st': State, root: nat, i: nat, p: nat, f: nat, ino: nat)
    requires Graph(st, root) && NodeAdded(st, st', i, p, f, ino)
    requires InoOf(st, i) == 0 && Ent(st, p, f) == 0 && InoOf(st, p) != 0
    requires ino != 0 && forall j: nat :: InoOf(st, j) != ino
    ensures Graph(st', root)
  {
    HeldMeansNotFresh(st, root, ino);
    forall d: nat, k: nat | Ent(st', d, k) != 0 ensures Held(st', root, Ent(st', d, k)) {
      if d == p && k == f {
        assert i != root && InoOf(st', i) == ino;
      } else {
        assert Held(st, root, Ent(st, d, k));
        var j: nat :| j != root && InoOf(st, j) == Ent(st, d, k);
        assert InoOf(st', j) == Ent(st, d, k);
      }
    }
    NodeAddedPaths(st, st', root, i, p, f, ino);
  }

  lemma HeldMeansNotFresh(st: State, root: nat, ino: nat)
    requires NothingDangles(st, root) && ino != 0 && forall j: nat :: InoOf(st, j) != ino
    ensures forall d: nat, k: nat :: Ent(st, d, k) != ino
  {
    forall d: nat, k: nat | Ent(st, d, k) != 0 ensures Ent(st, d, k) != ino {
      assert Held(st, root, Ent(st, d, k));
    }
  }

  lemma NodeAddedPaths(st: State, st': State, root: nat, i: nat, p: nat, f: nat, ino: nat)
    requires AllReachable(st, root) && NodeAdded(st, st', i, p, f, ino)
    requires InoOf(st, i) == 0 && Ent(st, p, f) == 0 && InoOf(st, p) != 0 && ino != 0
    ensures AllReachable(st', root)
  {
    forall d: nat, j: nat | Edge(st, d, j) ensures Edge(st', d, j) {
      var k: nat :| Ent(st, d, k) == InoOf(st, j);
      assert Ent(st', d, k) == InoOf(st', j);
    }
    forall j: nat | InoOf(st', j) != 0 ensures Reachable(st', root, j) {
      var via := if j == i then p else j;
      assert Reachable(st, root, via);
      var path :| Leads(st, root, path, via);
      assert Leads(st', root, path, via);
      if j == i {
        assert Ent(st', p, f) == InoOf(st', i);
        assert Leads(st', root, path + [i], i);
      }
    }
  }

  /** A slot in use that no entry of any directory names. */
  ghost predicate Orphan(st: State, i: nat) {
    InoOf(st, i) != 0 && forall d: nat, k: nat :: Ent(st, d, k) != InoOf(st, i)
  }

  /** It is not reachable. */
  lemma Unnamed(st: State, root: nat, i: nat)
    requires i != root && Orphan(st, i)
    ensures !AllReachable(st, root)
  {
    forall path | |path| > 1 && path[|path| - 1] == i ensures !IsPath(st, path) {
      assert !Edge(st, path[|path| - 2], path[|path| - 2 + 1]);
    }
  }

  /** `st'` lacks node `c` and the entries that held its number. */
  ghost predicate NodeRemoved(st: State, st': State, c: nat) {
    && (forall j: nat :: InoOf(st', j) == if j == c then 0 else InoOf(st, j))
    && (forall d: nat, k: nat | d != c ::
          Ent(st', d, k) == if Ent(st, d, k) == InoOf(st, c) then 0 else Ent(st, d, k))
    && (forall k: nat :: Ent(st', c, k) == 0)
  }

  lemma RemoveLeaf(st: State, st': State, root: nat, c: nat)
    requires Graph(st, root) && NodeRemoved(st, st', c)
    requires c != root && InoOf(st, c) != 0 && forall k: nat :: Ent(st, c, k) == 0
    ensures Graph(st', root)
  {
    forall d: nat, k: nat | Ent(st', d, k) != 0 ensures Held(st', root, Ent(st', d, k)) {
      assert Ent(st', d, k) == Ent(st, d, k) && Held(st, root, Ent(st, d, k));
      var j: nat :| j != root && InoOf(st, j) == Ent(st, d, k);
      assert InoOf(st', j) == Ent(st, d, k);
    }
    forall j: nat | InoOf(st', j) != 0 ensures Reachable(st', root, j) {
      assert Reachable(st, root, j);
      var path :| Leads(st, root, path, j);
      forall n | 0 <= n < |path| - 1 ensures Edge(st', path[n], path[n + 1]) {
        EdgeSurvives(st, st', root, c, path, n);
      }
      assert Leads(st', root, path, j);
    }
  }

  lemma EdgeSurvives(st: State, st': State, root: nat, c: nat, path: seq<nat>, n: nat)
    requires UniqueNumbers(st) && NodeRemoved(st, st', c) && IsPath(st, path) && n + 1 < |path|
    requires InoOf(st, c) != 0 && (forall k: nat :: Ent(st, c, k) == 0) && path[|path| - 1] != c
    ensures Edge(st', path[n], path[n + 1])
  {
    assert Edge(st, path[n], path[n + 1]);
    var k: nat :| Ent(st, path[n], k) == InoOf(st, path[n + 1]);
    if n + 1 < |path| - 1 {
      assert Edge(st, path[n + 1], path[n + 1 + 1]);
    }
    assert path[n + 1] != c;
    assert Ent(st', path[n], k) == InoOf(st', path[n + 1]);
  }

  // ---------------------------------------------------------------- the invariant

  ghost predicate NamesOk(st: State) {
    && (forall i | 0 <= i < |st.table| && st.table[i].mode != 0 :: st.table[i].ino != 0)
    && (forall d | 0 <= d < |st.table| && IsDir(st.table[d].mode) :: WellNamed(NamesOf(st.table[d])))
  }

  /** The namespace is a tree-like graph of well-formed directories. */
  ghost predicate Named(st: State, root: nat) {
    && root < |st.table| && IsDir(st.table[root].mode)
    && NamesOk(st) && Graph(st, root)
  }

  /** Every directory with an entry has its block: rmdir trusts the block, not the entries. */
  ghost predicate Backed(st: State) {
    forall d | 0 <= d < |st.table| && IsDir(st.table[d].mode) && !AllFree(NamesOf(st.table[d])) ::
      st.table[d].dirBlock != 0
  }

  /** The directory has, or is about to be given, a free entry; and a block. */
  ghost predicate HasEntryRoom(g: Geometry, dir: Slot) {
    if dir.names.Some? then HasFreeSlot(dir.names.value) else MaxDirEntries(g) > 0
  }

  ghost predicate HasBlock(g: Geometry, used: set<nat>, dir: Slot) {
    dir.dirBlock != 0 || (dir.names.None? && LeastFree(used, g.dataStart, g.totalBlocks).Some?)
  }

  lemma FreshWellNamed(g: Geometry)
    ensures WellNamed(FreshEntries(g)) && ToMap(FreshEntries(g)) == map[] && AllFree(FreshEntries(g))
    ensures MaxDirEntries(g) > 0 <==> HasFreeSlot(FreshEntries(g))
  {
    if MaxDirEntries(g) > 0 {
      assert FreshEntries(g)[0].ino == 0;
    }
  }

  lemma LoadNamesFacts(g: Geometry, used: set<nat>, dir: Slot)
    ensures var (used', dir') := LoadNames(g, used, dir);
      && dir' == dir.(names := Some(NamesOf(dir')), dirBlock := dir'.dirBlock)
      && NamesOf(dir') == (if dir.names.Some? then dir.names.value else FreshEntries(g))
      && (dir'.dirBlock != 0 ==> HasBlock(g, used, dir))
      && (HasBlock(g, used, dir) && 0 < g.dataStart ==> dir'.dirBlock != 0)
  {
  }

  // ---------------------------------------------------------------- create and mkdir

  /** What claiming a slot does to the graph: the new slot has its number, and the entries of
      the parent become `entries`, nothing else. */
  lemma ClaimView(g: Geometry, st: State, i: nat, claimed: Slot, parent: nat, name: Name)
    requires i < |st.table| && st.table[i].mode == 0 && DirSlot(st, parent)
    requires claimed.mode != 0 && claimed.names.None?
    ensures var st' := Claim(g, st, i, claimed, parent, name);
      var entries := AddEntry(NamesOf(LoadNames(g, st.used, st.table[parent]).1), DirEntry(name, claimed.ino));
      && |st'.table| == |st.table| && i != parent && st'.table[i] == claimed
      && NamesOf(st'.table[parent]) == entries
      && (forall j | 0 <= j < |st.table| && j != i && j != parent :: st'.table[j] == st.table[j])
      && (forall j: nat :: InoOf(st', j) == if j == i then claimed.ino else InoOf(st, j))
      && (forall d: nat, k: nat :: Ent(st', d, k) == if d == parent then InoAt(entries, k) else Ent(st, d, k))
      && IsDir(st'.table[parent].mode)
  {
    LoadNamesFacts(g, st.used, st.table[parent]);
    assert NamesOf(claimed) == [];
  }

  /** The parent's entries before the new one: loaded if need be, well named, without the name,
      and holding the numbers the graph already shows. */
  lemma ParentEntries(g: Geometry, st: State, parent: nat, name: Name)
    requires NamesOk(st) && NewName(st, parent, name)
    ensures var entries := NamesOf(LoadNames(g, st.used, st.table[parent]).1);
      && WellNamed(entries) && name !in ToMap(entries)
      && (HasEntryRoom(g, st.table[parent]) <==> HasFreeSlot(entries))
      && forall k: nat :: InoAt(entries, k) == Ent(st, parent, k)
  {
    LoadNamesFacts(g, st.used, st.table[parent]);
    FreshWellNamed(g);
    var entries := NamesOf(LoadNames(g, st.used, st.table[parent]).1);
    assert forall k | 0 <= k < |entries| && entries[k].ino != 0 :: entries[k] in entries;
  }

  lemma AddedAt(entries: seq<DirEntry>, e: DirEntry)
    requires WellNamed(entries) && LegalName(e.name) && e.ino != 0 && e.name !in ToMap(entries)
    ensures WellNamed(AddEntry(entries, e))
    ensures match FreeFrom(entries, 0)
      case Some(f) => HasFreeSlot(entries) && InoAt(entries, f) == 0
        && forall k: nat :: InoAt(AddEntry(entries, e), k) == if k == f then e.ino else InoAt(entries, k)
      case None => !HasFreeSlot(entries) && AddEntry(entries, e) == entries
  {
    AddIsUpdate(entries, e);
    FreeFromFacts(entries, 0);
  }

  lemma FreshNumber(st: State, root: nat, ino: nat)
    requires Graph(st, root) && NewIno(st, ino)
    ensures forall j: nat :: InoOf(st, j) != ino
    ensures forall d: nat, k: nat :: Ent(st, d, k) != ino
  {
    assert forall j: nat | j < |st.table| :: st.table[j] in st.table;
    forall d: nat, k: nat | Ent(st, d, k) != 0 ensures Ent(st, d, k) != ino {
      assert Held(st, root, Ent(st, d, k));
    }
  }

  /** A created file or directory keeps the namespace exactly when its parent had a free entry;
      a full directory drops the name, and the new slot is an orphan. */
  lemma ClaimKeepsNamedIff(g: Geometry, st: State, root: nat, i: nat, claimed: Slot, parent: nat, name: Name)
    requires Named(st, root)
    requires i < |st.table| && st.table[i].mode == 0 && NewName(st, parent, name) && NewIno(st, claimed.ino)
    requires claimed.mode != 0 && claimed.names.None?
    ensures Named(Claim(g, st, i, claimed, parent, name), root) <==> HasEntryRoom(g, st.table[parent])
  {
    ClaimView(g, st, i, claimed, parent, name);
    ParentEntries(g, st, parent, name);
    FreshNumber(st, root, claimed.ino);
    var st' := Claim(g, st, i, claimed, parent, name);
    var entries, e := NamesOf(LoadNames(g, st.used, st.table[parent]).1), DirEntry(name, claimed.ino);
    AddedAt(entries, e);
    assert i != root;
    match FreeFrom(entries, 0) {
      case Some(f) =>
        assert NodeAdded(st, st', i, parent, f, claimed.ino);
        AddNode(st, st', root, i, parent, f, claimed.ino);
        ClaimNamesOk(st, st', i, parent);
      case None =>
        Unnamed(st', root, i);
    }
  }

  lemma ClaimNamesOk(st: State, st': State, i: nat, parent: nat)
    requires NamesOk(st) && |st'.table| == |st.table| && i < |st.table| && parent < |st.table|
    requires st'.table[i].ino != 0 && NamesOf(st'.table[i]) == []
    requires st'.table[parent].ino != 0 && WellNamed(NamesOf(st'.table[parent]))
    requires forall j | 0 <= j < |st.table| && j != i && j != parent :: st'.table[j] == st.table[j]
    ensures NamesOk(st')
  {
  }

  lemma ClaimKeepsBacked(g: Geometry, st: State, i: nat, claimed: Slot, parent: nat, name: Name)
    requires Inv(g, st) && Backed(st)
    requires i < |st.table| && st.table[i].mode == 0 && DirSlot(st, parent)
    requires claimed.names.None? && HasBlock(g, st.used, st.table[parent])
    ensures Backed(Claim(g, st, i, claimed, parent, name))
  {
    LoadNamesFacts(g, st.used, st.table[parent]);
  }

  // ---------------------------------------------------------------- unlink and rmdir

  lemma RemovedAt(entries: seq<DirEntry>, name: Name, n: nat)
    requires WellNamed(entries) && LegalName(name)
    requires n < |entries| && entries[n].name == name && entries[n].ino != 0
    ensures WellNamed(RemoveEntry(entries, name))
    ensures forall k: nat :: InoAt(RemoveEntry(entries, name), k) == if k == n then 0 else InoAt(entries, k)
  {
    RemoveIsRemoval(entries, name);
  }

  /** What freeing slot `c` and removing its name does to the table. */
  lemma DropView(g: Geometry, st: State, used: set<nat>, c: nat, parent: nat, name: Name)
    requires c < |st.table| && DirSlot(st, parent) && c != parent && st.table[parent].names.Some?
    ensures var st' := DropName(g, State(used, st.table[c := EMPTY_SLOT], st.store), parent, name);
      && |st'.table| == |st.table| && st'.table[c] == EMPTY_SLOT
      && st'.table[parent] == st.table[parent].(names := Some(RemoveEntry(NamesOf(st.table[parent]), name)))
      && (forall j | 0 <= j < |st.table| && j != c && j != parent :: st'.table[j] == st.table[j])
  {
  }

  /** What it does to the graph: slot `c` is gone, and so is the one entry that named it. */
  lemma DropEffect(g: Geometry, st: State, root: nat, used: set<nat>, c: nat, parent: nat, name: Name)
    requires Named(st, root) && NamedBy(st, parent, name, c) && c != parent
    requires st.table[c].mode != 0
    ensures var st' := DropName(g, State(used, st.table[c := EMPTY_SLOT], st.store), parent, name);
      NodeRemoved(st, st', c) && NamesOk(st') && |st'.table| == |st.table| && (c != root ==> IsDir(st'.table[root].mode))
  {
    var st' := DropName(g, State(used, st.table[c := EMPTY_SLOT], st.store), parent, name);
    var entries := NamesOf(st.table[parent]);
    var n :| 0 <= n < |entries| && entries[n] == DirEntry(name, st.table[c].ino);
    DropView(g, st, used, c, parent, name);
    RemovedAt(entries, name, n);
    assert Ent(st, parent, n) == InoOf(st, c);
    forall d: nat, k: nat | d != c
      ensures Ent(st', d, k) == if Ent(st, d, k) == InoOf(st, c) then 0 else Ent(st, d, k)
    {
      assert d == parent ==> Ent(st', d, k) == if k == n then 0 else Ent(st, d, k);
      assert d != parent ==> Ent(st', d, k) == Ent(st, d, k);
    }
  }

  /** The root is not named, so it is never the slot of a positive dentry. */
  lemma RootUnnamed(st: State, root: nat, parent: nat, name: Name, c: nat)
    requires Named(st, root) && NamedBy(st, parent, name, c) && st.table[c].mode != 0
    ensures c != root
  {
    var n :| 0 <= n < |NamesOf(st.table[parent])| && NamesOf(st.table[parent])[n] == DirEntry(name, st.table[c].ino);
    assert Ent(st, parent, n) == InoOf(st, c);
    assert Held(st, root, Ent(st, parent, n));
  }

  lemma UnlinkKeepsNamed(g: Geometry, st: State, root: nat, parent: nat, name: Name, c: nat)
    requires Inv(g, st) && Named(st, root) && Enabled(g, st, Unlink(parent, name, c))
    ensures Named(Next(g, st, Unlink(parent, name, c)), root)
  {
    DropEffect(g, st, root, st.used - BlocksOf(st.table[c].extents), c, parent, name);
    RootUnnamed(st, root, parent, name, c);
    RemoveLeaf(st, Next(g, st, Unlink(parent, name, c)), root, c);
  }

  /** rmdir keeps the namespace exactly when the directory has no entries, or has a block so that
      its entries are looked at: a directory with entries but no block is removed all the same,
      and what it named is lost. */
  lemma RmdirKeepsNamedIff(g: Geometry, st: State, root: nat, parent: nat, name: Name, c: nat)
    requires Inv(g, st) && Named(st, root) && Enabled(g, st, Rmdir(parent, name, c))
    ensures Named(Next(g, st, Rmdir(parent, name, c)), root)
            <==> AllFree(NamesOf(st.table[c])) || st.table[c].dirBlock != 0
  {
    var st' := Next(g, st, Rmdir(parent, name, c));
    if LooksEmpty(st.table[c]) {
      var used := if st.table[c].dirBlock != 0 then st.used - {st.table[c].dirBlock} else st.used;
      DropEffect(g, st, root, used, c, parent, name);
      RootUnnamed(st, root, parent, name, c);
      if AllFree(NamesOf(st.table[c])) {
        RemoveLeaf(st, st', root, c);
      } else {
        var k :| 0 <= k < |NamesOf(st.table[c])| && NamesOf(st.table[c])[k].ino != 0;
        var lost := Ent(st, c, k);
        assert Held(st, root, lost);
        var j: nat :| j != root && InoOf(st, j) == lost;
        NoSelfNaming(st, root, c, k);
        LostChild(st, st', root, c, k, j);
      }
    }
  }

  /** A path that ends in a directory naming itself never left it. */
  lemma {:induction false} SelfPath(st: State, path: seq<nat>, c: nat, k: nat)
    requires NamedOnce(st) && IsPath(st, path) && path != [] && path[|path| - 1] == c
    requires Ent(st, c, k) == InoOf(st, c) != 0
    ensures path[0] == c
  {
    if |path| > 1 {
      var n := |path| - 2;
      assert Edge(st, path[n], path[n + 1]);
      var m: nat :| Ent(st, path[n], m) == InoOf(st, c);
      SelfPath(st, path[..|path| - 1], c, k);
    }
  }

  lemma NoSelfNaming(st: State, root: nat, c: nat, k: nat)
    requires Graph(st, root)
    ensures InoOf(st, c) != 0 ==> Ent(st, c, k) != InoOf(st, c)
  {
    assert Ent(st, c, k) != 0 ==> Held(st, root, Ent(st, c, k));
    assert InoOf(st, c) != 0 ==> Reachable(st, root, c);
    if Ent(st, c, k) == InoOf(st, c) != 0 {
      var path :| Leads(st, root, path, c);
      SelfPath(st, path, c, k);
    }
  }

  lemma LostChild(st: State, st': State, root: nat, c: nat, k: nat, j: nat)
    requires Graph(st, root) && NodeRemoved(st, st', c) && c != root && j != root && j != c
    requires InoOf(st, c) != 0 && Ent(st, c, k) == InoOf(st, j) != 0
    ensures Orphan(st', j) && !Graph(st', root)
  {
    forall d: nat, n: nat ensures Ent(st', d, n) != InoOf(st', j) {
      assert Ent(st, d, n) == InoOf(st, j) ==> d == c;
    }
    Unnamed(st', root, j);
  }

  /** What a directory without a block named is orphaned when the directory is removed. */
  lemma RmdirOrphansChild(g: Geometry, st: State, root: nat, parent: nat, name: Name, c: nat, k: nat, j: nat)
    requires Inv(g, st) && Named(st, root) && Enabled(g, st, Rmdir(parent, name, c))
    requires st.table[c].dirBlock == 0 && Ent(st, c, k) == InoOf(st, j) != 0
    ensures Orphan(Next(g, st, Rmdir(parent, name, c)), j)
  {
    var st' := Next(g, st, Rmdir(parent, name, c));
    DropEffect(g, st, root, st.used, c, parent, name);
    RootUnnamed(st, root, parent, name, c);
    NoSelfNaming(st, root, c, k);
    assert Held(st, root, Ent(st, c, k));
    LostChild(st, st', root, c, k, j);
  }

  /** A slot claimed for a name that a full directory drops is orphaned. */
  lemma FullOrphansClaimed(g: Geometry, st: State, root: nat, i: nat, claimed: Slot, parent: nat, name: Name)
    requires Named(st, root)
    requires i < |st.table| && st.table[i].mode == 0 && NewName(st, parent, name) && NewIno(st, claimed.ino)
    requires claimed.mode != 0 && claimed.names.None? && !HasEntryRoom(g, st.table[parent])
    ensures Orphan(Claim(g, st, i, claimed, parent, name), i)
  {
    ClaimView(g, st, i, claimed, parent, name);
    ParentEntries(g, st, parent, name);
    FreshNumber(st, root, claimed.ino);
    AddedAt(NamesOf(LoadNames(g, st.used, st.table[parent]).1), DirEntry(name, claimed.ino));
  }

  // ---------------------------------------------------------------- whole runs

  /** The condition under which a step cannot spoil the namespace: a created slot finds room for
      its name, and a block for a directory entered for the first time. */
  ghost predicate Roomy(g: Geometry, st: State, op: Op) {
    match op
    case Create(parent, _, _, _) => parent < |st.table| && RoomIn(g, st, parent)
    case Mkdir(parent, _, _, _) => parent < |st.table| && RoomIn(g, st, parent)
    case _ => true
  }

  ghost predicate RoomIn(g: Geometry, st: State, parent: nat)
    requires parent < |st.table|
  {
    FreeSlotFrom(st.table, 0).Some? ==>
      HasEntryRoom(g, st.table[parent]) && HasBlock(g, st.used, st.table[parent])
  }

  predicate SameNode(s: Slot, s': Slot) {
    s'.mode == s.mode && s'.ino == s.ino && s'.names == s.names && s'.dirBlock == s.dirBlock
  }

  /** The graph depends on the numbers of the slots and entries only. */
  lemma SameView(st: State, st': State, root: nat)
    requires Graph(st, root)
    requires forall i: nat :: InoOf(st', i) == InoOf(st, i)
    requires forall d: nat, k: nat :: Ent(st', d, k) == Ent(st, d, k)
    ensures Graph(st', root)
  {
    forall d: nat, i: nat | Edge(st, d, i) ensures Edge(st', d, i) {
      var k: nat :| Ent(st, d, k) == InoOf(st, i);
      assert Ent(st', d, k) == InoOf(st', i);
    }
    forall d: nat, k: nat | Ent(st', d, k) != 0 ensures Held(st', root, Ent(st', d, k)) {
      assert Held(st, root, Ent(st, d, k));
      var j: nat :| j != root && InoOf(st, j) == Ent(st, d, k);
      assert InoOf(st', j) == Ent(st', d, k);
    }
    forall i: nat | InoOf(st', i) != 0 ensures Reachable(st', root, i) {
      assert Reachable(st, root, i);
      var path :| Leads(st, root, path, i);
      assert Leads(st', root, path, i);
    }
  }

  /** Operations on one file leave mode, number, names and block of every slot. */
  lemma SameGraph(st: State, st': State, root: nat)
    requires Named(st, root) && Backed(st) && |st'.table| == |st.table|
    requires forall i | 0 <= i < |st.table| :: SameNode(st.table[i], st'.table[i])
    ensures Named(st', root) && Backed(st')
  {
    assert forall i: nat :: InoOf(st', i) == InoOf(st, i);
    assert forall d: nat, k: nat :: Ent(st', d, k) == Ent(st, d, k);
    SameView(st, st', root);
  }

  /** A lookup may load the directory and give it a block, but names stay what they were. */
  lemma LookupKeepsNamed(g: Geometry, st: State, root: nat, op: Op)
    requires Inv(g, st) && Named(st, root) && Backed(st) && Enabled(g, st, op) && op.Lookup?
    ensures Named(Next(g, st, op), root) && Backed(Next(g, st, op))
  {
    var st', dir := Next(g, st, op), LoadNames(g, st.used, st.table[op.parent]).1;
    LoadNamesFacts(g, st.used, st.table[op.parent]);
    FreshWellNamed(g);
    assert st'.table == st.table[op.parent := dir];
    assert forall i: nat :: InoOf(st', i) == InoOf(st, i);
    assert forall k: nat :: InoAt(NamesOf(dir), k) == InoAt(NamesOf(st.table[op.parent]), k);
    SameView(st, st', root);
  }

  /** What lookup finds is what the directory's map says: a name resolves to the one slot in use
      that carries its number, so that the entry may be unlinked or removed; a name that does
      not resolve may be created. */
  lemma LookupIsExact(g: Geometry, st: State, root: nat, parent: nat, name: Name)
    requires Inv(g, st) && Named(st, root) && DirSlot(st, parent) && LegalName(name)
    ensures match Resolve(st, parent, name)
      case Some(i) =>
        && i != root && i < |st.table| && st.table[i].mode != 0 && NamedBy(st, parent, name, i)
        && name in ToMap(NamesOf(st.table[parent])) && ToMap(NamesOf(st.table[parent]))[name] == st.table[i].ino
        && forall j | 0 <= j < |st.table| && st.table[j].ino == st.table[i].ino :: j == i
      case None => name !in ToMap(NamesOf(st.table[parent])) && NewName(st, parent, name)
  {
    var entries := NamesOf(st.table[parent]);
    FindIsLookup(entries, name);
    NamedFromFacts(entries, name, 0);
    match NamedFrom(entries, name, 0) {
      case None =>
      case Some(k) =>
        assert Ent(st, parent, k) == entries[k].ino != 0 && Held(st, root, Ent(st, parent, k));
        var i: nat :| i != root && InoOf(st, i) == entries[k].ino;
        forall j | 0 <= j < |st.table| && st.table[j].ino == entries[k].ino ensures j == i {
          assert SlotOk(g, st.table[j]);
          assert InoOf(st, j) == InoOf(st, i);
        }
        assert entries[k] == DirEntry(name, st.table[i].ino);
    }
  }

  lemma AllocateSameNode(g: Geometry, used: set<nat>, s: Slot, bytes: nat)
    requires ValidGeometry(g) && FileOk(g, s) && bytes > 0
    ensures SameNode(s, Allocate(g, used, s, bytes).slot)
  {
    TargetCovers(g, bytes);
    AllocateConserves(g, used, s, Target(g, bytes));
  }

  lemma WriteSameNode(g: Geometry, st: State, slot: nat, at: nat, data: seq<byte>, append: bool, landed: nat)
    requires ValidGeometry(g) && FileSlot(g, st, slot) && FileOk(g, st.table[slot])
    ensures var st' := WriteNext(g, st, slot, at, data, append, landed);
      && |st'.table| == |st.table| && SameNode(st.table[slot], st'.table[slot])
      && forall i | 0 <= i < |st.table| && i != slot :: st'.table[i] == st.table[i]
  {
    var s := st.table[slot];
    var available := AllocatedBytes(g, s) - s.size;
    if available < |data| {
      AllocateSameNode(g, st.used, s, |data| - available);
    }
  }

  lemma SetSizeSameNode(g: Geometry, st: State, slot: nat, newSize: nat)
    requires Enabled(g, st, SetSize(slot, newSize)) && FileOk(g, st.table[slot])
    ensures var st' := SetSizeNext(g, st, slot, newSize);
      && |st'.table| == |st.table| && SameNode(st.table[slot], st'.table[slot])
      && forall i | 0 <= i < |st.table| && i != slot :: st'.table[i] == st.table[i]
  {
    var s := st.table[slot];
    if newSize > s.size {
      AllocateSameNode(g, st.used, s, newSize - s.size);
    }
  }

  lemma FileOpsKeepGraph(g: Geometry, st: State, op: Op, i: nat)
    requires Enabled(g, st, op) && (op.Write? || op.Read? || op.SetSize? || op.Release?)
    requires Inv(g, st) && i < |st.table|
    ensures |Next(g, st, op).table| == |st.table|
    ensures SameNode(st.table[i], Next(g, st, op).table[i])
  {
    assert SlotOk(g, st.table[op.slot]);
    match op
    case Write(slot, pos, data, append, landed) => WriteSameNode(g, st, slot, pos, data, append, landed);
    case SetSize(slot, newSize) => SetSizeSameNode(g, st, slot, newSize);
    case Read(_, _, _) =>
    case Release(_) =>
  }

  lemma FileOpsKeepNamed(g: Geometry, st: State, root: nat, op: Op)
    requires Enabled(g, st, op) && (op.Write? || op.Read? || op.SetSize? || op.Release?)
    requires Inv(g, st) && Named(st, root) && Backed(st)
    ensures Named(Next(g, st, op), root) && Backed(Next(g, st, op))
  {
    forall i | 0 <= i < |st.table| ensures SameNode(st.table[i], Next(g, st, op).table[i]) {
      FileOpsKeepGraph(g, st, op, i);
    }
    FileOpsKeepGraph(g, st, op, op.slot);
    SameGraph(st, Next(g, st, op), root);
  }

  lemma CreateKeepsNamed(g: Geometry, st: State, root: nat, i: nat, claimed: Slot, parent: nat, name: Name)
    requires Inv(g, st) && Named(st, root) && Backed(st)
    requires i < |st.table| && st.table[i].mode == 0 && NewName(st, parent, name) && NewIno(st, claimed.ino)
    requires claimed.mode != 0 && claimed.names.None?
    requires HasEntryRoom(g, st.table[parent]) && HasBlock(g, st.used, st.table[parent])
    ensures Named(Claim(g, st, i, claimed, parent, name), root)
    ensures Backed(Claim(g, st, i, claimed, parent, name))
  {
    ClaimKeepsNamedIff(g, st, root, i, claimed, parent, name);
    ClaimKeepsBacked(g, st, i, claimed, parent, name);
  }

  lemma ClaimStepKeepsNamed(g: Geometry, st: State, root: nat, op: Op)
    requires Inv(g, st) && Named(st, root) && Backed(st) && Enabled(g, st, op) && Roomy(g, st, op)
    requires op.Create? || op.Mkdir?
    ensures Named(Next(g, st, op), root) && Backed(Next(g, st, op))
  {
    if FreeSlotFrom(st.table, 0).Some? {
      var i := FreeSlotFrom(st.table, 0).value;
      assert SlotOk(g, st.table[i]);
      if op.Create? {
        CreateKeepsNamed(g, st, root, i, ClaimedFile(st.table[i], op.ino, op.mode), op.parent, op.name);
      } else {
        CreateKeepsNamed(g, st, root, i, ClaimedDir(st.table[i], op.ino, op.perm, st.table[op.parent].ino),
                         op.parent, op.name);
      }
    }
  }

  lemma DropStepKeepsNamed(g: Geometry, st: State, root: nat, op: Op)
    requires Inv(g, st) && Named(st, root) && Backed(st) && Enabled(g, st, op)
    requires op.Unlink? || op.Rmdir?
    ensures Named(Next(g, st, op), root) && Backed(Next(g, st, op))
  {
    var s := st.table[op.slot];
    if op.Unlink? {
      UnlinkKeepsNamed(g, st, root, op.parent, op.name, op.slot);
      DropKeepsBacked(g, st, st.used - BlocksOf(s.extents), op.slot, op.parent, op.name);
    } else {
      RmdirKeepsNamedIff(g, st, root, op.parent, op.name, op.slot);
      if LooksEmpty(s) {
        var used := if s.dirBlock != 0 then st.used - {s.dirBlock} else st.used;
        DropKeepsBacked(g, st, used, op.slot, op.parent, op.name);
      }
    }
  }

  /** One step keeps the namespace, provided a created name finds its room. */
  lemma NextKeepsNamed(g: Geometry, st: State, root: nat, op: Op)
    requires Inv(g, st) && Named(st, root) && Backed(st) && Enabled(g, st, op) && Roomy(g, st, op)
    ensures Named(Next(g, st, op), root) && Backed(Next(g, st, op))
  {
    if op.Create? || op.Mkdir? {
      ClaimStepKeepsNamed(g, st, root, op);
    } else if op.Unlink? || op.Rmdir? {
      DropStepKeepsNamed(g, st, root, op);
    } else if op.Lookup? {
      LookupKeepsNamed(g, st, root, op);
    } else {
      FileOpsKeepNamed(g, st, root, op);
    }
  }

  lemma DropKeepsBacked(g: Geometry, st: State, used: set<nat>, c: nat, parent: nat, name: Name)
    requires NamesOk(st) && Backed(st) && NamedBy(st, parent, name, c) && c != parent
    ensures Backed(DropName(g, State(used, st.table[c := EMPTY_SLOT], st.store), parent, name))
  {
    DropView(g, st, used, c, parent, name);
    var entries := NamesOf(st.table[parent]);
    assert AllFree(entries) ==> AllFree(RemoveEntry(entries, name));
  }

  /** Every creation of the run finds room when its turn comes. */
  ghost predicate RoomyRun(g: Geometry, st: State, ops: seq<Op>)
    requires Runnable(g, st, ops)
    decreases |ops|
  {
    ops == [] || (Roomy(g, st, ops[0]) && RoomyRun(g, Next(g, st, ops[0]), ops[1..]))
  }

  lemma FreshIsNamed(g: Geometry, st: State)
    requires Fresh(g, st)
    ensures Named(st, 0) && Backed(st)
  {
    assert forall d: nat, k: nat :: Ent(st, d, k) == 0;
    assert forall i: nat :: InoOf(st, i) == if i == 0 then ROOT_INO else 0;
    assert Leads(st, 0, [0], 0);
  }

  /** The namespace holds after every run in which creations find room. */
  lemma {:induction false} RunKeepsNamed(g: Geometry, st: State, root: nat, ops: seq<Op>)
    requires Inv(g, st) && Named(st, root) && Backed(st) && Runnable(g, st, ops) && RoomyRun(g, st, ops)
    ensures Named(Run(g, st, ops), root) && Backed(Run(g, st, ops))
    decreases |ops|
  {
    if ops != [] {
      NextKeepsInv(g, st, ops[0]);
      NextKeepsNamed(g, st, root, ops[0]);
      RunKeepsNamed(g, Next(g, st, ops[0]), root, ops[1..]);
    }
  }
}
