/** What every operation does to lookups: the namespace as a map from directory and name to slot,
    updated by create and mkdir, removed from by unlink and rmdir, and otherwise untouched. */
module Lookups {
  import opened Types
  import opened Names
  import opened Spec
  import opened Ownership
  import opened Namespace

  /** The rmdir takes its directory away: that has no block, or no names. */
  ghost predicate Removes(st: State, op: Op)
    requires NamesOk(st)
  {
    && op.Rmdir? && op.slot < |st.table| && IsDir(st.table[op.slot].mode)
    && (st.table[op.slot].dirBlock == 0 || ToMap(NamesOf(st.table[op.slot])) == map[])
  }

  /** What `n` resolves to in directory `d` after the operation, in terms of what it did before. */
  ghost function ResolveAfter(st: State, op: Op, d: nat, n: Name): Option<nat>
    requires d < |st.table| && NamesOk(st)
  {
    match op
    case Create(parent, name, _, _) =>
      if d == parent && n == name then FreeSlotFrom(st.table, 0) else Resolve(st, d, n)
    case Mkdir(parent, name, _, _) =>
      if d == parent && n == name then FreeSlotFrom(st.table, 0) else Resolve(st, d, n)
    case Unlink(parent, name, _) =>
      if d == parent && n == name then None else Resolve(st, d, n)
    case Rmdir(parent, name, _) =>
      if d == parent && n == name && Removes(st, op) then None else Resolve(st, d, n)
    case _ => Resolve(st, d, n)
  }

  /** A name resolves to the slot an entry names, and to none when no entry has it. */
  lemma Decide(g: Geometry, st: State, root: nat, d: nat, n: Name, r: Option<nat>)
    requires Inv(g, st) && Named(st, root) && DirSlot(st, d) && LegalName(n)
    requires if r.Some? then NamedBy(st, d, n, r.value) else NewName(st, d, n)
    ensures Resolve(st, d, n) == r
  {
    LookupIsExact(g, st, root, d, n);
    var entries := NamesOf(st.table[d]);
    if r.Some? {
      assert SlotOk(g, st.table[r.value]);
      assert Resolve(st, d, n).Some?;
      var k :| 0 <= k < |entries| && entries[k] == DirEntry(n, st.table[r.value].ino);
      MapMembership(entries, k);
    }
  }

  /** What a lookup depends on: the entries that use a name, and the numbers of the slots. */
  ghost predicate KeepsEntry(st: State, st': State, d: nat, n: Name)
    requires d < |st.table| && d < |st'.table|
  {
    && (forall e | e in NamesOf(st.table[d]) && e.name == n :: e in NamesOf(st'.table[d]))
    && (forall e | e in NamesOf(st'.table[d]) && e.name == n :: e in NamesOf(st.table[d]))
  }

  lemma KeptResolves(g: Geometry, st: State, st': State, root: nat, d: nat, n: Name)
    requires Inv(g, st) && Named(st, root) && DirSlot(st, d) && LegalName(n)
    requires Inv(g, st') && Named(st', root) && DirSlot(st', d) && KeepsEntry(st, st', d, n)
    requires Resolve(st, d, n).Some? ==>
      && Resolve(st, d, n).value < |st'.table|
      && st'.table[Resolve(st, d, n).value].ino == st.table[Resolve(st, d, n).value].ino
    ensures Resolve(st', d, n) == Resolve(st, d, n)
  {
    LookupIsExact(g, st, root, d, n);
    Decide(g, st', root, d, n, Resolve(st, d, n));
  }

  // ---------------------------------------------------------------- create and mkdir

  lemma AddedEntries(entries: seq<DirEntry>, e: DirEntry, x: DirEntry)
    requires WellNamed(entries) && LegalName(e.name) && e.ino != 0 && LegalName(x.name)
    requires HasFreeSlot(entries)
    ensures x in AddEntry(entries, e) <==> x in entries || x == e
  {
    FreeFromFacts(entries, 0);
    var f := FreeFrom(entries, 0).value;
    if x in entries {
      var k :| 0 <= k < |entries| && entries[k] == x;
      assert AddEntry(entries, e)[k] == x;
    }
    if x == e {
      assert AddEntry(entries, e)[f] == e;
    }
  }

  lemma LoadedEntries(g: Geometry, used: set<nat>, dir: Slot, x: DirEntry)
    requires LegalName(x.name)
    ensures x in NamesOf(LoadNames(g, used, dir).1) <==> x in NamesOf(dir)
  {
    LoadNamesFacts(g, used, dir);
  }

  /** The entries of every directory after a slot was claimed. */
  lemma ClaimEntries(g: Geometry, st: State, i: nat, claimed: Slot, parent: nat, name: Name, d: nat, x: DirEntry)
    requires NamesOk(st) && DirSlot(st, d) && NewName(st, parent, name) && LegalName(x.name)
    requires i < |st.table| && st.table[i].mode == 0 && claimed.mode != 0 && claimed.names.None? && claimed.ino != 0
    requires HasEntryRoom(g, st.table[parent])
    ensures var st' := Claim(g, st, i, claimed, parent, name);
      && |st'.table| == |st.table| && DirSlot(st', d)
      && (x in NamesOf(st'.table[d]) <==>
            x in NamesOf(st.table[d]) || (d == parent && x == DirEntry(name, claimed.ino)))
  {
    ClaimView(g, st, i, claimed, parent, name);
    ParentEntries(g, st, parent, name);
    LoadedEntries(g, st.used, st.table[parent], x);
    AddedEntries(NamesOf(LoadNames(g, st.used, st.table[parent]).1), DirEntry(name, claimed.ino), x);
  }

  lemma ClaimNumbers(g: Geometry, st: State, i: nat, claimed: Slot, parent: nat, name: Name, k: nat)
    requires i < |st.table| && st.table[i].mode == 0 && DirSlot(st, parent) && k < |st.table|
    ensures var st' := Claim(g, st, i, claimed, parent, name);
      k < |st'.table| && st'.table[k].ino == if k == i then claimed.ino else st.table[k].ino
  {
  }

  lemma ClaimResolves(g: Geometry, st: State, root: nat, i: nat, claimed: Slot, parent: nat, name: Name, d: nat, n: Name)
    requires Inv(g, st) && Named(st, root)
    requires i < |st.table| && st.table[i].mode == 0 && claimed.mode != 0 && claimed.names.None? && claimed.ino != 0
    requires NewName(st, parent, name) && HasEntryRoom(g, st.table[parent]) && DirSlot(st, d) && LegalName(n)
    requires Inv(g, Claim(g, st, i, claimed, parent, name)) && Named(Claim(g, st, i, claimed, parent, name), root)
    ensures Resolve(Claim(g, st, i, claimed, parent, name), d, n)
            == if d == parent && n == name then Some(i) else Resolve(st, d, n)
  {
    var st' := Claim(g, st, i, claimed, parent, name);
    forall x: DirEntry | x.name == n
      ensures DirSlot(st', d)
      ensures x in NamesOf(st'.table[d]) <==>
                x in NamesOf(st.table[d]) || (d == parent && x == DirEntry(name, claimed.ino))
    {
      ClaimEntries(g, st, i, claimed, parent, name, d, x);
    }
    if d == parent && n == name {
      ClaimEntries(g, st, i, claimed, parent, name, d, DirEntry(name, claimed.ino));
      ClaimNumbers(g, st, i, claimed, parent, name, i);
      Decide(g, st', root, d, n, Some(i));
    } else {
      ClaimEntries(g, st, i, claimed, parent, name, d, DirEntry(n, 0));
      LookupIsExact(g, st, root, d, n);
      if Resolve(st, d, n).Some? {
        assert SlotOk(g, st.table[i]);
        ClaimNumbers(g, st, i, claimed, parent, name, Resolve(st, d, n).value);
      }
      KeptResolves(g, st, st', root, d, n);
    }
  }

  lemma CreateResolves(g: Geometry, st: State, root: nat, op: Op, d: nat, n: Name)
    requires Inv(g, st) && Named(st, root) && Backed(st) && Enabled(g, st, op) && Roomy(g, st, op)
    requires op.Create? || op.Mkdir?
    requires DirSlot(st, d) && LegalName(n)
    ensures d < |Next(g, st, op).table| && Resolve(Next(g, st, op), d, n) == ResolveAfter(st, op, d, n)
  {
    NextKeepsInv(g, st, op);
    NextKeepsNamed(g, st, root, op);
    if FreeSlotFrom(st.table, 0).Some? {
      var i := FreeSlotFrom(st.table, 0).value;
      assert SlotOk(g, st.table[i]);
      var claimed := if op.Create? then ClaimedFile(st.table[i], op.ino, op.mode)
                     else ClaimedDir(st.table[i], op.ino, op.perm, st.table[op.parent].ino);
      ClaimResolves(g, st, root, i, claimed, op.parent, op.name, d, n);
    } else if d == op.parent && n == op.name {
      Decide(g, st, root, d, n, None);
    }
  }

  /** A directory just made holds no names. */
  lemma NewDirectoryIsEmpty(g: Geometry, st: State, op: Op, n: Name)
    requires Inv(g, st) && Enabled(g, st, op) && op.Mkdir? && LegalName(n)
    requires FreeSlotFrom(st.table, 0).Some?
    ensures var i, st' := FreeSlotFrom(st.table, 0).value, Next(g, st, op);
      DirSlot(st', i) && Resolve(st', i, n).None?
  {
    assert SlotOk(g, st.table[FreeSlotFrom(st.table, 0).value]);
  }

  // ---------------------------------------------------------------- unlink and rmdir

  lemma RemovedEntries(entries: seq<DirEntry>, name: Name, x: DirEntry)
    requires LegalName(x.name)
    ensures x in RemoveEntry(entries, name) <==> x in entries && x.name != name
  {
    if x in entries && x.name != name {
      var k :| 0 <= k < |entries| && entries[k] == x;
      assert RemoveEntry(entries, name)[k] == x;
    }
    if x in RemoveEntry(entries, name) {
      var k :| 0 <= k < |entries| && RemoveEntry(entries, name)[k] == x;
      assert entries[k] == x;
    }
  }

  /** The slot of a positive dentry is named by no other entry. */
  lemma NamedElsewhere(st: State, root: nat, parent: nat, name: Name, c: nat, d: nat, n: Name)
    requires Named(st, root) && NamedBy(st, parent, name, c) && NamedBy(st, d, n, c)
    ensures d == parent && n == name
  {
    var k :| 0 <= k < |NamesOf(st.table[parent])| && NamesOf(st.table[parent])[k] == DirEntry(name, st.table[c].ino);
    var k' :| 0 <= k' < |NamesOf(st.table[d])| && NamesOf(st.table[d])[k'] == DirEntry(n, st.table[c].ino);
    assert Ent(st, parent, k) == st.table[c].ino && Ent(st, d, k') == st.table[c].ino;
  }

  lemma DropResolves(g: Geometry, st: State, root: nat, used: set<nat>, c: nat, parent: nat, name: Name, d: nat, n: Name)
    requires Inv(g, st) && Named(st, root) && NamedBy(st, parent, name, c) && c != parent
    requires DirSlot(st, d) && d != c && LegalName(n) && st.table[parent].names.Some?
    requires var st' := DropName(g, State(used, st.table[c := EMPTY_SLOT], st.store), parent, name);
      Inv(g, st') && Named(st', root)
    ensures var st' := DropName(g, State(used, st.table[c := EMPTY_SLOT], st.store), parent, name);
      && d < |st'.table|
      && Resolve(st', d, n) == if d == parent && n == name then None else Resolve(st, d, n)
  {
    var st' := DropName(g, State(used, st.table[c := EMPTY_SLOT], st.store), parent, name);
    DropView(g, st, used, c, parent, name);
    forall x: DirEntry | LegalName(x.name)
      ensures x in NamesOf(st'.table[d]) <==> x in NamesOf(st.table[d]) && (d != parent || x.name != name)
    {
      RemovedEntries(NamesOf(st.table[parent]), name, x);
    }
    if d == parent && n == name {
      Decide(g, st', root, d, n, None);
    } else {
      LookupIsExact(g, st, root, d, n);
      if Resolve(st, d, n) == Some(c) {
        NamedElsewhere(st, root, parent, name, c, d, n);
      }
      KeptResolves(g, st, st', root, d, n);
    }
  }

  lemma RemoveResolves(g: Geometry, st: State, root: nat, op: Op, d: nat, n: Name)
    requires Inv(g, st) && Named(st, root) && Backed(st) && Enabled(g, st, op) && (op.Unlink? || op.Rmdir?)
    requires DirSlot(st, d) && LegalName(n) && (Removes(st, op) ==> d != op.slot)
    ensures d < |Next(g, st, op).table| && Resolve(Next(g, st, op), d, n) == ResolveAfter(st, op, d, n)
  {
    NextKeepsInv(g, st, op);
    NextKeepsNamed(g, st, root, op);
    var s := st.table[op.slot];
    assert st.table[op.parent].names.Some?;
    if op.Rmdir? {
      AllFreeIsEmpty(NamesOf(s));
    }
    if op.Unlink? {
      DropResolves(g, st, root, st.used - BlocksOf(s.extents), op.slot, op.parent, op.name, d, n);
    } else if LooksEmpty(s) {
      var used := if s.dirBlock != 0 then st.used - {s.dirBlock} else st.used;
      DropResolves(g, st, root, used, op.slot, op.parent, op.name, d, n);
    }
  }

  /** rmdir frees the slot of a directory without a block or without names, and its name no longer
      resolves; it leaves any other as it is. */
  lemma RmdirIff(g: Geometry, st: State, root: nat, parent: nat, name: Name, c: nat)
    requires Inv(g, st) && Named(st, root) && Backed(st) && Enabled(g, st, Rmdir(parent, name, c))
    ensures var st', dir := Next(g, st, Rmdir(parent, name, c)), st.table[c];
      && |st'.table| == |st.table|
      && (if dir.dirBlock == 0 || ToMap(NamesOf(dir)) == map[]
          then st'.table[c].mode == 0 && Resolve(st', parent, name).None?
          else st' == st && Resolve(st', parent, name) == Some(c))
  {
    var op := Rmdir(parent, name, c);
    NextResolves(g, st, root, op, parent, name);
    AllFreeIsEmpty(NamesOf(st.table[c]));
    Decide(g, st, root, parent, name, Some(c));
  }

  // ---------------------------------------------------------------- the other operations

  lemma LookupEntries(g: Geometry, st: State, op: Op, d: nat, x: DirEntry)
    requires Enabled(g, st, op) && op.Lookup? && d < |st.table| && LegalName(x.name)
    ensures var st' := Next(g, st, op);
      && |st'.table| == |st.table| && st'.table[d].mode == st.table[d].mode && st'.table[d].ino == st.table[d].ino
      && (x in NamesOf(st'.table[d]) <==> x in NamesOf(st.table[d]))
  {
    LoadedEntries(g, st.used, st.table[op.parent], x);
  }

  lemma LookupResolves(g: Geometry, st: State, root: nat, op: Op, d: nat, n: Name)
    requires Inv(g, st) && Named(st, root) && Backed(st) && Enabled(g, st, op) && op.Lookup?
    requires DirSlot(st, d) && LegalName(n)
    ensures d < |Next(g, st, op).table| && Resolve(Next(g, st, op), d, n) == Resolve(st, d, n)
  {
    NextKeepsInv(g, st, op);
    NextKeepsNamed(g, st, root, op);
    LookupEntries(g, st, op, d, DirEntry(n, 0));
    forall x: DirEntry | x.name == n
      ensures x in NamesOf(Next(g, st, op).table[d]) <==> x in NamesOf(st.table[d])
    {
      LookupEntries(g, st, op, d, x);
    }
    LookupIsExact(g, st, root, d, n);
    if Resolve(st, d, n).Some? {
      LookupEntries(g, st, op, Resolve(st, d, n).value, DirEntry(n, 0));
    }
    KeptResolves(g, st, Next(g, st, op), root, d, n);
  }

  lemma FileOpResolves(g: Geometry, st: State, root: nat, op: Op, d: nat, n: Name)
    requires Inv(g, st) && Named(st, root) && Backed(st) && Enabled(g, st, op)
    requires op.Write? || op.Read? || op.SetSize? || op.Release?
    requires DirSlot(st, d) && LegalName(n)
    ensures d < |Next(g, st, op).table| && Resolve(Next(g, st, op), d, n) == Resolve(st, d, n)
  {
    NextKeepsInv(g, st, op);
    NextKeepsNamed(g, st, root, op);
    LookupIsExact(g, st, root, d, n);
    FileOpsKeepGraph(g, st, op, d);
    if Resolve(st, d, n).Some? {
      FileOpsKeepGraph(g, st, op, Resolve(st, d, n).value);
    }
    KeptResolves(g, st, Next(g, st, op), root, d, n);
  }

  /** The effect of any operation on any lookup in any directory that is still there. */
  lemma NextResolves(g: Geometry, st: State, root: nat, op: Op, d: nat, n: Name)
    requires Inv(g, st) && Named(st, root) && Backed(st) && Enabled(g, st, op) && Roomy(g, st, op)
    requires DirSlot(st, d) && LegalName(n) && (Removes(st, op) ==> d != op.slot)
    ensures d < |Next(g, st, op).table| && Resolve(Next(g, st, op), d, n) == ResolveAfter(st, op, d, n)
  {
    if op.Create? || op.Mkdir? {
      CreateResolves(g, st, root, op, d, n);
    } else if op.Unlink? || op.Rmdir? {
      RemoveResolves(g, st, root, op, d, n);
    } else if op.Lookup? {
      LookupResolves(g, st, root, op, d, n);
    } else {
      FileOpResolves(g, st, root, op, d, n);
    }
  }
}
