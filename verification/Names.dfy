/** kernel/directory.c: the fixed array of directory slots, and the finite map it stands for. */
module Names {
  import opened Types

  type Name = seq<byte>

  /** One directory slot; an inode number of 0 marks it free. */
  datatype DirEntry = DirEntry(name: Name, ino: nat)

  const MAX_NAME_LENGTH: nat := 64
  const FREE_ENTRY := DirEntry([], 0)

  /** get_max_dir_entries: a packed entry on disk takes 68 bytes. */
  function MaxDirEntries(g: Geometry): nat {
    g.blockSize / 68
  }

  function FreshEntries(g: Geometry): seq<DirEntry> {
    seq(MaxDirEntries(g), _ => FREE_ENTRY)
  }

  /** A name of a dentry: non-empty, short enough to be NUL-terminated in its slot. */
  predicate LegalName(n: Name) {
    0 < |n| < MAX_NAME_LENGTH && 0 !in n
  }

  /** Used slots have distinct legal names, free slots the empty name. */
  ghost predicate WellNamed(entries: seq<DirEntry>) {
    && (forall i | 0 <= i < |entries| ::
          if entries[i].ino == 0 then entries[i].name == [] else LegalName(entries[i].name))
    && forall i, j | 0 <= i < j < |entries| && entries[i].ino != 0 && entries[j].ino != 0 ::
         entries[i].name != entries[j].name
  }

  /** The directory as a map from names to inode numbers. */
  ghost function ToMap(entries: seq<DirEntry>): map<Name, nat>
    requires WellNamed(entries)
  {
    map i | 0 <= i < |entries| && entries[i].ino != 0 :: entries[i].name := entries[i].ino
  }

  /** The first slot from `i` on that satisfies `free`/`name`, as the loops search for it. */
  function FreeFrom(entries: seq<DirEntry>, i: nat): Option<nat>
    decreases |entries| - i
  {
    if i >= |entries| then None
    else if entries[i].ino == 0 then Some(i)
    else FreeFrom(entries, i + 1)
  }

  function NamedFrom(entries: seq<DirEntry>, name: Name, i: nat): Option<nat>
    decreases |entries| - i
  {
    if i >= |entries| then None
    else if entries[i].name == name then Some(i)
    else NamedFrom(entries, name, i + 1)
  }

  /** portfs_de_add's loop. A full directory is left as it is, and nothing is reported. */
  function AddEntry(entries: seq<DirEntry>, e: DirEntry): seq<DirEntry> {
    match FreeFrom(entries, 0)
    case None => entries
    case Some(i) => if i < |entries| then entries[i := e] else entries
  }

  /** portfs_de_remove's loop. */
  function RemoveEntry(entries: seq<DirEntry>, name: Name): seq<DirEntry> {
    seq(|entries|, i requires 0 <= i < |entries| =>
      if entries[i].name == name then FREE_ENTRY else entries[i])
  }

  predicate AllFree(entries: seq<DirEntry>) {
    forall i | 0 <= i < |entries| :: entries[i].ino == 0
  }

  lemma {:induction false} FreeFromFacts(entries: seq<DirEntry>, i: nat)
    ensures match FreeFrom(entries, i)
      case None => forall k | i <= k < |entries| :: entries[k].ino != 0
      case Some(f) => i <= f < |entries| && entries[f].ino == 0 &&
                      forall k | i <= k < f :: entries[k].ino != 0
    decreases |entries| - i
  {
    if i < |entries| && entries[i].ino != 0 {
      FreeFromFacts(entries, i + 1);
    }
  }

  lemma {:induction false} NamedFromFacts(entries: seq<DirEntry>, name: Name, i: nat)
    ensures match NamedFrom(entries, name, i)
      case None => forall k | i <= k < |entries| :: entries[k].name != name
      case Some(f) => i <= f < |entries| && entries[f].name == name &&
                      forall k | i <= k < f :: entries[k].name != name
    decreases |entries| - i
  {
    if i < |entries| && entries[i].name != name {
      NamedFromFacts(entries, name, i + 1);
    }
  }

  ghost predicate HasFreeSlot(entries: seq<DirEntry>) {
    exists i :: 0 <= i < |entries| && entries[i].ino == 0
  }

  lemma MapMembership(entries: seq<DirEntry>, i: nat)
    requires WellNamed(entries) && i < |entries| && entries[i].ino != 0
    ensures entries[i].name in ToMap(entries) && ToMap(entries)[entries[i].name] == entries[i].ino
  {
  }

  /** The slot that uses a mapped name. */
  lemma SlotOf(entries: seq<DirEntry>, n: Name) returns (i: nat)
    requires WellNamed(entries) && n in ToMap(entries)
    ensures i < |entries| && entries[i] == DirEntry(n, ToMap(entries)[n]) && entries[i].ino != 0
  {
    i :| 0 <= i < |entries| && entries[i].ino != 0 && entries[i].name == n;
  }

  lemma StoreIntoFree(entries: seq<DirEntry>, f: nat, e: DirEntry)
    requires WellNamed(entries) && LegalName(e.name) && e.ino != 0 && e.name !in ToMap(entries)
    requires f < |entries| && entries[f].ino == 0
    ensures WellNamed(entries[f := e])
    ensures ToMap(entries[f := e]) == ToMap(entries)[e.name := e.ino]
  {
    var added := entries[f := e];
    forall i | 0 <= i < |entries| && entries[i].ino != 0 ensures entries[i].name != e.name {
      MapMembership(entries, i);
    }
    assert WellNamed(added);
    var m, m' := ToMap(entries)[e.name := e.ino], ToMap(added);
    MapMembership(added, f);
    forall n | n in m ensures n in m' && m'[n] == m[n] {
      if n != e.name {
        var i := SlotOf(entries, n);
        MapMembership(added, i);
      }
    }
    forall n | n in m' ensures n in m {
      var i := SlotOf(added, n);
      if i != f {
        MapMembership(entries, i);
      }
    }
  }

  /** Adding a fresh legal name is map update when a slot is free, and does nothing at all to
      the directory when none is, although the caller is told it succeeded. */
  lemma AddIsUpdate(entries: seq<DirEntry>, e: DirEntry)
    requires WellNamed(entries) && LegalName(e.name) && e.ino != 0 && e.name !in ToMap(entries)
    ensures WellNamed(AddEntry(entries, e))
    ensures ToMap(AddEntry(entries, e)) ==
            if HasFreeSlot(entries) then ToMap(entries)[e.name := e.ino] else ToMap(entries)
  {
    FreeFromFacts(entries, 0);
    if HasFreeSlot(entries) {
      StoreIntoFree(entries, FreeFrom(entries, 0).value, e);
    }
  }

  /** Finding a name is map lookup: the slot found holds the map's inode number. */
  lemma FindIsLookup(entries: seq<DirEntry>, name: Name)
    requires WellNamed(entries) && LegalName(name)
    ensures match NamedFrom(entries, name, 0)
      case None => name !in ToMap(entries)
      case Some(i) => i < |entries| && name in ToMap(entries) && ToMap(entries)[name] == entries[i].ino
  {
    NamedFromFacts(entries, name, 0);
    match NamedFrom(entries, name, 0) {
      case None =>
      case Some(i) => MapMembership(entries, i);
    }
  }

  lemma RemovedWellNamed(entries: seq<DirEntry>, name: Name)
    requires WellNamed(entries) && LegalName(name)
    ensures WellNamed(RemoveEntry(entries, name))
  {
  }

  /** Removing a name is map removal. */
  lemma RemoveIsRemoval(entries: seq<DirEntry>, name: Name)
    requires WellNamed(entries) && LegalName(name)
    ensures WellNamed(RemoveEntry(entries, name))
    ensures ToMap(RemoveEntry(entries, name)) == ToMap(entries) - {name}
  {
    var removed := RemoveEntry(entries, name);
    RemovedWellNamed(entries, name);
    var m, m' := ToMap(entries) - {name}, ToMap(removed);
    forall n | n in m ensures n in m' && m'[n] == m[n] {
      var i := SlotOf(entries, n);
      MapMembership(removed, i);
    }
    forall n | n in m' ensures n in m {
      var i := SlotOf(removed, n);
      MapMembership(entries, i);
    }
  }

  lemma AllFreeIsEmpty(entries: seq<DirEntry>)
    requires WellNamed(entries)
    ensures AllFree(entries) <==> ToMap(entries) == map[]
  {
    if !AllFree(entries) {
      var i :| 0 <= i < |entries| && entries[i].ino != 0;
      MapMembership(entries, i);
    }
  }
}
