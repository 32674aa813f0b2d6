/** Every file as one byte sequence over whole runs: a model of contents that is told of each
    operation only whether it succeeded, nothing of blocks, extents or the storage, and the proof
    that the filesystem always agrees with it. */
module History {
  import opened Types
  import opened Translation
  import opened Spec
  import opened Ownership
  import opened Contents

  /** The bytes of a file, as far as its operations determine them: the code does not clear the
      bytes it extends a file by. */
  type Known = seq<Option<byte>>

  function Unknown(n: nat): (r: Known)
    ensures |r| == n
  {
    seq(n, _ => None)
  }

  function Exactly(data: seq<byte>): (r: Known)
    ensures |r| == |data| && forall i | 0 <= i < |data| :: r[i] == Some(data[i])
  {
    seq(|data|, i requires 0 <= i < |data| => Some(data[i]))
  }

  ghost predicate Agrees(m: Known, content: seq<byte>) {
    |m| == |content| && forall i | 0 <= i < |m| && m[i].Some? :: m[i].value == content[i]
  }

  /** A write of `data` at `pos`; beyond the end it leaves a gap. */
  function Overwritten(m: Known, pos: nat, data: seq<byte>): Known {
    if pos <= |m| then m[..pos] + Exactly(data) + m[Min(pos + |data|, |m|)..]
    else m + Unknown(pos - |m|) + Exactly(data)
  }

  /** A write that failed on the way: the bytes in its range may be old or new. */
  function Blurred(m: Known, pos: nat, count: nat): (r: Known)
    ensures |r| == |m|
  {
    seq(|m|, i requires 0 <= i < |m| => if pos <= i < pos + count then None else m[i])
  }

  /** What one operation does to the bytes of slot `j`. */
  ghost function Effect(g: Geometry, st: State, op: Op, j: nat, m: Known): Known
    requires Enabled(g, st, op) && j < |st.table|
  {
    if !Alters(op, j) then m
    else match op
      case Write(slot, at, data, append, landed) =>
        var pos, code := if append then |m| else at, WriteCode(g, st, slot, at, data, append, landed);
        if code == |data| then Overwritten(m, pos, data)
        else if code == -ENOSPC then m
        else Blurred(m, pos, |data|)
      case SetSize(slot, newSize) =>
        if newSize < |m| then []
        else if st.table[j].size <= newSize && CanExtend(g, st.used, st.table[j], newSize) then m + Unknown(newSize - |m|)
        else m
      case _ => []
  }

  // ---------------------------------------------------------------- one operation

  lemma OverwriteAgrees(m: Known, content: seq<byte>, pos: nat, data: seq<byte>, content': seq<byte>)
    requires Agrees(m, content)
    requires pos <= |content| ==> content' == content[..pos] + data + content[Min(pos + |data|, |content|)..]
    requires pos > |content| ==>
      |content'| == pos + |data| && content'[..|content|] == content && content'[pos..] == data
    ensures Agrees(Overwritten(m, pos, data), content')
  {
    var r := Overwritten(m, pos, data);
    if pos > |content| {
      forall i | 0 <= i < |r| && r[i].Some? ensures r[i].value == content'[i] {
        if i < |content| {
          assert content'[i] == content'[..|content|][i];
        } else {
          assert i >= pos && content'[i] == content'[pos..][i - pos];
        }
      }
    }
  }

  lemma WriteSuccessAgrees(g: Geometry, st: State, op: Op, m: Known)
    requires Addressable(g) && Inv(g, st) && Enabled(g, st, op) && op.Write?
    requires Agrees(m, Content(g, st, op.slot))
    requires WriteCode(g, st, op.slot, op.pos, op.data, op.append, op.landed) == |op.data|
    ensures Inv(g, Next(g, st, op)) && op.slot < |Next(g, st, op).table|
    ensures Agrees(Overwritten(m, if op.append then |m| else op.pos, op.data),
                   Content(g, Next(g, st, op), op.slot))
  {
    var j, pos := op.slot, if op.append then |m| else op.pos;
    if pos <= st.table[j].size {
      WriteRefinesSplice(g, st, j, op.pos, op.data, op.append, op.landed);
    } else {
      WritePastEnd(g, st, j, op.pos, op.data, op.landed);
    }
    OverwriteAgrees(m, Content(g, st, j), pos, op.data, Content(g, Next(g, st, op), j));
  }

  lemma WriteFailureAgrees(g: Geometry, st: State, op: Op, m: Known)
    requires Addressable(g) && Inv(g, st) && Enabled(g, st, op) && op.Write?
    requires Agrees(m, Content(g, st, op.slot))
    requires WriteCode(g, st, op.slot, op.pos, op.data, op.append, op.landed) != |op.data|
    ensures Inv(g, Next(g, st, op)) && op.slot < |Next(g, st, op).table|
    ensures Agrees(Effect(g, st, op, op.slot, m), Content(g, Next(g, st, op), op.slot))
  {
    FailedWrite(g, st, op.slot, op.pos, op.data, op.append, op.landed);
  }

  lemma WriteAgrees(g: Geometry, st: State, op: Op, m: Known)
    requires Addressable(g) && Inv(g, st) && Enabled(g, st, op) && op.Write?
    requires Agrees(m, Content(g, st, op.slot))
    ensures Inv(g, Next(g, st, op)) && op.slot < |Next(g, st, op).table|
    ensures Agrees(Effect(g, st, op, op.slot, m), Content(g, Next(g, st, op), op.slot))
  {
    if WriteCode(g, st, op.slot, op.pos, op.data, op.append, op.landed) == |op.data| {
      WriteSuccessAgrees(g, st, op, m);
    } else {
      WriteFailureAgrees(g, st, op, m);
    }
  }

  lemma SetSizeAgrees(g: Geometry, st: State, op: Op, m: Known)
    requires Inv(g, st) && Enabled(g, st, op) && op.SetSize?
    requires Agrees(m, Content(g, st, op.slot))
    ensures Inv(g, Next(g, st, op)) && op.slot < |Next(g, st, op).table|
    ensures Agrees(Effect(g, st, op, op.slot, m), Content(g, Next(g, st, op), op.slot))
  {
    NextKeepsInv(g, st, op);
    var s := st.table[op.slot];
    if op.newSize < s.size {
      TruncateContent(g, st, op.slot);
    } else {
      ExtendContent(g, st, op.slot, op.newSize);
      var c, c' := Content(g, st, op.slot), Content(g, Next(g, st, op), op.slot);
      assert forall i | 0 <= i < |c| :: c'[i] == c'[..|c|][i];
    }
  }

  /** A slot that is no file, and one just unlinked or created, has no bytes. */
  lemma NoBytes(g: Geometry, st: State, op: Op, j: nat)
    requires Inv(g, st) && Enabled(g, st, op) && j < |st.table|
    requires !IsReg(st.table[j].mode) || (op.Unlink? && op.slot == j)
    ensures Inv(g, Next(g, st, op)) && j < |Next(g, st, op).table|
    ensures Next(g, st, op).table[j].size == 0 && (!IsReg(st.table[j].mode) ==> st.table[j].size == 0)
  {
    NextKeepsInv(g, st, op);
    assert SlotOk(g, st.table[j]);
    if op.Create? || op.Mkdir? {
      ClaimLeavesEmpty(g, st, op, j);
    } else if op.Unlink? || op.Rmdir? || op.Lookup? {
      DropLeavesEmpty(g, st, op, j);
    }
  }

  lemma ClaimLeavesEmpty(g: Geometry, st: State, op: Op, j: nat)
    requires Enabled(g, st, op) && (op.Create? || op.Mkdir?) && j < |st.table| && st.table[j].size == 0
    ensures j < |Next(g, st, op).table| && Next(g, st, op).table[j].size == 0
  {
  }

  lemma DropLeavesEmpty(g: Geometry, st: State, op: Op, j: nat)
    requires Enabled(g, st, op) && (op.Unlink? || op.Rmdir? || op.Lookup?) && j < |st.table|
    requires st.table[j].size == 0 || (op.Unlink? && op.slot == j)
    ensures j < |Next(g, st, op).table| && Next(g, st, op).table[j].size == 0
  {
    assert op.Unlink? ==> op.slot != op.parent;
  }

  /** Every operation does to every file's content what the model says. */
  lemma NextAgrees(g: Geometry, st: State, op: Op, j: nat, m: Known)
    requires Addressable(g) && Inv(g, st) && Enabled(g, st, op) && j < |st.table|
    requires Agrees(m, Content(g, st, j))
    ensures Inv(g, Next(g, st, op)) && j < |Next(g, st, op).table|
    ensures Agrees(Effect(g, st, op, j, m), Content(g, Next(g, st, op), j))
  {
    if !IsReg(st.table[j].mode) || (op.Unlink? && op.slot == j) {
      NoBytes(g, st, op, j);
    } else if !Alters(op, j) {
      NextKeepsContent(g, st, op, j);
    } else if op.Write? {
      WriteAgrees(g, st, op, m);
    } else {
      SetSizeAgrees(g, st, op, m);
    }
  }

  // ---------------------------------------------------------------- whole runs

  /** The model carried along a run. */
  ghost function Along(g: Geometry, st: State, ops: seq<Op>, j: nat, m: Known): Known
    requires Inv(g, st) && Runnable(g, st, ops) && j < |st.table|
    decreases |ops|
  {
    if ops == [] then m
    else
      NextKeepsInv(g, st, ops[0]);
      Along(g, Next(g, st, ops[0]), ops[1..], j, Effect(g, st, ops[0], j, m))
  }

  lemma {:induction false} RunAgrees(g: Geometry, st: State, ops: seq<Op>, j: nat, m: Known)
    requires Addressable(g) && Inv(g, st) && Runnable(g, st, ops) && j < |st.table|
    requires Agrees(m, Content(g, st, j))
    ensures Inv(g, Run(g, st, ops)) && j < |Run(g, st, ops).table|
    ensures Agrees(Along(g, st, ops, j, m), Content(g, Run(g, st, ops), j))
    decreases |ops|
  {
    if ops != [] {
      NextAgrees(g, st, ops[0], j, m);
      RunAgrees(g, Next(g, st, ops[0]), ops[1..], j, Effect(g, st, ops[0], j, m));
    }
  }

  /** Scattered storage is one byte sequence per file: after any run from a fresh filesystem, of
      any operations on any files, with or without failures, every slot has the length the model
      has and every byte the model knows. */
  lemma ContentIsHistory(g: Geometry, st: State, ops: seq<Op>, j: nat)
    requires Addressable(g) && Fresh(g, st) && Runnable(g, st, ops) && j < |st.table|
    ensures Inv(g, st) && Inv(g, Run(g, st, ops)) && j < |Run(g, st, ops).table|
    ensures Agrees(Along(g, st, ops, j, []), Content(g, Run(g, st, ops), j))
  {
    FreshIsInv(g, st);
    assert st.table[j].size == 0;
    RunAgrees(g, st, ops, j, []);
  }
}
