/** Values shared by every component: extents, file-table entries, geometry, error codes,
    and the 32-bit product that address computations in the kernel module are made of. */
module Types {

  datatype Option<+T> = None | Some(value: T)

  newtype byte = x: int | 0 <= x < 256

  const DIRECT_EXTENTS: nat := 4
  const MAX_EXTENT_LENGTH: nat := 1024
  const U32: nat := 0x1_0000_0000

  const EIO: int := 5
  const EFAULT: int := 14
  const EINVAL: int := 22
  const ENOSPC: int := 28
  const ENOTDIR: int := 20
  const ENOTEMPTY: int := 39

  /** The product of two `uint32_t` values, as C computes it. */
  function Mul32(a: nat, b: nat): nat {
    (a * b) % U32
  }

  // ---------------------------------------------------------------- extents

  datatype Extent = Extent(start: nat, length: nat)

  function Range(lo: nat, hi: nat): (r: set<nat>)
    ensures forall b: nat :: b in r <==> lo <= b < hi
    decreases hi - lo
  {
    if lo >= hi then {} else {lo} + Range(lo + 1, hi)
  }

  function Blocks(e: Extent): (r: set<nat>)
    ensures forall b: nat :: b in r <==> e.start <= b < e.start + e.length
  {
    Range(e.start, e.start + e.length)
  }

  function BlocksOf(s: seq<Extent>): set<nat> {
    set e, b | e in s && b in Blocks(e) :: b
  }

  predicate Apart(a: Extent, b: Extent) {
    a.start + a.length <= b.start || b.start + b.length <= a.start
  }

  ghost predicate PairwiseApart(s: seq<Extent>) {
    forall i, j | 0 <= i < j < |s| :: Apart(s[i], s[j])
  }

  function TotalLength(s: seq<Extent>): nat {
    if s == [] then 0 else TotalLength(s[..|s| - 1]) + s[|s| - 1].length
  }

  lemma {:induction false} TotalLengthConcat(s: seq<Extent>, t: seq<Extent>)
    ensures TotalLength(s + t) == TotalLength(s) + TotalLength(t)
  {
    if t == [] {
      assert s + t == s;
    } else {
      TotalLengthConcat(s, t[..|t| - 1]);
      assert (s + t)[..|s + t| - 1] == s + t[..|t| - 1];
    }
  }

  lemma BlocksOfConcat(s: seq<Extent>, t: seq<Extent>)
    ensures BlocksOf(s + t) == BlocksOf(s) + BlocksOf(t)
  {
  }

  // ---------------------------------------------------------------- geometry

  /** The superblock fields the block layer depends on; all offsets are in blocks. */
  datatype Geometry = Geometry(
    blockSize: nat,
    totalBlocks: nat,
    filetableStart: nat,
    filetableSize: nat,
    bitmapStart: nat,
    bitmapSize: nat,
    dataStart: nat,
    maxFiles: nat)

  /** What the module needs of a superblock: the regions are in order, block numbers fit the
      `int` loop counters, and extent counts fit the 16-bit field. */
  predicate ValidGeometry(g: Geometry) {
    && 0 < g.blockSize <= 0x1_0000
    && 0 < g.dataStart < g.totalBlocks < 0x8000_0000
    && g.filetableStart + g.filetableSize <= g.bitmapStart
    && g.bitmapStart + g.bitmapSize <= g.dataStart
    && g.totalBlocks <= g.bitmapSize * g.blockSize * 8
    && g.maxFiles * 52 <= g.filetableSize * g.blockSize
    && 0 < g.filetableStart
  }

  function MaxExtents(g: Geometry): nat
    requires g.blockSize > 0
  {
    DIRECT_EXTENTS + g.blockSize / 8
  }
}
