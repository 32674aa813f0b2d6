/** The packed big-endian layout of common/shared_structs.h and kernel/directory.h, as a
    little-endian machine reads and writes it: encoding, decoding, and what survives both. */
module Codec {
  import opened Types
  import opened Names
  import opened Spec
  import opened Translation

  // ---------------------------------------------------------------- integers

  /** The `width` low bytes of `n`, most significant first: what cpu_to_beNN stores. */
  function BE(n: nat, width: nat): (r: seq<byte>)
    ensures |r| == width
  {
    if width == 0 then [] else BE(n / 256, width - 1) + [(n % 256) as byte]
  }

  /** Reading them back: beNN_to_cpu. */
  function UnBE(b: seq<byte>): nat {
    if b == [] then 0 else UnBE(b[..|b| - 1]) * 256 + b[|b| - 1] as nat
  }

  /** Reading the same bytes as a native little-endian integer, without conversion. */
  function UnLE(b: seq<byte>): nat {
    if b == [] then 0 else b[0] as nat + 256 * UnLE(b[1..])
  }

  function LE(n: nat, width: nat): (r: seq<byte>)
    ensures |r| == width
  {
    if width == 0 then [] else [(n % 256) as byte] + LE(n / 256, width - 1)
  }

  function Pow256(w: nat): nat {
    if w == 0 then 1 else 256 * Pow256(w - 1)
  }

  lemma {:induction false} BERoundTrip(n: nat, width: nat)
    requires n < Pow256(width)
    ensures UnBE(BE(n, width)) == n
  {
    if width > 0 {
      BERoundTrip(n / 256, width - 1);
      var b := BE(n, width);
      assert b[..|b| - 1] == BE(n / 256, width - 1);
    }
  }

  lemma Widths()
    ensures Pow256(2) == 0x1_0000 && Pow256(4) == U32 && Pow256(8) == 0x1_0000_0000_0000_0000
  {
    assert Pow256(2) == 0x1_0000;
    assert Pow256(4) == 256 * 256 * Pow256(2);
    assert Pow256(6) == 256 * 256 * Pow256(4);
    assert Pow256(8) == 256 * 256 * Pow256(6);
  }

  /** be64_to_cpu of a value held in 64 bits, then stored into 32. */
  function Swab64To32(x: nat): nat {
    UnBE(LE(x, 8)) % U32
  }

  /** The inode number as portfs_init_filetable decodes it: a 32-bit big-endian field, read as
      a native integer, byte-swapped as if it had 64 bits, cut to 32. */
  function DecodeIno(b: seq<byte>): nat {
    Swab64To32(UnLE(b))
  }

  lemma {:induction false} LEOfZero(width: nat)
    ensures forall i | 0 <= i < width :: LE(0, width)[i] == 0
  {
    if width > 0 {
      LEOfZero(width - 1);
    }
  }

  lemma {:induction false} LEPrefix(n: nat, a: nat, width: nat)
    requires n < Pow256(a) && a <= width
    ensures forall i | a <= i < width :: LE(n, width)[i] == 0
  {
    if a == 0 {
      LEOfZero(width);
    } else {
      LEPrefix(n / 256, a - 1, width - 1);
      assert LE(n, width)[1..] == LE(n / 256, width - 1);
    }
  }

  lemma {:induction false} UnBETrailingZeros(b: seq<byte>, z: nat)
    requires z <= |b| && forall i | |b| - z <= i < |b| :: b[i] == 0
    ensures UnBE(b) == UnBE(b[..|b| - z]) * Pow256(z)
  {
    if z == 0 {
      assert b[..|b|] == b;
    } else {
      var c := b[..|b| - 1];
      UnBETrailingZeros(c, z - 1);
      assert c[..|c| - (z - 1)] == b[..|b| - z];
      Regroup(UnBE(b[..|b| - z]), Pow256(z - 1));
    }
  }

  lemma Regroup(x: nat, y: nat)
    ensures x * y * 256 == x * (256 * y)
  {
  }

  lemma {:induction false} UnLEBound(b: seq<byte>)
    ensures UnLE(b) < Pow256(|b|)
  {
    if b != [] {
      UnLEBound(b[1..]);
    }
  }

  /** Whatever four bytes are stored, the decoded inode number is 0: the swapped value occupies
      the upper half of the 64 bits, and the lower half is kept. */
  lemma InoLoadsAsZero(b: seq<byte>)
    requires |b| == 4
    ensures DecodeIno(b) == 0
  {
    Widths();
    UnLEBound(b);
    UpperHalfOnly(UnLE(b));
  }

  lemma UpperHalfOnly(n: nat)
    requires n < Pow256(4)
    ensures Swab64To32(n) == 0
  {
    var stored := LE(n, 8);
    LEPrefix(n, 4, 8);
    UnBETrailingZeros(stored, 4);
    Widths();
    MultipleOf(UnBE(stored[..4]));
  }

  lemma MultipleOf(x: nat)
    ensures (x * U32) % U32 == 0
  {
  }

  // ---------------------------------------------------------------- file-table entries

  function BEExtent(e: Extent): (r: seq<byte>)
    ensures |r| == 8
  {
    BE(e.start, 4) + BE(e.length, 4)
  }

  function BEExtents(s: seq<Extent>): (r: seq<byte>)
    ensures |r| == 8 * |s|
  {
    if s == [] then [] else BEExtent(s[0]) + BEExtents(s[1..])
  }

  lemma {:induction false} BEExtentsAppend(s: seq<Extent>, e: Extent)
    ensures BEExtents(s + [e]) == BEExtents(s) + BEExtent(e)
  {
    if s != [] {
      assert (s + [e])[1..] == s[1..] + [e];
      BEExtentsAppend(s[1..], e);
    }
  }

  function Header(s: Slot): (r: seq<byte>)
    ensures |r| == 14
  {
    BE(s.ino, 4) + BE(s.mode, 2) + BE(s.size, 8)
  }

  function FileFields(s: Slot): (r: seq<byte>)
    ensures |r| == 6 + 8 * |s.extents|
  {
    BE(|s.extents|, 2) + BE(s.extentsBlock, 4) + BEExtents(s.extents)
  }

  function DirFields(s: Slot): (r: seq<byte>)
    ensures |r| == 8
  {
    BE(s.dirBlock, 4) + BE(s.parentIno, 4)
  }

  /** A slot's 52 bytes as the sync loop leaves them in its buffer, over what the buffer held:
      unused extent places, and free slots entirely, keep the old bytes. */
  function EncodeSlot(s: Slot, prior: seq<byte>): (r: seq<byte>)
    requires |prior| == 52 && |s.extents| <= DIRECT_EXTENTS
    ensures |r| == 52
  {
    if IsReg(s.mode) then Header(s) + FileFields(s) + prior[20 + 8 * |s.extents|..]
    else if IsDir(s.mode) then Header(s) + DirFields(s) + prior[22..]
    else prior
  }

  /** What the decoding loop reads from an entry's 52 bytes. */
  datatype Decoded = Decoded(
    ino: nat, mode: nat, size: nat,
    extentCount: nat, extentsBlock: nat, direct: seq<Extent>,
    dirBlock: nat, parentIno: nat)

  function UnBEExtent(b: seq<byte>): Extent
    requires |b| == 8
  {
    Extent(UnBE(b[..4]), UnBE(b[4..]))
  }

  function UnBEExtents(b: seq<byte>, n: nat): (r: seq<Extent>)
    requires |b| == 8 * n
    ensures |r| == n
  {
    if n == 0 then [] else [UnBEExtent(b[..8])] + UnBEExtents(b[8..], n - 1)
  }

  /** portfs_init_filetable's loop body; the fields of the other union member, and of a free
      slot's both, keep what the memory held. */
  function DecodeSlot(b: seq<byte>, prior: Decoded): Decoded
    requires |b| == 52
  {
    var d := prior.(ino := DecodeIno(b[..4]), mode := UnBE(b[4..6]), size := UnBE(b[6..14]));
    if IsReg(d.mode) then
      d.(extentCount := UnBE(b[14..16]), extentsBlock := UnBE(b[16..20]), direct := UnBEExtents(b[20..], 4))
    else if IsDir(d.mode) then
      d.(dirBlock := UnBE(b[14..18]), parentIno := UnBE(b[18..22]))
    else d
  }

  predicate EncodableExtent(e: Extent) {
    e.start < U32 && e.length < U32
  }

  /** The fields fit their widths on disk. */
  predicate Encodable(s: Slot) {
    && s.ino < U32 && s.mode < 0x1_0000 && s.size < 0x1_0000_0000_0000_0000
    && s.extentsBlock < U32 && s.dirBlock < U32 && s.parentIno < U32
    && |s.extents| <= DIRECT_EXTENTS
    && forall e | e in s.extents :: EncodableExtent(e)
  }

  lemma ExtentRoundTrip(e: Extent)
    requires EncodableExtent(e)
    ensures UnBEExtent(BEExtent(e)) == e
  {
    Widths();
    BERoundTrip(e.start, 4);
    BERoundTrip(e.length, 4);
    assert BEExtent(e)[..4] == BE(e.start, 4) && BEExtent(e)[4..] == BE(e.length, 4);
  }

  lemma Halves(a: seq<byte>, b: seq<byte>, c: seq<byte>)
    ensures (a + b + c)[..|a|] == a && (a + b + c)[|a|..] == b + c
  {
  }

  /** The encoded extents come back, in front of whatever follows them in the entry. */
  lemma {:induction false} ExtentsRoundTrip(s: seq<Extent>, rest: seq<byte>, n: nat)
    requires forall e | e in s :: EncodableExtent(e)
    requires |s| <= n && |rest| == 8 * (n - |s|)
    ensures UnBEExtents(BEExtents(s) + rest, n)[..|s|] == s
  {
    if s != [] {
      Halves(BEExtent(s[0]), BEExtents(s[1..]), rest);
      ExtentsRoundTrip(s[1..], rest, n - 1);
      ExtentRoundTrip(s[0]);
    }
  }

  lemma HeaderRoundTrip(s: Slot, tail: seq<byte>)
    requires Encodable(s)
    ensures var b := Header(s) + tail;
      && UnBE(b[4..6]) == s.mode && UnBE(b[6..14]) == s.size && UnBE(b[..4]) == s.ino
  {
    var b := Header(s) + tail;
    Widths();
    BERoundTrip(s.ino, 4);
    BERoundTrip(s.mode, 2);
    BERoundTrip(s.size, 8);
    assert b[..4] == BE(s.ino, 4) && b[4..6] == BE(s.mode, 2) && b[6..14] == BE(s.size, 8);
  }

  lemma FileFieldsAt(s: Slot, head: seq<byte>, rest: seq<byte>)
    requires Encodable(s) && |head| == 14
    ensures var b := head + (FileFields(s) + rest);
      && UnBE(b[14..16]) == |s.extents| && UnBE(b[16..20]) == s.extentsBlock
      && b[20..] == BEExtents(s.extents) + rest
  {
    var b := head + (FileFields(s) + rest);
    Widths();
    BERoundTrip(|s.extents|, 2);
    BERoundTrip(s.extentsBlock, 4);
    assert b[14..16] == BE(|s.extents|, 2) && b[16..20] == BE(s.extentsBlock, 4);
  }

  /** A regular file with at most four extents: everything but the inode number loads back. */
  lemma FileRoundTrip(s: Slot, prior: seq<byte>, memory: Decoded)
    requires Encodable(s) && IsReg(s.mode) && |prior| == 52
    ensures var d := DecodeSlot(EncodeSlot(s, prior), memory);
      && d.mode == s.mode && d.size == s.size
      && d.extentCount == |s.extents| && d.extentsBlock == s.extentsBlock
      && |d.direct| == DIRECT_EXTENTS && d.direct[..|s.extents|] == s.extents
      && d.ino == 0
  {
    var b := EncodeSlot(s, prior);
    var rest := prior[20 + 8 * |s.extents|..];
    HeaderRoundTrip(s, FileFields(s) + rest);
    assert b == Header(s) + (FileFields(s) + rest);
    FileFieldsAt(s, Header(s), rest);
    ExtentsRoundTrip(s.extents, rest, 4);
    InoLoadsAsZero(b[..4]);
  }

  lemma DirRoundTrip(s: Slot, prior: seq<byte>, memory: Decoded)
    requires Encodable(s) && IsDir(s.mode) && |prior| == 52
    ensures var d := DecodeSlot(EncodeSlot(s, prior), memory);
      && d.mode == s.mode && d.size == s.size
      && d.dirBlock == s.dirBlock && d.parentIno == s.parentIno
      && d.ino == 0
  {
    var b := EncodeSlot(s, prior);
    HeaderRoundTrip(s, DirFields(s) + prior[22..]);
    assert b == Header(s) + (DirFields(s) + prior[22..]);
    Widths();
    BERoundTrip(s.dirBlock, 4);
    BERoundTrip(s.parentIno, 4);
    assert b[14..18] == BE(s.dirBlock, 4) && b[18..22] == BE(s.parentIno, 4);
    InoLoadsAsZero(b[..4]);
  }

  /** The inode number survives a save and a load exactly when it is 0, which no slot in use
      has: after mounting, no slot carries the number its directory entry names. */
  lemma InoSurvivesIff(s: Slot, prior: seq<byte>, memory: Decoded)
    requires Encodable(s) && (IsReg(s.mode) || IsDir(s.mode)) && |prior| == 52
    ensures DecodeSlot(EncodeSlot(s, prior), memory).ino == s.ino <==> s.ino == 0
  {
    if IsReg(s.mode) {
      FileRoundTrip(s, prior, memory);
    } else {
      DirRoundTrip(s, prior, memory);
    }
  }

  // ---------------------------------------------------------------- the superblock

  /** The fields of the superblock that are set and read; the times and the flags stay 0. */
  datatype Super = Super(magic: nat, geo: Geometry, checksum: nat)

  const SUPER_SIZE: nat := 60

  function BEWords(ns: seq<nat>): (r: seq<byte>)
    ensures |r| == 4 * |ns|
  {
    if ns == [] then [] else BE(ns[0], 4) + BEWords(ns[1..])
  }

  lemma {:induction false} WordAt(ns: seq<nat>, rest: seq<byte>, k: nat)
    requires k < |ns| && ns[k] < U32
    ensures UnBE((BEWords(ns) + rest)[4 * k..4 * k + 4]) == ns[k]
  {
    Halves(BE(ns[0], 4), BEWords(ns[1..]), rest);
    var b := BEWords(ns) + rest;
    if k == 0 {
      Widths();
      BERoundTrip(ns[0], 4);
      assert b[0..4] == BE(ns[0], 4);
    } else {
      WordAt(ns[1..], rest, k - 1);
      assert b[4 * k..4 * k + 4] == b[4..][4 * (k - 1)..4 * (k - 1) + 4];
    }
  }

  function SuperWords(s: Super): (r: seq<nat>)
    ensures |r| == 10
  {
    [s.magic, s.geo.blockSize, s.geo.totalBlocks, s.geo.filetableStart, s.geo.filetableSize,
     s.geo.bitmapStart, s.geo.bitmapSize, s.geo.dataStart, s.geo.maxFiles, s.checksum]
  }

  /** portfs_sync_superblock fills the packed big-endian structure. */
  function EncodeSuper(s: Super): (r: seq<byte>)
    ensures |r| == SUPER_SIZE
  {
    BEWords(SuperWords(s)) + seq(20, _ => 0 as byte)
  }

  /** portfs_fill_superblock. */
  function DecodeSuper(b: seq<byte>): Super
    requires |b| == SUPER_SIZE
  {
    Super(UnBE(b[0..4]),
          Geometry(UnBE(b[4..8]), UnBE(b[8..12]), UnBE(b[12..16]), UnBE(b[16..20]),
                   UnBE(b[20..24]), UnBE(b[24..28]), UnBE(b[28..32]), UnBE(b[32..36])),
          UnBE(b[36..40]))
  }

  lemma SuperRoundTrip(s: Super)
    requires forall n | n in SuperWords(s) :: n < U32
    ensures DecodeSuper(EncodeSuper(s)) == s
  {
    var ns, rest := SuperWords(s), seq(20, _ => 0 as byte);
    forall k | 0 <= k < 10 ensures UnBE(EncodeSuper(s)[4 * k..4 * k + 4]) == ns[k] {
      assert ns[k] in ns;
      WordAt(ns, rest, k);
    }
    assert ns[0] == UnBE(EncodeSuper(s)[4 * 0..4 * 0 + 4]) && ns[1] == UnBE(EncodeSuper(s)[4 * 1..4 * 1 + 4]);
    assert ns[2] == UnBE(EncodeSuper(s)[4 * 2..4 * 2 + 4]) && ns[3] == UnBE(EncodeSuper(s)[4 * 3..4 * 3 + 4]);
    assert ns[4] == UnBE(EncodeSuper(s)[4 * 4..4 * 4 + 4]) && ns[5] == UnBE(EncodeSuper(s)[4 * 5..4 * 5 + 4]);
    assert ns[6] == UnBE(EncodeSuper(s)[4 * 6..4 * 6 + 4]) && ns[7] == UnBE(EncodeSuper(s)[4 * 7..4 * 7 + 4]);
    assert ns[8] == UnBE(EncodeSuper(s)[4 * 8..4 * 8 + 4]) && ns[9] == UnBE(EncodeSuper(s)[4 * 9..4 * 9 + 4]);
  }

  // ---------------------------------------------------------------- the index block

  /** portfs_write_file_data converts to big-endian; portfs_alloc_indirect_extents reads the
      same block back without converting. */
  function RawExtent(b: seq<byte>): Extent
    requires |b| == 8
  {
    Extent(UnLE(b[..4]), UnLE(b[4..]))
  }

  function RawExtents(b: seq<byte>, n: nat): (r: seq<Extent>)
    requires |b| >= 8 * n
    ensures |r| == n
  {
    if n == 0 then [] else [RawExtent(b[..8])] + RawExtents(b[8..], n - 1)
  }

  /** The two bytes a legal length leaves zero come first on disk and are read back as its low
      bytes: what is read is a multiple of 65536. */
  lemma LengthReadsLong(n: nat)
    requires 1 <= n <= MAX_EXTENT_LENGTH
    ensures UnLE(BE(n, 4)) >= 0x1_0000
  {
    var b := BE(n, 4);
    assert b == BE(n / 256, 3) + [(n % 256) as byte];
    assert BE(n / 256, 3) == BE(n / 256 / 256, 2) + [(n / 256 % 256) as byte];
    assert n / 256 / 256 == 0;
    assert BE(0, 2) == BE(0, 1) + [0] && BE(0, 1) == BE(0, 0) + [0];
    assert b == [0, 0, (n / 256 % 256) as byte, (n % 256) as byte];
    FourBytes(b);
  }

  lemma FourBytes(b: seq<byte>)
    requires |b| == 4
    ensures UnLE(b) == b[0] as nat + 256 * (b[1] as nat + 256 * (b[2] as nat + 256 * b[3] as nat))
  {
    assert UnLE(b) == b[0] as nat + 256 * UnLE(b[1..]);
    assert UnLE(b[1..]) == b[1] as nat + 256 * UnLE(b[2..]) by {
      assert b[1..][1..] == b[2..];
    }
    assert UnLE(b[2..]) == b[2] as nat + 256 * UnLE(b[3..]) by {
      assert b[2..][1..] == b[3..];
    }
    assert UnLE(b[3..]) == b[3] as nat + 256 * UnLE(b[3..][1..]);
    assert b[3..][1..] == [];
  }

  /** No extent a file can have survives: what comes back is not even a legal extent. */
  lemma IndexNeverReloads(g: Geometry, e: Extent)
    requires LegalExtent(g, e)
    ensures !LegalExtent(g, RawExtent(BEExtent(e))) && RawExtent(BEExtent(e)) != e
  {
    assert BEExtent(e)[4..] == BE(e.length, 4);
    LengthReadsLong(e.length);
  }

  /** Nor does any entry of a saved index block. */
  lemma {:induction false} IndexBlockReload(g: Geometry, s: seq<Extent>, rest: seq<byte>, k: nat)
    requires Legal(g, s) && k < |s|
    ensures !LegalExtent(g, RawExtents(BEExtents(s) + rest, |s|)[k])
  {
    Halves(BEExtent(s[0]), BEExtents(s[1..]), rest);
    if k == 0 {
      assert s[0] in s;
      IndexNeverReloads(g, s[0]);
    } else {
      IndexBlockReload(g, s[1..], rest, k - 1);
    }
  }

  // ---------------------------------------------------------------- directory blocks

  /** A name as strncpy lays it out in its 64 bytes, and as it is read back. */
  function PadName(n: Name): (r: seq<byte>)
    requires |n| <= MAX_NAME_LENGTH
    ensures |r| == MAX_NAME_LENGTH
  {
    n + seq(MAX_NAME_LENGTH - |n|, _ => 0 as byte)
  }

  function CString(b: seq<byte>): Name {
    if b == [] || b[0] == 0 then [] else [b[0]] + CString(b[1..])
  }

  lemma {:induction false} CStringOf(n: Name, rest: seq<byte>)
    requires 0 !in n && (rest == [] || rest[0] == 0)
    ensures CString(n + rest) == n
  {
    if n == [] {
      assert n + rest == rest;
    } else {
      assert (n + rest)[1..] == n[1..] + rest;
      CStringOf(n[1..], rest);
    }
  }

  function EncodeDirEntry(e: DirEntry): (r: seq<byte>)
    requires |e.name| <= MAX_NAME_LENGTH
    ensures |r| == 68
  {
    PadName(e.name) + BE(e.ino, 4)
  }

  function DecodeDirEntry(b: seq<byte>): DirEntry
    requires |b| == 68
  {
    DirEntry(CString(b[..MAX_NAME_LENGTH - 1]), UnBE(b[MAX_NAME_LENGTH..]))
  }

  predicate EncodableName(e: DirEntry) {
    |e.name| < MAX_NAME_LENGTH && 0 !in e.name && e.ino < U32
  }

  lemma DirEntryRoundTrip(e: DirEntry)
    requires EncodableName(e)
    ensures DecodeDirEntry(EncodeDirEntry(e)) == e
  {
    var b := EncodeDirEntry(e);
    Widths();
    BERoundTrip(e.ino, 4);
    assert b[MAX_NAME_LENGTH..] == BE(e.ino, 4);
    var rest := seq(MAX_NAME_LENGTH - 1 - |e.name|, _ => 0 as byte);
    assert b[..MAX_NAME_LENGTH - 1] == e.name + rest;
    CStringOf(e.name, rest);
  }

  predicate AllEncodable(entries: seq<DirEntry>) {
    forall i | 0 <= i < |entries| :: EncodableName(entries[i])
  }

  function EncodeNames(entries: seq<DirEntry>): (r: seq<byte>)
    requires AllEncodable(entries)
    ensures |r| == 68 * |entries|
  {
    if entries == [] then [] else EncodeDirEntry(entries[0]) + EncodeNames(entries[1..])
  }

  function DecodeNames(b: seq<byte>, n: nat): (r: seq<DirEntry>)
    requires |b| >= 68 * n
    ensures |r| == n
  {
    if n == 0 then [] else [DecodeDirEntry(b[..68])] + DecodeNames(b[68..], n - 1)
  }

  lemma {:induction false} EncodeNamesAppend(entries: seq<DirEntry>, e: DirEntry)
    requires AllEncodable(entries) && EncodableName(e)
    ensures AllEncodable(entries + [e])
    ensures EncodeNames(entries + [e]) == EncodeNames(entries) + EncodeDirEntry(e)
  {
    if entries != [] {
      assert (entries + [e])[1..] == entries[1..] + [e];
      EncodeNamesAppend(entries[1..], e);
    }
  }

  /** Writing a directory's slots and loading the block returns the same slots. */
  lemma {:induction false} NamesRoundTrip(entries: seq<DirEntry>, rest: seq<byte>)
    requires AllEncodable(entries)
    ensures DecodeNames(EncodeNames(entries) + rest, |entries|) == entries
  {
    if entries != [] {
      Halves(EncodeDirEntry(entries[0]), EncodeNames(entries[1..]), rest);
      NamesRoundTrip(entries[1..], rest);
      DirEntryRoundTrip(entries[0]);
    }
  }
}
