/** Where every field lies on disk, byte by byte: the encodings and decodings of Codec against the
    packed structures of common/shared_structs.h and kernel/directory.h. */
module DiskFormat {
  import opened Types
  import opened Names
  import opened Spec
  import opened Codec

  // ---------------------------------------------------------------- big-endian fields

  function Word16(b: seq<byte>, at: nat): nat
    requires at + 2 <= |b|
  {
    b[at] as nat * 0x100 + b[at + 1] as nat
  }

  function Word32(b: seq<byte>, at: nat): nat
    requires at + 4 <= |b|
  {
    b[at] as nat * 0x100_0000 + b[at + 1] as nat * 0x1_0000 + b[at + 2] as nat * 0x100 + b[at + 3] as nat
  }

  function Word64(b: seq<byte>, at: nat): nat
    requires at + 8 <= |b|
  {
    Word32(b, at) * 0x1_0000_0000 + Word32(b, at + 4)
  }

  lemma NextByte(b: seq<byte>, at: nat, n: nat)
    requires at + n + 1 <= |b|
    ensures UnBE(b[at..at + n + 1]) == UnBE(b[at..at + n]) * 0x100 + b[at + n] as nat
  {
    assert b[at..at + n + 1][..n] == b[at..at + n];
  }

  lemma UnBE16(b: seq<byte>, at: nat)
    requires at + 2 <= |b|
    ensures UnBE(b[at..at + 2]) == Word16(b, at)
  {
    NextByte(b, at, 0);
    NextByte(b, at, 1);
  }

  lemma UnBE32(b: seq<byte>, at: nat)
    requires at + 4 <= |b|
    ensures UnBE(b[at..at + 4]) == Word32(b, at)
  {
    UnBE16(b, at);
    NextByte(b, at, 2);
    NextByte(b, at, 3);
  }

  lemma UnBE64(b: seq<byte>, at: nat)
    requires at + 8 <= |b|
    ensures UnBE(b[at..at + 8]) == Word64(b, at)
  {
    UnBE32(b, at);
    NextByte(b, at, 4);
    NextByte(b, at, 5);
    NextByte(b, at, 6);
    NextByte(b, at, 7);
  }

  lemma StoredAt(n: nat, width: nat, b: seq<byte>, at: nat)
    requires width == 2 || width == 4 || width == 8
    requires n < Pow256(width) && at + width <= |b| && b[at..at + width] == BE(n, width)
    ensures width == 2 ==> Word16(b, at) == n
    ensures width == 4 ==> Word32(b, at) == n
    ensures width == 8 ==> Word64(b, at) == n
  {
    BERoundTrip(n, width);
    if width == 2 {
      UnBE16(b, at);
    } else if width == 4 {
      UnBE32(b, at);
    } else {
      UnBE64(b, at);
    }
  }

  // ---------------------------------------------------------------- file-table entries

  lemma HeaderLayout(s: Slot, prior: seq<byte>)
    requires Encodable(s) && (IsReg(s.mode) || IsDir(s.mode)) && |prior| == 52
    ensures var b := EncodeSlot(s, prior);
      Word32(b, 0) == s.ino && Word16(b, 4) == s.mode && Word64(b, 6) == s.size
  {
    var b := EncodeSlot(s, prior);
    Widths();
    assert b[0..4] == BE(s.ino, 4) && b[4..6] == BE(s.mode, 2) && b[6..14] == BE(s.size, 8);
    StoredAt(s.ino, 4, b, 0);
    StoredAt(s.mode, 2, b, 4);
    StoredAt(s.size, 8, b, 6);
  }

  /** struct disk_file_data: after the header the number of extents, the index block and the extents
      in use; the rest is what the buffer held. */
  lemma FileLayout(s: Slot, prior: seq<byte>)
    requires Encodable(s) && IsReg(s.mode) && |prior| == 52
    ensures var b := EncodeSlot(s, prior);
      && Word32(b, 0) == s.ino && Word16(b, 4) == s.mode && Word64(b, 6) == s.size
      && Word16(b, 14) == |s.extents| && Word32(b, 16) == s.extentsBlock
      && (forall k | 0 <= k < |s.extents| ::
            Word32(b, 20 + 8 * k) == s.extents[k].start && Word32(b, 24 + 8 * k) == s.extents[k].length)
      && b[20 + 8 * |s.extents|..] == prior[20 + 8 * |s.extents|..]
  {
    var b := EncodeSlot(s, prior);
    HeaderLayout(s, prior);
    Widths();
    assert b[14..16] == BE(|s.extents|, 2) && b[16..20] == BE(s.extentsBlock, 4);
    StoredAt(|s.extents|, 2, b, 14);
    StoredAt(s.extentsBlock, 4, b, 16);
    var head, rest := Header(s) + BE(|s.extents|, 2) + BE(s.extentsBlock, 4), prior[20 + 8 * |s.extents|..];
    assert b == head + BEExtents(s.extents) + rest;
    ExtentsLayout(head, s.extents, rest);
  }

  lemma ExtentsLayout(head: seq<byte>, s: seq<Extent>, rest: seq<byte>)
    requires |head| == 20 && forall e | e in s :: EncodableExtent(e)
    ensures var b := head + BEExtents(s) + rest;
      forall k | 0 <= k < |s| :: Word32(b, 20 + 8 * k) == s[k].start && Word32(b, 24 + 8 * k) == s[k].length
  {
    forall k | 0 <= k < |s|
      ensures var b := head + BEExtents(s) + rest;
        Word32(b, 20 + 8 * k) == s[k].start && Word32(b, 24 + 8 * k) == s[k].length
    {
      ExtentLayout(head, s, rest, k);
    }
  }

  lemma {:induction false} ExtentLayout(head: seq<byte>, s: seq<Extent>, rest: seq<byte>, k: nat)
    requires k < |s| && EncodableExtent(s[k])
    ensures var b := head + BEExtents(s) + rest;
      && Word32(b, |head| + 8 * k) == s[k].start && Word32(b, |head| + 8 * k + 4) == s[k].length
    decreases k
  {
    var b := head + BEExtents(s) + rest;
    if k == 0 {
      Widths();
      assert b[|head|..|head| + 4] == BE(s[0].start, 4) && b[|head| + 4..|head| + 8] == BE(s[0].length, 4);
      StoredAt(s[0].start, 4, b, |head|);
      StoredAt(s[0].length, 4, b, |head| + 4);
    } else {
      ExtentLayout(head + BEExtent(s[0]), s[1..], rest, k - 1);
      assert b == head + BEExtent(s[0]) + BEExtents(s[1..]) + rest;
    }
  }

  /** struct disk_dir_data: the block and the parent's number. */
  lemma DirLayout(s: Slot, prior: seq<byte>)
    requires Encodable(s) && IsDir(s.mode) && |prior| == 52
    ensures var b := EncodeSlot(s, prior);
      && Word32(b, 0) == s.ino && Word16(b, 4) == s.mode && Word64(b, 6) == s.size
      && Word32(b, 14) == s.dirBlock && Word32(b, 18) == s.parentIno
      && b[22..] == prior[22..]
  {
    var b := EncodeSlot(s, prior);
    HeaderLayout(s, prior);
    Widths();
    assert b[14..18] == BE(s.dirBlock, 4) && b[18..22] == BE(s.parentIno, 4);
    StoredAt(s.dirBlock, 4, b, 14);
    StoredAt(s.parentIno, 4, b, 18);
  }

  /** A free slot leaves its place in the buffer alone. */
  lemma FreeLayout(s: Slot, prior: seq<byte>)
    requires Encodable(s) && s.mode == 0 && |prior| == 52
    ensures EncodeSlot(s, prior) == prior
  {
  }

  /** The other direction: what a mount takes from any 52 bytes. */
  lemma DecodedLayout(b: seq<byte>, prior: Decoded)
    requires |b| == 52
    ensures var d := DecodeSlot(b, prior);
      && d.ino == 0 && d.mode == Word16(b, 4) && d.size == Word64(b, 6)
      && (IsReg(d.mode) ==>
            && d.extentCount == Word16(b, 14) && d.extentsBlock == Word32(b, 16) && |d.direct| == 4
            && (forall k | 0 <= k < 4 :: d.direct[k] == Extent(Word32(b, 20 + 8 * k), Word32(b, 24 + 8 * k)))
            && d.dirBlock == prior.dirBlock && d.parentIno == prior.parentIno)
      && (IsDir(d.mode) ==>
            && d.dirBlock == Word32(b, 14) && d.parentIno == Word32(b, 18)
            && d.extentCount == prior.extentCount && d.extentsBlock == prior.extentsBlock && d.direct == prior.direct)
  {
    InoLoadsAsZero(b[..4]);
    UnBE16(b, 4);
    UnBE64(b, 6);
    UnBE16(b, 14);
    UnBE32(b, 16);
    UnBE32(b, 14);
    UnBE32(b, 18);
    forall k | 0 <= k < 4
      ensures UnBEExtents(b[20..], 4)[k] == Extent(Word32(b, 20 + 8 * k), Word32(b, 24 + 8 * k))
    {
      DecodedExtent(b, 20, 4, k);
    }
  }

  lemma {:induction false} DecodedExtent(b: seq<byte>, at: nat, n: nat, k: nat)
    requires k < n && |b| == at + 8 * n
    ensures UnBEExtents(b[at..], n)[k] == Extent(Word32(b, at + 8 * k), Word32(b, at + 8 * k + 4))
    decreases k
  {
    if k == 0 {
      UnBE32(b, at);
      UnBE32(b, at + 4);
      assert b[at..][..8][..4] == b[at..at + 4] && b[at..][..8][4..] == b[at + 4..at + 8];
    } else {
      DecodedExtent(b, at + 8, n - 1, k - 1);
      assert b[at..][8..] == b[at + 8..];
    }
  }

  // ---------------------------------------------------------------- directory blocks and the superblock

  /** struct disk_dir_entry: 64 bytes of name, padded with zeros, and the number. */
  ghost predicate EntryAt(b: seq<byte>, at: nat, e: DirEntry) {
    && at + 68 <= |b|
    && (forall i | 0 <= i < 64 :: b[at + i] == if i < |e.name| then e.name[i] else 0)
    && Word32(b, at + 64) == e.ino
  }

  lemma EntryLayout(e: DirEntry)
    requires EncodableName(e)
    ensures EntryAt(EncodeDirEntry(e), 0, e)
  {
    var b := EncodeDirEntry(e);
    Widths();
    assert b[64..68] == BE(e.ino, 4);
    StoredAt(e.ino, 4, b, 64);
  }

  /** Entry `k` of a directory block. */
  lemma {:induction false} NamesLayout(entries: seq<DirEntry>, k: nat)
    requires AllEncodable(entries) && k < |entries|
    ensures EntryAt(EncodeNames(entries), 68 * k, entries[k])
  {
    var b := EncodeNames(entries);
    if k == 0 {
      EntryLayout(entries[0]);
      assert b[..68] == EncodeDirEntry(entries[0]);
      EntryMoves(b[..68], b[68..], [], 0, entries[0]);
      assert [] + b[..68] + b[68..] == b;
    } else {
      NamesLayout(entries[1..], k - 1);
      EntryMoves(b[68..], [], b[..68], 68 * (k - 1), entries[k]);
      assert b[..68] + b[68..] + [] == b;
    }
  }

  lemma EntryMoves(b: seq<byte>, rest: seq<byte>, head: seq<byte>, at: nat, e: DirEntry)
    requires EntryAt(b, at, e)
    ensures EntryAt(head + b + rest, |head| + at, e)
  {
    var r := head + b + rest;
    assert forall i | at <= i < at + 68 :: r[|head| + i] == b[i];
    assert Word32(r, |head| + at + 64) == Word32(b, at + 64);
  }

  /** struct portfs_disk_superblock. */
  lemma SuperLayout(s: Super)
    requires forall n | n in SuperWords(s) :: n < U32
    ensures var b := EncodeSuper(s);
      && |b| == 60
      && Word32(b, 0) == s.magic && Word32(b, 4) == s.geo.blockSize && Word32(b, 8) == s.geo.totalBlocks
      && Word32(b, 12) == s.geo.filetableStart && Word32(b, 16) == s.geo.filetableSize
      && Word32(b, 20) == s.geo.bitmapStart && Word32(b, 24) == s.geo.bitmapSize
      && Word32(b, 28) == s.geo.dataStart && Word32(b, 32) == s.geo.maxFiles && Word32(b, 36) == s.checksum
      && forall i | 40 <= i < 60 :: b[i] == 0
  {
    var b := EncodeSuper(s);
    SuperRoundTrip(s);
    SuperDecoded(b);
  }

  lemma SuperDecoded(b: seq<byte>)
    requires |b| == 60
    ensures DecodeSuper(b) == Super(
      Word32(b, 0),
      Geometry(Word32(b, 4), Word32(b, 8), Word32(b, 12), Word32(b, 16),
               Word32(b, 20), Word32(b, 24), Word32(b, 28), Word32(b, 32)),
      Word32(b, 36))
  {
    UnBE32(b, 0);
    UnBE32(b, 4);
    UnBE32(b, 8);
    UnBE32(b, 12);
    UnBE32(b, 16);
    UnBE32(b, 20);
    UnBE32(b, 24);
    UnBE32(b, 28);
    UnBE32(b, 32);
    UnBE32(b, 36);
  }
}
