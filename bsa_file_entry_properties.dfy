/** What extraction of a BSA entry promises, stated about `Resolve`: where
    the payload starts, how long it is, and which routine receives it. */
module BsaUtilProperties {
  import opened FixedWidth
  import opened Streams
  import opened BsaUtil

  /** Two unchecked `ulong` subtractions in a row wrap like one subtraction
      of the sum. */
  lemma Sub64Twice(a: u64, b: u64, c: u64)
    ensures Sub64(Sub64(a, b), c) == (a - b - c) % TWO_64
  {
    var d := Sub64(a, b);
    if b <= a {
      assert d == a - b;
    } else {
      assert d == a - b + TWO_64;
      if c <= d {
        assert Sub64(d, c) == a - b - c + TWO_64;
        assert -TWO_64 <= a - b - c < 0;
      } else {
        assert Sub64(d, c) == a - b - c + 2 * TWO_64;
        assert -2 * TWO_64 <= a - b - c < -TWO_64;
      }
    }
  }

  /** Keeping the low 32 bits of a value already reduced modulo 2^64 is
      keeping the low 32 bits of the value. */
  lemma LowBitsOfWrapped(n: int)
    ensures ToU32(n % TWO_64) == n % TWO_32
  {
    var t := n % TWO_64;
    assert n == TWO_64 * (n / TWO_64) + t;
    assert t == TWO_32 * (t / TWO_32) + t % TWO_32;
    assert n == TWO_32 * (TWO_32 * (n / TWO_64) + t / TWO_32) + t % TWO_32;
  }

  /** The `ulong` bookkeeping of the Skyrim SE branch: subtracting the
      name blob and then the header, each only when present, wraps like
      one subtraction of both; its low 32 bits wrap modulo 2^32. */
  lemma SeWrapArithmetic(m: u64, skip: nat, hdr: bool, f1: u64, f2: u64)
    requires skip <= 256
    requires f1 == if skip > 0 then Sub64(m, skip) else m
    requires f2 == if hdr then Sub64(f1, 4) else f1
    ensures var n := m - skip - (if hdr then 4 else 0);
            f2 == n % TWO_64 && ToU32(f2) == n % TWO_32
  {
    var n := m - skip - (if hdr then 4 else 0);
    if hdr && skip > 0 {
      Sub64Twice(m, skip, 4);
    }
    assert f2 == n % TWO_64;
    LowBitsOfWrapped(n);
  }

  /** Skyrim SE: the length handed on is the masked size less the name blob
      and the header, wrapped to the width of the routine's parameter. */
  lemma SeLength(e: BsaFileEntry, archive: ArchiveInfo, decompress: bool, data: seq<bv8>)
    requires archive.archiveType == BsaSe
    requires ReadsInBounds(e, archive, decompress, data)
    ensures var n := MaskedSize(e.size) - NameBlobSkip(e, archive, data)
                     - (if e.size > 0 && e.compressed then 4 else 0);
            var r := Resolve(e, archive, decompress, data);
            && (r.WriteSectionToStream? ==> r.length == n % TWO_64)
            && (r.DecompressLZ4? ==> r.inputLength == n % TWO_32)
  {
    var m := MaskedSize(e.size);
    var skip := NameBlobSkip(e, archive, data);
    var hdr := e.size > 0 && e.compressed;
    var f1 := if skip > 0 then Sub64(m, skip) else m;
    var f2 := if hdr then Sub64(f1, 4) else f1;
    SeWrapArithmetic(m, skip, hdr, f1, f2);
    var r := Resolve(e, archive, decompress, data);
    assert r.WriteSectionToStream? ==> r.length == f2;
    assert r.DecompressLZ4? ==> r.inputLength == ToU32(f2);
  }

  /** Skyrim SE: when the name blob and the header fit in the masked size,
      no wrap-around happens and the length is exactly what is left. */
  lemma SeLengthExact(e: BsaFileEntry, archive: ArchiveInfo, decompress: bool, data: seq<bv8>)
    requires archive.archiveType == BsaSe
    requires ReadsInBounds(e, archive, decompress, data)
    requires NameBlobSkip(e, archive, data) + (if e.size > 0 && e.compressed then 4 else 0)
             <= MaskedSize(e.size)
    ensures var n := MaskedSize(e.size) - NameBlobSkip(e, archive, data)
                     - (if e.size > 0 && e.compressed then 4 else 0);
            Resolve(e, archive, decompress, data)
              == var start := e.offset + NameBlobSkip(e, archive, data)
                              + (if e.size > 0 && e.compressed then 4 else 0);
                 if decompress && e.compressed then DecompressLZ4(start, n)
                 else WriteSectionToStream(start, n)
  {
    SeLength(e, archive, decompress, data);
  }

  /** Skyrim SE: the two flag bits above the low 30 never change where the
      payload is or how long it is, as long as they do not change whether
      the raw size is zero (which decides whether a header is read). */
  lemma SeFlagBitsIgnored(e: BsaFileEntry, size2: u32, archive: ArchiveInfo, decompress: bool, data: seq<bv8>)
    requires archive.archiveType == BsaSe
    requires ReadsInBounds(e, archive, decompress, data)
    requires size2 % 0x4000_0000 == e.size % 0x4000_0000
    requires (size2 > 0) == (e.size > 0)
    ensures ReadsInBounds(e.(size := size2), archive, decompress, data)
    ensures Resolve(e.(size := size2), archive, decompress, data) == Resolve(e, archive, decompress, data)
  {
    var e2 := e.(size := size2);
    assert MaskedSize(e2.size) == MaskedSize(e.size);
    assert NameBlobSkip(e2, archive, data) == NameBlobSkip(e, archive, data);
    SeLength(e, archive, decompress, data);
    SeLength(e2, archive, decompress, data);
  }

  /** Skyrim SE: decompressing and copying a compressed entry start at the
      same byte; the LZ4 decompressor gets the copy length cut to 32 bits. */
  lemma SeSinkChoice(e: BsaFileEntry, archive: ArchiveInfo, data: seq<bv8>)
    requires archive.archiveType == BsaSe && e.compressed
    requires ReadsInBounds(e, archive, false, data)
    ensures ReadsInBounds(e, archive, true, data)
    ensures var copy := Resolve(e, archive, false, data);
            var lz4 := Resolve(e, archive, true, data);
            copy.WriteSectionToStream? && lz4.DecompressLZ4?
            && lz4.start == copy.start && lz4.inputLength == copy.length % TWO_32
  {
    var copy := Resolve(e, archive, false, data);
    SeLength(e, archive, false, data);
    SeLength(e, archive, true, data);
    var n := MaskedSize(e.size) - NameBlobSkip(e, archive, data) - (if e.size > 0 then 4 else 0);
    LowBitsOfWrapped(n);
  }

  /** Skyrim SE, a compressed entry whose name blob holds 5 characters and
      whose size carries the top flag bit: the payload starts 1 + 5 + 4
      bytes after the entry and is 10 bytes shorter than the masked size. */
  lemma SeCompressedNamedExample(e: BsaFileEntry, decompress: bool, data: seq<bv8>)
    requires e.compressed && e.size >= 0x8000_0000 && MaskedSize(e.size) >= 10
    requires e.offset < |data| && data[e.offset] == 5 && e.offset + 10 <= |data|
    ensures ReadsInBounds(e, ArchiveInfo(BsaSe, true), decompress, data)
    ensures var r := Resolve(e, ArchiveInfo(BsaSe, true), decompress, data);
            && r.start == e.offset + 1 + 5 + 4
            && (decompress ==> r == DecompressLZ4(r.start, MaskedSize(e.size) - 5 - 1 - 4))
            && (!decompress ==> r == WriteSectionToStream(r.start, MaskedSize(e.size) - 5 - 1 - 4))
  {
    SeLengthExact(e, ArchiveInfo(BsaSe, true), decompress, data);
  }

  /** Other archives, copying: exactly `Size` bytes are copied from just
      after the name blob; neither the blob nor a header is subtracted. */
  lemma NonSeCopy(e: BsaFileEntry, archive: ArchiveInfo, decompress: bool, data: seq<bv8>)
    requires archive.archiveType == NotBsaSe && !(decompress && e.compressed)
    requires ReadsInBounds(e, archive, decompress, data)
    ensures Resolve(e, archive, decompress, data)
              == WriteSectionToStream(e.offset + NameBlobSkip(e, archive, data), e.size)
  {
  }

  /** Other archives, decompressing: the 4 header bytes after the name blob
      are skipped and the general decompressor is told `Size - 4` bytes
      (wrapping when `Size` is below 4). */
  lemma NonSeDecompress(e: BsaFileEntry, archive: ArchiveInfo, data: seq<bv8>)
    requires archive.archiveType == NotBsaSe && e.compressed
    requires ReadsInBounds(e, archive, true, data)
    ensures var r := Resolve(e, archive, true, data);
            && r == Decompress(e.offset + NameBlobSkip(e, archive, data) + 4, (e.size - 4) % TWO_32)
            && (e.size >= 4 ==> r.inputLength == e.size - 4)
  {
  }

  /** The decompress request is ignored for an entry that is not
      compressed: such an entry is always copied verbatim. */
  lemma UncompressedIgnoresDecompress(e: BsaFileEntry, archive: ArchiveInfo, data: seq<bv8>)
    requires !e.compressed
    requires ReadsInBounds(e, archive, false, data)
    ensures ReadsInBounds(e, archive, true, data)
    ensures Resolve(e, archive, true, data) == Resolve(e, archive, false, data)
    ensures Resolve(e, archive, true, data).WriteSectionToStream?
  {
  }

  /** With name blobs the payload (before any header) begins right after
      the name, on either kind of archive; without them, at `Offset`. */
  lemma NameBlobSkipAnyArchive(e: BsaFileEntry, blobs: bool, decompress: bool, data: seq<bv8>)
    requires ReadsInBounds(e, ArchiveInfo(BsaSe, blobs), decompress, data)
    requires ReadsInBounds(e, ArchiveInfo(NotBsaSe, blobs), decompress, data)
    ensures var se := Resolve(e, ArchiveInfo(BsaSe, blobs), decompress, data);
            var other := Resolve(e, ArchiveInfo(NotBsaSe, blobs), decompress, data);
            var h1 := if ConsumesHeader(e, ArchiveInfo(BsaSe, blobs), decompress) then 4 else 0;
            var h2 := if ConsumesHeader(e, ArchiveInfo(NotBsaSe, blobs), decompress) then 4 else 0;
            && se.start - h1 == other.start - h2
            && se.start - h1 == if blobs then e.offset + 1 + data[e.offset] as int else e.offset
  {
  }

  /** Resolution reads only the name's length byte: archives that agree on
      that byte resolve an entry the same way, whatever else they hold. */
  lemma ResolveReadsOnlyNameLength(e: BsaFileEntry, archive: ArchiveInfo, decompress: bool,
                                   data1: seq<bv8>, data2: seq<bv8>)
    requires ReadsInBounds(e, archive, decompress, data1)
    requires ReadsInBounds(e, archive, decompress, data2)
    requires archive.containsFileNameBlobs ==> data1[e.offset] == data2[e.offset]
    ensures Resolve(e, archive, decompress, data1) == Resolve(e, archive, decompress, data2)
  {
  }
}
