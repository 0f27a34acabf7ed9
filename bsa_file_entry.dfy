/** A file record of a Bethesda BSA archive (Oblivion, Fallout 3, Skyrim LE
    and SE, Morrowind) or of a Fallout 2 DAT archive, and the rule that turns
    it into the exact bytes to copy or decompress. */
module BsaUtil {
  import opened FixedWidth
  import opened Streams

  datatype BsaFileVersion = BSA | Morrowind | Fallout2

  /** Of the owning archive's type, only whether it is a Skyrim Special
      Edition BSA (`ArchiveTypes.BSA_SE`) changes how entries are read. */
  datatype ArchiveType = BsaSe | NotBsaSe

  /** What an entry needs to know about the archive that owns it. */
  datatype ArchiveInfo = ArchiveInfo(archiveType: ArchiveType, containsFileNameBlobs: bool)

  /** A record of a Fallout 2 DAT archive's file table. */
  datatype Dat2FileEntry = Dat2FileEntry(
    filename: string, offset: u32, packedSize: u32, realSize: u32, compressed: bool)

  /** The properties of one file entry; all of them are set by a constructor
      and never change afterwards. `realSize` is 0 when the unpacked size
      is not known up front. */
  datatype BsaFileEntry = BsaFileEntry(
    version: BsaFileVersion,
    fullPath: string,
    fullPathOriginal: string,
    offset: u32,
    size: u32,
    realSize: u32,
    compressed: bool)

  /** The constructor for Oblivion, Fallout 3 and Skyrim archives. The base
      entry leaves `RealSize` at its default, 0. */
  function NewBsa(compressed: bool, folder: string, offset: u32, size: u32): (e: BsaFileEntry)
    ensures e.version == BSA
    ensures e.fullPath == folder && e.fullPathOriginal == e.fullPath
    ensures e.offset == offset && e.size == size && e.compressed == compressed
    ensures e.realSize == 0 && DisplaySize(e) == size
  {
    BsaFileEntry(BSA, folder, folder, offset, size, 0, compressed)
  }

  /** The constructor for Morrowind archives, whose files are never
      compressed: `Compressed` and `RealSize` keep their defaults. */
  function NewMorrowind(path: string, offset: u32, size: u32): (e: BsaFileEntry)
    ensures e.version == Morrowind
    ensures e.fullPath == path && e.fullPathOriginal == e.fullPath
    ensures e.offset == offset && e.size == size
    ensures !e.compressed && e.realSize == 0 && DisplaySize(e) == size
  {
    BsaFileEntry(Morrowind, path, path, offset, size, 0, false)
  }

  /** The constructor for Fallout 2 DAT records: the packed size becomes
      `Size`, and the real size and compression flag are copied. */
  function NewFallout2(d: Dat2FileEntry): (e: BsaFileEntry)
    ensures e.version == Fallout2
    ensures e.fullPath == d.filename && e.fullPathOriginal == e.fullPath
    ensures e.offset == d.offset && e.size == d.packedSize
    ensures e.realSize == d.realSize && e.compressed == d.compressed
    ensures d.realSize > 0 ==> DisplaySize(e) == d.realSize
    ensures d.realSize == 0 ==> DisplaySize(e) == d.packedSize
  {
    BsaFileEntry(Fallout2, d.filename, d.filename, d.offset, d.packedSize, d.realSize, d.compressed)
  }

  /** The size shown to the user: the unpacked size when it is known,
      otherwise the stored size. */
  function DisplaySize(e: BsaFileEntry): (d: u32)
    ensures e.realSize > 0 ==> d == e.realSize
    ensures e.realSize == 0 ==> d == e.size
    ensures d == 0 ==> e.realSize == 0 && e.size == 0
  {
    if e.realSize > 0 then e.realSize else e.size
  }

  /** The external routine an extraction ends in, with the stream position
      it starts reading at and the length it is given. The copy takes a
      `ulong` length, the two decompressors a `uint`. */
  datatype SinkCall =
    | WriteSectionToStream(start: int, length: u64)
    | DecompressLZ4(start: int, inputLength: u32)
    | Decompress(start: int, inputLength: u32)

  /** `Size & 0x3fffffff`: the low 30 bits of a Skyrim SE size; the two top
      bits are flags. */
  function MaskedSize(size: u32): (r: u32)
    ensures r == size % 0x4000_0000
  {
    AndLowMask(size, 30);
    Pow2At30();
    BitwiseAnd(size, 0x3FFF_FFFF)
  }

  /** How many bytes the inline file name takes before the payload: its
      one-byte length prefix plus that many characters. */
  function NameBlobSkip(e: BsaFileEntry, archive: ArchiveInfo, data: seq<bv8>): (n: nat)
    requires archive.containsFileNameBlobs ==> e.offset < |data|
    ensures archive.containsFileNameBlobs ==> 1 <= n <= 256
    ensures !archive.containsFileNameBlobs ==> n == 0
  {
    if archive.containsFileNameBlobs then data[e.offset] as int + 1 else 0
  }

  /** Whether extraction reads a 4-byte size header after the name. On
      Skyrim SE this depends on the raw, unmasked `Size` and not on whether
      the caller asked to decompress; elsewhere only a decompressing
      extraction of a compressed entry reads it. */
  predicate ConsumesHeader(e: BsaFileEntry, archive: ArchiveInfo, decompress: bool): (b: bool)
    ensures b ==> e.compressed
    ensures archive.archiveType == BsaSe && e.size > 0 && e.compressed ==> b
    ensures archive.archiveType == NotBsaSe && !decompress ==> !b
  {
    match archive.archiveType
    case BsaSe => e.size > 0 && e.compressed
    case NotBsaSe => decompress && e.compressed
  }

  /** The reads extraction makes all lie inside the archive: the name's
      length byte and the size header (reading past the end throws). */
  predicate ReadsInBounds(e: BsaFileEntry, archive: ArchiveInfo, decompress: bool, data: seq<bv8>)
  {
    && (archive.containsFileNameBlobs ==> e.offset < |data|)
    && (ConsumesHeader(e, archive, decompress) ==>
          e.offset + NameBlobSkip(e, archive, data) + 4 <= |data|)
  }

  /** Where the payload of `e` starts, which routine receives it and how many
      bytes that routine is told to take, computed step by step as the
      extraction does. */
  function Resolve(e: BsaFileEntry, archive: ArchiveInfo, decompress: bool, data: seq<bv8>): (r: SinkCall)
    requires ReadsInBounds(e, archive, decompress, data)
    ensures r.start == e.offset + NameBlobSkip(e, archive, data)
                       + (if ConsumesHeader(e, archive, decompress) then 4 else 0)
    ensures r.WriteSectionToStream? <==> !(decompress && e.compressed)
    ensures r.DecompressLZ4? <==> decompress && e.compressed && archive.archiveType == BsaSe
    ensures r.Decompress? <==> decompress && e.compressed && archive.archiveType == NotBsaSe
  {
    var unpack := decompress && e.compressed;
    if archive.archiveType == BsaSe then
      var filesz0: u64 := MaskedSize(e.size);
      var (pos1, filesz1) :=
        if archive.containsFileNameBlobs then
          var len := data[e.offset] as int;
          (e.offset + 1 + len, Sub64(filesz0, len + 1))
        else (e.offset, filesz0);
      var (pos2, filesz2) :=
        if e.size > 0 && e.compressed then (pos1 + 4, Sub64(filesz1, 4)) else (pos1, filesz1);
      if !unpack then WriteSectionToStream(pos2, filesz2)
      else DecompressLZ4(pos2, ToU32(filesz2))
    else
      var pos1 := if archive.containsFileNameBlobs then e.offset + (data[e.offset] as int + 1) else e.offset;
      if !unpack then WriteSectionToStream(pos1, e.size)
      else
        var pos2 := if e.compressed then pos1 + 4 else pos1;
        Decompress(pos2, Sub32(e.size, 4))
  }

  /** An entry object: its fixed properties, the archive it belongs to, and
      `BytesWritten`, the progress counter extraction updates. */
  class EntryHandle {
    const entry: BsaFileEntry
    const archive: ArchiveInfo
    var bytesWritten: u64

    constructor (entry: BsaFileEntry, archive: ArchiveInfo)
      ensures this.entry == entry && this.archive == archive && bytesWritten == 0
    {
      this.entry := entry;
      this.archive := archive;
      bytesWritten := 0;
    }

    /** Positions `reader` at the payload and returns the routine that
        copies or decompresses it, after resetting the progress counter.
        The bytes themselves are moved by that routine, outside this model. */
    method WriteDataToStream(reader: Reader, decompress: bool) returns (call: SinkCall)
      requires ReadsInBounds(entry, archive, decompress, reader.data)
      modifies this, reader
      ensures call == Resolve(entry, archive, decompress, reader.data)
      ensures reader.position == call.start
      ensures bytesWritten == 0
    {
      var unpack := decompress && entry.compressed;
      reader.Seek(entry.offset);
      bytesWritten := 0;

      if archive.archiveType == BsaSe {
        var filesz: u64 := MaskedSize(entry.size);
        if archive.containsFileNameBlobs {
          var len := reader.ReadByte();
          filesz := Sub64(filesz, len as int + 1);
          reader.Seek(entry.offset + 1 + len as int);
        }
        // the size read from the header is never used
        var filesize: u32 := ToU32(filesz);
        if entry.size > 0 && entry.compressed {
          filesize := reader.ReadUInt32();
          filesz := Sub64(filesz, 4);
        }
        if !unpack {
          call := WriteSectionToStream(reader.position, filesz);
        } else {
          call := DecompressLZ4(reader.position, ToU32(filesz));
        }
      } else {
        if archive.containsFileNameBlobs {
          // `Position += ReadByte() + 1` reads Position before the byte is read
          var p := reader.position;
          var len := reader.ReadByte();
          reader.Seek(p + (len as int + 1));
        }
        if !unpack {
          call := WriteSectionToStream(reader.position, entry.size);
        } else {
          if entry.compressed {
            var _ := reader.ReadUInt32();
          }
          call := Decompress(reader.position, Sub32(entry.size, 4));
        }
      }
    }
  }
}
