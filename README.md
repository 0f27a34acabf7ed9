# BSA file entries: from a file record to the bytes to extract

This project models `BSAFileEntry` of the Sharp.BSA.BA2 library, the file
record of Bethesda BSA archives (Oblivion, Fallout 3, Skyrim LE and SE,
Morrowind) and of Fallout 2 DAT archives. It covers:

- the three constructors, one per `BSAFileVersion`;
- the `DisplaySize` rule;
- `WriteDataToStream`, the rule that takes an entry's `Offset`, `Size` and
  `Compressed` flag, the archive's type (Skyrim SE or not) and its
  `ContainsFileNameBlobs` flag, and works out three things: where the
  payload starts, how many bytes to hand on, and which routine receives
  them (a verbatim copy, LZ4 decompression or the general decompressor).

Layout:

- `fixed_width.dfy` (module `FixedWidth`): C# `uint`/`ulong` as bounded
  integers, with unchecked subtraction and the `(uint)` cast wrapping
  explicitly, and the bitwise AND used to mask sizes.
- `streams.dfy` (module `Streams`): `Reader`, a class standing in for
  `BinaryReader` over a seekable stream: the stream's bytes plus a mutable
  `position`, with `Seek`, `ReadByte` and `ReadUInt32`.
- `bsa_file_entry.dfy` (module `BsaUtil`): the entry as a datatype; the
  constructors and `DisplaySize` as functions; `Resolve`, a pure function
  that computes the routine call step by step as the C# code does; and
  `EntryHandle`, the entry object with its mutable `BytesWritten`.
  `EntryHandle.WriteDataToStream` performs the same seeks and reads on a
  `Reader` and is proved to return exactly what `Resolve` computes.
- `bsa_file_entry_properties.dfy` (module `BsaUtilProperties`): the
  promised behaviour, stated and proved about `Resolve`.

Arithmetic follows the code, not a cleaned-up reading of it:

- In the Skyrim SE branch, `filesz` is a `ulong`, so subtracting the name
  blob and the 4-byte header wraps modulo 2^64. `DecompressLZ4` receives
  `(uint)filesz`, the low 32 bits.
- In the other branch, `Size - 4` is `uint` arithmetic and wraps modulo 2^32.
- No format error is raised when a computed length goes negative: the
  code never checks, so the model wraps instead (`SeLength` states the
  wrapped values; `SeLengthExact` gives the exact ones when nothing wraps).
- `Size & 0x3fffffff` is computed by `BitwiseAnd`, a bit-by-bit AND on
  non-negative integers. `AndLowMask` proves that masking with `2^k - 1`
  keeps the low `k` bits, so the masked size is `Size % 2^30`.

Reads past the end of the archive throw `EndOfStreamException` in .NET. The
model does not allow them: `ReadsInBounds` requires the name's length byte
and the 4-byte header to be inside the data.

## Model

| member | source | states |
|---|---|---|
| `BsaUtil.NewBsa` | Sharp.BSA.BA2/BSAUtil/BSAFileEntry.cs:27-37 | version `BSA`; compressed flag, path, offset and size copied; `FullPathOriginal == FullPath`; real size stays 0, so the displayed size is the stored size |
| `BsaUtil.NewMorrowind` | Sharp.BSA.BA2/BSAUtil/BSAFileEntry.cs:39-48 | version `Morrowind`; path, offset and size copied; `FullPathOriginal == FullPath`; never compressed, real size 0, displayed size is the stored size |
| `BsaUtil.NewFallout2` | Sharp.BSA.BA2/BSAUtil/BSAFileEntry.cs:50-61 | version `Fallout2`; the DAT record's packed size becomes `Size`; offset, real size and compressed flag copied; `FullPathOriginal == FullPath`; displayed size is the real size when known, else the packed size |
| `BsaUtil.DisplaySize` | Sharp.BSA.BA2/BSAUtil/BSAFileEntry.cs:17-23 | the real size when it is positive, otherwise `Size`; zero only when both are zero |
| `BsaUtil.MaskedSize` | Sharp.BSA.BA2/BSAUtil/BSAFileEntry.cs:83 | `Size & 0x3fffffff` is `Size` modulo 2^30: the two top flag bits are dropped and the low 30 bits kept |
| `FixedWidth.BitwiseAnd` | Sharp.BSA.BA2/BSAUtil/BSAFileEntry.cs:83 | the AND of two non-negative integers is no larger than either operand, so the mask of a `uint` is a `uint` |
| `FixedWidth.AndLowMask` | Sharp.BSA.BA2/BSAUtil/BSAFileEntry.cs:83 | AND with `2^k - 1` equals the remainder modulo `2^k`, for every `k` |
| `BsaUtil.NameBlobSkip` | Sharp.BSA.BA2/BSAUtil/BSAFileEntry.cs:84-88 | with blobs, the name takes its length byte plus that many bytes (1 to 256 in all); without blobs, nothing is skipped |
| `BsaUtil.ConsumesHeader` | Sharp.BSA.BA2/BSAUtil/BSAFileEntry.cs:92-96 | a header is read only for a compressed entry; on Skyrim SE it is read whenever the raw `Size` is non-zero and the entry is compressed, whether or not decompressing (line 92); elsewhere never when copying (lines 119-129, with line 75) |
| `FixedWidth.Sub64` | Sharp.BSA.BA2/BSAUtil/BSAFileEntry.cs:87-95 | unchecked `ulong -=`: the exact difference when no underflow, otherwise the difference plus 2^64 |
| `FixedWidth.Sub32` | Sharp.BSA.BA2/BSAUtil/BSAFileEntry.cs:132 | unchecked `uint` `Size - 4`: the exact difference when no underflow, otherwise the difference plus 2^32 |
| `FixedWidth.ToU32` | Sharp.BSA.BA2/BSAUtil/BSAFileEntry.cs:108 | the `(uint)` cast keeps a value below 2^32 unchanged and is always a `uint` |
| `BsaUtil.Resolve` | Sharp.BSA.BA2/BSAUtil/BSAFileEntry.cs:73-137 | the payload starts at `Offset`, plus 1 + the name's length byte when blobs are present, plus 4 when a header is consumed; the copy routine is chosen exactly when not (decompress and compressed); otherwise LZ4 on Skyrim SE and the general decompressor elsewhere |
| `BsaUtil.EntryHandle.WriteDataToStream` | Sharp.BSA.BA2/BSAUtil/BSAFileEntry.cs:73-137 | the seek/read steps leave the reader at the payload start and return exactly the routine call `Resolve` computes; `BytesWritten` is reset to 0 |
| `BsaUtilProperties.SeLength` | Sharp.BSA.BA2/BSAUtil/BSAFileEntry.cs:83-111 | Skyrim SE: the length is `(Size & 0x3fffffff) - (len + 1) - 4` (blob and header terms only when present), wrapped modulo 2^64 for the copy and modulo 2^32 for LZ4 |
| `BsaUtilProperties.SeWrapArithmetic` | Sharp.BSA.BA2/BSAUtil/BSAFileEntry.cs:87-108 | subtracting the blob and then the header from the `ulong` `filesz` wraps like one subtraction of both modulo 2^64, and its `(uint)` cast is that difference modulo 2^32 |
| `BsaUtilProperties.SeLengthExact` | Sharp.BSA.BA2/BSAUtil/BSAFileEntry.cs:83-111 | Skyrim SE: when the blob and header fit in the masked size, the start and length are exact, with no wrap-around, for both routines |
| `BsaUtilProperties.SeFlagBitsIgnored` | Sharp.BSA.BA2/BSAUtil/BSAFileEntry.cs:83-96 | Skyrim SE: two sizes with the same low 30 bits, both zero or both non-zero, resolve identically, so the flag bits never affect the length |
| `BsaUtilProperties.SeSinkChoice` | Sharp.BSA.BA2/BSAUtil/BSAFileEntry.cs:92-111 | Skyrim SE, compressed entry: the header is consumed whether or not decompressing; copy and LZ4 start at the same byte; LZ4's length is the copy length cut to 32 bits |
| `BsaUtilProperties.SeCompressedNamedExample` | Sharp.BSA.BA2/BSAUtil/BSAFileEntry.cs:83-111 | Skyrim SE, compressed, blob length 5, top flag bit set: the start is `Offset + 1 + 5 + 4` and the length is `(Size & 0x3fffffff) - 5 - 1 - 4` |
| `BsaUtilProperties.NonSeCopy` | Sharp.BSA.BA2/BSAUtil/BSAFileEntry.cs:113-124 | other archives, not decompressing: copies exactly `Size` bytes from just after the name blob; nothing is subtracted and no header is read |
| `BsaUtilProperties.NonSeDecompress` | Sharp.BSA.BA2/BSAUtil/BSAFileEntry.cs:126-134 | other archives, decompressing: skips exactly 4 header bytes after the name blob; the general decompressor gets `Size - 4` (mod 2^32), and exactly `Size - 4` when `Size >= 4` |
| `BsaUtilProperties.UncompressedIgnoresDecompress` | Sharp.BSA.BA2/BSAUtil/BSAFileEntry.cs:75 | the effective flag is `decompress && Compressed`: an uncompressed entry resolves the same either way and always goes to the verbatim copy |
| `BsaUtilProperties.NameBlobSkipAnyArchive` | Sharp.BSA.BA2/BSAUtil/BSAFileEntry.cs:84-89 | for any entry and either decompress flag, the start less any consumed header is the same on both kinds of archive: `Offset + 1 + len` with blobs (the compound `Position +=` at line 117 reads `Position` before the byte is read), `Offset` without |
| `BsaUtilProperties.ResolveReadsOnlyNameLength` | Sharp.BSA.BA2/BSAUtil/BSAFileEntry.cs:84-96 | the result depends on the archive bytes only through the name's length byte; the header's value is never used |

## Left out

- `Archive.WriteSectionToStream`, `Archive.DecompressLZ4` and `Archive.Decompress` are not part of this model: they move or decompress the bytes. The model stops at which of them is called, from which position, with which length (`SinkCall`).
- The progress callbacks that set `BytesWritten` while those routines run are not modelled; only the reset to 0 at line 78 is.
- `GetToolTipText` only formats text for display, so it is not modelled.
- .NET streams: `BinaryReader` over `BaseStream` is replaced by `Reader`, which holds the bytes and a position.
- The value `ReadUInt32` returns for the size header is computed (little-endian) and then discarded, as the code discards it.
- `ArchiveEntry`, `BSA`, `DAT2FileEntry` and `ArchiveTypes` are not part of this model. Their fields are plain inputs. `ArchiveEntry`'s defaults are taken to be `RealSize == 0` and `Compressed == false`. Only whether the archive type is `BSA_SE` is kept.
- Offsets are 32-bit: every constructor receives a `uint` offset (the DAT record's offset is taken as one too). So `(long)Offset` and `Offset + 1 + len` cannot overflow, and positions are plain integers.
- The archive comparison engine, BA2 and texture archives, and archive discovery have no counterpart in this file; they are not modelled.
- Concurrency and stream sharing between callers: the model has one reader per call.
