# DOOMP DAT archive codec, in Dafny

This project models the archive codec of DOOMP, the unpacker and repacker for
the DAT archives of Metal Gear Rising: Revengeance. A DAT archive is laid out
as follows:

- A 0x20-byte header. It holds the tag `"DAT\0"`, the signed file count, and
  pointers to four parallel tables: data offsets, 4-byte extensions, filenames
  and sizes. It also holds an unused pointer at 0x18 and a padding word at 0x1C.
- The four tables, back to back after the header. The filename table starts
  with a 32-bit record width that every name is padded to.
- The payloads. Each one starts on a 16-byte boundary.

PC archives are little-endian. Console archives are big-endian in every 32-bit
field. The tag is the same in both.

The model follows the program's own structure:

- **`Bytes`**: the byte and endian codec. It covers 32-bit words, signed and
  unsigned; null-padded fixed-width strings and how they are read back (cut at
  the first zero byte); overwriting in place with growth; and alignment to 16.
- **`BinaryCursor`**: the binary reader/writer the program drives. It is a
  `Cursor` class with a buffer, a position and a byte order, whose methods read,
  write, seek and align the way the program uses them.
- **`DatNames`**: the packer's string helpers. These are the extension taken
  from a filename, the running filename record width, and `rchop`.
- **`PackedFiles`**: the `PackedFile` record as a class. Its methods are
  `dat_to_file` and `file_to_dat` without their file I/O, and
  `set_extension_from_filename`.
- **`DatDecode`**: what unpacking reads, as functions on the buffer. This means
  the tag check, the header, the four tables paired position by position, and
  the payloads.
- **`DatUnpack`**: `unpackDAT` as methods over a cursor and a list of packed
  files. Each method is proved to compute what `DatDecode` describes, errors
  included.
- **`DatLayout`**: the bytes the packer produces, as functions. It covers the
  header and its back-patched pointers, the tables, the payload layout with its
  alignment, and the offset table that is filled in last.
- **`DatRepack`**: `repackDAT` as methods over a cursor. The buffer it builds is
  proved to be `DatLayout.RepackImage`, and it is proved to fail exactly when a
  field cannot hold its value.
- **`DatRoundTrip`**: unpacking what the packer writes, in the same byte order,
  gives back one entry per loose file in listing order. Each entry carries the
  file's name, extension, size and exact contents, at the offset the table
  records.

The filesystem becomes values:

- A directory to repack is a sequence of `LooseFile(name, contents)` in listing
  order.
- Unpacking returns the list of entries, whose names and payloads are the loose
  files it writes (`DatDecode.Extracted`).
- Names are byte sequences.

Three details of the code shape the model:

- **The tag is the same in both byte orders.** It is read before the reader
  switches to big-endian, and strings are never byte-swapped.
- **The filename record width is a running maximum.** The packer raises it to
  `len + 1` only when a name is strictly longer than the width so far. So for
  the names `ab`, `abc` the width is 3, and `abc` fills its record with no zero
  byte after it. `DatNames.NameWidth` and
  `DatNames.NameWidthAtMostLongestPlusOne` state the bounds that do hold.
  Unpacking still reads such a name back whole.
- **The word at 0x18 carries nothing.** It is read and ignored on unpack and
  written as 0 on repack.

## Model

| member | source | states |
|---|---|---|
| Bytes.U32Bytes | DOOMP.py:133 | a 32-bit word is written as four bytes (that they read back as the value is U32RoundTrip) |
| Bytes.U32Value | DOOMP.py:88 | the unsigned value of four bytes is below 2^32, and they are that value's encoding in the same byte order |
| Bytes.U32RoundTrip | DOOMP.py:72-76 | an unsigned 32-bit word written in either byte order reads back as the same value |
| Bytes.U32BytesOfValue | DOOMP.py:88-89 | any four bytes are the encoding of the word they read as (reading loses nothing) |
| Bytes.I32RoundTrip | DOOMP.py:160-163 | a signed 32-bit word written in either byte order reads back as the same value |
| Bytes.I32Bytes | DOOMP.py:162 | a non-negative signed word has the same four bytes as the unsigned word of that value |
| Bytes.I32Value | DOOMP.py:71 | a signed read lies in -2^31 .. 2^31-1 and is the unsigned reading or that reading less 2^32 |
| Bytes.CutAtNull | DOOMP.py:94 | reading a null-padded string keeps the zero-free prefix of the field that stops at its end or at a zero byte |
| Bytes.CutAtNullOfFixed | DOOMP.py:159 | a zero-free string written as a fixed-width field reads back as itself |
| Bytes.Fixed | DOOMP.py:159 | a fixed-width field is the string followed by zero bytes up to the width |
| Bytes.AlignUp16 | DOOMP.py:53 | the aligned position is a multiple of 16, at or after the position and less than 16 past it |
| Bytes.Overwrite | DOOMP.py:58 | the buffer after a write holds the written bytes at the position, and grows to the write's end when it reaches past the old end |
| Bytes.OverwriteBytes | DOOMP.py:58 | writing at a position puts exactly the written bytes there, keeps every other byte, and zero-fills any gap past the old end |
| BinaryCursor.ReadAt | DOOMP.py:42-43 | reading n bytes at p succeeds exactly when n >= 0 and p + n is within the buffer, and gives those bytes |
| BinaryCursor.Cursor.constructor | DOOMP.py:65 | a new cursor is at position 0, over the given bytes, little-endian |
| BinaryCursor.Cursor.SetEndian | DOOMP.py:69 | the byte order becomes the one given |
| BinaryCursor.Cursor.Seek | DOOMP.py:42 | the position becomes the one given |
| BinaryCursor.Cursor.ReadBytes | DOOMP.py:43 | the result is ReadAt at the position, which advances by n only on success |
| BinaryCursor.Cursor.ReadStr | DOOMP.py:94 | an n-byte field with its null padding trimmed; it fails as ReadAt does |
| BinaryCursor.Cursor.ReadU32 | DOOMP.py:88 | the unsigned word at the position in the cursor's byte order; it fails past the end |
| BinaryCursor.Cursor.ReadI32 | DOOMP.py:99 | the signed word at the position in the cursor's byte order; it fails past the end |
| BinaryCursor.Cursor.WriteBytes | DOOMP.py:58 | the bytes overwrite the buffer at the position (appending at the end), and the position moves past them |
| BinaryCursor.Cursor.WriteU32 | DOOMP.py:133 | it writes the word exactly when the value fits in 32 unsigned bits, and otherwise fails and changes nothing |
| BinaryCursor.Cursor.WriteI32 | DOOMP.py:162 | it writes the word exactly when the value fits in 32 signed bits, and otherwise fails and changes nothing |
| BinaryCursor.Cursor.WriteStrFixed | DOOMP.py:159 | it writes the string zero-padded to the width exactly when it fits, and otherwise fails and changes nothing |
| BinaryCursor.Cursor.Align16 | DOOMP.py:53 | it zero-fills up to the next multiple of 16 and moves there |
| DatNames.Extension | DOOMP.py:48-49 | the extension is never longer than the name |
| DatNames.ExtensionIsLastComponent | DOOMP.py:48-49 | the extension is a '.'-free suffix of the name, either the whole name or preceded by a '.' |
| DatNames.ExtensionUnique | DOOMP.py:48-49 | any suffix with those properties is the extension, so they characterise it |
| DatNames.NameWidth | DOOMP.py:143-147 | the running filename record width: every name fits in it |
| DatNames.NameWidthIsSomeNamePlusOne | DOOMP.py:143-147 | a non-zero width is one more than the length of some name |
| DatNames.NameWidthAtMostLongestPlusOne | DOOMP.py:143-147 | the width is at most one more than the longest name |
| DatNames.NameWidthZero | DOOMP.py:143-147 | the width is zero exactly when every name is empty (an empty listing included) |
| DatNames.Rchop | DOOMP.py:201-204 | a non-empty suffix that ends the string is dropped (result + suffix == string); otherwise ".dat" is appended |
| DatNames.RchopUndoesUnpackSuffix | DOOMP.py:194 | the directory unpacking an archive creates repacks to that archive's path |
| DatLayout.HeaderBytes | DOOMP.py:132-139 | the header is 0x20 bytes |
| DatLayout.HeaderBytesFields | DOOMP.py:132-139 | the header holds "DAT" and a zero byte, then the count, 0x20, the extension, filename and size table pointers, and two zero words |
| DatLayout.HeaderPlaceholders | DOOMP.py:132-139 | the header as first written: the tag, the count, the pointer 0x20, then five zero words |
| DatLayout.PatchExtPointer | DOOMP.py:160-163 | writing the extension-table position at 0xC turns the placeholder header into one recording it, and leaves the rest unchanged |
| DatLayout.PatchNamePointer | DOOMP.py:170-173 | writing the filename-table position at 0x10 records it in the header, and leaves the rest unchanged |
| DatLayout.PatchSizePointer | DOOMP.py:179-182 | writing the size-table position at 0x14 records it in the header, and leaves the rest unchanged |
| DatLayout.U32TableAt | DOOMP.py:177-178 | word i of a table of words is the encoding of value i |
| DatLayout.FixedTableAt | DOOMP.py:168-169 | record i of a fixed-width table lies inside the table and is string i padded to the width |
| DatLayout.U32TablePatch | DOOMP.py:189-191 | overwriting word k of a table gives the table with value k replaced |
| DatLayout.Chunk | DOOMP.py:53-59 | a payload laid out from a position ends on the 16-byte boundary at or after the aligned start plus the payload's size |
| DatLayout.ChunkParts | DOOMP.py:53-59 | a laid-out payload is zero padding up to the boundary, the contents, and zero padding after |
| DatLayout.ChunkLands | DOOMP.py:53-59 | after align, write and align, the payload sits at the aligned position |
| DatLayout.ChunkAppends | DOOMP.py:53-59 | at the end of the buffer, align, write and align append padding, the payload and padding |
| DatLayout.LaidSnoc | DOOMP.py:185-186 | writing one more payload appends its aligned chunk and records its aligned start as the next offset |
| DatLayout.Laid | DOOMP.py:185-186 | laying out payloads after a buffer ends where the payload area ends and never changes what was written before them |
| DatLayout.Offsets | DOOMP.py:185-186 | one recorded start per file, each on a 16-byte boundary at or after the start of the payload area |
| DatLayout.PayloadAt | DOOMP.py:185-186 | payload i starts at its recorded offset, on a 16-byte boundary, after the tables, and holds exactly its contents |
| DatLayout.OffsetsOrdered | DOOMP.py:185-186 | each payload ends at or before the next one starts: in listing order, no overlap |
| DatLayout.LaidInPlace | DOOMP.py:185-186 | every payload is in its aligned, ordered, non-overlapping slot holding exactly its contents |
| DatLayout.FitsBounds | DOOMP.py:143-182 | fitting tables bound the count and the width, the tables sit in order, and every name fits the width |
| DatLayout.TablesBounds | DOOMP.py:153-182 | when the tables and the extensions fit, every field written fits its width or its 32 bits |
| DatLayout.WithOffsetTableSnoc | DOOMP.py:189-191 | writing offset i after the first i gives the buffer with the first i + 1 offsets at 0x20 |
| DatLayout.OffsetTableSwap | DOOMP.py:189-191 | rewriting the table at 0x20 replaces the old words with the new ones, and nothing else changes |
| DatLayout.TablesImageOffsets | DOOMP.py:189-191 | filling in offsets at 0x20 of the tables built with placeholders gives the tables built with those offsets |
| DatLayout.LaidWithOffsets | DOOMP.py:189-191 | patching the offset table commutes with appending payloads after the tables |
| DatLayout.LaidTablesOffsets | DOOMP.py:188-191 | patching the offsets after the payloads gives the archive built with those offsets in place |
| DatLayout.TablesImage | DOOMP.py:130-182 | the tables end where the payload area starts, with the header at 0 and the given offsets as the table at 0x20 |
| DatLayout.RepackImage | DOOMP.py:121-191 | the archive is the tables with the payloads' recorded starts, followed by the payload area up to its end |
| DatDecode.MagicTag | DOOMP.py:66-67 | the tag check passes exactly when the first four bytes are "DAT" followed by a zero byte |
| DatDecode.ParseHeader | DOOMP.py:64-76 | it fails with BadMagic exactly when the tag is wrong and otherwise as a read past the end; it succeeds exactly when the tag is right and the buffer holds the header words, giving HeaderFields |
| DatDecode.HeaderFields | DOOMP.py:71-76 | the count is the signed word at 0x04; the four table pointers and the unknown pointer are the five unsigned words from 0x08, in order |
| DatDecode.ReadU32s | DOOMP.py:86-89 | a table of n words reads exactly when it lies inside the buffer, giving word i as the unsigned value of the four bytes at at + 4i; otherwise it fails as a read past the end |
| DatDecode.ReadStrs | DOOMP.py:100-102 | n records of a given width read exactly when there are none, or the width is non-negative and all lie inside the buffer; it fails as NegativeLength or ReadPastEnd |
| DatDecode.ReadStrsFails | DOOMP.py:100-102 | one unreadable record makes the whole table unreadable |
| DatDecode.ReadStrsAll | DOOMP.py:100-102 | a table whose records all lie inside the buffer reads as those records |
| DatDecode.ReadStrsAt | DOOMP.py:100-102 | record i of a table that read is the i-th width-byte field with its padding trimmed |
| DatDecode.ReadNames | DOOMP.py:98-102 | a missing width word is a read past the end; the width is the signed word at the table's start, and the table reads exactly when its records fit after it, record j being the j-th width-byte field trimmed |
| DatDecode.ReadPayloads | DOOMP.py:114-115 | the payloads read exactly when each offset plus size lies inside the buffer, giving one per offset; otherwise a read past the end |
| DatDecode.ReadPayloadsAt | DOOMP.py:42-43 | payload i is the size bytes at its offset |
| DatDecode.EntryCount | DOOMP.py:81 | the number of entries is zero exactly when the count is not positive, and otherwise the count, as range does |
| DatDecode.ReadTables | DOOMP.py:86-108 | on success each of the four tables holds one record per announced entry |
| DatDecode.ReadTablesSucceeds | DOOMP.py:86-108 | the tables read exactly when the offset, extension, filename and size tables each read; a failure is a read past the end or a negative width |
| DatDecode.ReadTablesAt | DOOMP.py:86-108 | entry i's offset and size are the unsigned words at their pointers plus 4i, its extension the trimmed 4-byte field, its name record i after the signed width |
| DatDecode.DecodeEntries | DOOMP.py:81-115 | it succeeds exactly when the tables and payloads read; entry i pairs record i of every table with payload i, one entry per announced file |
| DatDecode.Decode | DOOMP.py:63-117 | a wrong tag fails with BadMagic; a success means the tag and header are there, one entry per announced file, and each entry's data is its size in bytes from its start offset |
| DatDecode.Extracted | DOOMP.py:44-45 | one loose file per entry, named by its filename and holding its payload |
| PackedFiles.PackedFile.constructor | DOOMP.py:33-38 | a new record is empty: empty name, extension and data, zero offset and size |
| PackedFiles.PackedFile.DatToFile | DOOMP.py:40-46 | the result is the size bytes at the start offset, which become the record's data; a failed read keeps the data |
| PackedFiles.PackedFile.SetExtensionFromFilename | DOOMP.py:48-49 | the extension becomes the text after the filename's last '.' |
| PackedFiles.PackedFile.FileToDat | DOOMP.py:51-59 | the start offset is the aligned writer position, the contents land there, the writer ends aligned, and at the end of the buffer this appends one chunk |
| DatUnpack.NewPackedFiles | DOOMP.py:81-83 | n fresh, distinct, empty records |
| DatUnpack.ReadOffsets | DOOMP.py:86-89 | it succeeds exactly when the offset table reads, with the same error otherwise; record j's start offset is word j |
| DatUnpack.ReadExtensions | DOOMP.py:92-95 | it succeeds exactly when the extension table reads; record j's extension is the j-th 4-byte field |
| DatUnpack.ReadFilenames | DOOMP.py:100-102 | it succeeds exactly when the name records read; record j's filename is the j-th record |
| DatUnpack.ReadNameTable | DOOMP.py:98-102 | it reads the signed width and then the records, and succeeds exactly when the filename table reads |
| DatUnpack.ReadSizes | DOOMP.py:105-108 | it succeeds exactly when the size table reads; record j's size is word j |
| DatUnpack.ExtractPayloads | DOOMP.py:114-115 | it succeeds exactly when every payload lies in the buffer; record j's data is its payload |
| DatUnpack.ReadHeader | DOOMP.py:65-76 | tag check, byte-order switch and header words compute ParseHeader, errors included |
| DatUnpack.ReadHeaderWords | DOOMP.py:71-76 | the six words after the tag are the header fields, and reading them fails exactly on a short buffer |
| DatUnpack.ReadLeadingTables | DOOMP.py:86-95 | the offset and extension tables are read at their header pointers; the first failure is the error |
| DatUnpack.ReadTrailingTables | DOOMP.py:98-108 | the filename and size tables are read at their header pointers; the first failure is the error |
| DatUnpack.ReadTableFields | DOOMP.py:86-108 | the four tables fill record j's fields with record j of each table, exactly as ReadTables reads them |
| DatUnpack.ReadEntries | DOOMP.py:81-115 | the filled records are DecodeEntries of the buffer, errors included |
| DatUnpack.UnpackDat | DOOMP.py:63-117 | unpacking an archive computes Decode of its bytes in the chosen byte order |
| DatRepack.NewPackedFileFor | DOOMP.py:145-149 | a fresh record with the file's name, the extension of that name and the file's size |
| DatRepack.ListPackedFiles | DOOMP.py:142-150 | one fresh record per loose file in listing order, and the running width equals NameWidth |
| DatRepack.WriteHeader | DOOMP.py:132-139 | it writes the placeholder header, and fails exactly when the count does not fit 32 bits |
| DatRepack.WritePlaceholders | DOOMP.py:153-154 | it appends 4n zero bytes |
| DatRepack.WriteExtensions | DOOMP.py:158-159 | it appends the 4-byte extension records exactly when every extension fits, and otherwise fails with FieldTooLong |
| DatRepack.WriteFilenames | DOOMP.py:168-169 | it appends every name as a width-byte record |
| DatRepack.WriteSizes | DOOMP.py:177-178 | it appends the size table exactly when every size fits 32 bits |
| DatRepack.PatchPointer | DOOMP.py:160-163 | it writes the signed pointer at the given slot and restores the position; it fails when the pointer is at or above 2^31 |
| DatRepack.WritePayloads | DOOMP.py:185-186 | the buffer becomes the payloads laid out after it, and each record's start offset is that payload's aligned offset |
| DatRepack.LaidStep | DOOMP.py:185-186 | one file_to_dat at the end of the buffer extends the layout and the offsets by one file |
| DatRepack.WriteOffsetTable | DOOMP.py:189-191 | it replaces the words at 0x20 with the records' start offsets, and fails exactly when one does not fit 32 bits |
| DatRepack.WriteExtensionTable | DOOMP.py:156-163 | it appends the extension table and records its start at 0xC; it fails for a long extension or a pointer too wide |
| DatRepack.WriteNameTable | DOOMP.py:165-173 | it appends the width and the name records and records their start at 0x10; it fails when a value does not fit |
| DatRepack.NamePointerPatched | DOOMP.py:170-173 | patching 0x10 after the filename table records its start and leaves all the tables unchanged |
| DatRepack.WriteSizeTable | DOOMP.py:175-182 | it appends the size table and records its start at 0x14; it fails when a value does not fit |
| DatRepack.WriteTables | DOOMP.py:152-182 | the header and all four tables, with zero offsets, and it fails exactly when an extension or a field does not fit |
| DatRepack.PlaceholderTables | DOOMP.py:152-182 | the pieces the table phases write make up the table image with zero offsets |
| DatRepack.WritePayloadsAndOffsets | DOOMP.py:184-191 | after the tables, the payloads and then the real offsets complete RepackImage; it fails exactly when an offset does not fit |
| DatRepack.WriteArchive | DOOMP.py:130-191 | the buffer is RepackImage of the files, and it fails exactly when an extension is over 4 bytes or a 32-bit field cannot hold its value |
| DatRepack.RepackDat | DOOMP.py:121-197 | it returns rchop(dir, ".unpack") and RepackImage in the chosen byte order, and fails exactly as WriteArchive does |
| DatRepack.FinalImage | DOOMP.py:188-191 | filling in the offset table after the payloads completes the archive |
| DatRoundTrip.ReadU32sOfTable | DOOMP.py:86-89 | a written word table reads back as its values |
| DatRoundTrip.ReadStrsOfTable | DOOMP.py:92-95 | a written table of zero-free fixed-width strings reads back as those strings |
| DatRoundTrip.RecordBack | DOOMP.py:100-102 | record i of a written string table reads back as string i |
| DatRoundTrip.ReadNamesOfTable | DOOMP.py:98-102 | a written width and name records read back as the names |
| DatRoundTrip.HeaderOfImage | DOOMP.py:71-76 | a written header parses as its count, 0x20, the three table pointers and a zero unknown pointer |
| DatRoundTrip.HeaderBack | DOOMP.py:64-76 | an image holding the tables in place parses as the header the packer writes |
| DatRoundTrip.TablesBack | DOOMP.py:86-108 | the four tables in place read back as their records, pairing by position |
| DatRoundTrip.ArchiveTablesAt | DOOMP.py:132-191 | the archive holds the header with the tables' positions, and then the offsets, extensions, width, names and sizes back to back |
| DatRoundTrip.ArchiveTablesBack | DOOMP.py:63-108 | the archive's header and tables read back as the files' offsets, extensions, names and sizes |
| DatRoundTrip.ExtensionNullFree | DOOMP.py:48-49 | a zero-free name has a zero-free extension |
| DatRoundTrip.PayloadsPlaced | DOOMP.py:185-191 | in the archive, every payload sits at its recorded offset, aligned to 16, after the tables, in order and without overlap |
| DatRoundTrip.PayloadsBack | DOOMP.py:42-43 | reading size bytes at each recorded offset of the archive gives each file's contents |
| DatRoundTrip.ReadPlacedPayloads | DOOMP.py:114-115 | payloads in place read back as the files' contents |
| DatRoundTrip.ExpectedEntries | DOOMP.py:111-115 | the entries expected back are exactly the loose files when written out |
| DatRoundTrip.DecodeOfParts | DOOMP.py:63-115 | a header, tables and payloads that read give the entries pairing them by position |
| DatRoundTrip.RoundTrip | DOOMP.py:63-191 | unpacking a repacked archive in the same byte order gives every file's name, extension, offset, size and contents, in listing order |

## Left out

- The command line, the banner and every `print` (DOOMP.py:208-233, 41, 52, 78, 128): console output only.
- Filesystem access is left out. This covers `os.listdir`, `os.path.isfile`, `os.path.getsize`, `os.makedirs` and the file reads and writes. Instead, the directory is a sequence of loose files in listing order. The size recorded for a file is the length of its contents. Unpacking returns the entries instead of writing them to `<archive>.unpack/`.
- Unpacking stops at the first failing read, so loose files already written before the failure would remain on disk. The model returns only the error.
- Text encoding is left out. Names and extensions are byte sequences. Lengths, including the filename record width, are counted in bytes, whereas the program counts characters; the two differ for non-ASCII names.
- The binary reader/writer is an external library and is not part of this model. `BinaryCursor.Cursor` assumes the following:
  - Seek is unchecked.
  - A read past the end, or of a negative length, fails.
  - A write past the end grows the buffer, zero-filling any gap.
  - A 32-bit write of a value that does not fit fails and writes nothing.
- BinaryCursor.Cursor.WriteStrFixed: a string longer than its width is refused with FieldTooLong rather than truncated, since the library's behaviour there is not known.
- DatRoundTrip.RoundTrip: it requires names without zero bytes. Unpacking cuts each name at its first zero byte, so a zero byte inside a name is not recovered. It also requires the archive to be packable: every extension of at most 4 bytes, and every 32-bit field able to hold its value.
- The converse round trip, repacking an unpacked archive, is not stated. It depends on the order in which the directory is listed.
- `PackedFile.data` is never set while repacking, and the model leaves it as the program does.
