/**
 * `repackDAT`: writes the header with placeholder pointers, the placeholder
 * data-offset table, the extension, filename and size tables (back-patching each
 * table's pointer in the header), every payload aligned to 16 bytes, and finally
 * the data-offset table. The buffer it builds is proved to be `RepackImage`, and
 * it fails exactly when a field cannot hold what it has to.
 */
module DatRepack {
  import opened Wrappers
  import opened Bytes
  import opened BinaryCursor
  import opened DatNames
  import opened DatLayout
  import opened PackedFiles

  /** The packed file for one loose file: its name, the extension taken from it, and its size. */
  method NewPackedFileFor(file: LooseFile) returns (pf: PackedFile)
    ensures fresh(pf)
    ensures pf.filename == file.name && pf.extension == Extension(file.name) && pf.size == |file.contents|
  {
    pf := new PackedFile();
    pf.filename := file.name;
    pf.SetExtensionFromFilename();
    pf.size := |file.contents|;
  }

  /** One packed file per loose file, in listing order, and the filename record width. */
  method ListPackedFiles(files: seq<LooseFile>) returns (pfs: seq<PackedFile>, width: nat)
    ensures |pfs| == |files| && Distinct(pfs)
    ensures forall j :: 0 <= j < |files| ==> fresh(pfs[j])
    ensures width == NameWidth(files)
    ensures forall j :: 0 <= j < |files| ==>
      && pfs[j].filename == files[j].name
      && pfs[j].extension == Extension(files[j].name)
      && pfs[j].size == |files[j].contents|
  {
    pfs := [];
    width := 0;
    for i := 0 to |files|
      invariant |pfs| == i && Distinct(pfs)
      invariant forall j :: 0 <= j < i ==> fresh(pfs[j])
      invariant width == NameWidth(files[..i])
      invariant forall j :: 0 <= j < i ==>
        && pfs[j].filename == files[j].name
        && pfs[j].extension == Extension(files[j].name)
        && pfs[j].size == |files[j].contents|
    {
      var pf := NewPackedFileFor(files[i]);
      if |pf.filename| > width {
        width := |pf.filename| + 1;
      }
      pfs := pfs + [pf];
      assert files[..i + 1][..i] == files[..i];
    }
    assert files[..|files|] == files;
  }

  /** The tag, the file count, the pointer 0x20, four placeholder pointers and the padding word. */
  method WriteHeader(writer: Cursor, n: nat) returns (r: Outcome)
    requires writer.buf == [] && writer.pos == 0
    modifies writer`buf, writer`pos
    ensures r.Pass? <==> n < TWO_32
    ensures r.Fail? ==> r.error == ValueOutOfRange
    ensures r.Pass? ==> writer.buf == HeaderBytes(n, 0, 0, 0, writer.endian) && writer.pos == |writer.buf|
  {
    var tag := writer.WriteStrFixed(MAGIC, 4);
    r := writer.WriteU32(n);
    if r.Fail? {
      return;
    }
    var word := writer.WriteU32(HEADER_SIZE);
    WritePlaceholders(writer, 5);
    HeaderPlaceholders(n, writer.endian);
  }

  /** `n` zero words, placeholders to be replaced once their values are known. */
  method WritePlaceholders(writer: Cursor, n: nat)
    requires writer.pos == |writer.buf|
    modifies writer`buf, writer`pos
    ensures writer.buf == old(writer.buf) + Zeros(4 * n) && writer.pos == |writer.buf|
  {
    for i := 0 to n
      invariant writer.buf == old(writer.buf) + Zeros(4 * i) && writer.pos == |writer.buf|
    {
      var word := writer.WriteU32(0);
      U32BytesZero(writer.endian);
      ZerosAdd(4 * i, 4);
    }
  }

  /** The extension table: every packed file's extension as a 4-byte field. */
  method WriteExtensions(writer: Cursor, pfs: seq<PackedFile>, ghost exts: seq<Bytes>) returns (r: Outcome)
    requires |exts| == |pfs| && forall j :: 0 <= j < |pfs| ==> pfs[j].extension == exts[j]
    requires writer.pos == |writer.buf|
    modifies writer`buf, writer`pos
    ensures r.Pass? <==> AllFit(exts, 4)
    ensures r.Fail? ==> r.error == FieldTooLong
    ensures r.Pass? ==> writer.buf == old(writer.buf) + FixedTable(exts, 4) && writer.pos == |writer.buf|
  {
    for i := 0 to |pfs|
      invariant AllFit(exts[..i], 4)
      invariant writer.buf == old(writer.buf) + FixedTable(exts[..i], 4) && writer.pos == |writer.buf|
    {
      r := writer.WriteStrFixed(pfs[i].extension, 4);
      if r.Fail? {
        return;
      }
      FixedTableSnoc(exts, i, 4);
    }
    assert exts[..|pfs|] == exts;
    r := Pass;
  }

  /** The filename records: every packed file's name as a `width`-byte field. */
  method WriteFilenames(writer: Cursor, pfs: seq<PackedFile>, width: nat, ghost names: seq<Bytes>)
    requires |names| == |pfs| && forall j :: 0 <= j < |pfs| ==> pfs[j].filename == names[j]
    requires AllFit(names, width)
    requires writer.pos == |writer.buf|
    modifies writer`buf, writer`pos
    ensures writer.buf == old(writer.buf) + FixedTable(names, width) && writer.pos == |writer.buf|
  {
    for i := 0 to |pfs|
      invariant writer.buf == old(writer.buf) + FixedTable(names[..i], width) && writer.pos == |writer.buf|
    {
      var field := writer.WriteStrFixed(pfs[i].filename, width);
      FixedTableSnoc(names, i, width);
    }
    assert names[..|pfs|] == names;
  }

  /** The size table: every packed file's size as an unsigned word. */
  method WriteSizes(writer: Cursor, pfs: seq<PackedFile>, ghost sizes: seq<nat>) returns (r: Outcome)
    requires |sizes| == |pfs| && forall j :: 0 <= j < |pfs| ==> pfs[j].size == sizes[j]
    requires writer.pos == |writer.buf|
    modifies writer`buf, writer`pos
    ensures r.Pass? <==> AllU32(sizes)
    ensures r.Fail? ==> r.error == ValueOutOfRange
    ensures r.Pass? ==> writer.buf == old(writer.buf) + U32Table(sizes, writer.endian) && writer.pos == |writer.buf|
  {
    for i := 0 to |pfs|
      invariant AllU32(sizes[..i])
      invariant writer.buf == old(writer.buf) + U32Table(sizes[..i], writer.endian) && writer.pos == |writer.buf|
    {
      r := writer.WriteU32(pfs[i].size);
      if r.Fail? {
        return;
      }
      U32TableSnoc(sizes, i, writer.endian);
    }
    assert sizes[..|pfs|] == sizes;
    r := Pass;
  }

  /** Writes the signed word `v` at `at` and returns to where the writer was. */
  method PatchPointer(writer: Cursor, at: nat, v: nat) returns (r: Outcome)
    modifies writer`buf, writer`pos
    ensures r.Pass? <==> v < TWO_31
    ensures r.Fail? ==> r.error == ValueOutOfRange
    ensures r.Pass? ==> writer.buf == Overwrite(old(writer.buf), at, I32Bytes(v, writer.endian))
    ensures r.Pass? ==> writer.pos == old(writer.pos)
  {
    var currPos := writer.pos;
    writer.Seek(at);
    r := writer.WriteI32(v);
    if r.Fail? {
      return;
    }
    writer.Seek(currPos);
  }

  /** Every payload, aligned to 16 bytes, with its start offset recorded in its packed file. */
  method WritePayloads(writer: Cursor, pfs: seq<PackedFile>, files: seq<LooseFile>)
    requires |pfs| == |files| && Distinct(pfs)
    requires writer.pos == |writer.buf|
    modifies writer`buf, writer`pos, pfs`startOffset
    ensures writer.buf == Laid(old(writer.buf), files) && writer.pos == |writer.buf|
    ensures forall j :: 0 <= j < |pfs| ==> pfs[j].startOffset == Offsets(|old(writer.buf)|, files)[j]
  {
    ghost var head := writer.buf;
    ghost var offsets: seq<nat> := [];
    for i := 0 to |pfs|
      invariant writer.buf == Laid(head, files[..i]) && writer.pos == |writer.buf|
      invariant offsets == Offsets(|head|, files[..i])
      invariant forall j :: 0 <= j < i ==> pfs[j].startOffset == offsets[j]
    {
      ghost var before := writer.buf;
      pfs[i].FileToDat(writer, files[i].contents);
      LaidStep(head, files, i, before, writer.buf, pfs[i].startOffset);
      offsets := offsets + [pfs[i].startOffset];
    }
    assert files[..|pfs|] == files;
  }

  /** What one `file_to_dat` at the end of the buffer does to the laid-out payloads and their offsets. */
  lemma LaidStep(head: Bytes, files: seq<LooseFile>, i: nat, before: Bytes, after: Bytes, start: nat)
    requires i < |files| && before == Laid(head, files[..i])
    requires after == before + Chunk(|before|, files[i].contents) && start == AlignUp16(|before|)
    ensures after == Laid(head, files[..i + 1])
    ensures Offsets(|head|, files[..i + 1]) == Offsets(|head|, files[..i]) + [start]
  {
    LaidSnoc(head, files, i);
  }

  /** Replaces the placeholder table at 0x20 with every packed file's start offset. */
  method WriteOffsetTable(writer: Cursor, pfs: seq<PackedFile>, ghost offsets: seq<nat>) returns (r: Outcome)
    requires |offsets| == |pfs| && forall j :: 0 <= j < |pfs| ==> pfs[j].startOffset == offsets[j]
    requires writer.pos == HEADER_SIZE && HEADER_SIZE + 4 * |pfs| <= |writer.buf|
    modifies writer`buf, writer`pos
    ensures r.Pass? <==> AllU32(offsets)
    ensures r.Fail? ==> r.error == ValueOutOfRange
    ensures r.Pass? ==> writer.buf == WithOffsetTable(old(writer.buf), offsets, writer.endian)
  {
    ghost var b := writer.buf;
    for i := 0 to |pfs|
      invariant AllU32(offsets[..i])
      invariant writer.pos == HEADER_SIZE + 4 * i
      invariant writer.buf == WithOffsetTable(b, offsets[..i], writer.endian)
    {
      r := writer.WriteU32(pfs[i].startOffset);
      if r.Fail? {
        return;
      }
      WithOffsetTableSnoc(b, offsets, i, writer.endian);
    }
    assert offsets[..|pfs|] == offsets;
    r := Pass;
  }

  /** The extension table after the placeholder offsets, then its pointer patched in at 0xC. */
  method WriteExtensionTable(writer: Cursor, pfs: seq<PackedFile>, files: seq<LooseFile>) returns (r: Outcome)
    requires |pfs| == |files| && forall j :: 0 <= j < |files| ==> pfs[j].extension == Extension(files[j].name)
    requires |files| < TWO_32
    requires writer.buf == HeaderBytes(|files|, 0, 0, 0, writer.endian) + Zeros(4 * |files|)
    requires writer.pos == |writer.buf|
    modifies writer`buf, writer`pos
    ensures r.Pass? <==> ExtensionsFit(files) && ExtTableStart(|files|) < TWO_31
    ensures r.Fail? ==> ((r.error == FieldTooLong && !ExtensionsFit(files))
      || (r.error == ValueOutOfRange && ExtTableStart(|files|) >= TWO_31))
    ensures r.Pass? ==> (
      && AllFit(Extensions(files), 4)
      && writer.buf == HeaderBytes(|files|, ExtTableStart(|files|), 0, 0, writer.endian)
           + (Zeros(4 * |files|) + FixedTable(Extensions(files), 4))
      && writer.pos == |writer.buf|)
  {
    var n := |files|;
    ghost var e := writer.endian;
    ghost var exts := Extensions(files);
    assert AllFit(exts, 4) <==> ExtensionsFit(files);
    var etPtr := writer.pos;
    r := WriteExtensions(writer, pfs, exts);
    if r.Fail? {
      return;
    }
    r := PatchPointer(writer, 0xC, etPtr);
    if r.Fail? {
      return;
    }
    ghost var rest := Zeros(4 * n) + FixedTable(exts, 4);
    assert HeaderBytes(n, 0, 0, 0, e) + Zeros(4 * n) + FixedTable(exts, 4) == HeaderBytes(n, 0, 0, 0, e) + rest;
    PatchExtPointer(n, etPtr, e, rest);
  }

  /** The filename record width and the records, then their pointer patched in at 0x10. */
  method WriteNameTable(writer: Cursor, pfs: seq<PackedFile>, files: seq<LooseFile>, width: nat, ghost body: Bytes)
    returns (r: Outcome)
    requires |pfs| == |files| && forall j :: 0 <= j < |files| ==> pfs[j].filename == files[j].name
    requires width == NameWidth(files) && AllFit(Names(files), width)
    requires |files| < TWO_32 && ExtTableStart(|files|) < TWO_31
    requires writer.buf == HeaderBytes(|files|, ExtTableStart(|files|), 0, 0, writer.endian) + body
    requires |body| == 8 * |files| && writer.pos == |writer.buf|
    modifies writer`buf, writer`pos
    ensures r.Pass? <==> width < TWO_32 && NameTableStart(|files|) < TWO_31
    ensures r.Fail? ==> r.error == ValueOutOfRange
    ensures r.Pass? ==> (
      && writer.buf == HeaderBytes(|files|, ExtTableStart(|files|), NameTableStart(|files|), 0, writer.endian)
           + (body + U32Bytes(width, writer.endian) + FixedTable(Names(files), width))
      && writer.pos == |writer.buf|)
  {
    var n := |files|;
    ghost var e := writer.endian;
    ghost var names := Names(files);
    var ntPtr := writer.pos;
    r := writer.WriteU32(width);
    if r.Fail? {
      return;
    }
    WriteFilenames(writer, pfs, width, names);
    r := PatchPointer(writer, 0x10, ntPtr);
    if r.Fail? {
      return;
    }
    NamePointerPatched(n, ExtTableStart(n), ntPtr, e, body, U32Bytes(width, e), FixedTable(names, width));
  }

  /** Patching the filename-table pointer into the header of a buffer that goes on with the tables written so far. */
  lemma NamePointerPatched(n: nat, et: nat, v: nat, e: Endian, body: Bytes, widthField: Bytes, records: Bytes)
    requires n < TWO_32 && et < TWO_31 && v < TWO_31
    ensures Overwrite(HeaderBytes(n, et, 0, 0, e) + body + widthField + records, 0x10, I32Bytes(v, e))
         == HeaderBytes(n, et, v, 0, e) + (body + widthField + records)
  {
    var head := HeaderBytes(n, et, 0, 0, e);
    assert head + body + widthField + records == head + (body + widthField + records);
    PatchNamePointer(n, et, v, e, body + widthField + records);
  }

  /** The size table, then its pointer patched in at 0x14. */
  method WriteSizeTable(writer: Cursor, pfs: seq<PackedFile>, files: seq<LooseFile>, width: nat, ghost body: Bytes)
    returns (r: Outcome)
    requires |pfs| == |files| && forall j :: 0 <= j < |files| ==> pfs[j].size == |files[j].contents|
    requires |files| < TWO_32 && NameTableStart(|files|) < TWO_31
    requires writer.buf == HeaderBytes(|files|, ExtTableStart(|files|), NameTableStart(|files|), 0, writer.endian) + body
    requires |body| == 8 * |files| + 4 + Span(|files|, width) && writer.pos == |writer.buf|
    modifies writer`buf, writer`pos
    ensures r.Pass? <==> AllU32(Sizes(files)) && SizeTableStart(|files|, width) < TWO_31
    ensures r.Fail? ==> r.error == ValueOutOfRange
    ensures r.Pass? ==> (
      && writer.buf == HeaderBytes(|files|, ExtTableStart(|files|), NameTableStart(|files|),
           SizeTableStart(|files|, width), writer.endian) + (body + U32Table(Sizes(files), writer.endian))
      && writer.pos == |writer.buf|)
  {
    var n := |files|;
    ghost var e := writer.endian;
    ghost var sizes := Sizes(files);
    var stPtr := writer.pos;
    r := WriteSizes(writer, pfs, sizes);
    if r.Fail? {
      return;
    }
    r := PatchPointer(writer, 0x14, stPtr);
    if r.Fail? {
      return;
    }
    ghost var head := HeaderBytes(n, ExtTableStart(n), NameTableStart(n), 0, e);
    ghost var rest := body + U32Table(sizes, e);
    assert head + body + U32Table(sizes, e) == head + rest;
    PatchSizePointer(n, ExtTableStart(n), NameTableStart(n), stPtr, e, rest);
  }

  /**
   * Everything after the header up to the payloads: the placeholder offsets and
   * the three tables, each followed by the back-patching of its header pointer.
   */
  method WriteTables(writer: Cursor, pfs: seq<PackedFile>, files: seq<LooseFile>, width: nat) returns (r: Outcome)
    requires |pfs| == |files| && width == NameWidth(files)
    requires forall j :: 0 <= j < |files| ==>
      && pfs[j].filename == files[j].name
      && pfs[j].extension == Extension(files[j].name)
      && pfs[j].size == |files[j].contents|
    requires |files| < TWO_32
    requires writer.buf == HeaderBytes(|files|, 0, 0, 0, writer.endian) && writer.pos == |writer.buf|
    modifies writer`buf, writer`pos
    ensures r.Pass? <==> ExtensionsFit(files) && TablesFit(files)
    ensures r.Fail? ==> ((r.error == FieldTooLong && !ExtensionsFit(files))
      || (r.error == ValueOutOfRange && !TablesFit(files)))
    ensures r.Pass? ==> writer.buf == TablesImage(files, ZeroWords(|files|), writer.endian) && writer.pos == |writer.buf|
  {
    var n := |files|;
    ghost var e := writer.endian;
    FitsBounds(files);
    WritePlaceholders(writer, n);
    r := WriteExtensionTable(writer, pfs, files);
    if r.Fail? {
      return;
    }
    ghost var body := Zeros(4 * n) + FixedTable(Extensions(files), 4);
    SpanOfWords(n);
    r := WriteNameTable(writer, pfs, files, width, body);
    if r.Fail? {
      return;
    }
    body := body + U32Bytes(width, e) + FixedTable(Names(files), width);
    r := WriteSizeTable(writer, pfs, files, width, body);
    if r.Fail? {
      return;
    }
    PlaceholderTables(files, e);
  }

  /** The tables as the phases above leave them, with the data offsets still zero. */
  lemma PlaceholderTables(files: seq<LooseFile>, e: Endian)
    requires TablesFit(files) && ExtensionsFit(files)
    ensures FieldsFit(files)
    ensures var n, w := |files|, NameWidth(files);
      HeaderBytes(n, ExtTableStart(n), NameTableStart(n), SizeTableStart(n, w), e)
         + (Zeros(4 * n) + FixedTable(Extensions(files), 4) + U32Bytes(w, e)
            + FixedTable(Names(files), w) + U32Table(Sizes(files), e))
         == TablesImage(files, ZeroWords(n), e)
  {
    TablesBounds(files);
    var n, w := |files|, NameWidth(files);
    U32TableZeroPadded([], n, e);
    assert [] + ZeroWords(n) == ZeroWords(n);
    var x, m, s := FixedTable(Extensions(files), 4), FixedTable(Names(files), w), U32Table(Sizes(files), e);
    assert LaterTables(files, e) == x + U32Bytes(w, e) + m + s;
    assert U32Table(ZeroWords(n), e) == Zeros(4 * n);
    Regroup(Zeros(4 * n), x, U32Bytes(w, e), m, s);
  }

  /** The payloads after the tables, then the data-offset table filled in with their start offsets. */
  method WritePayloadsAndOffsets(writer: Cursor, pfs: seq<PackedFile>, files: seq<LooseFile>) returns (r: Outcome)
    requires |pfs| == |files| && Distinct(pfs)
    requires forall j :: 0 <= j < |files| ==> pfs[j].size == |files[j].contents|
    requires TablesFit(files) && ExtensionsFit(files)
    requires writer.buf == TablesImage(files, ZeroWords(|files|), writer.endian) && writer.pos == |writer.buf|
    modifies writer`buf, writer`pos, pfs`startOffset
    ensures r.Pass? <==> Fits(files)
    ensures r.Fail? ==> r.error == ValueOutOfRange
    ensures r.Pass? ==> writer.buf == RepackImage(files, writer.endian)
  {
    ghost var e := writer.endian;
    var n := |files|;
    ghost var offsets := Offsets(DataStart(n, NameWidth(files)), files);
    WritePayloads(writer, pfs, files);
    ghost var laid := writer.buf;
    writer.Seek(HEADER_SIZE);
    FinalImage(files, e);
    r := WriteOffsetTable(writer, pfs, offsets);
    if r.Pass? {
      assert Fits(files);
    }
  }

  /** The header, the tables and the payloads of the archive for `files`, in the writer's byte order. */
  method WriteArchive(writer: Cursor, files: seq<LooseFile>) returns (r: Outcome)
    requires writer.buf == [] && writer.pos == 0
    modifies writer`buf, writer`pos
    ensures r.Pass? <==> ExtensionsFit(files) && Fits(files)
    ensures r.Fail? ==> ((r.error == FieldTooLong && !ExtensionsFit(files))
      || (r.error == ValueOutOfRange && !Fits(files)))
    ensures r.Pass? ==> writer.buf == RepackImage(files, writer.endian)
  {
    var n := |files|;
    FitsBounds(files);
    r := WriteHeader(writer, n);
    if r.Fail? {
      return;
    }
    var pfs, width := ListPackedFiles(files);
    r := WriteTables(writer, pfs, files, width);
    if r.Fail? {
      return;
    }
    r := WritePayloadsAndOffsets(writer, pfs, files);
  }

  /**
   * `repackDAT` on the loose files of the directory `dir`, in listing order, console
   * archives being big-endian: the archive path and bytes it writes, or the error
   * that aborts it (a too-long extension, or a value too wide for its field).
   */
  method RepackDat(dir: string, files: seq<LooseFile>, isConsole: bool) returns (r: Result<(string, Bytes)>)
    ensures r.Success? <==> ExtensionsFit(files) && Fits(files)
    ensures r.Failure? ==> ((r.error == FieldTooLong && !ExtensionsFit(files))
      || (r.error == ValueOutOfRange && !Fits(files)))
    ensures r.Success? ==> r.value == (Rchop(dir, UNPACK_SUFFIX), RepackImage(files, if isConsole then Big else Little))
  {
    var writer := new Cursor([]);
    if isConsole {
      writer.SetEndian(Big);
    }
    :- WriteArchive(writer, files);
    r := Success((Rchop(dir, UNPACK_SUFFIX), writer.buf));
  }

  /** Filling in the data-offset table of the laid-out tables and payloads completes the archive. */
  lemma FinalImage(files: seq<LooseFile>, e: Endian)
    requires TablesFit(files) && ExtensionsFit(files)
    ensures var laid := Laid(TablesImage(files, ZeroWords(|files|), e), files);
      && HEADER_SIZE + 4 * |files| <= |laid|
      && (Fits(files) ==> WithOffsetTable(laid, Offsets(DataStart(|files|, NameWidth(files)), files), e) == RepackImage(files, e))
  {
    var n := |files|;
    if Fits(files) {
      LaidTablesOffsets(files, ZeroWords(n), Offsets(DataStart(n, NameWidth(files)), files), e);
    }
  }
}
