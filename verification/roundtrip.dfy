/**
 * Unpacking what the packer writes: the archive `RepackImage(files, e)` decodes,
 * in the same byte order, to one entry per loose file, carrying that file's name,
 * extension, size and contents, with the payloads at 16-byte aligned offsets in
 * listing order.
 */
module DatRoundTrip {
  import opened Wrappers
  import opened Bytes
  import opened DatNames
  import opened DatLayout
  import opened BinaryCursor
  import opened DatDecode

  /** No name holds a zero byte (the unpacker reads each name up to the first one). */
  predicate NullFreeNames(files: seq<LooseFile>) {
    forall i :: 0 <= i < |files| ==> 0 !in files[i].name
  }

  /** The payload offsets the packer records in the data-offset table. */
  function DataOffsets(files: seq<LooseFile>): (r: seq<nat>)
    ensures |r| == |files|
  {
    Offsets(DataStart(|files|, NameWidth(files)), files)
  }

  // ---------------------------------------------------------------------------
  // Reading back the tables

  /** A table of 32-bit words reads back as its values. */
  lemma ReadU32sOfTable(data: Bytes, at: nat, n: nat, vals: seq<nat>, e: Endian)
    requires |vals| == n && AllU32(vals) && at + 4 * n <= |data|
    requires data[at..at + 4 * n] == U32Table(vals, e)
    ensures ReadU32s(data, at, n, e) == Success(vals)
  {
    var read := ReadU32s(data, at, n, e);
    var r := read.value;
    forall i | 0 <= i < |vals|
      ensures r[i] == vals[i]
    {
      U32TableAt(vals, e, i);
      WindowOfWindow(data, at, 4 * |vals|, 4 * i, 4 * i + 4);
      U32RoundTrip(vals[i], e);
    }
    assert r == vals;
    assert read == Success(r);
  }

  /** A table of null-padded records reads back as its strings when none holds a zero byte. */
  lemma ReadStrsOfTable(data: Bytes, at: nat, n: nat, strs: seq<Bytes>, w: nat, end: nat)
    requires |strs| == n && AllFit(strs, w) && forall i :: 0 <= i < n ==> 0 !in strs[i]
    requires end == at + Span(n, w) && end <= |data|
    requires data[at..end] == FixedTable(strs, w)
    ensures ReadStrs(data, at, n, w) == Success(strs)
  {
    var read := ReadStrs(data, at, n, w);
    var r := read.value;
    forall i | 0 <= i < n
      ensures r[i] == strs[i]
    {
      ReadStrsAt(data, at, n, w, i);
      RecordBack(data, at, n, strs, w, end, i);
    }
    assert r == strs;
    assert read == Success(r);
  }

  /** Record `i` of a table of null-padded records, read back. */
  lemma RecordBack(data: Bytes, at: nat, n: nat, strs: seq<Bytes>, w: nat, end: nat, i: nat)
    requires |strs| == n && AllFit(strs, w) && i < n && 0 !in strs[i]
    requires end == at + Span(n, w) && end <= |data|
    requires data[at..end] == FixedTable(strs, w)
    ensures at + Span(i, w) + w <= |data|
    ensures CutAtNull(data[at + Span(i, w)..at + Span(i, w) + w]) == strs[i]
  {
    RecordWindow(data, at, n, strs, w, end, i);
    CutAtNullOfFixed(strs[i], w);
  }

  /** Record `i` of a table of null-padded records sits `Span(i, w)` bytes into the table. */
  lemma RecordWindow(data: Bytes, at: nat, n: nat, strs: seq<Bytes>, w: nat, end: nat, i: nat)
    requires |strs| == n && AllFit(strs, w) && i < n
    requires end == at + Span(n, w) && end <= |data|
    requires data[at..end] == FixedTable(strs, w)
    ensures at + Span(i, w) + w <= |data|
    ensures data[at + Span(i, w)..at + Span(i, w) + w] == Fixed(strs[i], w)
  {
    SpanStep(i, n, w);
    FixedTableAt(strs, w, i);
    WindowOfTable(data, at, end, FixedTable(strs, w), Span(i, w), w, Fixed(strs[i], w));
    assert data[at + Span(i, w)..at + Span(i, w) + w] == Fixed(strs[i], w);
  }

  // ---------------------------------------------------------------------------
  // Where the packer puts the header and the tables

  /**
   * The records of `n` files fit the tables of an image with filename record width
   * `w`: one record per file in each table, every word below 2^32, every string no
   * longer than its record, and every header field below 2^31.
   */
  predicate RecordsFit(n: nat, w: nat, offsets: seq<nat>, exts: seq<Bytes>, names: seq<Bytes>, sizes: seq<nat>) {
    && |offsets| == n && |exts| == n && |names| == n && |sizes| == n
    && AllU32(offsets) && AllFit(exts, 4) && AllFit(names, w) && AllU32(sizes)
    && n < TWO_31 && w < TWO_31 && SizeTableStart(n, w) < TWO_31
  }

  /**
   * `img` holds, at the places the packer uses for `n` files and filename record
   * width `w`, the header and the four tables with the given records.
   */
  predicate TablesInPlace(img: Bytes, n: nat, w: nat, offsets: seq<nat>, exts: seq<Bytes>,
                          names: seq<Bytes>, sizes: seq<nat>, e: Endian) {
    && RecordsFit(n, w, offsets, exts, names, sizes)
    && DataStart(n, w) <= |img|
    && img[..HEADER_SIZE] == HeaderBytes(n, ExtTableStart(n), NameTableStart(n), SizeTableStart(n, w), e)
    && img[HEADER_SIZE..ExtTableStart(n)] == U32Table(offsets, e)
    && img[ExtTableStart(n)..NameTableStart(n)] == FixedTable(exts, 4)
    && img[NameTableStart(n)..NameTableStart(n) + 4] == U32Bytes(w, e)
    && img[NameTableStart(n) + 4..SizeTableStart(n, w)] == FixedTable(names, w)
    && img[SizeTableStart(n, w)..DataStart(n, w)] == U32Table(sizes, e)
  }

  /** A buffer that begins with one holding the tables in place holds them in place too. */
  lemma PrefixInPlace(img: Bytes, t: Bytes, n: nat, w: nat, offsets: seq<nat>, exts: seq<Bytes>,
                      names: seq<Bytes>, sizes: seq<nat>, e: Endian)
    requires |t| <= |img| && img[..|t|] == t
    requires TablesInPlace(t, n, w, offsets, exts, names, sizes, e)
    ensures TablesInPlace(img, n, w, offsets, exts, names, sizes, e)
  {
    PrefixWindow(img, t, 0, HEADER_SIZE);
    assert img[..HEADER_SIZE] == img[0..HEADER_SIZE];
    assert t[..HEADER_SIZE] == t[0..HEADER_SIZE];
    PrefixWindow(img, t, HEADER_SIZE, ExtTableStart(n));
    PrefixWindow(img, t, ExtTableStart(n), NameTableStart(n));
    PrefixWindow(img, t, NameTableStart(n), NameTableStart(n) + 4);
    PrefixWindow(img, t, NameTableStart(n) + 4, SizeTableStart(n, w));
    PrefixWindow(img, t, SizeTableStart(n, w), DataStart(n, w));
  }

  /** The pieces of the tables image, each at its place. */
  lemma TablesWindows(t: Bytes, h: Bytes, o: Bytes, x: Bytes, wd: Bytes, m: Bytes, s: Bytes,
                      a: nat, b: nat, c: nat, d: nat, f: nat)
    requires t == h + (o + (x + wd + m + s))
    requires a == |h| && b == a + |o| && c == b + |x| && d == c + |wd| && f == d + |m|
    ensures |t| == f + |s|
    ensures t[..a] == h && t[a..b] == o && t[b..c] == x && t[c..d] == wd && t[d..f] == m && t[f..|t|] == s
  {
    assert t == h + o + x + wd + m + s;
  }

  /** The image of the tables the archive begins with. */
  function FinalTables(files: seq<LooseFile>, e: Endian): (r: Bytes)
    requires Packable(files)
    ensures |r| == DataStart(|files|, NameWidth(files))
  {
    TablesImage(files, DataOffsets(files), e)
  }

  /** The tables image as its pieces: header, data offsets, extensions, record width, filenames, sizes. */
  lemma TablesPieces(files: seq<LooseFile>, e: Endian) returns (h: Bytes, o: Bytes, x: Bytes, wd: Bytes, m: Bytes, s: Bytes)
    requires Packable(files)
    ensures FieldsFit(files)
    ensures FinalTables(files, e) == h + (o + (x + wd + m + s))
    ensures |h| == HEADER_SIZE && |o| == 4 * |files| && |x| == 4 * |files| && |wd| == 4
    ensures |m| == Span(|files|, NameWidth(files)) && |s| == 4 * |files|
    ensures h == HeaderBytes(|files|, ExtTableStart(|files|), NameTableStart(|files|), SizeTableStart(|files|, NameWidth(files)), e)
    ensures o == U32Table(DataOffsets(files), e)
    ensures x == FixedTable(Extensions(files), 4)
    ensures wd == U32Bytes(NameWidth(files), e)
    ensures m == FixedTable(Names(files), NameWidth(files))
    ensures s == U32Table(Sizes(files), e)
  {
    TablesBounds(files);
    var n, w := |files|, NameWidth(files);
    SpanOfWords(n);
    h := HeaderBytes(n, ExtTableStart(n), NameTableStart(n), SizeTableStart(n, w), e);
    o, x, wd := U32Table(DataOffsets(files), e), FixedTable(Extensions(files), 4), U32Bytes(w, e);
    m, s := FixedTable(Names(files), w), U32Table(Sizes(files), e);
  }

  /** The records of `files` fit their tables. */
  lemma FilesRecordsFit(files: seq<LooseFile>)
    requires Packable(files)
    ensures RecordsFit(|files|, NameWidth(files), DataOffsets(files), Extensions(files), Names(files), Sizes(files))
  {
    TablesBounds(files);
  }

  /** An image made of the header and the four tables, one after another, holds them in place. */
  lemma PiecesInPlace(t: Bytes, h: Bytes, o: Bytes, x: Bytes, wd: Bytes, m: Bytes, s: Bytes, n: nat, w: nat,
                      offsets: seq<nat>, exts: seq<Bytes>, names: seq<Bytes>, sizes: seq<nat>, e: Endian)
    requires RecordsFit(n, w, offsets, exts, names, sizes)
    requires t == h + (o + (x + wd + m + s))
    requires h == HeaderBytes(n, ExtTableStart(n), NameTableStart(n), SizeTableStart(n, w), e)
    requires o == U32Table(offsets, e) && x == FixedTable(exts, 4) && wd == U32Bytes(w, e)
    requires m == FixedTable(names, w) && s == U32Table(sizes, e)
    ensures TablesInPlace(t, n, w, offsets, exts, names, sizes, e)
  {
    SpanOfWords(n);
    TablesWindows(t, h, o, x, wd, m, s, HEADER_SIZE, ExtTableStart(n), NameTableStart(n), NameTableStart(n) + 4, SizeTableStart(n, w));
  }

  /** The tables image holds the header and the four tables of `files` in place. */
  lemma TablesAt(files: seq<LooseFile>, e: Endian)
    requires Packable(files)
    ensures TablesInPlace(FinalTables(files, e), |files|, NameWidth(files),
      DataOffsets(files), Extensions(files), Names(files), Sizes(files), e)
  {
    var h, o, x, wd, m, s := TablesPieces(files, e);
    FilesRecordsFit(files);
    PiecesInPlace(FinalTables(files, e), h, o, x, wd, m, s, |files|, NameWidth(files),
      DataOffsets(files), Extensions(files), Names(files), Sizes(files), e);
  }

  /** The archive holds the header and the four tables of `files` in place. */
  lemma ArchiveTablesAt(files: seq<LooseFile>, e: Endian)
    requires Packable(files)
    ensures TablesInPlace(RepackImage(files, e), |files|, NameWidth(files),
      DataOffsets(files), Extensions(files), Names(files), Sizes(files), e)
  {
    TablesAt(files, e);
    PrefixInPlace(RepackImage(files, e), FinalTables(files, e), |files|, NameWidth(files),
      DataOffsets(files), Extensions(files), Names(files), Sizes(files), e);
  }

  // ---------------------------------------------------------------------------
  // Reading the header and the tables back

  /** A word written below 2^31 reads back, as a signed word, as its value. */
  lemma ReadWordBack(data: Bytes, p: nat, v: nat, e: Endian)
    requires v < TWO_31 && p + 4 <= |data| && data[p..p + 4] == U32Bytes(v, e)
    ensures ReadAt(data, p, 4).Success? && I32Value(ReadAt(data, p, 4).value, e) == v
  {
    U32RoundTrip(v, e);
  }

  /** A filename table, its record width below 2^31 and then its null-free records, reads back as the names. */
  lemma ReadNamesOfTable(data: Bytes, at: nat, n: nat, names: seq<Bytes>, w: nat, end: nat, e: Endian)
    requires |names| == n && AllFit(names, w) && forall i :: 0 <= i < n ==> 0 !in names[i]
    requires w < TWO_31 && end == at + 4 + Span(n, w) && end <= |data|
    requires data[at..at + 4] == U32Bytes(w, e) && data[at + 4..end] == FixedTable(names, w)
    ensures ReadNames(data, at, n, e) == Success(names)
  {
    ReadWordBack(data, at, w, e);
    ReadStrsOfTable(data, at + 4, n, names, w, end);
  }

  /** The header the packer writes, as unpacking reads it. */
  function PackedHeader(n: nat, w: nat): Header {
    Header(n, HEADER_SIZE, ExtTableStart(n), NameTableStart(n), SizeTableStart(n, w), 0)
  }

  /** The header fields are the words read one after another from 4. */
  lemma FieldsOfWords(img: Bytes, words: seq<nat>, e: Endian)
    requires HEADER_SIZE <= |img| && ReadU32s(img, 4, 7, e) == Success(words)
    ensures U32Value(img[4..8], e) == words[0]
    ensures HeaderFields(img, e) == Header(I32Value(img[4..8], e), words[1], words[2], words[3], words[4], words[5])
  {
    assert words[0] == U32Value(img[4..8], e);
    assert words[1] == U32Value(img[8..12], e);
    assert words[2] == U32Value(img[12..16], e);
    assert words[3] == U32Value(img[16..20], e);
    assert words[4] == U32Value(img[20..24], e);
    assert words[5] == U32Value(img[24..28], e);
  }

  /** A buffer that starts with a header written by the packer parses as that header. */
  lemma HeaderOfImage(img: Bytes, count: nat, extAt: nat, nameAt: nat, sizeAt: nat, e: Endian)
    requires count < TWO_31 && extAt < TWO_31 && nameAt < TWO_31 && sizeAt < TWO_31
    requires HEADER_SIZE <= |img| && img[..HEADER_SIZE] == HeaderBytes(count, extAt, nameAt, sizeAt, e)
    ensures ParseHeader(img, e) == Success(Header(count, HEADER_SIZE, extAt, nameAt, sizeAt, 0))
  {
    var words := HeaderWords(count, extAt, nameAt, sizeAt);
    var hb := HeaderBytes(count, extAt, nameAt, sizeAt, e);
    assert AllU32(words);
    assert hb == Fixed(MAGIC, 4) + U32Table(words, e);
    assert Fixed(MAGIC, 4) == MAGIC + [0];
    PrefixWindow(img, hb, 0, 4);
    assert img[..4] == img[0..4];
    MagicTag(img[..4]);
    PrefixWindow(img, hb, 4, HEADER_SIZE);
    assert hb[4..HEADER_SIZE] == U32Table(words, e);
    ReadU32sOfTable(img, 4, 7, words, e);
    FieldsOfWords(img, words, e);
  }

  /** A buffer holding the tables in place starts with "DAT" and the header announcing them. */
  lemma HeaderBack(img: Bytes, n: nat, w: nat, offsets: seq<nat>, exts: seq<Bytes>,
                   names: seq<Bytes>, sizes: seq<nat>, e: Endian)
    requires TablesInPlace(img, n, w, offsets, exts, names, sizes, e)
    ensures ParseHeader(img, e) == Success(PackedHeader(n, w))
  {
    HeaderOfImage(img, n, ExtTableStart(n), NameTableStart(n), SizeTableStart(n, w), e);
  }

  /** The data-offset table of a buffer holding the tables in place reads back as the offsets. */
  lemma OffsetsBack(img: Bytes, n: nat, w: nat, offsets: seq<nat>, exts: seq<Bytes>,
                    names: seq<Bytes>, sizes: seq<nat>, e: Endian)
    requires TablesInPlace(img, n, w, offsets, exts, names, sizes, e)
    ensures ReadU32s(img, HEADER_SIZE, n, e) == Success(offsets)
  {
    ReadU32sOfTable(img, HEADER_SIZE, n, offsets, e);
  }

  /** The extension table of a buffer holding the tables in place reads back as the extensions. */
  lemma ExtensionsBack(img: Bytes, n: nat, w: nat, offsets: seq<nat>, exts: seq<Bytes>,
                       names: seq<Bytes>, sizes: seq<nat>, e: Endian)
    requires TablesInPlace(img, n, w, offsets, exts, names, sizes, e)
    requires forall i :: 0 <= i < n ==> 0 !in exts[i]
    ensures ReadStrs(img, ExtTableStart(n), n, 4) == Success(exts)
  {
    SpanOfWords(n);
    ReadStrsOfTable(img, ExtTableStart(n), n, exts, 4, NameTableStart(n));
  }

  /** The filename table of a buffer holding the tables in place reads back as the record width and the names. */
  lemma NamesBack(img: Bytes, n: nat, w: nat, offsets: seq<nat>, exts: seq<Bytes>,
                  names: seq<Bytes>, sizes: seq<nat>, e: Endian)
    requires TablesInPlace(img, n, w, offsets, exts, names, sizes, e)
    requires forall i :: 0 <= i < n ==> 0 !in names[i]
    ensures ReadNames(img, NameTableStart(n), n, e) == Success(names)
  {
    ReadNamesOfTable(img, NameTableStart(n), n, names, w, SizeTableStart(n, w), e);
  }

  /** The size table of a buffer holding the tables in place reads back as the sizes. */
  lemma SizesBack(img: Bytes, n: nat, w: nat, offsets: seq<nat>, exts: seq<Bytes>,
                  names: seq<Bytes>, sizes: seq<nat>, e: Endian)
    requires TablesInPlace(img, n, w, offsets, exts, names, sizes, e)
    ensures ReadU32s(img, SizeTableStart(n, w), n, e) == Success(sizes)
  {
    ReadU32sOfTable(img, SizeTableStart(n, w), n, sizes, e);
  }

  /** A buffer holding the tables in place reads back, under the header announcing them, as those tables. */
  lemma TablesBack(img: Bytes, n: nat, w: nat, offsets: seq<nat>, exts: seq<Bytes>,
                   names: seq<Bytes>, sizes: seq<nat>, e: Endian)
    requires TablesInPlace(img, n, w, offsets, exts, names, sizes, e)
    requires forall i :: 0 <= i < n ==> 0 !in exts[i] && 0 !in names[i]
    ensures ReadTables(img, PackedHeader(n, w), e) == Success(Tables(offsets, exts, names, sizes))
  {
    OffsetsBack(img, n, w, offsets, exts, names, sizes, e);
    ExtensionsBack(img, n, w, offsets, exts, names, sizes, e);
    NamesBack(img, n, w, offsets, exts, names, sizes, e);
    SizesBack(img, n, w, offsets, exts, names, sizes, e);
  }

  /** A name without a zero byte has an extension without one. */
  lemma ExtensionNullFree(name: Bytes)
    requires 0 !in name
    ensures 0 !in Extension(name)
  {
    ExtensionIsLastComponent(name);
    var ext := Extension(name);
    assert forall k :: 0 <= k < |ext| ==> ext[k] == name[|name| - |ext| + k];
  }

  // ---------------------------------------------------------------------------
  // Reading the payloads back, and the whole archive

  /**
   * The payloads the packer places are aligned to 16, start after the tables, come
   * in listing order without overlapping, and each holds its file's contents.
   */
  lemma PayloadsPlaced(files: seq<LooseFile>, e: Endian)
    requires Packable(files)
    ensures PayloadsInPlace(RepackImage(files, e), DataStart(|files|, NameWidth(files)), DataOffsets(files), files)
  {
    var t := FinalTables(files, e);
    assert RepackImage(files, e) == Laid(t, files);
    LaidInPlace(t, files);
  }

  /** Each payload the packer places reads back, at its recorded offset and size, as its file's contents. */
  lemma PayloadsBack(files: seq<LooseFile>, e: Endian)
    requires Packable(files)
    ensures var read := ReadPayloads(RepackImage(files, e), DataOffsets(files), Sizes(files));
      read.Success? && forall i :: 0 <= i < |files| ==> read.value[i] == files[i].contents
  {
    PayloadsPlaced(files, e);
    ReadPlacedPayloads(RepackImage(files, e), DataStart(|files|, NameWidth(files)), DataOffsets(files), files);
  }

  /** Payloads in place read back, at their offsets and sizes, as the files' contents. */
  lemma ReadPlacedPayloads(img: Bytes, base: nat, offsets: seq<nat>, files: seq<LooseFile>)
    requires PayloadsInPlace(img, base, offsets, files)
    ensures var read := ReadPayloads(img, offsets, Sizes(files));
      read.Success? && forall i :: 0 <= i < |files| ==> read.value[i] == files[i].contents
  {
    var sizes := Sizes(files);
    forall i | 0 <= i < |files|
      ensures offsets[i] + sizes[i] <= |img| && img[offsets[i]..offsets[i] + sizes[i]] == files[i].contents
    {
      assert PayloadSlot(img, base, offsets, files, i);
    }
  }

  /**
   * The entries unpacking an archive of `files` yields: entry i carries file i's
   * name, its extension, its recorded payload offset, its size and its contents.
   */
  function ExpectedEntries(files: seq<LooseFile>): (r: seq<Entry>)
    requires Packable(files)
    ensures |r| == |files|
    ensures Extracted(r) == files
  {
    var offsets := DataOffsets(files);
    seq(|files|, i requires 0 <= i < |files| =>
      Entry(files[i].name, Extension(files[i].name), offsets[i], |files[i].contents|, files[i].contents))
  }

  /** Decoding an image whose header, tables and payloads read back as given. */
  lemma DecodeOfParts(img: Bytes, h: Header, e: Endian, t: Tables, payloads: seq<Bytes>)
    requires ParseHeader(img, e) == Success(h)
    requires ReadTables(img, h, e) == Success(t)
    requires |t.offsets| == |t.sizes| && ReadPayloads(img, t.offsets, t.sizes) == Success(payloads)
    ensures Decode(img, e).Success?
    ensures Decode(img, e).value == seq(EntryCount(h), i requires 0 <= i < EntryCount(h) =>
      Entry(t.names[i], t.exts[i], t.offsets[i], t.sizes[i], payloads[i]))
  {
  }

  /** The archive of `files` parses as the header announcing its tables, and the tables read back as the files' records. */
  lemma ArchiveTablesBack(files: seq<LooseFile>, e: Endian)
    requires Packable(files) && NullFreeNames(files)
    ensures var img, h := RepackImage(files, e), PackedHeader(|files|, NameWidth(files));
      && ParseHeader(img, e) == Success(h)
      && ReadTables(img, h, e) == Success(Tables(DataOffsets(files), Extensions(files), Names(files), Sizes(files)))
  {
    var img := RepackImage(files, e);
    var n, w := |files|, NameWidth(files);
    var offsets, exts, names, sizes := DataOffsets(files), Extensions(files), Names(files), Sizes(files);
    ArchiveTablesAt(files, e);
    HeaderBack(img, n, w, offsets, exts, names, sizes, e);
    forall i | 0 <= i < n
      ensures 0 !in exts[i] && 0 !in names[i]
    {
      ExtensionNullFree(files[i].name);
    }
    TablesBack(img, n, w, offsets, exts, names, sizes, e);
  }

  /**
   * The round trip: unpacking, in the same byte order, the archive the packer writes
   * for `files` yields one entry per file, in listing order, carrying that file's
   * name, extension, size and contents, at the payload offset the table records.
   */
  lemma RoundTrip(files: seq<LooseFile>, e: Endian)
    requires Packable(files) && NullFreeNames(files)
    ensures Decode(RepackImage(files, e), e) == Success(ExpectedEntries(files))
  {
    var img := RepackImage(files, e);
    var n, w := |files|, NameWidth(files);
    var offsets, exts, names, sizes := DataOffsets(files), Extensions(files), Names(files), Sizes(files);
    ArchiveTablesBack(files, e);
    PayloadsBack(files, e);
    var payloads := ReadPayloads(img, offsets, sizes).value;
    DecodeOfParts(img, PackedHeader(n, w), e, Tables(offsets, exts, names, sizes), payloads);
    assert Decode(img, e).value == ExpectedEntries(files);
  }
}
