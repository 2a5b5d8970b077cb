/**
 * What unpacking reads out of an archive buffer: the header, the four parallel
 * tables (data offsets, extensions, filenames, sizes), and each payload.
 */
module DatDecode {
  import opened Wrappers
  import opened Bytes
  import opened BinaryCursor
  import opened DatLayout

  /** One packed file as the unpacker's list holds it. */
  datatype Entry = Entry(filename: Bytes, extension: Bytes, startOffset: nat, size: nat, data: Bytes)

  /** The fields of the 0x20-byte header that unpacking reads (the word at 0x1C is never read). */
  datatype Header = Header(
    count: int,           // 0x04, signed
    offsetTableAt: nat,   // 0x08
    extTableAt: nat,      // 0x0C
    nameTableAt: nat,     // 0x10
    sizeTableAt: nat,     // 0x14
    unknownAt: nat)       // 0x18, read and ignored

  /** The four tag bytes pass the check exactly when they are "DAT" followed by a zero byte. */
  lemma MagicTag(tag: Bytes)
    requires |tag| == 4
    ensures CutAtNull(tag) == MAGIC <==> tag == MAGIC + [0]
  {
    if tag == MAGIC + [0] {
      CutAtNullOfPadded(MAGIC, 1);
      assert Zeros(1) == [0];
    }
  }

  /**
   * The header at the start of `data`: the tag must be "DAT" with its null byte,
   * and the six words after it must all be there.
   */
  function ParseHeader(data: Bytes, e: Endian): (r: Result<Header>)
    ensures r.Success? <==> |data| >= 0x1C && data[..4] == MAGIC + [0]
    ensures r.Success? ==> r.value == HeaderFields(data, e)
    ensures r == Failure(BadMagic) <==> |data| >= 4 && data[..4] != MAGIC + [0]
    ensures r.Failure? && r.error != BadMagic ==> r.error == ReadPastEnd
  {
    if |data| >= 4 then MagicTag(data[..4]); ParseFields(data, e)
    else Failure(ReadPastEnd)
  }

  function ParseFields(data: Bytes, e: Endian): Result<Header>
    requires |data| >= 4
  {
    if CutAtNull(data[..4]) != MAGIC then Failure(BadMagic)
    else if |data| < 0x1C then Failure(ReadPastEnd)
    else Success(HeaderFields(data, e))
  }

  /** The six words after the tag: the count signed, the table pointers and the unknown word unsigned. */
  function HeaderFields(data: Bytes, e: Endian): (h: Header)
    requires |data| >= 0x1C
    ensures h.count == I32Value(data[4..8], e)
    ensures ReadU32s(data, 8, 5, e) == Success([h.offsetTableAt, h.extTableAt, h.nameTableAt, h.sizeTableAt, h.unknownAt])
  {
    var h := Header(
      I32Value(data[4..8], e),
      U32Value(data[8..12], e), U32Value(data[12..16], e), U32Value(data[16..20], e),
      U32Value(data[20..24], e), U32Value(data[24..28], e));
    assert ReadU32s(data, 8, 5, e).value == [h.offsetTableAt, h.extTableAt, h.nameTableAt, h.sizeTableAt, h.unknownAt];
    h
  }

  /** `n` unsigned words read one after another from `at`. */
  function ReadU32s(data: Bytes, at: nat, n: nat, e: Endian): (r: Result<seq<nat>>)
    ensures r.Success? <==> n == 0 || at + 4 * n <= |data|
    ensures r.Failure? ==> r.error == ReadPastEnd
    ensures r.Success? ==> |r.value| == n
    ensures r.Success? ==> forall i :: 0 <= i < n ==> r.value[i] == U32Value(data[at + 4 * i..at + 4 * i + 4], e)
  {
    if n > 0 && at + 4 * n > |data| then Failure(ReadPastEnd)
    else Success(seq(n, i requires 0 <= i < n => WordAt(data, at, i, e)))
  }

  /** Word `i` of a table of unsigned words from `at` (zero when it cannot be read). */
  function WordAt(data: Bytes, at: nat, i: nat, e: Endian): nat {
    if at + 4 * i + 4 <= |data| then U32Value(data[at + 4 * i..at + 4 * i + 4], e) else 0
  }

  /** `n` fixed-width string records read one after another from `at`, null padding dropped. */
  function ReadStrs(data: Bytes, at: nat, n: nat, width: int): (r: Result<seq<Bytes>>)
    ensures r.Success? <==> n == 0 || (0 <= width && at + Span(n, width) <= |data|)
    ensures r.Failure? ==> r.error == if width < 0 then NegativeLength else ReadPastEnd
    ensures r.Success? ==> |r.value| == n
  {
    if n == 0 then Success([])
    else if width < 0 then Failure(NegativeLength)
    else if at + Span(n, width) > |data| then Failure(ReadPastEnd)
    else Success(seq(n, i requires 0 <= i < n => RecordAt(data, at, i, width)))
  }

  /** A `width`-byte string record at `p` with its null padding dropped (empty when it cannot be read). */
  function Record(data: Bytes, p: nat, width: int): Bytes {
    if 0 <= width && p + width <= |data| then CutAtNull(data[p..p + width]) else []
  }

  /** Record `i` of a table of `width`-byte records from `at`. */
  function RecordAt(data: Bytes, at: nat, i: nat, width: int): Bytes {
    if 0 <= width then Record(data, at + Span(i, width), width) else []
  }

  /** A table whose record `i` cannot be read cannot be read as a whole. */
  lemma ReadStrsFails(data: Bytes, at: nat, n: nat, width: int, i: nat)
    requires i < n
    requires width < 0 || at + Span(i, width) + width > |data|
    ensures ReadStrs(data, at, n, width).Failure?
  {
    if 0 <= width {
      SpanStep(i, n, width);
    }
  }

  /** A table whose every record can be read reads as those records. */
  lemma ReadStrsAll(data: Bytes, at: nat, n: nat, width: int)
    requires n > 0 ==> 0 <= width && at + Span(n, width) <= |data|
    ensures ReadStrs(data, at, n, width).Success?
    ensures forall j :: 0 <= j < n ==> ReadStrs(data, at, n, width).value[j] == RecordAt(data, at, j, width)
  {
  }

  /** Record `i` of a string table that could be read. */
  lemma ReadStrsAt(data: Bytes, at: nat, n: nat, width: int, i: nat)
    requires ReadStrs(data, at, n, width).Success? && i < n
    ensures 0 <= width && at + Span(i, width) + width <= |data|
    ensures ReadStrs(data, at, n, width).value[i] == CutAtNull(data[at + Span(i, width)..at + Span(i, width) + width])
    ensures ReadStrs(data, at, n, width).value[i] == RecordAt(data, at, i, width)
  {
    SpanStep(i, n, width);
  }

  /** The filename table at `at`: a signed record width, then `n` records of that width. */
  function ReadNames(data: Bytes, at: nat, n: nat, e: Endian): (r: Result<seq<Bytes>>)
    ensures at + 4 > |data| ==> r == Failure(ReadPastEnd)
    ensures r.Success? <==> (at + 4 <= |data| &&
      var w := I32Value(data[at..at + 4], e);
      n == 0 || (0 <= w && at + 4 + Span(n, w) <= |data|))
    ensures r.Success? ==> (|r.value| == n &&
      forall j :: 0 <= j < n ==> r.value[j] == RecordAt(data, at + 4, j, I32Value(data[at..at + 4], e)))
  {
    var widthField :- ReadAt(data, at, 4);
    ReadStrs(data, at + 4, n, I32Value(widthField, e))
  }

  /** Each payload: `sizes[i]` bytes from `offsets[i]`. */
  function ReadPayloads(data: Bytes, offsets: seq<nat>, sizes: seq<nat>): (r: Result<seq<Bytes>>)
    requires |offsets| == |sizes|
    ensures r.Success? <==> forall i :: 0 <= i < |offsets| ==> offsets[i] + sizes[i] <= |data|
    ensures r.Failure? ==> r.error == ReadPastEnd
    ensures r.Success? ==> |r.value| == |offsets|
  {
    if forall i :: 0 <= i < |offsets| ==> offsets[i] + sizes[i] <= |data| then
      Success(seq(|offsets|, i requires 0 <= i < |offsets| => data[offsets[i]..offsets[i] + sizes[i]]))
    else Failure(ReadPastEnd)
  }

  /** Payload `i` is the `sizes[i]` bytes at `offsets[i]`. */
  lemma ReadPayloadsAt(data: Bytes, offsets: seq<nat>, sizes: seq<nat>, i: nat)
    requires |offsets| == |sizes| && ReadPayloads(data, offsets, sizes).Success? && i < |offsets|
    ensures offsets[i] + sizes[i] <= |data|
    ensures ReadPayloads(data, offsets, sizes).value[i] == data[offsets[i]..offsets[i] + sizes[i]]
  {
  }

  /** The number of entries a header announces: a negative count announces none. */
  function EntryCount(h: Header): (n: nat)
    ensures h.count <= 0 <==> n == 0
    ensures n >= h.count && (n == 0 || n == h.count)
  {
    if h.count < 0 then 0 else h.count
  }

  /**
   * Unpacking `data` in byte order `e`: the header, then the entries it announces.
   */
  function Decode(data: Bytes, e: Endian): (r: Result<seq<Entry>>)
    ensures |data| >= 4 && data[..4] != MAGIC + [0] ==> r == Failure(BadMagic)
    ensures r.Success? ==> |data| >= 0x1C && data[..4] == MAGIC + [0]
    ensures r.Success? ==> |r.value| == EntryCount(HeaderFields(data, e))
    ensures r.Success? ==> forall i :: 0 <= i < |r.value| ==>
      var x := r.value[i];
      x.startOffset + x.size <= |data| && x.data == data[x.startOffset..x.startOffset + x.size]
  {
    var h :- ParseHeader(data, e);
    DecodeEntries(data, h, e)
  }

  /** The four parallel tables as read: one record per announced entry in each. */
  datatype Tables = Tables(offsets: seq<nat>, exts: seq<Bytes>, names: seq<Bytes>, sizes: seq<nat>)

  /**
   * The tables announced by header `h`, each `EntryCount(h)` records long, read in
   * the order data offsets, extensions, filename record width and filenames, sizes.
   */
  function ReadTables(data: Bytes, h: Header, e: Endian): (r: Result<Tables>)
    ensures r.Success? ==> var n := EntryCount(h);
      |r.value.offsets| == |r.value.exts| == |r.value.names| == |r.value.sizes| == n
  {
    var n := EntryCount(h);
    var offsets :- ReadU32s(data, h.offsetTableAt, n, e);
    var exts :- ReadStrs(data, h.extTableAt, n, 4);
    var names :- ReadNames(data, h.nameTableAt, n, e);
    var sizes :- ReadU32s(data, h.sizeTableAt, n, e);
    Success(Tables(offsets, exts, names, sizes))
  }

  /** The tables can be read exactly when each of the four can, in reading order. */
  lemma ReadTablesSucceeds(data: Bytes, h: Header, e: Endian)
    ensures ReadTables(data, h, e).Success? <==>
      && ReadU32s(data, h.offsetTableAt, EntryCount(h), e).Success?
      && ReadStrs(data, h.extTableAt, EntryCount(h), 4).Success?
      && ReadNames(data, h.nameTableAt, EntryCount(h), e).Success?
      && ReadU32s(data, h.sizeTableAt, EntryCount(h), e).Success?
    ensures ReadTables(data, h, e).Failure? ==> ReadTables(data, h, e).error in {ReadPastEnd, NegativeLength}
  {
  }

  /** Record `i` of each table read: the words unsigned, the strings with their null padding dropped. */
  lemma ReadTablesAt(data: Bytes, h: Header, e: Endian, i: nat)
    requires ReadTables(data, h, e).Success? && i < EntryCount(h)
    ensures h.offsetTableAt + 4 * i + 4 <= |data| && h.extTableAt + 4 * i + 4 <= |data|
    ensures h.nameTableAt + 4 <= |data| && h.sizeTableAt + 4 * i + 4 <= |data|
    ensures var t := ReadTables(data, h, e).value;
      && t.offsets[i] == U32Value(data[h.offsetTableAt + 4 * i..h.offsetTableAt + 4 * i + 4], e)
      && t.exts[i] == CutAtNull(data[h.extTableAt + 4 * i..h.extTableAt + 4 * i + 4])
      && t.names[i] == RecordAt(data, h.nameTableAt + 4, i, I32Value(data[h.nameTableAt..h.nameTableAt + 4], e))
      && t.sizes[i] == U32Value(data[h.sizeTableAt + 4 * i..h.sizeTableAt + 4 * i + 4], e)
  {
    ReadTablesWordsAt(data, h, e, i);
    ReadTablesExtAt(data, h, e, i);
    ReadTablesNameAt(data, h, e, i);
  }

  /** Entry `i`'s data offset and size: word `i` of their tables, read unsigned. */
  lemma ReadTablesWordsAt(data: Bytes, h: Header, e: Endian, i: nat)
    requires ReadTables(data, h, e).Success? && i < EntryCount(h)
    ensures h.offsetTableAt + 4 * i + 4 <= |data| && h.sizeTableAt + 4 * i + 4 <= |data|
    ensures ReadTables(data, h, e).value.offsets[i] == U32Value(data[h.offsetTableAt + 4 * i..h.offsetTableAt + 4 * i + 4], e)
    ensures ReadTables(data, h, e).value.sizes[i] == U32Value(data[h.sizeTableAt + 4 * i..h.sizeTableAt + 4 * i + 4], e)
  {
    ReadTablesSucceeds(data, h, e);
    ReadTablesValue(data, h, e);
  }

  /** Entry `i`'s extension: the 4-byte record `i` of its table, null padding dropped. */
  lemma ReadTablesExtAt(data: Bytes, h: Header, e: Endian, i: nat)
    requires ReadTables(data, h, e).Success? && i < EntryCount(h)
    ensures h.extTableAt + 4 * i + 4 <= |data|
    ensures ReadTables(data, h, e).value.exts[i] == CutAtNull(data[h.extTableAt + 4 * i..h.extTableAt + 4 * i + 4])
  {
    ReadTablesSucceeds(data, h, e);
    ReadTablesValue(data, h, e);
    ReadStrsAt(data, h.extTableAt, EntryCount(h), 4, i);
    SpanOfWords(i);
  }

  /** Entry `i`'s filename: record `i` after the table's signed width word. */
  lemma ReadTablesNameAt(data: Bytes, h: Header, e: Endian, i: nat)
    requires ReadTables(data, h, e).Success? && i < EntryCount(h)
    ensures h.nameTableAt + 4 <= |data|
    ensures ReadTables(data, h, e).value.names[i] == RecordAt(data, h.nameTableAt + 4, i, I32Value(data[h.nameTableAt..h.nameTableAt + 4], e))
  {
    ReadTablesSucceeds(data, h, e);
    ReadTablesValue(data, h, e);
  }

  /** A successful read holds the four tables as each was read. */
  lemma ReadTablesValue(data: Bytes, h: Header, e: Endian)
    requires ReadTables(data, h, e).Success?
    ensures var n := EntryCount(h);
      ReadTables(data, h, e).value == Tables(
        ReadU32s(data, h.offsetTableAt, n, e).value, ReadStrs(data, h.extTableAt, n, 4).value,
        ReadNames(data, h.nameTableAt, n, e).value, ReadU32s(data, h.sizeTableAt, n, e).value)
  {
  }

  /**
   * The entries announced by header `h`: the i-th record of every table describes
   * entry i, and entry i's payload is `size` bytes from its start offset.
   */
  function DecodeEntries(data: Bytes, h: Header, e: Endian): (r: Result<seq<Entry>>)
    ensures r.Success? <==> (ReadTables(data, h, e).Success? &&
      ReadPayloads(data, ReadTables(data, h, e).value.offsets, ReadTables(data, h, e).value.sizes).Success?)
    ensures r.Success? ==>
      var t := ReadTables(data, h, e).value;
      var payloads := ReadPayloads(data, t.offsets, t.sizes).value;
      && |r.value| == EntryCount(h)
      && forall i :: 0 <= i < |r.value| ==>
           r.value[i] == Entry(t.names[i], t.exts[i], t.offsets[i], t.sizes[i], payloads[i])
  {
    var t :- ReadTables(data, h, e);
    var payloads :- ReadPayloads(data, t.offsets, t.sizes);
    Success(seq(EntryCount(h), i requires 0 <= i < EntryCount(h) =>
      Entry(t.names[i], t.exts[i], t.offsets[i], t.sizes[i], payloads[i])))
  }

  /** The loose files unpacking writes: each entry's name and payload, in table order. */
  function Extracted(entries: seq<Entry>): (r: seq<DatNames.LooseFile>)
    ensures |r| == |entries|
    ensures forall i :: 0 <= i < |r| ==> r[i].name == entries[i].filename && r[i].contents == entries[i].data
  {
    seq(|entries|, i requires 0 <= i < |entries| => DatNames.LooseFile(entries[i].filename, entries[i].data))
  }
}
