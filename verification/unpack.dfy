/**
 * `unpackDAT`: checks the tag, reads the header, fills one packed file per
 * announced entry from the four tables, then reads every payload. Each step is
 * proved to compute what `DatDecode.Decode` describes, errors included.
 */
module DatUnpack {
  import opened Wrappers
  import opened Bytes
  import opened BinaryCursor
  import opened DatLayout
  import opened DatDecode
  import opened PackedFiles

  /** `n` new packed files, all distinct, each holding the empty record. */
  method NewPackedFiles(n: nat) returns (pfs: seq<PackedFile>)
    ensures |pfs| == n && Distinct(pfs)
    ensures forall j :: 0 <= j < n ==> fresh(pfs[j])
    ensures forall j :: 0 <= j < n ==> pfs[j].Value() == Entry([], [], 0, 0, [])
  {
    pfs := [];
    for i := 0 to n
      invariant |pfs| == i && Distinct(pfs)
      invariant forall j :: 0 <= j < i ==> fresh(pfs[j])
      invariant forall j :: 0 <= j < i ==> pfs[j].Value() == Entry([], [], 0, 0, [])
    {
      var pf := new PackedFile();
      pfs := pfs + [pf];
    }
  }

  /** The data-offset table: one unsigned word per file, from the reader's position. */
  method ReadOffsets(reader: Cursor, pfs: seq<PackedFile>) returns (r: Outcome)
    requires Distinct(pfs)
    modifies reader`pos, pfs`startOffset
    ensures var t := ReadU32s(reader.buf, old(reader.pos), |pfs|, reader.endian);
      && (r.Pass? <==> t.Success?)
      && (r.Fail? ==> r.error == t.error)
      && (t.Success? ==> forall j :: 0 <= j < |pfs| ==> pfs[j].startOffset == t.value[j])
  {
    ghost var at, data, e := reader.pos, reader.buf, reader.endian;
    for i := 0 to |pfs|
      invariant reader.pos == at + 4 * i
      invariant i > 0 ==> at + 4 * i <= |data|
      invariant forall j :: 0 <= j < i ==> pfs[j].startOffset == WordAt(data, at, j, e)
    {
      var word := reader.ReadU32();
      if word.Failure? {
        return Fail(word.error);
      }
      pfs[i].startOffset := word.value;
    }
    r := Pass;
  }

  /** The size table: one unsigned word per file, from the reader's position. */
  method ReadSizes(reader: Cursor, pfs: seq<PackedFile>) returns (r: Outcome)
    requires Distinct(pfs)
    modifies reader`pos, pfs`size
    ensures var t := ReadU32s(reader.buf, old(reader.pos), |pfs|, reader.endian);
      && (r.Pass? <==> t.Success?)
      && (r.Fail? ==> r.error == t.error)
      && (t.Success? ==> forall j :: 0 <= j < |pfs| ==> pfs[j].size == t.value[j])
  {
    ghost var at, data, e := reader.pos, reader.buf, reader.endian;
    for i := 0 to |pfs|
      invariant reader.pos == at + 4 * i
      invariant i > 0 ==> at + 4 * i <= |data|
      invariant forall j :: 0 <= j < i ==> pfs[j].size == WordAt(data, at, j, e)
    {
      var word := reader.ReadU32();
      if word.Failure? {
        return Fail(word.error);
      }
      pfs[i].size := word.value;
    }
    r := Pass;
  }

  /** The extension table: one 4-byte string per file, from the reader's position. */
  method ReadExtensions(reader: Cursor, pfs: seq<PackedFile>) returns (r: Outcome)
    requires Distinct(pfs)
    modifies reader`pos, pfs`extension
    ensures var t := ReadStrs(reader.buf, old(reader.pos), |pfs|, 4);
      && (r.Pass? <==> t.Success?)
      && (r.Fail? ==> r.error == t.error)
      && (t.Success? ==> forall j :: 0 <= j < |pfs| ==> pfs[j].extension == t.value[j])
  {
    ghost var at, data, e := reader.pos, reader.buf, reader.endian;
    var n := |pfs|;
    for i := 0 to n
      invariant i > 0 ==> at + Span(i, 4) <= |data|
      invariant reader.pos == at + Span(i, 4)
      invariant forall j :: 0 <= j < i ==> pfs[j].extension == RecordAt(data, at, j, 4)
    {
      var ext := reader.ReadStr(4);
      if ext.Failure? {
        ReadStrsFails(data, at, n, 4, i);
        return Fail(ext.error);
      }
      pfs[i].extension := ext.value;
    }
    r := Pass;
  }

  /** The filename table's records: one `width`-byte string per file, from the reader's position. */
  method ReadFilenames(reader: Cursor, pfs: seq<PackedFile>, width: int) returns (r: Outcome)
    requires Distinct(pfs)
    modifies reader`pos, pfs`filename
    ensures var t := ReadStrs(reader.buf, old(reader.pos), |pfs|, width);
      && (r.Pass? <==> t.Success?)
      && (r.Fail? ==> r.error == t.error)
      && (t.Success? ==> forall j :: 0 <= j < |pfs| ==> pfs[j].filename == t.value[j])
  {
    ghost var at, data, e := reader.pos, reader.buf, reader.endian;
    var n := |pfs|;
    ghost var w: nat := if width < 0 then 0 else width;
    for i := 0 to n
      invariant i > 0 ==> 0 <= width && at + Span(i, w) <= |data|
      invariant reader.pos == at + Span(i, w)
      invariant forall j :: 0 <= j < i ==> pfs[j].filename == RecordAt(data, at, j, width)
    {
      var name := reader.ReadStr(width);
      if name.Failure? {
        ReadStrsFails(data, at, n, width, i);
        return Fail(name.error);
      }
      pfs[i].filename := name.value;
    }
    ReadStrsAll(data, at, n, width);
    r := Pass;
  }

  /** The filename table: its record width, then one record of that width per file. */
  method ReadNameTable(reader: Cursor, pfs: seq<PackedFile>) returns (r: Outcome)
    requires Distinct(pfs)
    modifies reader`pos, pfs`filename
    ensures var t := ReadNames(reader.buf, old(reader.pos), |pfs|, reader.endian);
      && (r.Pass? <==> t.Success?)
      && (r.Fail? ==> r.error == t.error)
      && (t.Success? ==> forall j :: 0 <= j < |pfs| ==> pfs[j].filename == t.value[j])
  {
    ghost var at := reader.pos;
    var width := reader.ReadI32();
    if width.Failure? {
      return Fail(width.error);
    }
    assert ReadAt(reader.buf, at, 4) == Success(reader.buf[at..at + 4]);
    r := ReadFilenames(reader, pfs, width.value);
  }

  /** Every payload, in list order: `size` bytes at `startOffset`, written out as a loose file. */
  method ExtractPayloads(reader: Cursor, pfs: seq<PackedFile>, ghost offsets: seq<nat>, ghost sizes: seq<nat>)
    returns (r: Outcome)
    requires Distinct(pfs) && |offsets| == |pfs| && |sizes| == |pfs|
    requires forall j :: 0 <= j < |pfs| ==> pfs[j].startOffset == offsets[j] && pfs[j].size == sizes[j]
    modifies reader`pos, pfs`data
    ensures var t := ReadPayloads(reader.buf, offsets, sizes);
      && (r.Pass? <==> t.Success?)
      && (r.Fail? ==> r.error == t.error)
      && (t.Success? ==> forall j :: 0 <= j < |pfs| ==> pfs[j].data == t.value[j])
  {
    for i := 0 to |pfs|
      invariant forall j :: 0 <= j < i ==>
        offsets[j] + sizes[j] <= |reader.buf| && pfs[j].data == reader.buf[offsets[j]..offsets[j] + sizes[j]]
    {
      var payload := pfs[i].DatToFile(reader);
      if payload.Failure? {
        return Fail(payload.error);
      }
    }
    r := Pass;
  }

  /** The tag check and the header words; console archives switch to big-endian after the tag. */
  method ReadHeader(reader: Cursor, isConsole: bool) returns (r: Result<Header>)
    requires reader.pos == 0 && reader.endian == Little
    modifies reader`pos, reader`endian
    ensures r == ParseHeader(reader.buf, if isConsole then Big else Little)
    ensures r.Success? ==> reader.endian == if isConsole then Big else Little
  {
    ghost var e := if isConsole then Big else Little;
    var tag :- reader.ReadStr(4);
    MagicTag(reader.buf[..4]);
    if tag != MAGIC {
      return Failure(BadMagic);
    }
    if isConsole {
      reader.SetEndian(Big);
    }
    r := ReadHeaderWords(reader);
  }

  /** The six header words after the tag, in the reader's byte order. */
  method ReadHeaderWords(reader: Cursor) returns (r: Result<Header>)
    requires reader.pos == 4
    modifies reader`pos
    ensures r.Success? <==> |reader.buf| >= 0x1C
    ensures r.Failure? ==> r.error == ReadPastEnd
    ensures r.Success? ==> r.value == HeaderFields(reader.buf, reader.endian)
  {
    ghost var data, e := reader.buf, reader.endian;
    var count :- reader.ReadI32();
    assert count == I32Value(data[4..8], e);
    var offsetTableAt :- reader.ReadU32();
    assert offsetTableAt == U32Value(data[8..12], e);
    var extTableAt :- reader.ReadU32();
    assert extTableAt == U32Value(data[12..16], e);
    var nameTableAt :- reader.ReadU32();
    assert nameTableAt == U32Value(data[16..20], e);
    var sizeTableAt :- reader.ReadU32();
    assert sizeTableAt == U32Value(data[20..24], e);
    var unknownAt :- reader.ReadU32();
    assert unknownAt == U32Value(data[24..28], e);
    r := Success(Header(count, offsetTableAt, extTableAt, nameTableAt, sizeTableAt, unknownAt));
    assert r.value == HeaderFields(data, e);
  }

  /** The data-offset table, then the extension table. */
  method ReadLeadingTables(reader: Cursor, h: Header, pfs: seq<PackedFile>) returns (r: Outcome)
    requires Distinct(pfs)
    modifies reader`pos, pfs`startOffset, pfs`extension
    ensures var o, x := ReadU32s(reader.buf, h.offsetTableAt, |pfs|, reader.endian), ReadStrs(reader.buf, h.extTableAt, |pfs|, 4);
      && (r.Pass? <==> o.Success? && x.Success?)
      && (r.Fail? ==> r.error == if o.Failure? then o.error else x.error)
      && (r.Pass? ==> forall j :: 0 <= j < |pfs| ==>
           pfs[j].startOffset == o.value[j] && pfs[j].extension == x.value[j])
  {
    ghost var data, e := reader.buf, reader.endian;
    reader.Seek(h.offsetTableAt);
    r := ReadOffsets(reader, pfs);
    if r.Fail? {
      return;
    }
    ghost var offsets := ReadU32s(data, h.offsetTableAt, |pfs|, e).value;
    reader.Seek(h.extTableAt);
    r := ReadExtensions(reader, pfs);
  }

  /** The filename table, then the size table. */
  method ReadTrailingTables(reader: Cursor, h: Header, pfs: seq<PackedFile>) returns (r: Outcome)
    requires Distinct(pfs)
    modifies reader`pos, pfs`filename, pfs`size
    ensures var m, s := ReadNames(reader.buf, h.nameTableAt, |pfs|, reader.endian), ReadU32s(reader.buf, h.sizeTableAt, |pfs|, reader.endian);
      && (r.Pass? <==> m.Success? && s.Success?)
      && (r.Fail? ==> r.error == if m.Failure? then m.error else s.error)
      && (r.Pass? ==> forall j :: 0 <= j < |pfs| ==>
           pfs[j].filename == m.value[j] && pfs[j].size == s.value[j])
  {
    ghost var data, e := reader.buf, reader.endian;
    reader.Seek(h.nameTableAt);
    r := ReadNameTable(reader, pfs);
    if r.Fail? {
      return;
    }
    ghost var names := ReadNames(data, h.nameTableAt, |pfs|, e).value;
    reader.Seek(h.sizeTableAt);
    r := ReadSizes(reader, pfs);
  }

  /** The four tables, each into the matching field of the packed files. */
  method ReadTableFields(reader: Cursor, h: Header, pfs: seq<PackedFile>) returns (r: Outcome)
    requires |pfs| == EntryCount(h) && Distinct(pfs)
    modifies reader`pos, pfs`startOffset, pfs`extension, pfs`filename, pfs`size
    ensures var t := ReadTables(reader.buf, h, reader.endian);
      && (r.Pass? <==> t.Success?)
      && (r.Fail? ==> r.error == t.error)
      && (t.Success? ==> forall j :: 0 <= j < |pfs| ==>
           && pfs[j].startOffset == t.value.offsets[j] && pfs[j].extension == t.value.exts[j]
           && pfs[j].filename == t.value.names[j] && pfs[j].size == t.value.sizes[j])
  {
    r := ReadLeadingTables(reader, h, pfs);
    if r.Fail? {
      return;
    }
    r := ReadTrailingTables(reader, h, pfs);
  }

  /** The four tables, then every payload, each into a fresh packed file per announced entry. */
  method ReadEntries(reader: Cursor, h: Header) returns (r: Result<seq<Entry>>)
    modifies reader`pos
    ensures r == DecodeEntries(reader.buf, h, reader.endian)
  {
    ghost var data, e := reader.buf, reader.endian;
    var n: nat := if h.count < 0 then 0 else h.count;
    var pfs := NewPackedFiles(n);
    :- ReadTableFields(reader, h, pfs);
    ghost var t := ReadTables(data, h, e).value;
    :- ExtractPayloads(reader, pfs, t.offsets, t.sizes);
    ghost var payloads := ReadPayloads(data, t.offsets, t.sizes).value;
    var entries := Values(pfs);
    ghost var decoded := DecodeEntries(data, h, e);
    forall i | 0 <= i < n
      ensures entries[i] == decoded.value[i]
    {
      assert pfs[i].data == payloads[i];
      assert pfs[i].filename == t.names[i] && pfs[i].extension == t.exts[i];
      assert pfs[i].startOffset == t.offsets[i] && pfs[i].size == t.sizes[i];
    }
    assert entries == decoded.value;
    r := Success(entries);
  }

  /**
   * `unpackDAT` on the archive bytes `data`, console archives being big-endian:
   * the packed files it fills, or the error that aborts it.
   */
  method UnpackDat(data: Bytes, isConsole: bool) returns (r: Result<seq<Entry>>)
    ensures r == Decode(data, if isConsole then Big else Little)
  {
    var reader := new Cursor(data);
    var h :- ReadHeader(reader, isConsole);
    r := ReadEntries(reader, h);
  }
}
