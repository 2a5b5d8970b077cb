/**
 * A packed file: the record the unpacker fills from the four tables and the
 * packer fills from a loose file, with the two operations that move its payload
 * between an archive buffer and the loose file.
 */
module PackedFiles {
  import opened Wrappers
  import opened Bytes
  import opened BinaryCursor
  import opened DatNames
  import opened DatLayout
  import opened DatDecode

  class PackedFile {
    var filename: Bytes
    var extension: Bytes
    var startOffset: nat
    var size: nat
    var data: Bytes

    /** A record with every field empty or zero. */
    constructor ()
      ensures filename == [] && extension == [] && startOffset == 0 && size == 0 && data == []
    {
      filename := [];
      extension := [];
      startOffset := 0;
      size := 0;
      data := [];
    }

    /** The record's fields as a value. */
    function Value(): Entry
      reads this
    {
      Entry(filename, extension, startOffset, size, data)
    }

    /**
     * `dat_to_file`: reads `size` bytes at `startOffset` into `data`. The bytes
     * returned are what gets written to the loose file of that name.
     */
    method DatToFile(reader: Cursor) returns (r: Result<Bytes>)
      modifies this`data, reader`pos
      ensures r == ReadAt(reader.buf, startOffset, size)
      ensures data == if r.Success? then r.value else old(data)
    {
      reader.Seek(startOffset);
      r := reader.ReadBytes(size);
      if r.Success? {
        data := r.value;
      }
    }

    /** `set_extension_from_filename`: the text after the last '.' of the filename. */
    method SetExtensionFromFilename()
      modifies this`extension
      ensures extension == Extension(filename)
    {
      extension := Extension(filename);
    }

    /**
     * `file_to_dat`: aligns the writer to 16, records that position as the start
     * offset, writes `contents` (the loose file's bytes) and aligns again.
     */
    method FileToDat(writer: Cursor, contents: Bytes)
      modifies this`startOffset, writer`buf, writer`pos
      ensures startOffset == AlignUp16(old(writer.pos))
      ensures startOffset + |contents| <= |writer.buf|
      ensures writer.buf[startOffset..startOffset + |contents|] == contents
      ensures writer.pos == AlignUp16(startOffset + |contents|)
      ensures old(writer.pos) == |old(writer.buf)| ==>
        writer.buf == old(writer.buf) + Chunk(old(writer.pos), contents) && writer.pos == |writer.buf|
    {
      ghost var p, b := writer.pos, writer.buf;
      writer.Align16();
      startOffset := writer.pos;
      writer.WriteBytes(contents);
      writer.Align16();
      ChunkLands(b, p, contents);
      if p == |b| {
        ChunkAppends(b, contents);
      }
    }
  }

  predicate Distinct(pfs: seq<PackedFile>) {
    forall i, j :: 0 <= i < j < |pfs| ==> pfs[i] != pfs[j]
  }

  /** The records' fields as values, in list order. */
  function Values(pfs: seq<PackedFile>): (r: seq<Entry>)
    reads pfs
    ensures |r| == |pfs| && forall i :: 0 <= i < |pfs| ==> r[i] == pfs[i].Value()
  {
    seq(|pfs|, i requires 0 <= i < |pfs| reads pfs => pfs[i].Value())
  }
}
