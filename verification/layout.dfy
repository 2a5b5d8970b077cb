/**
 * The byte image the packer builds for a list of loose files: a 0x20-byte header,
 * the data-offset table, the extension table, the filename table (preceded by its
 * record width), the size table, then every payload aligned to 16 bytes.
 */
module DatLayout {
  import opened Bytes
  import opened DatNames

  /** "DAT", the tag stored zero-padded to four bytes at offset 0. */
  const MAGIC: Bytes := [0x44, 0x41, 0x54]
  const HEADER_SIZE: nat := 0x20

  // Where each table starts, for `n` files and a filename record width `w`:
  // the tables sit back to back after the header.
  function ExtTableStart(n: nat): nat { HEADER_SIZE + 4 * n }
  function NameTableStart(n: nat): nat { ExtTableStart(n) + 4 * n }
  function SizeTableStart(n: nat, w: nat): nat { NameTableStart(n) + 4 + Span(n, w) }
  function DataStart(n: nat, w: nat): nat { SizeTableStart(n, w) + 4 * n }

  /**
   * The seven words after the tag: the count, the pointer 0x20, the three table
   * pointers (written as signed words, which below 2^31 have the same bytes as
   * unsigned ones), the unknown-table pointer and the padding word, both zero.
   */
  function HeaderWords(count: nat, extAt: nat, nameAt: nat, sizeAt: nat): (r: seq<nat>)
    ensures |r| == 7
  {
    [count, HEADER_SIZE, extAt, nameAt, sizeAt, 0, 0]
  }

  /** The header: the tag, then the header words. */
  function HeaderBytes(count: nat, extAt: nat, nameAt: nat, sizeAt: nat, e: Endian): (r: Bytes)
    requires count < TWO_32 && extAt < TWO_31 && nameAt < TWO_31 && sizeAt < TWO_31
    ensures |r| == HEADER_SIZE
  {
    assert AllU32(HeaderWords(count, extAt, nameAt, sizeAt));
    Fixed(MAGIC, 4) + U32Table(HeaderWords(count, extAt, nameAt, sizeAt), e)
  }

  /**
   * What the header holds: "DAT" and a zero byte at 0x00, the count at 0x04, the
   * data-offset table pointer 0x20 at 0x08, the three other table pointers at 0x0C,
   * 0x10 and 0x14, and zero words at 0x18 and 0x1C.
   */
  lemma HeaderBytesFields(count: nat, extAt: nat, nameAt: nat, sizeAt: nat, e: Endian)
    requires count < TWO_32 && extAt < TWO_31 && nameAt < TWO_31 && sizeAt < TWO_31
    ensures var r := HeaderBytes(count, extAt, nameAt, sizeAt, e);
      && r[..4] == MAGIC + [0]
      && r[4..8] == U32Bytes(count, e) && r[8..12] == U32Bytes(HEADER_SIZE, e)
      && r[12..16] == U32Bytes(extAt, e) && r[16..20] == U32Bytes(nameAt, e) && r[20..24] == U32Bytes(sizeAt, e)
      && r[24..HEADER_SIZE] == Zeros(8)
  {
    var words := HeaderWords(count, extAt, nameAt, sizeAt);
    assert AllU32(words);
    var tag, table := Fixed(MAGIC, 4), U32Table(words, e);
    assert tag == MAGIC + [0];
    HeaderWordsAt(words, e);
    U32BytesZero(e);
    ZerosAdd(4, 4);
    assert table[20..28] == table[20..24] + table[24..28];
  }

  /** A chunk is zero padding up to the boundary, the contents, and zero padding after. */
  lemma ChunkParts(p: nat, d: Bytes)
    ensures var r, lead := Chunk(p, d), AlignUp16(p) - p;
      && r[..lead] == Zeros(lead)
      && r[lead..lead + |d|] == d
      && r[lead + |d|..] == Zeros(|r| - lead - |d|)
  {
    var start := AlignUp16(p);
    var lead, tail := Zeros(start - p), Zeros(AlignUp16(start + |d|) - (start + |d|));
    assert Chunk(p, d) == lead + d + tail;
    assert (lead + d + tail)[|lead|..|lead| + |d|] == d;
  }

  /** The bytes of each header word, read off the table that holds them. */
  lemma HeaderWordsAt(words: seq<nat>, e: Endian)
    requires |words| == 7 && AllU32(words)
    ensures var t := U32Table(words, e);
      && t[0..4] == U32Bytes(words[0], e) && t[4..8] == U32Bytes(words[1], e)
      && t[8..12] == U32Bytes(words[2], e) && t[12..16] == U32Bytes(words[3], e)
      && t[16..20] == U32Bytes(words[4], e) && t[20..24] == U32Bytes(words[5], e)
      && t[24..28] == U32Bytes(words[6], e)
  {
    U32TableAt(words, e, 0);
    U32TableAt(words, e, 1);
    U32TableAt(words, e, 2);
    U32TableAt(words, e, 3);
    U32TableAt(words, e, 4);
    U32TableAt(words, e, 5);
    U32TableAt(words, e, 6);
  }

  predicate AllU32(vals: seq<nat>) {
    forall i :: 0 <= i < |vals| ==> vals[i] < TWO_32
  }

  /** A table of 32-bit words, one per value, in order. */
  function U32Table(vals: seq<nat>, e: Endian): (r: Bytes)
    requires AllU32(vals)
    ensures |r| == 4 * |vals|
  {
    WordsOf(vals, e)
  }

  /**
   * The recursion behind `U32Table`: the table of all but the last value followed by
   * the last value's four bytes, as the writer appends them one word at a time.
   */
  function WordsOf(vals: seq<nat>, e: Endian): (r: Bytes)
    requires AllU32(vals)
    ensures |r| == 4 * |vals|
  {
    if vals == [] then [] else WordsOf(vals[..|vals| - 1], e) + U32Bytes(vals[|vals| - 1], e)
  }

  /** Extending the values by one appends that value's word to the table. */
  lemma U32TableSnoc(vals: seq<nat>, i: nat, e: Endian)
    requires i < |vals| && AllU32(vals[..i + 1])
    ensures AllU32(vals[..i])
    ensures U32Table(vals[..i + 1], e) == U32Table(vals[..i], e) + U32Bytes(vals[i], e)
  {
    assert vals[..i + 1][..i] == vals[..i];
  }

  /** Word `i` of a table holds value `i`. */
  lemma {:induction false} U32TableAt(vals: seq<nat>, e: Endian, i: nat)
    requires AllU32(vals) && i < |vals|
    ensures U32Table(vals, e)[4 * i..4 * i + 4] == U32Bytes(vals[i], e)
  {
    var k := |vals| - 1;
    var prev := U32Table(vals[..k], e);
    if i < k {
      U32TableAt(vals[..k], e, i);
      SliceLeft(prev, U32Bytes(vals[k], e), 4 * i, 4 * i + 4);
    } else {
      SliceRight(prev, U32Bytes(vals[k], e), 0, 4);
    }
  }

  /** `k` zero values. */
  function ZeroWords(k: nat): (r: seq<nat>)
    ensures |r| == k && AllU32(r)
  {
    seq(k, _ => 0)
  }

  /** Zero values at the end of a table are zero bytes. */
  lemma {:induction false} U32TableZeroPadded(vals: seq<nat>, k: nat, e: Endian)
    requires AllU32(vals)
    ensures AllU32(vals + ZeroWords(k))
    ensures U32Table(vals + ZeroWords(k), e) == U32Table(vals, e) + Zeros(4 * k)
  {
    if k > 0 {
      var longer := vals + ZeroWords(k);
      assert longer[..|longer| - 1] == vals + ZeroWords(k - 1);
      assert longer[|longer| - 1] == 0;
      U32TableZeroPadded(vals, k - 1, e);
      U32BytesZero(e);
      ZerosAdd(4 * (k - 1), 4);
      calc {
        U32Table(longer, e);
        U32Table(longer[..|longer| - 1], e) + U32Bytes(longer[|longer| - 1], e);
        U32Table(vals + ZeroWords(k - 1), e) + U32Bytes(0, e);
        U32Table(vals, e) + Zeros(4 * (k - 1)) + Zeros(4);
      }
    } else {
      assert vals + ZeroWords(0) == vals;
      assert Zeros(0) == [];
    }
  }

  /** The header before back-patching: tag, count, the pointer 0x20 and five zero words. */
  lemma HeaderPlaceholders(count: nat, e: Endian)
    requires count < TWO_32
    ensures HeaderBytes(count, 0, 0, 0, e) == Fixed(MAGIC, 4) + U32Bytes(count, e) + U32Bytes(HEADER_SIZE, e) + Zeros(20)
  {
    var first: seq<nat> := [count, HEADER_SIZE];
    assert HeaderWords(count, 0, 0, 0) == first + ZeroWords(5);
    U32TableZeroPadded(first, 5, e);
    assert first[..2] == first && first[..0] == [];
    U32TableSnoc(first, 0, e);
    U32TableSnoc(first, 1, e);
    var tag, a, b := Fixed(MAGIC, 4), U32Bytes(count, e), U32Bytes(HEADER_SIZE, e);
    assert U32Table(first, e) == a + b;
    assert tag + (a + b + Zeros(20)) == tag + a + b + Zeros(20);
  }

  /** Writing a word over word `k` of a table replaces that value. */
  lemma {:induction false} U32TablePatch(vals: seq<nat>, k: nat, v: nat, e: Endian)
    requires AllU32(vals) && k < |vals| && v < TWO_32
    ensures AllU32(vals[k := v])
    ensures Overwrite(U32Table(vals, e), 4 * k, U32Bytes(v, e)) == U32Table(vals[k := v], e)
  {
    var last := |vals| - 1;
    var init := vals[..last];
    var prev := U32Table(init, e);
    var patched := vals[k := v];
    assert patched[..last] == if k < last then init[k := v] else init;
    if k < last {
      U32TablePatch(init, k, v, e);
      OverwriteBefore(prev, U32Bytes(vals[last], e), 4 * k, U32Bytes(v, e));
    } else {
      OverwriteMiddle(prev, U32Bytes(vals[last], e), [], U32Bytes(v, e));
      assert prev + U32Bytes(vals[last], e) + [] == prev + U32Bytes(vals[last], e);
      assert prev + U32Bytes(v, e) + [] == prev + U32Bytes(v, e);
    }
  }

  /**
   * Back-patching header word `k` (at offset 4 + 4k) changes that word and leaves
   * the tag and everything after the header alone.
   */
  lemma PatchHeaderWord(words: seq<nat>, k: nat, v: nat, e: Endian, rest: Bytes)
    requires AllU32(words) && k < |words| && v < TWO_32
    ensures AllU32(words[k := v])
    ensures (Overwrite(Fixed(MAGIC, 4) + U32Table(words, e) + rest, 4 + 4 * k, U32Bytes(v, e))
      == Fixed(MAGIC, 4) + U32Table(words[k := v], e) + rest)
  {
    var tag, table := Fixed(MAGIC, 4), U32Table(words, e);
    U32TablePatch(words, k, v, e);
    OverwriteBefore(tag + table, rest, 4 + 4 * k, U32Bytes(v, e));
    OverwriteAfter(tag, table, 4 * k, U32Bytes(v, e));
  }

  /** Back-patching the extension-table pointer at 0xC. */
  lemma PatchExtPointer(n: nat, v: nat, e: Endian, rest: Bytes)
    requires n < TWO_32 && v < TWO_31
    ensures Overwrite(HeaderBytes(n, 0, 0, 0, e) + rest, 0xC, I32Bytes(v, e)) == HeaderBytes(n, v, 0, 0, e) + rest
  {
    PatchHeaderWord(HeaderWords(n, 0, 0, 0), 2, v, e, rest);
    assert HeaderWords(n, 0, 0, 0)[2 := v] == HeaderWords(n, v, 0, 0);
  }

  /** Back-patching the filename-table pointer at 0x10. */
  lemma PatchNamePointer(n: nat, et: nat, v: nat, e: Endian, rest: Bytes)
    requires n < TWO_32 && et < TWO_31 && v < TWO_31
    ensures Overwrite(HeaderBytes(n, et, 0, 0, e) + rest, 0x10, I32Bytes(v, e)) == HeaderBytes(n, et, v, 0, e) + rest
  {
    PatchHeaderWord(HeaderWords(n, et, 0, 0), 3, v, e, rest);
    assert HeaderWords(n, et, 0, 0)[3 := v] == HeaderWords(n, et, v, 0);
  }

  /** Back-patching the size-table pointer at 0x14. */
  lemma PatchSizePointer(n: nat, et: nat, nt: nat, v: nat, e: Endian, rest: Bytes)
    requires n < TWO_32 && et < TWO_31 && nt < TWO_31 && v < TWO_31
    ensures Overwrite(HeaderBytes(n, et, nt, 0, e) + rest, 0x14, I32Bytes(v, e)) == HeaderBytes(n, et, nt, v, e) + rest
  {
    PatchHeaderWord(HeaderWords(n, et, nt, 0), 4, v, e, rest);
    assert HeaderWords(n, et, nt, 0)[4 := v] == HeaderWords(n, et, nt, v);
  }

  lemma SliceLeft(a: Bytes, b: Bytes, lo: nat, hi: nat)
    requires lo <= hi <= |a|
    ensures (a + b)[lo..hi] == a[lo..hi]
  {
  }

  lemma SliceRight(a: Bytes, b: Bytes, lo: nat, hi: nat)
    requires lo <= hi <= |b|
    ensures (a + b)[|a| + lo..|a| + hi] == b[lo..hi]
  {
  }

  predicate ExtensionsFit(files: seq<LooseFile>) {
    forall i :: 0 <= i < |files| ==> |Extension(files[i].name)| <= 4
  }

  function Names(files: seq<LooseFile>): (r: seq<Bytes>)
    ensures |r| == |files| && forall i :: 0 <= i < |files| ==> r[i] == files[i].name
  {
    seq(|files|, i requires 0 <= i < |files| => files[i].name)
  }

  function Extensions(files: seq<LooseFile>): (r: seq<Bytes>)
    ensures |r| == |files| && forall i :: 0 <= i < |files| ==> r[i] == Extension(files[i].name)
  {
    seq(|files|, i requires 0 <= i < |files| => Extension(files[i].name))
  }

  predicate AllFit(strs: seq<Bytes>, w: nat) {
    forall i :: 0 <= i < |strs| ==> |strs[i]| <= w
  }

  /** A table of fixed-width records: each string null-padded to `w` bytes, in order. */
  function FixedTable(strs: seq<Bytes>, w: nat): (r: Bytes)
    requires AllFit(strs, w)
    ensures |r| == Span(|strs|, w)
  {
    RecordsOf(strs, w)
  }

  /**
   * The recursion behind `FixedTable`: the table of all but the last string followed
   * by the last string null-padded to `w` bytes, as the writer appends them.
   */
  function RecordsOf(strs: seq<Bytes>, w: nat): (r: Bytes)
    requires AllFit(strs, w)
    ensures |r| == Span(|strs|, w)
  {
    if strs == [] then []
    else
      var k := |strs| - 1;
      RecordsOf(strs[..k], w) + Fixed(strs[k], w)
  }

  /** Extending the strings by one appends that string's record to the table. */
  lemma FixedTableSnoc(strs: seq<Bytes>, i: nat, w: nat)
    requires i < |strs| && AllFit(strs[..i + 1], w)
    ensures AllFit(strs[..i], w)
    ensures FixedTable(strs[..i + 1], w) == FixedTable(strs[..i], w) + Fixed(strs[i], w)
  {
    assert strs[..i + 1][..i] == strs[..i];
  }

  /** Record `i` of a fixed-width table holds string `i`. */
  lemma {:induction false} FixedTableAt(strs: seq<Bytes>, w: nat, i: nat)
    requires AllFit(strs, w) && i < |strs|
    ensures Span(i, w) + w <= |FixedTable(strs, w)|
    ensures FixedTable(strs, w)[Span(i, w)..Span(i, w) + w] == Fixed(strs[i], w)
  {
    var k := |strs| - 1;
    var prev := FixedTable(strs[..k], w);
    var last := Fixed(strs[k], w);
    assert FixedTable(strs, w) == prev + last;
    SpanStep(i, |strs|, w);
    if i < k {
      assert strs[..k][i] == strs[i];
      FixedTableAt(strs[..k], w, i);
      SliceLeft(prev, last, Span(i, w), Span(i, w) + w);
    } else {
      SliceRight(prev, last, 0, w);
    }
  }

  function Sizes(files: seq<LooseFile>): (r: seq<nat>)
    ensures |r| == |files| && forall i :: 0 <= i < |files| ==> r[i] == |files[i].contents|
  {
    seq(|files|, i requires 0 <= i < |files| => |files[i].contents|)
  }

  /**
   * One payload as `file_to_dat` lays it out at position `p`: zero bytes up to the
   * next 16-byte boundary, the contents there, and zero bytes up to the boundary after.
   */
  function Chunk(p: nat, d: Bytes): (r: Bytes)
    ensures p + |r| == AlignUp16(AlignUp16(p) + |d|)
  {
    var start := AlignUp16(p);
    var lead, tail := Zeros(start - p), Zeros(AlignUp16(start + |d|) - (start + |d|));
    assert (lead + d + tail)[|lead|..|lead| + |d|] == d;
    lead + d + tail
  }

  /** The buffer after aligning `b` from position `p`, writing `d` there and aligning again. */
  function ChunkWrite(b: Bytes, p: nat, d: Bytes): Bytes {
    var start := AlignUp16(p);
    var b1 := Overwrite(b, p, Zeros(start - p));
    var b2 := Overwrite(b1, start, d);
    Overwrite(b2, start + |d|, Zeros(AlignUp16(start + |d|) - (start + |d|)))
  }

  /** The payload lands at the aligned position. */
  lemma ChunkLands(b: Bytes, p: nat, d: Bytes)
    ensures var start, r := AlignUp16(p), ChunkWrite(b, p, d);
      start + |d| <= |r| && r[start..start + |d|] == d
  {
    var start := AlignUp16(p);
    var q := start + |d|;
    var b2 := Overwrite(Overwrite(b, p, Zeros(start - p)), start, d);
    OverwriteBytes(Overwrite(b, p, Zeros(start - p)), start, d);
    OverwriteKeepsBefore(b2, q, Zeros(AlignUp16(q) - q), start, q);
  }

  /** Written from the end of the buffer, the chunk is appended. */
  lemma ChunkAppends(b: Bytes, d: Bytes)
    ensures ChunkWrite(b, |b|, d) == b + Chunk(|b|, d)
  {
    var start := AlignUp16(|b|);
    var q := start + |d|;
    var z1, z2 := Zeros(start - |b|), Zeros(AlignUp16(q) - q);
    var b1 := Overwrite(b, |b|, z1);
    OverwriteAtEnd(b, z1);
    assert |b1| == start;
    var b2 := Overwrite(b1, start, d);
    OverwriteAtEnd(b1, d);
    OverwriteAtEnd(b2, z2);
    Regroup3(b, z1, d, z2);
  }

  /** Where the payload area of `files` ends when it is laid out from position `base`. */
  function PayloadsEnd(base: nat, files: seq<LooseFile>): (r: nat)
    ensures base <= r
  {
    EndOf(base, files)
  }

  /**
   * The recursion behind `PayloadsEnd`: the end of the payloads before the last one,
   * aligned, advanced by the last file's size, and aligned again.
   */
  function EndOf(base: nat, files: seq<LooseFile>): (r: nat)
    ensures base <= r
  {
    if files == [] then base
    else AlignUp16(AlignUp16(EndOf(base, files[..|files| - 1])) + |files[|files| - 1].contents|)
  }

  /**
   * The buffer `head` followed by the payloads of `files`, each laid out by `Chunk`:
   * laying out payloads leaves the buffer they follow untouched.
   */
  function Laid(head: Bytes, files: seq<LooseFile>): (r: Bytes)
    ensures |r| == PayloadsEnd(|head|, files)
    ensures |head| <= |r| && r[..|head|] == head
  {
    ChunksAfterKeepsHead(head, files);
    ChunksAfter(head, files)
  }

  /**
   * The recursion behind `Laid`: `head` and the chunks of `files`, appended one at a
   * time, as the packer's loop over `file_to_dat` writes them.
   */
  function ChunksAfter(head: Bytes, files: seq<LooseFile>): (r: Bytes)
    ensures |r| == PayloadsEnd(|head|, files)
  {
    if files == [] then head
    else
      var prev := ChunksAfter(head, files[..|files| - 1]);
      prev + Chunk(|prev|, files[|files| - 1].contents)
  }

  /**
   * Where each payload starts when the payloads are laid out from position `base`:
   * one offset per file, each on a 16-byte boundary at or after `base`.
   */
  function Offsets(base: nat, files: seq<LooseFile>): (r: seq<nat>)
    ensures |r| == |files|
    ensures forall i :: 0 <= i < |r| ==> r[i] % 16 == 0 && base <= r[i]
  {
    StartsAligned(base, files);
    StartsOf(base, files)
  }

  /**
   * The recursion behind `Offsets`: the start of each payload, one file at a time,
   * as `file_to_dat` records it after aligning.
   */
  function StartsOf(base: nat, files: seq<LooseFile>): (r: seq<nat>)
    ensures |r| == |files|
  {
    if files == [] then []
    else
      var init := files[..|files| - 1];
      StartsOf(base, init) + [AlignUp16(PayloadsEnd(base, init))]
  }

  /** The chunks are appended after `head`, which they leave as it was. */
  lemma {:induction false} ChunksAfterKeepsHead(head: Bytes, files: seq<LooseFile>)
    ensures |head| <= |ChunksAfter(head, files)| && ChunksAfter(head, files)[..|head|] == head
  {
    if files != [] {
      var prev := ChunksAfter(head, files[..|files| - 1]);
      ChunksAfterKeepsHead(head, files[..|files| - 1]);
      SliceLeft(prev, Chunk(|prev|, files[|files| - 1].contents), 0, |head|);
    }
  }

  /** Every recorded start is aligned and at or after the start of the payload area. */
  lemma {:induction false} StartsAligned(base: nat, files: seq<LooseFile>)
    ensures forall i :: 0 <= i < |files| ==> StartsOf(base, files)[i] % 16 == 0 && base <= StartsOf(base, files)[i]
  {
    if files != [] {
      var init := files[..|files| - 1];
      StartsAligned(base, init);
      assert StartsOf(base, files) == StartsOf(base, init) + [AlignUp16(PayloadsEnd(base, init))];
    }
  }

  /** Laying out one more file appends its chunk and records where it starts. */
  lemma LaidSnoc(head: Bytes, files: seq<LooseFile>, i: nat)
    requires i < |files|
    ensures var prev := Laid(head, files[..i]);
      && Laid(head, files[..i + 1]) == prev + Chunk(|prev|, files[i].contents)
      && Offsets(|head|, files[..i + 1]) == Offsets(|head|, files[..i]) + [AlignUp16(|prev|)]
  {
    assert files[..i + 1][..i] == files[..i];
  }

  /** The payloads laid out after a buffer depend only on its length. */
  lemma {:induction false} LaidByLength(t0: Bytes, t1: Bytes, files: seq<LooseFile>)
    requires |t0| == |t1|
    ensures |t0| <= |Laid(t0, files)|
    ensures Laid(t1, files) == t1 + Laid(t0, files)[|t0|..]
  {
    if files != [] {
      var k := |files| - 1;
      var init := files[..k];
      var p0, p1 := Laid(t0, init), Laid(t1, init);
      LaidByLength(t0, t1, init);
      var c := Chunk(|p0|, files[k].contents);
      assert Laid(t0, files) == p0 + c;
      assert Laid(t1, files) == p1 + c;
      assert (p0 + c)[|t0|..] == p0[|t0|..] + c;
    }
  }

  /** The laid-out buffer is the buffer followed by the payload area. */
  lemma LaidSplit(head: Bytes, files: seq<LooseFile>)
    ensures |head| <= |Laid(head, files)|
    ensures Laid(head, files) == head + Laid(head, files)[|head|..]
  {
    SplitAt(Laid(head, files), |head|);
  }

  /** Replacing bytes `lo..hi` of the buffer before laying out the payloads replaces them after too. */
  lemma LaidPatch(t0: Bytes, t1: Bytes, files: seq<LooseFile>, lo: nat, hi: nat, mid: Bytes)
    requires lo <= hi <= |t0| && |t0| == |t1|
    requires t1 == t0[..lo] + (mid + t0[hi..])
    ensures hi <= |Laid(t0, files)|
    ensures Laid(t0, files)[..lo] + (mid + Laid(t0, files)[hi..]) == Laid(t1, files)
  {
    LaidSplit(t0, files);
    LaidByLength(t0, t1, files);
    PatchBeforeTail(t0, Laid(t0, files)[|t0|..], lo, hi, mid);
  }

  /**
   * Payload `i` starts at offset `Offsets(|head|, files)[i]`, on a 16-byte boundary,
   * after the buffer it follows, and the laid-out buffer holds exactly its contents there.
   */
  ghost predicate PayloadPlaced(head: Bytes, files: seq<LooseFile>, i: nat)
    requires i < |files|
  {
    var o := Offsets(|head|, files)[i];
    var area := Laid(head, files);
    var d := files[i].contents;
    && o % 16 == 0
    && |head| <= o
    && o + |d| <= |area|
    && area[o..o + |d|] == d
  }

  lemma {:induction false} PayloadAt(head: Bytes, files: seq<LooseFile>, i: nat)
    requires i < |files|
    ensures PayloadPlaced(head, files, i)
  {
    var k := |files| - 1;
    if i < k {
      PayloadAt(head, files[..k], i);
      PayloadKept(head, files, i);
    } else {
      PayloadLast(head, files);
    }
  }

  /** Appending a payload leaves the earlier ones where they were. */
  lemma PayloadKept(head: Bytes, files: seq<LooseFile>, i: nat)
    requires i + 1 < |files|
    requires PayloadPlaced(head, files[..|files| - 1], i)
    ensures PayloadPlaced(head, files, i)
  {
    var k := |files| - 1;
    var init := files[..k];
    var prev := Laid(head, init);
    var chunk := Chunk(|prev|, files[k].contents);
    assert Laid(head, files) == prev + chunk;
    assert Offsets(|head|, files) == Offsets(|head|, init) + [AlignUp16(|prev|)];
    assert init[i] == files[i];
    var o := Offsets(|head|, init)[i];
    SliceLeft(prev, chunk, o, o + |files[i].contents|);
  }

  lemma PayloadLast(head: Bytes, files: seq<LooseFile>)
    requires files != []
    ensures PayloadPlaced(head, files, |files| - 1)
  {
    var k := |files| - 1;
    var init := files[..k];
    var prev := Laid(head, init);
    assert Laid(head, files) == prev + Chunk(|prev|, files[k].contents);
    assert Offsets(|head|, files) == Offsets(|head|, init) + [AlignUp16(|prev|)];
    LastChunkAt(prev, files[k].contents);
  }

  /** Inside the chunk appended after `prev`, the contents start at the next 16-byte boundary. */
  lemma LastChunkAt(prev: Bytes, d: Bytes)
    ensures var o := AlignUp16(|prev|);
      o + |d| <= |prev + Chunk(|prev|, d)| && (prev + Chunk(|prev|, d))[o..o + |d|] == d
  {
    var p := |prev|;
    var o := AlignUp16(p);
    var pad := Zeros(o - p);
    var tail := Zeros(AlignUp16(o + |d|) - (o + |d|));
    var chunk := Chunk(p, d);
    assert chunk == pad + d + tail;
    SliceLeft(pad + d, tail, |pad|, |pad| + |d|);
    SliceRight(prev, chunk, |pad|, |pad| + |d|);
  }

  /** Payloads are laid out in listing order without overlapping. */
  lemma {:induction false} OffsetsOrdered(base: nat, files: seq<LooseFile>, i: nat)
    requires i + 1 < |files|
    ensures Offsets(base, files)[i] + |files[i].contents| <= Offsets(base, files)[i + 1]
  {
    var k := |files| - 1;
    var init := files[..k];
    assert Offsets(base, files) == Offsets(base, init) + [AlignUp16(PayloadsEnd(base, init))];
    assert init[i] == files[i];
    if i + 1 < k {
      OffsetsOrdered(base, init, i);
      assert init[i + 1] == files[i + 1];
    } else {
      var head := Zeros(base);
      PayloadAt(head, init, i);
      assert PayloadPlaced(head, init, i);
    }
  }

  /**
   * Payload i of `files` sits at `offsets[i]` in `img`, on a 16-byte boundary, at or
   * after `base`, holding exactly its contents, and before payload i + 1.
   */
  predicate PayloadSlot(img: Bytes, base: nat, offsets: seq<nat>, files: seq<LooseFile>, i: nat)
    requires i < |files| == |offsets|
  {
    var o, d := offsets[i], files[i].contents;
    && o % 16 == 0
    && base <= o
    && o + |d| <= |img|
    && img[o..o + |d|] == d
    && (i + 1 < |files| ==> o + |d| <= offsets[i + 1])
  }

  /** Every payload of `files` sits in its slot. */
  predicate PayloadsInPlace(img: Bytes, base: nat, offsets: seq<nat>, files: seq<LooseFile>) {
    |offsets| == |files| && forall i :: 0 <= i < |files| ==> PayloadSlot(img, base, offsets, files, i)
  }

  /** Laying out the payloads after `head` puts each in place, in listing order. */
  lemma LaidInPlace(head: Bytes, files: seq<LooseFile>)
    ensures PayloadsInPlace(Laid(head, files), |head|, Offsets(|head|, files), files)
  {
    var area, offsets := Laid(head, files), Offsets(|head|, files);
    forall i | 0 <= i < |files|
      ensures PayloadSlot(area, |head|, offsets, files, i)
    {
      PayloadAt(head, files, i);
      if i + 1 < |files| {
        OffsetsOrdered(|head|, files, i);
      }
    }
  }

  /**
   * Whether every 32-bit field of the tables can hold its value: the table pointers
   * are written as signed words (the size-table pointer is the largest), the sizes
   * as unsigned words.
   */
  predicate TablesFit(files: seq<LooseFile>) {
    SizeTableStart(|files|, NameWidth(files)) < TWO_31 && AllU32(Sizes(files))
  }

  /** Whether every 32-bit field of the image can hold its value, the payload offsets included. */
  predicate Fits(files: seq<LooseFile>) {
    TablesFit(files) && AllU32(Offsets(DataStart(|files|, NameWidth(files)), files))
  }

  /** Whether the packer can write an archive for `files`: every extension and every field fits. */
  predicate Packable(files: seq<LooseFile>) {
    ExtensionsFit(files) && Fits(files)
  }

  /** What `TablesFit` bounds besides the size-table pointer: the file count, the record width, the other pointers. */
  lemma FitsBounds(files: seq<LooseFile>)
    ensures TablesFit(files) ==> |files| < TWO_31 && NameWidth(files) < TWO_31
    ensures ExtTableStart(|files|) <= NameTableStart(|files|)
    ensures NameTableStart(|files|) + 4 <= SizeTableStart(|files|, NameWidth(files))
    ensures |files| > 0 ==> NameTableStart(|files|) + 4 + NameWidth(files) <= SizeTableStart(|files|, NameWidth(files))
    ensures AllFit(Names(files), NameWidth(files))
  {
    var n, w := |files|, NameWidth(files);
    if n > 0 {
      SpanStep(0, n, w);
    }
  }

  /** Every string fits its record and every count and pointer its word. */
  predicate FieldsFit(files: seq<LooseFile>) {
    && AllFit(Extensions(files), 4) && AllFit(Names(files), NameWidth(files))
    && |files| < TWO_31 && NameWidth(files) < TWO_31
    && ExtTableStart(|files|) < TWO_31 && NameTableStart(|files|) < TWO_31
  }

  /** The bounds that fitting tables and extensions give every field the tables hold. */
  lemma TablesBounds(files: seq<LooseFile>)
    requires TablesFit(files) && ExtensionsFit(files)
    ensures FieldsFit(files)
  {
    FitsBounds(files);
  }

  /**
   * The extension table, the filename record width and records, and the size table:
   * everything the packer writes between the data-offset table and the payloads.
   */
  function LaterTables(files: seq<LooseFile>, e: Endian): (r: Bytes)
    requires ExtensionsFit(files) && NameWidth(files) < TWO_32 && AllU32(Sizes(files))
    ensures |r| == 4 * |files| + 4 + Span(|files|, NameWidth(files)) + 4 * |files|
  {
    assert AllFit(Extensions(files), 4);
    FitsBounds(files);
    SpanOfWords(|files|);
    FixedTable(Extensions(files), 4)
    + U32Bytes(NameWidth(files), e)
    + FixedTable(Names(files), NameWidth(files))
    + U32Table(Sizes(files), e)
  }

  /**
   * The header and the four tables the packer writes for `files` in byte order `e`,
   * with `offsets` in the data-offset table.
   */
  function TablesImage(files: seq<LooseFile>, offsets: seq<nat>, e: Endian): (r: Bytes)
    requires TablesFit(files) && ExtensionsFit(files)
    requires |offsets| == |files| && AllU32(offsets)
    ensures |r| == DataStart(|files|, NameWidth(files))
    ensures r[..HEADER_SIZE] == HeaderBytes(|files|, ExtTableStart(|files|), NameTableStart(|files|),
      SizeTableStart(|files|, NameWidth(files)), e)
    ensures r[HEADER_SIZE..ExtTableStart(|files|)] == U32Table(offsets, e)
  {
    FitsBounds(files);
    var n := |files|;
    var w := NameWidth(files);
    HeaderBytes(n, ExtTableStart(n), NameTableStart(n), SizeTableStart(n, w), e)
    + (U32Table(offsets, e) + LaterTables(files, e))
  }

  /** `b` with the data-offset table at 0x20 holding the words of `offsets`. */
  function WithOffsetTable(b: Bytes, offsets: seq<nat>, e: Endian): (r: Bytes)
    requires HEADER_SIZE + 4 * |offsets| <= |b| && AllU32(offsets)
    ensures |r| == |b|
  {
    b[..HEADER_SIZE] + (U32Table(offsets, e) + b[HEADER_SIZE + 4 * |offsets|..])
  }

  /** Writing word `i` over a buffer whose first `i` data offsets are filled in fills in one more. */
  lemma WithOffsetTableSnoc(b: Bytes, vals: seq<nat>, i: nat, e: Endian)
    requires i < |vals| && HEADER_SIZE + 4 * |vals| <= |b| && AllU32(vals[..i + 1])
    ensures AllU32(vals[..i])
    ensures Overwrite(WithOffsetTable(b, vals[..i], e), HEADER_SIZE + 4 * i, U32Bytes(vals[i], e))
         == WithOffsetTable(b, vals[..i + 1], e)
  {
    U32TableSnoc(vals, i, e);
    var p := HEADER_SIZE + 4 * i;
    assert b[p..] == b[p..p + 4] + b[p + 4..];
    OverwriteAfterFilled(b[..HEADER_SIZE], U32Table(vals[..i], e), b[p..p + 4], b[p + 4..], U32Bytes(vals[i], e));
  }

  /** A header followed by one data-offset table and the rest, with the other table put in its place. */
  lemma OffsetTableSwap(head: Bytes, a: seq<nat>, b: seq<nat>, rest: Bytes, e: Endian)
    requires |head| == HEADER_SIZE && |a| == |b| && AllU32(a) && AllU32(b)
    ensures HEADER_SIZE + 4 * |b| <= |head + (U32Table(a, e) + rest)|
    ensures WithOffsetTable(head + (U32Table(a, e) + rest), b, e) == head + (U32Table(b, e) + rest)
  {
    var t := head + (U32Table(a, e) + rest);
    assert t[..HEADER_SIZE] == head;
    assert t[HEADER_SIZE + 4 * |b|..] == rest;
  }

  /** Two images of the tables differ only in the data-offset table at 0x20. */
  lemma TablesImageOffsets(files: seq<LooseFile>, a: seq<nat>, b: seq<nat>, e: Endian)
    requires TablesFit(files) && ExtensionsFit(files)
    requires |a| == |b| == |files| && AllU32(a) && AllU32(b)
    ensures HEADER_SIZE + 4 * |b| <= |TablesImage(files, a, e)|
    ensures TablesImage(files, b, e) == WithOffsetTable(TablesImage(files, a, e), b, e)
  {
    FitsBounds(files);
    var n, w := |files|, NameWidth(files);
    var head := HeaderBytes(n, ExtTableStart(n), NameTableStart(n), SizeTableStart(n, w), e);
    OffsetTableSwap(head, a, b, LaterTables(files, e), e);
  }

  /** Replacing the data-offset table before laying out the payloads replaces it after too. */
  lemma LaidWithOffsets(t: Bytes, files: seq<LooseFile>, b: seq<nat>, e: Endian)
    requires HEADER_SIZE + 4 * |b| <= |t| && AllU32(b)
    ensures HEADER_SIZE + 4 * |b| <= |Laid(t, files)|
    ensures WithOffsetTable(Laid(t, files), b, e) == Laid(WithOffsetTable(t, b, e), files)
  {
    LaidPatch(t, WithOffsetTable(t, b, e), files, HEADER_SIZE, HEADER_SIZE + 4 * |b|, U32Table(b, e));
  }

  /** Filling in the data-offset table after laying out the payloads gives the tables with it filled in, laid out. */
  lemma LaidTablesOffsets(files: seq<LooseFile>, a: seq<nat>, b: seq<nat>, e: Endian)
    requires TablesFit(files) && ExtensionsFit(files)
    requires |a| == |b| == |files| && AllU32(a) && AllU32(b)
    ensures HEADER_SIZE + 4 * |b| <= |Laid(TablesImage(files, a, e), files)|
    ensures WithOffsetTable(Laid(TablesImage(files, a, e), files), b, e) == Laid(TablesImage(files, b, e), files)
  {
    TablesImageOffsets(files, a, b, e);
    LaidWithOffsets(TablesImage(files, a, e), files, b, e);
  }

  /**
   * The archive the packer writes for `files` in byte order `e`: the tables, with the
   * payloads' recorded starts in the data-offset table, then the payload area.
   */
  function RepackImage(files: seq<LooseFile>, e: Endian): (r: Bytes)
    requires Fits(files) && ExtensionsFit(files)
    ensures var base := DataStart(|files|, NameWidth(files));
      && |r| == PayloadsEnd(base, files)
      && r[..base] == TablesImage(files, Offsets(base, files), e)
  {
    Laid(TablesImage(files, Offsets(DataStart(|files|, NameWidth(files)), files), e), files)
  }
}
