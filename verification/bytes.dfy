/**
 * Bytes, the two byte orders of 32-bit integers, null-padded fixed strings,
 * in-place overwriting of a growable buffer, and alignment.
 */
module Bytes {

  type Byte = b: int | 0 <= b < 256
  type Bytes = seq<Byte>

  /** Byte order of multi-byte integers: PC archives are little-endian, console ones big-endian. */
  datatype Endian = Little | Big

  const TWO_31: int := 0x8000_0000
  const TWO_32: int := 0x1_0000_0000

  function Zeros(k: nat): (r: Bytes)
    ensures |r| == k
    ensures forall i :: 0 <= i < k ==> r[i] == 0
  {
    seq(k, _ => 0)
  }

  lemma ZerosAdd(j: nat, k: nat)
    ensures Zeros(j) + Zeros(k) == Zeros(j + k)
  {
  }

  // ---------------------------------------------------------------------------
  // 32-bit integers

  /** A sequence is its prefix up to `k` followed by the rest. */
  lemma SplitAt(s: Bytes, k: nat)
    requires k <= |s|
    ensures s == s[..k] + s[k..]
  {
  }

  /** Five parts appended after a leading part, grouped the two ways. */
  lemma Regroup(z: Bytes, a: Bytes, b: Bytes, c: Bytes, d: Bytes)
    ensures z + a + b + c + d == z + (a + b + c + d)
  {
  }

  lemma Regroup3(b: Bytes, x: Bytes, y: Bytes, z: Bytes)
    ensures b + x + y + z == b + (x + y + z)
  {
  }

  /** Replacing bytes `lo..hi` of a buffer and then appending is appending and then replacing. */
  lemma PatchBeforeTail(t: Bytes, tail: Bytes, lo: nat, hi: nat, mid: Bytes)
    requires lo <= hi <= |t|
    ensures (t + tail)[..lo] + (mid + (t + tail)[hi..]) == t[..lo] + (mid + t[hi..]) + tail
  {
    assert (t + tail)[..lo] == t[..lo];
    assert (t + tail)[hi..] == t[hi..] + tail;
    assert mid + (t[hi..] + tail) == mid + t[hi..] + tail;
  }

  /** A window inside a prefix of a buffer is the same window of the prefix. */
  lemma PrefixWindow(s: Bytes, p: Bytes, lo: nat, hi: nat)
    requires |p| <= |s| && s[..|p|] == p && lo <= hi <= |p|
    ensures s[lo..hi] == p[lo..hi]
  {
    forall k | 0 <= k < hi - lo
      ensures s[lo..hi][k] == p[lo..hi][k]
    {
      assert s[lo + k] == s[..|p|][lo + k];
    }
  }

  /** Inside the window `at .. end` of `s` that equals `table`, the `len` bytes from `lo` of the table, known to be `part`. */
  lemma WindowOfTable(s: Bytes, at: nat, end: nat, table: Bytes, lo: nat, len: nat, part: Bytes)
    requires end == at + |table| && end <= |s| && s[at..end] == table && lo + len <= |table|
    requires table[lo..lo + len] == part
    ensures s[at + lo..at + lo + len] == part
  {
    WindowOfWindow(s, at, |table|, lo, lo + len);
  }

  /** A window of a window is a window of the whole. */
  lemma WindowOfWindow(s: Bytes, at: nat, len: nat, lo: nat, hi: nat)
    requires at + len <= |s| && lo <= hi <= len
    ensures s[at..at + len][lo..hi] == s[at + lo..at + hi]
  {
    var inner, whole := s[at..at + len][lo..hi], s[at + lo..at + hi];
    forall k | 0 <= k < |inner|
      ensures inner[k] == whole[k]
    {
    }
  }

  /** 256 to the power `k`: one more than the largest value `k` bytes can hold. */
  function Pow256(k: nat): (r: nat)
    ensures r > 0
  {
    if k == 0 then 1 else 0x100 * Pow256(k - 1)
  }

  /** The `k` low-order bytes of `v`, least significant first. */
  function LeBytes(v: nat, k: nat): (r: Bytes)
    ensures |r| == k
  {
    if k == 0 then [] else [v % 0x100] + LeBytes(v / 0x100, k - 1)
  }

  /** The value of bytes read least significant first. */
  function LeValue(b: Bytes): (v: nat)
  {
    if b == [] then 0 else b[0] + 0x100 * LeValue(b[1..])
  }

  lemma {:induction false} LeValueBound(b: Bytes)
    ensures LeValue(b) < Pow256(|b|)
  {
    if b != [] {
      LeValueBound(b[1..]);
      assert LeValue(b) <= 0xFF + 0x100 * (Pow256(|b| - 1) - 1);
    }
  }

  /** Reading back `k` bytes of a value below 256^k gives the value. */
  lemma {:induction false} LeRoundTrip(v: nat, k: nat)
    requires v < Pow256(k)
    ensures LeValue(LeBytes(v, k)) == v
  {
    if k > 0 {
      var b := LeBytes(v, k);
      assert b[1..] == LeBytes(v / 0x100, k - 1);
      LeRoundTrip(v / 0x100, k - 1);
    }
  }

  /** Every byte sequence is the encoding of its value. */
  lemma {:induction false} LeBytesOfValue(b: Bytes)
    ensures LeBytes(LeValue(b), |b|) == b
  {
    if b != [] {
      var v := LeValue(b);
      assert v % 0x100 == b[0] && v / 0x100 == LeValue(b[1..]);
      LeBytesOfValue(b[1..]);
    }
  }

  /** Four bytes as stored in byte order `e`, from or to least significant first. */
  function InOrder(b: Bytes, e: Endian): (r: Bytes)
    requires |b| == 4
    ensures |r| == 4
  {
    if e == Little then b else [b[3], b[2], b[1], b[0]]
  }

  /** The four bytes of an unsigned 32-bit value in byte order `e`. */
  function U32Bytes(v: nat, e: Endian): (r: Bytes)
    requires v < TWO_32
    ensures |r| == 4
  {
    InOrder(LeBytes(v, 4), e)
  }

  /** The unsigned value of four bytes read in byte order `e`: the word below 2^32 that they encode. */
  function U32Value(b: Bytes, e: Endian): (v: nat)
    requires |b| == 4
    ensures v < TWO_32 && U32Bytes(v, e) == b
  {
    var le := InOrder(b, e);
    LeValueBound(le);
    LeBytesOfValue(le);
    assert InOrder(le, e) == b;
    assert Pow256(4) == TWO_32;
    LeValue(le)
  }

  /** Encoding is also a left inverse of decoding: every 4-byte group is some value's encoding. */
  lemma U32BytesOfValue(b: Bytes, e: Endian)
    requires |b| == 4
    ensures U32Bytes(U32Value(b, e), e) == b
  {
    var le := InOrder(b, e);
    LeBytesOfValue(le);
    assert InOrder(le, e) == b;
  }

  /** Decoding an encoded unsigned word gives the value back. */
  lemma U32RoundTrip(v: nat, e: Endian)
    requires v < TWO_32
    ensures U32Value(U32Bytes(v, e), e) == v
  {
    var le := LeBytes(v, 4);
    assert InOrder(InOrder(le, e), e) == le;
    assert Pow256(4) == TWO_32;
    LeRoundTrip(v, 4);
  }

  /** The word zero is four zero bytes in either byte order. */
  lemma U32BytesZero(e: Endian)
    ensures U32Bytes(0, e) == Zeros(4)
  {
    assert LeBytes(0, 4) == [0, 0, 0, 0];
  }

  /** The four bytes of a signed 32-bit value (two's complement). */
  function I32Bytes(v: int, e: Endian): (r: Bytes)
    requires -TWO_31 <= v < TWO_31
    ensures |r| == 4
    ensures 0 <= v ==> r == U32Bytes(v, e)
  {
    U32Bytes(if v < 0 then v + TWO_32 else v, e)
  }

  /** Decoding an encoded signed word gives the value back. */
  lemma I32RoundTrip(v: int, e: Endian)
    requires -TWO_31 <= v < TWO_31
    ensures I32Value(I32Bytes(v, e), e) == v
  {
    U32RoundTrip(if v < 0 then v + TWO_32 else v, e);
  }

  /** The signed (two's complement) value of four bytes read in byte order `e`. */
  function I32Value(b: Bytes, e: Endian): (v: int)
    requires |b| == 4
    ensures -TWO_31 <= v < TWO_31
    ensures v == U32Value(b, e) || v == U32Value(b, e) - TWO_32
  {
    var u := U32Value(b, e);
    if u < TWO_31 then u else u - TWO_32
  }

  // ---------------------------------------------------------------------------
  // Null-padded strings

  /**
   * What reading a null-padded string yields: the bytes before the first zero byte,
   * that is, the zero-free prefix that ends at the end of `b` or at a zero byte.
   */
  function CutAtNull(b: Bytes): (r: Bytes)
    ensures r <= b && 0 !in r
    ensures |r| == |b| || b[|r|] == 0
  {
    BeforeZeroPrefix(b);
    BeforeZero(b)
  }

  /** The bytes of `b` up to its first zero byte, taken one at a time. */
  function BeforeZero(b: Bytes): Bytes {
    if b == [] || b[0] == 0 then [] else [b[0]] + BeforeZero(b[1..])
  }

  lemma {:induction false} BeforeZeroPrefix(b: Bytes)
    ensures BeforeZero(b) <= b
    ensures 0 !in BeforeZero(b)
    ensures |BeforeZero(b)| == |b| || b[|BeforeZero(b)|] == 0
  {
    if b != [] && b[0] != 0 {
      BeforeZeroPrefix(b[1..]);
    }
  }

  /** `s` followed by zero bytes up to `width`: a fixed-width string field. */
  function Fixed(s: Bytes, width: nat): (r: Bytes)
    requires |s| <= width
    ensures |r| == width && r[..|s|] == s
    ensures forall i :: |s| <= i < width ==> r[i] == 0
  {
    s + Zeros(width - |s|)
  }

  /**
   * The bytes `n` records of `width` bytes take up back to back: record `i` starts
   * `Span(i, width)` bytes into its table.
   */
  function Span(n: nat, width: nat): nat {
    Counted(n, width)
  }

  /**
   * The recursion behind `Span`: the span of `n - 1` records plus one more record of
   * `width` bytes, as the reader and the writer advance record by record.
   */
  function Counted(n: nat, width: nat): nat {
    if n == 0 then 0 else Counted(n - 1, width) + width
  }

  /** Record `i` of `n` lies within the span of all `n`. */
  lemma {:induction false} SpanStep(i: nat, n: nat, width: nat)
    requires i < n
    ensures Span(i, width) + width <= Span(n, width)
  {
    if i + 1 < n {
      SpanStep(i, n - 1, width);
    }
  }

  /** Records of one 32-bit word each take up four bytes apiece. */
  lemma {:induction false} SpanOfWords(n: nat)
    ensures Span(n, 4) == 4 * n
  {
    if n > 0 {
      SpanOfWords(n - 1);
    }
  }

  /** Reading back a fixed-width field recovers a string that holds no zero byte. */
  lemma {:induction false} CutAtNullOfPadded(s: Bytes, k: nat)
    requires 0 !in s
    ensures CutAtNull(s + Zeros(k)) == s
  {
    if s == [] {
      if k > 0 {
        assert (s + Zeros(k))[0] == 0;
      }
      assert s + Zeros(k) == Zeros(k);
    } else {
      assert (s + Zeros(k))[1..] == s[1..] + Zeros(k);
      CutAtNullOfPadded(s[1..], k);
    }
  }

  /** A string without a zero byte, null-padded to a fixed width, reads back as itself. */
  lemma CutAtNullOfFixed(s: Bytes, width: nat)
    requires |s| <= width && 0 !in s
    ensures CutAtNull(Fixed(s, width)) == s
  {
    CutAtNullOfPadded(s, width - |s|);
  }

  // ---------------------------------------------------------------------------
  // Writing into a growable buffer

  /**
   * The buffer after writing `w` at position `p`: the bytes at p .. p+|w| are
   * replaced, the buffer grows (zero-filled) when the write reaches past its end,
   * and every other byte is kept.
   */
  function Overwrite(b: Bytes, p: nat, w: Bytes): (r: Bytes)
    ensures |r| == if p + |w| <= |b| then |b| else p + |w|
    ensures r[p..p + |w|] == w
  {
    var grown := if p + |w| <= |b| then b else b + Zeros(p + |w| - |b|);
    grown[..p] + w + grown[p + |w|..]
  }

  /** The written bytes land at `p`; every other byte is kept, and a gap before `p` is zero-filled. */
  lemma OverwriteBytes(b: Bytes, p: nat, w: Bytes)
    ensures var r := Overwrite(b, p, w);
      && r[p..p + |w|] == w
      && forall i :: 0 <= i < |r| && !(p <= i < p + |w|) ==> r[i] == if i < |b| then b[i] else 0
  {
    var grown := if p + |w| <= |b| then b else b + Zeros(p + |w| - |b|);
    assert Overwrite(b, p, w) == grown[..p] + w + grown[p + |w|..];
  }

  /** A write leaves the bytes before its position as they were. */
  lemma OverwriteKeepsBefore(b: Bytes, p: nat, w: Bytes, lo: nat, hi: nat)
    requires lo <= hi <= p && hi <= |b|
    ensures Overwrite(b, p, w)[lo..hi] == b[lo..hi]
  {
    var r := Overwrite(b, p, w);
    OverwriteBytes(b, p, w);
    assert forall i :: lo <= i < hi ==> r[i] == b[i];
  }

  /** A write at the end of the buffer appends. */
  lemma OverwriteAtEnd(b: Bytes, w: Bytes)
    ensures Overwrite(b, |b|, w) == b + w
  {
    var r := Overwrite(b, |b|, w);
    OverwriteBytes(b, |b|, w);
    assert |r| == |b + w|;
    forall i | 0 <= i < |r| ensures r[i] == (b + w)[i] {
      if i >= |b| {
        assert r[|b|..|b| + |w|][i - |b|] == w[i - |b|];
      }
    }
  }

  /** A write of the same length as a middle part replaces exactly that part. */
  lemma OverwriteMiddle(a: Bytes, x: Bytes, c: Bytes, w: Bytes)
    requires |x| == |w|
    ensures Overwrite(a + x + c, |a|, w) == a + w + c
  {
    var r := Overwrite(a + x + c, |a|, w);
    OverwriteBytes(a + x + c, |a|, w);
    assert |r| == |a + w + c|;
    forall i | 0 <= i < |r| ensures r[i] == (a + w + c)[i] {
      if |a| <= i < |a| + |w| {
        assert r[|a|..|a| + |w|][i - |a|] == w[i - |a|];
      }
    }
  }

  /** The same, for a buffer grouped as a head, a filled part, the part written over, and the rest. */
  lemma OverwriteAfterFilled(h: Bytes, t: Bytes, x: Bytes, c: Bytes, w: Bytes)
    requires |x| == |w|
    ensures Overwrite(h + (t + (x + c)), |h| + |t|, w) == h + ((t + w) + c)
  {
    assert h + (t + (x + c)) == (h + t) + x + c;
    OverwriteMiddle(h + t, x, c, w);
    assert (h + t) + w + c == h + ((t + w) + c);
  }

  /** A write that ends inside the first part of a buffer leaves the second part alone. */
  lemma OverwriteBefore(a: Bytes, c: Bytes, p: nat, w: Bytes)
    requires p + |w| <= |a|
    ensures Overwrite(a + c, p, w) == Overwrite(a, p, w) + c
  {
    var r, s := Overwrite(a + c, p, w), Overwrite(a, p, w) + c;
    OverwriteBytes(a + c, p, w);
    OverwriteBytes(a, p, w);
    assert |r| == |s|;
    forall i | 0 <= i < |r| ensures r[i] == s[i] {
      if p <= i < p + |w| {
        assert r[p..p + |w|][i - p] == w[i - p];
        assert Overwrite(a, p, w)[p..p + |w|][i - p] == w[i - p];
      }
    }
  }

  /** A write inside the second part of a buffer leaves the first part alone. */
  lemma OverwriteAfter(a: Bytes, b: Bytes, p: nat, w: Bytes)
    requires p + |w| <= |b|
    ensures Overwrite(a + b, |a| + p, w) == a + Overwrite(b, p, w)
  {
    var q := |a| + p;
    var c := b[p + |w|..];
    assert (a + b)[..q] == a + b[..p];
    assert (a + b)[q + |w|..] == c;
    assert Overwrite(b, p, w) == b[..p] + w + c;
    assert a + b[..p] + w + c == a + (b[..p] + w + c);
  }

  // ---------------------------------------------------------------------------
  // Alignment

  /** The least multiple of 16 that is not below `p`: where `align(0x10)` leaves the cursor. */
  function AlignUp16(p: nat): (r: nat)
    ensures r % 16 == 0
    ensures p <= r < p + 16
  {
    if p % 16 == 0 then p else p + (16 - p % 16)
  }
}
