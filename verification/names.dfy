/**
 * The string helpers of the packer: the extension of a packed file's name, the
 * fixed width of the filename table, and the archive path derived from the
 * directory being repacked.
 */
module DatNames {
  import opened Bytes

  /** A loose file: its name in the directory listing and its contents. */
  datatype LooseFile = LooseFile(name: Bytes, contents: Bytes)

  const DOT: Byte := 0x2E

  /**
   * `filename.split(".")[-1]`: the text after the last '.', or the whole name
   * when it holds no '.'.
   */
  function Extension(name: Bytes): (ext: Bytes)
    ensures |ext| <= |name|
  {
    if name == [] || name[|name| - 1] == DOT then []
    else Extension(name[..|name| - 1]) + [name[|name| - 1]]
  }

  /**
   * The extension is a suffix of the name that holds no '.', and it is either the
   * whole name or preceded by a '.'.
   */
  lemma {:induction false} ExtensionIsLastComponent(name: Bytes)
    ensures var ext := Extension(name);
      && ext == name[|name| - |ext|..]
      && DOT !in ext
      && (|ext| == |name| || name[|name| - |ext| - 1] == DOT)
  {
    if name != [] && name[|name| - 1] != DOT {
      var init := name[..|name| - 1];
      ExtensionIsLastComponent(init);
      var x := Extension(init);
      assert name[|name| - |x| - 1..] == init[|init| - |x|..] + [name[|name| - 1]];
    }
  }

  /** The extension is determined by the characterisation above: nothing else satisfies it. */
  lemma ExtensionUnique(name: Bytes, ext: Bytes)
    requires |ext| <= |name| && ext == name[|name| - |ext|..]
    requires DOT !in ext
    requires |ext| == |name| || name[|name| - |ext| - 1] == DOT
    ensures ext == Extension(name)
  {
    ExtensionIsLastComponent(name);
    var x := Extension(name);
    if |x| == |ext| {
      assert x == name[|name| - |x|..];
    }
  }

  /**
   * The record width of the filename table, computed as the packer's loop does:
   * a name strictly longer than the width so far sets the width to its length + 1.
   * Every name fits in the width.
   */
  function NameWidth(files: seq<LooseFile>): (w: nat)
    ensures forall i :: 0 <= i < |files| ==> |files[i].name| <= w
  {
    if files == [] then 0
    else
      var init := files[..|files| - 1];
      var w0 := NameWidth(init);
      var len := |files[|files| - 1].name|;
      assert forall i :: 0 <= i < |init| ==> init[i] == files[i];
      if len > w0 then len + 1 else w0
  }

  /** A non-zero width is one more than the length of some name. */
  lemma {:induction false} NameWidthIsSomeNamePlusOne(files: seq<LooseFile>)
    ensures NameWidth(files) == 0 || exists i :: 0 <= i < |files| && NameWidth(files) == |files[i].name| + 1
  {
    if files != [] {
      var init := files[..|files| - 1];
      NameWidthIsSomeNamePlusOne(init);
      if NameWidth(files) != NameWidth(init) {
        assert NameWidth(files) == |files[|files| - 1].name| + 1;
      } else if NameWidth(init) != 0 {
        var i :| 0 <= i < |init| && NameWidth(init) == |init[i].name| + 1;
        assert init[i] == files[i];
      }
    }
  }

  /** The width is never more than one past the longest name. */
  lemma NameWidthAtMostLongestPlusOne(files: seq<LooseFile>, longest: nat)
    requires forall i :: 0 <= i < |files| ==> |files[i].name| <= longest
    ensures NameWidth(files) <= longest + 1
  {
    NameWidthIsSomeNamePlusOne(files);
  }

  /** A width of zero means there are no names at all, or only empty ones. */
  lemma NameWidthZero(files: seq<LooseFile>)
    ensures NameWidth(files) == 0 <==> forall i :: 0 <= i < |files| ==> files[i].name == []
  {
    NameWidthIsSomeNamePlusOne(files);
  }

  const UNPACK_SUFFIX: string := ".unpack"

  predicate EndsWith(s: string, suffix: string) {
    |suffix| <= |s| && s[|s| - |suffix|..] == suffix
  }

  /**
   * `rchop(s, suffix)`: drops a non-empty trailing `suffix`; anything else gets
   * ".dat" appended instead.
   */
  function Rchop(s: string, suffix: string): (r: string)
    ensures |suffix| > 0 && EndsWith(s, suffix) ==> r + suffix == s
    ensures !(|suffix| > 0 && EndsWith(s, suffix)) ==> r == s + ".dat"
  {
    if |suffix| > 0 && EndsWith(s, suffix) then s[..|s| - |suffix|] else s + ".dat"
  }

  /** Repacking the directory that unpacking `archive` produced targets `archive` again. */
  lemma RchopUndoesUnpackSuffix(archive: string)
    ensures Rchop(archive + UNPACK_SUFFIX, UNPACK_SUFFIX) == archive
  {
    var s := archive + UNPACK_SUFFIX;
    assert s[|s| - |UNPACK_SUFFIX|..] == UNPACK_SUFFIX;
    assert s[..|s| - |UNPACK_SUFFIX|] == archive;
  }
}
