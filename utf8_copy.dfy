/**
 * The copy loop of `_to_utf8` (temp.py, lines 5-16), on already-decoded text.
 *
 * The source opens the file as a latin1 reader and a fresh `.tmp` file as a
 * UTF-8 writer, then keeps reading a block of at most `blocksize` characters
 * and writing it out, stopping at the first empty read.  A codec reader's
 * `read(size)` returns the next `size` characters (fewer at the end), nothing
 * at all when `size` is 0, and everything that is left when `size` is
 * negative.  The decoding, the encoding and the rename that puts the
 * temporary file in place of the original are not modelled here.
 */
module Utf8Copy {

  /** A codec reader over decoded text, with its read position. */
  class Reader {
    const text: seq<char>
    var pos: nat

    ghost predicate Valid()
      reads this
    {
      pos <= |text|
    }

    /** What has not been read yet. */
    function Remaining(): seq<char>
      reads this
      requires Valid()
    {
      text[pos..]
    }

    constructor (text: seq<char>)
      ensures Valid() && this.text == text && pos == 0
    {
      this.text := text;
      pos := 0;
    }

    /** `read(size)`. */
    method Read(size: int) returns (chunk: seq<char>)
      requires Valid()
      modifies this
      ensures Valid()
      ensures chunk + Remaining() == old(Remaining())
      ensures size < 0 ==> chunk == old(Remaining())
      ensures size >= 0 ==> |chunk| == Min(size, |old(Remaining())|)
      ensures chunk == [] <==> size == 0 || old(Remaining()) == []
      ensures size >= 0 ==> |chunk| <= size
    {
      var n := if size < 0 || pos + size > |text| then |text| - pos else size;
      chunk := text[pos..pos + n];
      pos := pos + n;
    }
  }

  /** A codec writer: the text written so far. */
  class Writer {
    var written: seq<char>

    /** A file opened with mode "w" starts empty. */
    constructor ()
      ensures written == []
    {
      written := [];
    }

    /** `write(contents)`. */
    method Write(contents: seq<char>)
      modifies this
      ensures written == old(written) + contents
    {
      written := written + contents;
    }
  }

  function Min(a: int, b: int): int {
    if a < b then a else b
  }

  /** The chunks joined end to end. */
  function Concat(chunks: seq<seq<char>>): seq<char> {
    if chunks == [] then [] else Concat(chunks[..|chunks| - 1]) + chunks[|chunks| - 1]
  }

  lemma ConcatSnoc(chunks: seq<seq<char>>, c: seq<char>)
    ensures Concat(chunks + [c]) == Concat(chunks) + c
  {
    assert (chunks + [c])[..|chunks|] == chunks;
  }

  /** Every chunk is non-empty and no longer than a read of `blocksize` can return. */
  ghost predicate ChunksBounded(chunks: seq<seq<char>>, blocksize: int) {
    forall i :: 0 <= i < |chunks| ==> 0 < |chunks[i]| && (blocksize >= 0 ==> |chunks[i]| <= blocksize)
  }

  /**
   * One turn of the copy loop: a non-empty read `contents`, taken off the
   * front of what was left, extends the chunks written so far and keeps
   * them bounded.
   */
  lemma CopyStep(start: seq<char>, chunks: seq<seq<char>>, rest: seq<char>,
                 contents: seq<char>, remaining: seq<char>, blocksize: int)
    requires start == Concat(chunks) + rest
    requires contents + remaining == rest && contents != []
    requires ChunksBounded(chunks, blocksize)
    requires blocksize >= 0 ==> |contents| <= blocksize
    ensures start == Concat(chunks + [contents]) + remaining
    ensures ChunksBounded(chunks + [contents], blocksize)
  {
    ConcatSnoc(chunks, contents);
  }

  /**
   * Lines 9-13.  With a non-zero `blocksize` the whole remaining text is
   * appended to the target, in the returned non-empty chunks of at most
   * `blocksize` characters (a single chunk when `blocksize` is negative).
   * With `blocksize == 0` the first read is already empty and nothing is
   * copied.
   */
  method CopyBlocks(source: Reader, target: Writer, blocksize: int) returns (ghost chunks: seq<seq<char>>)
    requires source.Valid()
    modifies source, target
    ensures source.Valid()
    ensures source.Remaining() == if blocksize == 0 then old(source.Remaining()) else []
    ensures target.written == old(target.written) + (if blocksize == 0 then [] else old(source.Remaining()))
    ensures target.written == old(target.written) + Concat(chunks)
    ensures ChunksBounded(chunks, blocksize)
    ensures blocksize < 0 ==> |chunks| <= 1
  {
    ghost var start := source.Remaining();
    chunks := [];
    while true
      invariant source.Valid()
      invariant target.written == old(target.written) + Concat(chunks)
      invariant start == Concat(chunks) + source.Remaining()
      invariant ChunksBounded(chunks, blocksize)
      invariant blocksize < 0 ==> |chunks| <= 1 && (chunks == [] || source.Remaining() == [])
      invariant blocksize == 0 ==> chunks == []
      decreases |source.Remaining()|
    {
      ghost var rest := source.Remaining();
      var contents := source.Read(blocksize);
      if contents == [] {
        assert blocksize != 0 ==> rest == [];
        break;
      }
      target.Write(contents);
      CopyStep(start, chunks, rest, contents, source.Remaining(), blocksize);
      chunks := chunks + [contents];
    }
  }

  /**
   * `_to_utf8(filename, encoding, blocksize)` on the decoded contents of the
   * file: the text that ends up under `filename`, and the chunks it was
   * written in.  It is the original text unless `blocksize` is 0.
   */
  method ToUtf8(contents: seq<char>, blocksize: int := 1048576) returns (result: seq<char>, ghost chunks: seq<seq<char>>)
    ensures result == if blocksize == 0 then [] else contents
    ensures Concat(chunks) == result
    ensures ChunksBounded(chunks, blocksize)
  {
    var source := new Reader(contents);
    var target := new Writer();
    chunks := CopyBlocks(source, target, blocksize);
    result := target.written;
  }
}
