/**
  What fread delivers from a file held as a byte sequence: the requested
  bytes, or as many as remain before the end of the file.
*/
module Files {
  import opened Bytes

  /** The count fread returns when asked for `count` bytes at position `pos`. */
  function ReadCount(file: seq<Byte>, pos: nat, count: nat): (n: nat)
    ensures n <= count
    ensures n == count || pos + n == |file| || (n == 0 && |file| <= pos)
    ensures n > 0 ==> pos + n <= |file|
  {
    var available := if |file| > pos then |file| - pos else 0;
    if available < count then available else count
  }

  /** The bytes fread delivers when asked for `count` bytes at position `pos`. */
  function ReadBytes(file: seq<Byte>, pos: nat, count: nat): (r: seq<Byte>)
    ensures |r| == ReadCount(file, pos, count)
    ensures forall i :: 0 <= i < |r| ==> r[i] == file[pos + i]
  {
    if |file| > pos then file[pos..pos + ReadCount(file, pos, count)] else []
  }

  /** A buffer that held `before` after fread of |before| bytes from the start of the file. */
  function BufferAfterRead(file: seq<Byte>, before: seq<Byte>): (after: seq<Byte>)
    ensures |after| == |before|
    ensures forall i :: 0 <= i < |before| ==> after[i] == (if i < |file| then file[i] else before[i])
  {
    if |file| >= |before| then file[..|before|] else file + before[|file|..]
  }
}
