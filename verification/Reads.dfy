/** What a read of a file returns, whoever reads it. */
module Reads {

  /** The bytes from the offset on, at most `size` of them. */
  function Chunk(file: seq<int>, offset: int, size: int): (r: seq<int>)
    requires 0 <= offset && 0 <= size
  {
    if offset >= |file| then []
    else if offset + size > |file| then file[offset..]
    else file[offset..offset + size]
  }

  /** These are the bytes of the file from `from` on: `size` of them, or as many as there are. */
  predicate AreNext(file: seq<int>, from: int, size: int, bytes: seq<int>)
  {
    && 0 <= from <= |file| && |bytes| == (if size <= |file| - from then size else |file| - from)
    && bytes == file[from..from + |bytes|]
  }
}
