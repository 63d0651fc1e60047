/**
 * `archive_enumerator`: a cursor over the members of a byte range. Its one
 * field is the span still to enumerate; `advance` replaces it by the span
 * after the current member. The queries read the field and are the
 * functions of module Chunks applied to it.
 */
module Enumerator {
  import opened ByteIo
  import Chunks

  class ArchiveEnumerator {
    /** The span of bytes still to enumerate. */
    var range: seq<byte>

    /** Starts an enumeration of `enumerable`. */
    constructor(enumerable: seq<byte>)
      ensures range == enumerable
    {
      range := enumerable;
    }

    /** `is_at_end`. */
    predicate IsAtEnd()
      reads this
      ensures IsAtEnd() <==> range == []
      ensures IsAtEnd() ==> Chunks.Members(range) == [] && !Chunks.HasError(range)
    {
      Chunks.IsAtEnd(range)
    }

    /** `has_error`. */
    predicate HasError()
      reads this
      ensures HasError() <==> range != [] && !(|range| >= Chunks.HEADER_SIZE && Chunks.ChunkLength(range) + Chunks.HEADER_SIZE <= |range|)
    {
      Chunks.HasError(range)
    }

    /** `finished`. */
    predicate Finished()
      reads this
      ensures Finished() <==> Chunks.IsAtEnd(range) || Chunks.HasError(range)
      ensures Finished() ==> Chunks.Advanced(range) == range && Chunks.Members(range) == []
    {
      Chunks.Finished(range)
    }

    /** `explicit operator bool`: a whole member lies ahead, header and data. */
    predicate CanAdvance()
      reads this
      ensures CanAdvance() <==> |range| >= Chunks.HEADER_SIZE && Chunks.ChunkLength(range) + Chunks.HEADER_SIZE <= |range|
    {
      !Finished()
    }

    /** `data`: the current member's data, empty once finished. */
    function Data(): (d: seq<byte>)
      reads this
      ensures Finished() ==> d == []
      ensures !Finished() ==> range == range[..Chunks.HEADER_SIZE] + d + Chunks.Advanced(range)
    {
      if Finished() then []
      else
        Chunks.AdvanceDecomposes(range);
        Chunks.Data(range)
    }

    /** `advance`: moves past the current member; does nothing once finished. */
    method Advance()
      modifies this
      ensures range == Chunks.Advanced(old(range))
      ensures old(Finished()) ==> range == old(range)
      ensures !old(Finished()) ==> |range| < |old(range)|
    {
      if !Finished() {
        var chunkSize := DecodeLE32(range[..Chunks.HEADER_SIZE]);
        range := range[|range| - (|range| - chunkSize - Chunks.HEADER_SIZE)..];
      }
    }
  }
}
