/**
 * The member format of a shader archive, and what `archive_enumerator`
 * reads from a byte range.
 *
 * Each member is a little-endian `uint32` giving the size of its data,
 * followed by that many bytes of data; the next member starts right after
 * them. The enumerator's whole state is the range not yet enumerated, so
 * its queries are functions of that range here; the enumerator object
 * itself is module Enumerator.
 */
module Chunks {
  import opened ByteIo

  /** `sizeof(chunk_size_type)`: the size of a member's header. */
  const HEADER_SIZE: nat := 4

  // ---------------------------------------------------------------------
  // The enumerator's queries

  /** `is_at_end`: nothing is left to enumerate. */
  predicate IsAtEnd(range: seq<byte>) {
    |range| == 0
  }

  /** The data size the header at the front of `range` announces. */
  function ChunkLength(range: seq<byte>): u32
    requires |range| >= HEADER_SIZE
  {
    DecodeLE32(range[..HEADER_SIZE])
  }

  /** `has_error`: a header that does not fit, or data that overruns the range. */
  predicate HasError(range: seq<byte>)
    ensures HasError(range) ==> !IsAtEnd(range)
    ensures HasError(range) <==> |range| > 0 && !(|range| >= HEADER_SIZE && ChunkLength(range) + HEADER_SIZE <= |range|)
  {
    if IsAtEnd(range) then false
    else if |range| < HEADER_SIZE then true
    else ChunkLength(range) + HEADER_SIZE > |range|
  }

  /** `finished`: the enumerator can go no further. */
  predicate Finished(range: seq<byte>)
    ensures Finished(range) <==> !(|range| >= HEADER_SIZE && ChunkLength(range) + HEADER_SIZE <= |range|)
    ensures IsAtEnd(range) ==> Finished(range) && !HasError(range)
  {
    IsAtEnd(range) || HasError(range)
  }

  /** `data`: the current member's data, or nothing once finished. */
  function Data(range: seq<byte>): (d: seq<byte>)
    ensures Finished(range) ==> d == []
    ensures !Finished(range) ==> |d| == ChunkLength(range) && HEADER_SIZE + |d| <= |range|
  {
    if Finished(range) then []
    else range[HEADER_SIZE..HEADER_SIZE + ChunkLength(range)]
  }

  /** `advance`: the range after the current member, or the same range once finished. */
  function Advanced(range: seq<byte>): (r: seq<byte>)
    ensures Finished(range) ==> r == range
    ensures !Finished(range) ==> |r| == |range| - HEADER_SIZE - ChunkLength(range) && |r| < |range|
  {
    if Finished(range) then range
    else
      var remaining := |range| - ChunkLength(range) - HEADER_SIZE;
      range[|range| - remaining..]
  }

  // ---------------------------------------------------------------------
  // A whole enumeration

  /** The data of every member an enumeration visits, in order. */
  function Members(range: seq<byte>): (ms: seq<seq<byte>>)
    ensures HEADER_SIZE * |ms| <= |range|
    ensures ms == [] <==> Finished(range)
    decreases |range|
  {
    if Finished(range) then [] else [Data(range)] + Members(Advanced(range))
  }

  /** The range at which an enumeration stops. */
  function Rest(range: seq<byte>): (r: seq<byte>)
    ensures Finished(r)
    decreases |range|
  {
    if Finished(range) then range else Rest(Advanced(range))
  }

  /** An enumeration of `range` ends at its end rather than at an error. */
  predicate WellFormed(range: seq<byte>) {
    !HasError(Rest(range))
  }

  /** `is_at_end`: an empty range is finished without error, holds no members and is well formed. */
  lemma EndOfRange(range: seq<byte>)
    requires IsAtEnd(range)
    ensures range == [] && Finished(range) && !HasError(range)
    ensures Members(range) == [] && Advanced(range) == range && WellFormed(range)
  {
  }

  // ---------------------------------------------------------------------
  // Writing members

  /** Every member's size fits the `uint32` header. */
  predicate Representable(ms: seq<seq<byte>>) {
    forall i :: 0 <= i < |ms| ==> |ms[i]| < U32_LIMIT
  }

  /** The sum of the members' sizes (the `std::accumulate` of `nbytes`). */
  function TotalLength(ms: seq<seq<byte>>): nat {
    if ms == [] then 0 else |ms[0]| + TotalLength(ms[1..])
  }

  /** One member as `load_members_from` writes it: its size, then its data. */
  function Chunk(m: seq<byte>): (c: seq<byte>)
    requires |m| < U32_LIMIT
    ensures |c| == HEADER_SIZE + |m| && c[HEADER_SIZE..] == m
  {
    EncodeLE32(|m|) + m
  }

  /** All members, one after the other. */
  function Pack(ms: seq<seq<byte>>): (r: seq<byte>)
    requires Representable(ms)
    ensures |r| == TotalLength(ms) + 4 * |ms|
  {
    if ms == [] then [] else Chunk(ms[0]) + Pack(ms[1..])
  }

  // ---------------------------------------------------------------------
  // Properties

  /** A range the enumerator can advance over is its header, the current data and what follows. */
  lemma AdvanceDecomposes(range: seq<byte>)
    requires !Finished(range)
    ensures range == range[..HEADER_SIZE] + Data(range) + Advanced(range)
  {
    var n := HEADER_SIZE + ChunkLength(range);
    assert range == range[..HEADER_SIZE] + range[HEADER_SIZE..n] + range[n..];
  }

  /** The enumerator reads a written member back and moves to what follows it. */
  lemma ReadChunk(m: seq<byte>, rest: seq<byte>)
    requires |m| < U32_LIMIT
    ensures !Finished(Chunk(m) + rest)
    ensures Data(Chunk(m) + rest) == m && Advanced(Chunk(m) + rest) == rest
  {
    var range := Chunk(m) + rest;
    assert range[..HEADER_SIZE] == EncodeLE32(|m|);
    DecodeEncode(|m|);
    assert ChunkLength(range) == |m|;
    assert range[HEADER_SIZE..HEADER_SIZE + |m|] == m;
    assert range[HEADER_SIZE + |m|..] == rest;
  }

  /** Enumerating packed members yields exactly those members, in order, and ends without error. */
  lemma {:induction false} PackRoundTrip(ms: seq<seq<byte>>)
    requires Representable(ms)
    ensures Members(Pack(ms)) == ms
    ensures IsAtEnd(Rest(Pack(ms))) && WellFormed(Pack(ms))
  {
    if ms != [] {
      ReadChunk(ms[0], Pack(ms[1..]));
      PackRoundTrip(ms[1..]);
    }
  }

  /** A range that enumerates without error is exactly the packing of its members. */
  lemma {:induction false} PackMembers(range: seq<byte>)
    requires WellFormed(range)
    ensures Representable(Members(range)) && Pack(Members(range)) == range
    decreases |range|
  {
    if !Finished(range) {
      var d, next := Data(range), Advanced(range);
      PackMembers(next);
      AdvanceDecomposes(range);
      EncodeDecode(range[..HEADER_SIZE]);
      assert Chunk(d) == range[..HEADER_SIZE] + d;
      var ms := Members(range);
      assert ms == [d] + Members(next);
      assert ms[1..] == Members(next);
    }
  }

  /** Packing one more member appends its chunk. */
  lemma {:induction false} PackAppend(ms: seq<seq<byte>>, m: seq<byte>)
    requires Representable(ms) && |m| < U32_LIMIT
    ensures Representable(ms + [m])
    ensures Pack(ms + [m]) == Pack(ms) + Chunk(m)
    ensures TotalLength(ms + [m]) == TotalLength(ms) + |m|
  {
    var all := ms + [m];
    assert forall i :: 0 <= i < |all| ==> |all[i]| < U32_LIMIT by {
      forall i | 0 <= i < |all|
        ensures |all[i]| < U32_LIMIT
      {
        if i < |ms| {
          assert all[i] == ms[i];
        }
      }
    }
    if ms != [] {
      assert all[1..] == ms[1..] + [m];
      PackAppend(ms[1..], m);
    } else {
      assert all[1..] == [];
    }
  }
}
