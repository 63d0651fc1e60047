/**
 * Byte-level helpers the codec relies on: the byte and 32-bit word types,
 * the little-endian `serialize`/`deserialize` pair for one `uint32`, and the
 * optional value a whole-file read produces.
 *
 * Words are modelled as integers in [0, 2^32) rather than as `bv32`, so
 * every wrap-around the C++ code gets for free is written out where it
 * happens (see module Tea).
 */
module ByteIo {

  /** One octet (`std::byte`, CHAR_BIT == 8). */
  type byte = x: int | 0 <= x < 0x100

  /** `std::uint32_t`. */
  type u32 = x: int | 0 <= x < 0x1_0000_0000

  const U32_LIMIT: int := 0x1_0000_0000

  /** Size in bytes of a serialized `uint32`. */
  const WORD_SIZE: nat := 4

  /** Result of reading a whole file: absent when it could not be opened or read. */
  datatype Option<T> = None | Some(value: T)

  /** `deserialize<uint32_t>` in little-endian order: byte 0 is least significant. */
  function DecodeLE32(s: seq<byte>): (x: u32)
    requires |s| == WORD_SIZE
  {
    s[0] as int + 0x100 * s[1] as int + 0x1_0000 * s[2] as int + 0x100_0000 * s[3] as int
  }

  /** `serialize` of a `uint32` in little-endian order. */
  function EncodeLE32(x: u32): (s: seq<byte>)
    ensures |s| == WORD_SIZE
  {
    var q1 := x / 0x100;
    var q2 := q1 / 0x100;
    [x % 0x100, q1 % 0x100, q2 % 0x100, q2 / 0x100]
  }

  /** Splitting `0x100 * q + r` at a byte boundary gives back `q` and `r`. */
  lemma SplitByte(q: nat, r: byte)
    ensures (0x100 * q + r) / 0x100 == q && (0x100 * q + r) % 0x100 == r
  {
  }

  /** Deserializing what was serialized gives the word back. */
  lemma DecodeEncode(x: u32)
    ensures DecodeLE32(EncodeLE32(x)) == x
  {
    var q1 := x / 0x100;
    var q2 := q1 / 0x100;
    assert x == 0x100 * q1 + x % 0x100;
    assert q1 == 0x100 * q2 + q1 % 0x100;
    assert q2 == 0x100 * (q2 / 0x100) + q2 % 0x100;
  }

  /** Serializing what was deserialized gives the four bytes back. */
  lemma EncodeDecode(s: seq<byte>)
    requires |s| == WORD_SIZE
    ensures EncodeLE32(DecodeLE32(s)) == s
  {
    var h2 := s[2] as int + 0x100 * s[3] as int;
    var h1 := s[1] as int + 0x100 * h2;
    assert DecodeLE32(s) == 0x100 * h1 + s[0];
    SplitByte(h1, s[0]);
    SplitByte(h2, s[1]);
    SplitByte(s[3], s[2]);
  }

  /** Reinterprets bytes as characters (`reinterpret_cast<const char*>`). */
  function AsChars(b: seq<byte>): (s: string)
    ensures |s| == |b|
    ensures forall i :: 0 <= i < |b| ==> s[i] as int == b[i]
  {
    seq(|b|, i requires 0 <= i < |b| => b[i] as char)
  }

  /** Reinterprets single-byte characters as bytes. */
  function AsBytes(s: string): (b: seq<byte>)
    requires forall i :: 0 <= i < |s| ==> s[i] as int < 0x100
    ensures |b| == |s|
    ensures AsChars(b) == s
  {
    seq(|s|, i requires 0 <= i < |s| => s[i] as int)
  }

  /** `std::copy` of `bytes` into `buf` at offset `at`; nothing else in `buf` changes. */
  method CopyInto(buf: array<byte>, at: nat, bytes: seq<byte>)
    requires at + |bytes| <= buf.Length
    modifies buf
    ensures buf[..] == old(buf[..])[..at] + bytes + old(buf[..])[at + |bytes|..]
  {
    ghost var b := buf[..];
    forall j | 0 <= j < |bytes| {
      buf[at + j] := bytes[j];
    }
    assert buf[..] == b[..at] + bytes + b[at + |bytes|..];
  }
}
