/**
 * The text form of an MD5 digest: the loop of `compute_md5_digest` that
 * prints each of the 16 digest bytes as two lowercase hexadecimal digits
 * (`%02hhx`) and appends them, in byte order, to the result string.
 *
 * MD5 itself (RFC 1321) is computed by a library the model does not contain;
 * it is passed in as a function `md5` from bytes to 16 bytes.
 */
module Digest {
  import opened ByteIo

  /** The number of bytes an MD5 digest has. */
  const MD5_DIGEST_LENGTH: nat := 16

  /** The number of characters of its text form. */
  const HEX_DIGEST_LENGTH: nat := 32

  /** The 16 bytes an MD5 computation produces. */
  type Md5Bytes = s: seq<byte> | |s| == 16
    witness [0, 0, 0, 0, 0, 0, 0, 0, 0, 0, 0, 0, 0, 0, 0, 0]

  /** A lowercase hexadecimal digit. */
  predicate IsLowerHex(ch: char) {
    '0' <= ch <= '9' || 'a' <= ch <= 'f'
  }

  /** A string made only of lowercase hexadecimal digits. */
  predicate IsLowerHexString(s: string) {
    forall i :: 0 <= i < |s| ==> IsLowerHex(s[i])
  }

  /** The value of a lowercase hexadecimal digit. */
  function DigitValue(ch: char): (v: int)
    requires IsLowerHex(ch)
    ensures 0 <= v < 16
  {
    if ch <= '9' then ch as int - '0' as int else ch as int - 'a' as int + 10
  }

  /** The lowercase hexadecimal digit of a value below 16. */
  function HexDigit(v: int): (ch: char)
    requires 0 <= v < 16
    ensures IsLowerHex(ch) && DigitValue(ch) == v
  {
    if v < 10 then ('0' as int + v) as char else ('a' as int + v - 10) as char
  }

  /** A lowercase digit is the digit of its own value. */
  lemma DigitOfValue(ch: char)
    requires IsLowerHex(ch)
    ensures HexDigit(DigitValue(ch)) == ch
  {
  }

  /** `%02hhx` of one byte: two lowercase digits, the high nibble first. */
  function HexByte(d: byte): (s: string)
    ensures |s| == 2 && IsLowerHex(s[0]) && IsLowerHex(s[1])
    ensures 16 * DigitValue(s[0]) + DigitValue(s[1]) == d
  {
    [HexDigit(d / 16), HexDigit(d % 16)]
  }

  /** The two digits of every byte of `d`, in byte order. */
  function HexString(d: seq<byte>): (s: string)
    ensures |s| == 2 * |d| && IsLowerHexString(s)
  {
    if d == [] then "" else HexString(d[..|d| - 1]) + HexByte(d[|d| - 1])
  }

  /** Reads pairs of lowercase hexadecimal digits back into bytes; anything else is refused. */
  function ParseHex(s: string): (r: Option<seq<byte>>)
    ensures r.Some? ==> 2 * |r.value| == |s|
  {
    if s == [] then Some([])
    else if |s| < 2 || !IsLowerHex(s[|s| - 2]) || !IsLowerHex(s[|s| - 1]) then None
    else match ParseHex(s[..|s| - 2])
      case None => None
      case Some(front) => Some(front + [16 * DigitValue(s[|s| - 2]) + DigitValue(s[|s| - 1])])
  }

  /** The text form of the MD5 digest of `data`. */
  function Md5Hex(md5: seq<byte> -> Md5Bytes, data: seq<byte>): (s: string)
    ensures |s| == HEX_DIGEST_LENGTH && IsLowerHexString(s)
  {
    HexString(md5(data))
  }

  // ---------------------------------------------------------------------
  // Properties

  /** Byte `i` of `d` is printed at characters `2i` and `2i + 1`. */
  lemma {:induction false} HexStringAt(d: seq<byte>, i: nat)
    requires i < |d|
    ensures HexString(d)[2 * i..2 * i + 2] == HexByte(d[i])
  {
    var last := |d| - 1;
    var front := HexString(d[..last]);
    assert HexString(d) == front + HexByte(d[last]);
    if i < last {
      HexStringAt(d[..last], i);
      assert HexString(d)[2 * i..2 * i + 2] == front[2 * i..2 * i + 2];
    } else {
      assert HexString(d)[2 * i..2 * i + 2] == HexByte(d[last]);
    }
  }

  /** Parsing the printed digits gives the bytes back. */
  lemma {:induction false} ParseHexString(d: seq<byte>)
    ensures ParseHex(HexString(d)) == Some(d)
  {
    if d != [] {
      var last := |d| - 1;
      var s := HexString(d);
      var h := HexByte(d[last]);
      ParseHexString(d[..last]);
      assert s[..|s| - 2] == HexString(d[..last]);
      assert s[|s| - 2] == h[0] && s[|s| - 1] == h[1];
      assert d == d[..last] + [d[last]];
    }
  }

  /** Printing one more byte appends its two digits. */
  lemma HexStringSnoc(d: seq<byte>, v: byte)
    ensures HexString(d + [v]) == HexString(d) + HexByte(v)
  {
    assert (d + [v])[..|d|] == d;
  }

  /** Two lowercase digits are the printed form of the byte they denote. */
  lemma HexByteOfDigits(a: char, b: char)
    requires IsLowerHex(a) && IsLowerHex(b)
    ensures 0 <= 16 * DigitValue(a) + DigitValue(b) < 0x100
    ensures HexByte(16 * DigitValue(a) + DigitValue(b)) == [a, b]
  {
    var v := 16 * DigitValue(a) + DigitValue(b);
    assert v / 16 == DigitValue(a) && v % 16 == DigitValue(b);
    DigitOfValue(a);
    DigitOfValue(b);
  }

  /** A parse that succeeds on a non-empty string read its last two digits after the bytes before them. */
  lemma ParseHexStep(s: string)
    requires s != [] && ParseHex(s).Some?
    ensures |s| >= 2 && IsLowerHex(s[|s| - 2]) && IsLowerHex(s[|s| - 1]) && ParseHex(s[..|s| - 2]).Some?
    ensures ParseHex(s).value == ParseHex(s[..|s| - 2]).value + [16 * DigitValue(s[|s| - 2]) + DigitValue(s[|s| - 1])]
  {
  }

  /** Only the printed form of some bytes parses, and it parses to those bytes. */
  lemma {:induction false} HexStringOfParse(s: string, d: seq<byte>)
    requires ParseHex(s) == Some(d)
    ensures HexString(d) == s
  {
    if s != [] {
      ParseHexStep(s);
      var t, a, b := s[..|s| - 2], s[|s| - 2], s[|s| - 1];
      var front := ParseHex(t).value;
      HexStringOfParse(t, front);
      HexByteOfDigits(a, b);
      PrintedPair(s, front, 16 * DigitValue(a) + DigitValue(b));
    }
  }

  /** Bytes printed as all of `s` but its last two digits, then a byte printed as those two, print as `s`. */
  lemma PrintedPair(s: string, front: seq<byte>, v: byte)
    requires |s| >= 2 && HexString(front) == s[..|s| - 2] && HexByte(v) == [s[|s| - 2], s[|s| - 1]]
    ensures HexString(front + [v]) == s
  {
    HexStringSnoc(front, v);
    assert s == s[..|s| - 2] + [s[|s| - 2], s[|s| - 1]];
  }

  /** Different digests have different text forms. */
  lemma HexStringInjective(a: seq<byte>, b: seq<byte>)
    requires HexString(a) == HexString(b)
    ensures a == b
  {
    ParseHexString(a);
    ParseHexString(b);
  }

  // ---------------------------------------------------------------------
  // The formatting loop

  /** `compute_md5_digest`: the digest of `buf` as 32 lowercase hexadecimal digits. */
  method ComputeMd5Digest(md5: seq<byte> -> Md5Bytes, buf: seq<byte>) returns (result: string)
    ensures result == Md5Hex(md5, buf)
    ensures |result| == HEX_DIGEST_LENGTH && IsLowerHexString(result)
  {
    var digest := md5(buf);
    result := "";
    var i := 0;
    while i < |digest|
      invariant 0 <= i <= |digest|
      invariant result == HexString(digest[..i])
    {
      var pair := HexByte(digest[i]);
      assert digest[..i + 1][..i] == digest[..i];
      result := result + pair;
      i := i + 1;
    }
    assert digest[..i] == digest;
  }
}
