/**
 * Whole-buffer encryption with a chunk scheme: the `encrypt_buffer` and
 * `decrypt_buffer` templates.
 *
 * The templates accept any in-place scheme with an 8-byte chunk; the model
 * takes the scheme as a `Cipher`, the pair of functions saying what its
 * `encrypt_chunk` and `decrypt_chunk` make of a chunk. `TeaCipher` is the
 * TEA instance, whose in-place chunk methods are proved in module `Tea` to
 * do exactly what these functions say.
 *
 * A buffer shorter than one chunk is left alone. Otherwise the whole chunks
 * are processed front to back; when the length is not a multiple of the
 * chunk size, the last 8 bytes of the buffer (the unaligned tail together
 * with the end of the last whole chunk) are encrypted once more after the
 * whole chunks, and decrypted first, before the whole chunks.
 */
module Crypt {
  import opened ByteIo
  import opened Tea

  /** What a scheme's `encrypt_chunk` and `decrypt_chunk` do to one chunk. */
  datatype Cipher = Cipher(encrypt: seq<byte> -> seq<byte>, decrypt: seq<byte> -> seq<byte>)

  /** Both directions turn a chunk into a chunk. */
  ghost predicate IsChunkCipher(c: Cipher) {
    forall b: seq<byte> :: |b| == 8 ==> |c.encrypt(b)| == 8 && |c.decrypt(b)| == 8
  }

  /** Chunk decryption undoes chunk encryption. */
  ghost predicate DecryptUndoesEncrypt(c: Cipher) {
    forall b: seq<byte> {:trigger c.decrypt(c.encrypt(b))} :: |b| == 8 ==> c.decrypt(c.encrypt(b)) == b
  }

  /** Chunk encryption undoes chunk decryption. */
  ghost predicate EncryptUndoesDecrypt(c: Cipher) {
    forall b: seq<byte> {:trigger c.encrypt(c.decrypt(b))} :: |b| == 8 ==> c.encrypt(c.decrypt(b)) == b
  }

  /** Chunk decryption and chunk encryption undo each other. */
  ghost predicate Inverts(c: Cipher) {
    DecryptUndoesEncrypt(c) && EncryptUndoesDecrypt(c)
  }

  /** The `tea` scheme with key `key`, one chunk at a time. */
  function TeaCipher(key: Scheme): (c: Cipher)
    ensures IsChunkCipher(c) && Inverts(c)
    ensures forall b: seq<byte> :: |b| == 8 ==> c.encrypt(b) == EncryptedChunk(key, b) && c.decrypt(b) == DecryptedChunk(key, b)
  {
    var c := Cipher(
      b => if |b| == 8 then EncryptedChunk(key, b) else b,
      b => if |b| == 8 then DecryptedChunk(key, b) else b);
    assert Inverts(c) by {
      forall b: seq<byte> | |b| == 8
        ensures c.decrypt(c.encrypt(b)) == b && c.encrypt(c.decrypt(b)) == b
      {
        ChunkInverse(key, b);
      }
    }
    c
  }

  // ---------------------------------------------------------------------
  // Specification

  /** Every whole chunk of `s` encrypted on its own (`|s|` a multiple of 8). */
  function EncryptedBlocks(c: Cipher, s: seq<byte>): (r: seq<byte>)
    requires IsChunkCipher(c) && |s| % 8 == 0
    ensures |r| == |s|
  {
    if s == [] then []
    else EncryptedBlocks(c, s[..|s| - 8]) + c.encrypt(s[|s| - 8..])
  }

  /** Every whole chunk of `s` decrypted on its own (`|s|` a multiple of 8). */
  function DecryptedBlocks(c: Cipher, s: seq<byte>): (r: seq<byte>)
    requires IsChunkCipher(c) && |s| % 8 == 0
    ensures |r| == |s|
  {
    if s == [] then []
    else DecryptedBlocks(c, s[..|s| - 8]) + c.decrypt(s[|s| - 8..])
  }

  /** The length of the whole chunks at the front of `n` bytes. */
  function Whole(n: nat): (w: nat)
    ensures w <= n && w % 8 == 0 && n - w < 8
  {
    n - n % 8
  }

  /** The loop of `encrypt_buffer`: the whole chunks of `s` encrypted, the unaligned rest untouched. */
  function EncryptHead(c: Cipher, s: seq<byte>): (r: seq<byte>)
    requires IsChunkCipher(c)
    ensures |r| == |s|
  {
    var whole := Whole(|s|);
    EncryptedBlocks(c, s[..whole]) + s[whole..]
  }

  /** The loop of `decrypt_buffer`: the whole chunks of `s` decrypted, the unaligned rest untouched. */
  function DecryptHead(c: Cipher, s: seq<byte>): (r: seq<byte>)
    requires IsChunkCipher(c)
    ensures |r| == |s|
  {
    var whole := Whole(|s|);
    DecryptedBlocks(c, s[..whole]) + s[whole..]
  }

  /** The last 8 bytes of `t` encrypted (once more). */
  function EncryptTail(c: Cipher, t: seq<byte>): (r: seq<byte>)
    requires IsChunkCipher(c) && |t| >= 8
    ensures |r| == |t|
  {
    t[..|t| - 8] + c.encrypt(t[|t| - 8..])
  }

  /** The last 8 bytes of `t` decrypted. */
  function DecryptTail(c: Cipher, t: seq<byte>): (r: seq<byte>)
    requires IsChunkCipher(c) && |t| >= 8
    ensures |r| == |t|
  {
    t[..|t| - 8] + c.decrypt(t[|t| - 8..])
  }

  /** What `encrypt_buffer` makes of the bytes `s`: the whole chunks, then the last 8 bytes if unaligned. */
  function EncryptedBuffer(c: Cipher, s: seq<byte>): (r: seq<byte>)
    requires IsChunkCipher(c)
    ensures |r| == |s|
  {
    if |s| < 8 then s
    else if |s| % 8 == 0 then EncryptHead(c, s)
    else EncryptTail(c, EncryptHead(c, s))
  }

  /** What `decrypt_buffer` makes of the bytes `s`: the last 8 bytes if unaligned, then the whole chunks. */
  function DecryptedBuffer(c: Cipher, s: seq<byte>): (r: seq<byte>)
    requires IsChunkCipher(c)
    ensures |r| == |s|
  {
    if |s| < 8 then s
    else if |s| % 8 == 0 then DecryptHead(c, s)
    else DecryptHead(c, DecryptTail(c, s))
  }

  // ---------------------------------------------------------------------
  // Properties

  /** Chunk `i` of the encrypted blocks is chunk `i` of the input, encrypted. */
  lemma {:induction false} EncryptedBlocksAt(c: Cipher, s: seq<byte>, i: nat)
    requires IsChunkCipher(c) && |s| % 8 == 0 && (i + 1) * 8 <= |s|
    ensures EncryptedBlocks(c, s)[i * 8..(i + 1) * 8] == c.encrypt(s[i * 8..(i + 1) * 8])
    decreases |s|
  {
    var last := |s| - 8;
    var front := s[..last];
    var e := EncryptedBlocks(c, s);
    assert e[..last] == EncryptedBlocks(c, front) && e[last..] == c.encrypt(s[last..]);
    if (i + 1) * 8 <= last {
      EncryptedBlocksAt(c, front, i);
      assert front[i * 8..(i + 1) * 8] == s[i * 8..(i + 1) * 8];
      assert e[i * 8..(i + 1) * 8] == e[..last][i * 8..(i + 1) * 8];
    } else {
      assert i * 8 == last && (i + 1) * 8 == |s|;
      assert s[i * 8..(i + 1) * 8] == s[last..];
      assert e[i * 8..(i + 1) * 8] == e[last..];
    }
  }

  /** Slicing a concatenation at the seam gives its parts back. */
  lemma SplitConcat(a: seq<byte>, b: seq<byte>)
    ensures (a + b)[..|a|] == a && (a + b)[|a|..] == b
  {
  }

  /** Decrypting the encrypted blocks gives the blocks back. */
  lemma {:induction false} DecryptedBlocksUndo(c: Cipher, s: seq<byte>)
    requires IsChunkCipher(c) && Inverts(c) && |s| % 8 == 0
    ensures DecryptedBlocks(c, EncryptedBlocks(c, s)) == s
    decreases |s|
  {
    if s != [] {
      var last := |s| - 8;
      var p, chunk := s[..last], s[last..];
      DecryptedBlocksUndo(c, p);
      SplitConcat(EncryptedBlocks(c, p), c.encrypt(chunk));
      assert p + chunk == s;
    }
  }

  /** Encrypting the decrypted blocks gives the blocks back. */
  lemma {:induction false} EncryptedBlocksUndo(c: Cipher, s: seq<byte>)
    requires IsChunkCipher(c) && Inverts(c) && |s| % 8 == 0
    ensures EncryptedBlocks(c, DecryptedBlocks(c, s)) == s
    decreases |s|
  {
    if s != [] {
      var last := |s| - 8;
      var p, chunk := s[..last], s[last..];
      EncryptedBlocksUndo(c, p);
      SplitConcat(DecryptedBlocks(c, p), c.decrypt(chunk));
      assert p + chunk == s;
    }
  }

  /** The whole-chunk loop of decryption undoes that of encryption. */
  lemma DecryptHeadUndoes(c: Cipher, s: seq<byte>)
    requires IsChunkCipher(c) && Inverts(c)
    ensures DecryptHead(c, EncryptHead(c, s)) == s
  {
    var whole := Whole(|s|);
    var p, q := s[..whole], s[whole..];
    var ep := EncryptedBlocks(c, p);
    SplitConcat(ep, q);
    DecryptedBlocksUndo(c, p);
    assert p + q == s;
  }

  /** The whole-chunk loop of encryption undoes that of decryption. */
  lemma EncryptHeadUndoes(c: Cipher, s: seq<byte>)
    requires IsChunkCipher(c) && Inverts(c)
    ensures EncryptHead(c, DecryptHead(c, s)) == s
  {
    var whole := Whole(|s|);
    var p, q := s[..whole], s[whole..];
    var dp := DecryptedBlocks(c, p);
    SplitConcat(dp, q);
    EncryptedBlocksUndo(c, p);
    assert p + q == s;
  }

  /** Re-processing the last 8 bytes: decryption undoes encryption, and conversely. */
  lemma TailInverse(c: Cipher, t: seq<byte>)
    requires IsChunkCipher(c) && Inverts(c) && |t| >= 8
    ensures DecryptTail(c, EncryptTail(c, t)) == t
    ensures EncryptTail(c, DecryptTail(c, t)) == t
  {
    var k := |t| - 8;
    var e := EncryptTail(c, t);
    var d := DecryptTail(c, t);
    assert e[..k] == t[..k] && e[k..] == c.encrypt(t[k..]);
    assert d[..k] == t[..k] && d[k..] == c.decrypt(t[k..]);
    assert t == t[..k] + t[k..];
  }

  /** `decrypt_buffer` restores what `encrypt_buffer` produced, for every length. */
  lemma BufferRoundTrip(c: Cipher, s: seq<byte>)
    requires IsChunkCipher(c) && Inverts(c)
    ensures DecryptedBuffer(c, EncryptedBuffer(c, s)) == s
    ensures EncryptedBuffer(c, DecryptedBuffer(c, s)) == s
  {
    if |s| >= 8 {
      if |s| % 8 == 0 {
        DecryptHeadUndoes(c, s);
        EncryptHeadUndoes(c, s);
      } else {
        DecryptHeadUndoes(c, s);
        TailInverse(c, EncryptHead(c, s));
        TailInverse(c, s);
        EncryptHeadUndoes(c, DecryptTail(c, s));
      }
    }
  }

  /** The shader archives' scheme: a TEA-encrypted buffer always decrypts back. */
  lemma TeaBufferRoundTrip(s: seq<byte>)
    ensures DecryptedBuffer(TeaCipher(H1_TEA), EncryptedBuffer(TeaCipher(H1_TEA), s)) == s
    ensures EncryptedBuffer(TeaCipher(H1_TEA), DecryptedBuffer(TeaCipher(H1_TEA), s)) == s
  {
    BufferRoundTrip(TeaCipher(H1_TEA), s);
  }

  // ---------------------------------------------------------------------
  // In-place operations

  /** The chunk after a whole chunk before `end` is still whole and within `end`. */
  lemma NextChunk(chunk: nat, end: nat)
    requires chunk % 8 == 0 && end % 8 == 0 && chunk < end
    ensures chunk + 8 <= end && (chunk + 8) % 8 == 0
  {
  }

  /** Encrypting the chunk at `chunk` in a buffer whose chunks before it are done leaves one more done. */
  lemma EncryptStep(c: Cipher, s: seq<byte>, chunk: nat, before: seq<byte>, after: seq<byte>)
    requires IsChunkCipher(c) && chunk % 8 == 0 && chunk + 8 <= |s|
    requires before == EncryptedBlocks(c, s[..chunk]) + s[chunk..]
    requires after == before[..chunk] + c.encrypt(before[chunk..chunk + 8]) + before[chunk + 8..]
    ensures after == EncryptedBlocks(c, s[..chunk + 8]) + s[chunk + 8..]
  {
    var done := EncryptedBlocks(c, s[..chunk]);
    SplitConcat(done, s[chunk..]);
    var p := s[..chunk + 8];
    assert p[..chunk] == s[..chunk] && p[chunk..] == s[chunk..chunk + 8];
    assert before[chunk..chunk + 8] == s[chunk..chunk + 8];
    assert before[chunk + 8..] == s[chunk + 8..];
  }

  /** Decrypting the chunk at `chunk` in a buffer whose chunks before it are done leaves one more done. */
  lemma DecryptStep(c: Cipher, s: seq<byte>, chunk: nat, before: seq<byte>, after: seq<byte>)
    requires IsChunkCipher(c) && chunk % 8 == 0 && chunk + 8 <= |s|
    requires before == DecryptedBlocks(c, s[..chunk]) + s[chunk..]
    requires after == before[..chunk] + c.decrypt(before[chunk..chunk + 8]) + before[chunk + 8..]
    ensures after == DecryptedBlocks(c, s[..chunk + 8]) + s[chunk + 8..]
  {
    var done := DecryptedBlocks(c, s[..chunk]);
    SplitConcat(done, s[chunk..]);
    var p := s[..chunk + 8];
    assert p[..chunk] == s[..chunk] && p[chunk..] == s[chunk..chunk + 8];
    assert before[chunk..chunk + 8] == s[chunk..chunk + 8];
    assert before[chunk + 8..] == s[chunk + 8..];
  }

  /** `scheme.encrypt_chunk(buf + at)`. */
  method EncryptChunkAt(c: Cipher, buf: array<byte>, at: nat)
    requires IsChunkCipher(c) && at + 8 <= buf.Length
    modifies buf
    ensures buf[..] == old(buf[..])[..at] + c.encrypt(old(buf[..])[at..at + 8]) + old(buf[..])[at + 8..]
  {
    ghost var b := buf[..];
    assert b[..at] == buf[..at] && b[at..at + 8] == buf[at..at + 8] && b[at + 8..] == buf[at + 8..];
    StoreChunk(buf, at, c.encrypt(buf[at..at + 8]));
  }

  /** `scheme.decrypt_chunk(buf + at)`. */
  method DecryptChunkAt(c: Cipher, buf: array<byte>, at: nat)
    requires IsChunkCipher(c) && at + 8 <= buf.Length
    modifies buf
    ensures buf[..] == old(buf[..])[..at] + c.decrypt(old(buf[..])[at..at + 8]) + old(buf[..])[at + 8..]
  {
    ghost var b := buf[..];
    assert b[..at] == buf[..at] && b[at..at + 8] == buf[at..at + 8] && b[at + 8..] == buf[at + 8..];
    StoreChunk(buf, at, c.decrypt(buf[at..at + 8]));
  }

  /** The chunk loop of `encrypt_buffer`: every whole chunk of `buf` encrypted in place. */
  method EncryptHeadInPlace(c: Cipher, buf: array<byte>)
    requires IsChunkCipher(c)
    modifies buf
    ensures buf[..] == EncryptHead(c, old(buf[..]))
  {
    ghost var s := buf[..];
    var end := Whole(buf.Length);
    var chunk := 0;
    while chunk != end
      invariant chunk <= end && chunk % 8 == 0 && end % 8 == 0 && end <= |s|
      invariant buf[..] == EncryptedBlocks(c, s[..chunk]) + s[chunk..]
      decreases end - chunk
    {
      NextChunk(chunk, end);
      ghost var before := buf[..];
      EncryptChunkAt(c, buf, chunk);
      EncryptStep(c, s, chunk, before, buf[..]);
      chunk := chunk + 8;
    }
  }

  /** The chunk loop of `decrypt_buffer`: every whole chunk of `buf` decrypted in place. */
  method DecryptHeadInPlace(c: Cipher, buf: array<byte>)
    requires IsChunkCipher(c)
    modifies buf
    ensures buf[..] == DecryptHead(c, old(buf[..]))
  {
    ghost var t := buf[..];
    var end := Whole(buf.Length);
    var chunk := 0;
    while chunk != end
      invariant chunk <= end && chunk % 8 == 0 && end % 8 == 0 && end <= |t|
      invariant buf[..] == DecryptedBlocks(c, t[..chunk]) + t[chunk..]
      decreases end - chunk
    {
      NextChunk(chunk, end);
      ghost var before := buf[..];
      DecryptChunkAt(c, buf, chunk);
      DecryptStep(c, t, chunk, before, buf[..]);
      chunk := chunk + 8;
    }
  }

  /** The tail step of `encrypt_buffer`: the last 8 bytes of `buf` encrypted in place. */
  method EncryptTailInPlace(c: Cipher, buf: array<byte>)
    requires IsChunkCipher(c) && buf.Length >= 8
    modifies buf
    ensures buf[..] == EncryptTail(c, old(buf[..]))
  {
    ghost var h := buf[..];
    var at := buf.Length - 8;
    EncryptChunkAt(c, buf, at);
    assert h[at..at + 8] == h[at..] && h[at + 8..] == [];
  }

  /** The tail step of `decrypt_buffer`: the last 8 bytes of `buf` decrypted in place. */
  method DecryptTailInPlace(c: Cipher, buf: array<byte>)
    requires IsChunkCipher(c) && buf.Length >= 8
    modifies buf
    ensures buf[..] == DecryptTail(c, old(buf[..]))
  {
    ghost var h := buf[..];
    var at := buf.Length - 8;
    DecryptChunkAt(c, buf, at);
    assert h[at..at + 8] == h[at..] && h[at + 8..] == [];
  }

  /** `encrypt_buffer`: encrypts `buf` in place, whole chunks first, then an unaligned tail. */
  method EncryptBuffer(c: Cipher, buf: array<byte>)
    requires IsChunkCipher(c)
    modifies buf
    ensures buf[..] == EncryptedBuffer(c, old(buf[..]))
  {
    var len := buf.Length;
    if len < 8 {
      return;
    }
    EncryptHeadInPlace(c, buf);
    if len % 8 != 0 {
      EncryptTailInPlace(c, buf);
    }
  }

  /** `decrypt_buffer`: decrypts `buf` in place, an unaligned tail first, then whole chunks. */
  method DecryptBuffer(c: Cipher, buf: array<byte>)
    requires IsChunkCipher(c)
    modifies buf
    ensures buf[..] == DecryptedBuffer(c, old(buf[..]))
  {
    var len := buf.Length;
    if len < 8 || len <= 0 {
      return;
    }
    if len % 8 != 0 {
      DecryptTailInPlace(c, buf);
    }
    DecryptHeadInPlace(c, buf);
  }
}
