/**
 * The Tiny Encryption Algorithm (Wheeler and Needham, 1994) on one 8-byte
 * chunk: `tea::encrypt_chunk` and `tea::decrypt_chunk`, and the `h1_tea`
 * scheme (fixed key, little-endian words).
 *
 * `uint32_t` arithmetic wraps modulo 2^32; the model writes each wrap out:
 * `Add32`/`Sub32` for `+=`/`-=`, `(v * 16) % 2^32` for `v << 4u`, `v / 32`
 * for `v >> 5u`, and `Xor32` for `^`.
 */
module Tea {
  import opened ByteIo

  /** `tea::chunk_size`: two 32-bit words. */
  const CHUNK_SIZE: nat := 8

  /** Number of Feistel rounds. */
  const ROUNDS: nat := 32

  /** The golden-ratio constant added to `sum` every round. */
  const DELTA: u32 := 0x9E3779B9

  /** The value `decrypt_chunk` starts `sum` from. */
  const DECRYPT_START: u32 := 0xC6EF3720

  /** A `tea` scheme: the four key words (the endianness is fixed to little). */
  datatype Scheme = Scheme(k0: u32, k1: u32, k2: u32, k3: u32)

  /** `h1_tea`, the scheme of the game's shader archives. */
  const H1_TEA: Scheme := Scheme(0x3FFFFFDD, 0x7FC3, 0xE5, 0x3FFFEF)

  // ---------------------------------------------------------------------
  // 32-bit word arithmetic

  /** `a + b` on `uint32_t`. */
  function Add32(a: u32, b: u32): (r: u32) {
    if a + b < 0x1_0000_0000 then a + b else a + b - 0x1_0000_0000
  }

  /** `a - b` on `uint32_t`. */
  function Sub32(a: u32, b: u32): (r: u32) {
    if a >= b then a - b else a - b + 0x1_0000_0000
  }

  /** `Add32` and `Sub32` are addition and subtraction modulo 2^32. */
  lemma WrapIsModular(a: u32, b: u32)
    ensures Add32(a, b) == (a + b) % U32_LIMIT
    ensures Sub32(a, b) == (a - b) % U32_LIMIT
  {
  }

  function Pow2(n: nat): (p: nat)
    ensures p >= 1
  {
    if n == 0 then 1 else 2 * Pow2(n - 1)
  }

  lemma {:induction false} Pow2Add(a: nat, b: nat)
    ensures Pow2(a + b) == Pow2(a) * Pow2(b)
  {
    if b > 0 {
      Pow2Add(a, b - 1);
      assert Pow2(a + b) == 2 * Pow2(a + b - 1);
    }
  }

  /** A word has 32 bits. */
  lemma WordBits()
    ensures Pow2(32) == U32_LIMIT
  {
    assert Pow2(1) == 2;
    assert Pow2(2) == 4 by { Pow2Add(1, 1); }
    assert Pow2(4) == 16 by { Pow2Add(2, 2); }
    assert Pow2(8) == 0x100 by { Pow2Add(4, 4); }
    assert Pow2(16) == 0x1_0000 by { Pow2Add(8, 8); }
    Pow2Add(16, 16);
  }

  /** Bitwise exclusive or of the low `n` bits of `a` and `b`, least significant bit first. */
  function XorBits(a: nat, b: nat, n: nat): (r: nat)
    requires a < Pow2(n) && b < Pow2(n)
    ensures r < Pow2(n)
  {
    if n == 0 then 0 else 2 * XorBits(a / 2, b / 2, n - 1) + (if a % 2 == b % 2 then 0 else 1)
  }

  /** Exclusive or is its own inverse. */
  lemma {:induction false} XorBitsCancel(a: nat, b: nat, n: nat)
    requires a < Pow2(n) && b < Pow2(n)
    ensures XorBits(XorBits(a, b, n), b, n) == a
  {
    if n > 0 {
      var r := XorBits(a, b, n);
      var high := XorBits(a / 2, b / 2, n - 1);
      var low := if a % 2 == b % 2 then 0 else 1;
      assert r == 2 * high + low;
      assert r / 2 == high && r % 2 == low;
      XorBitsCancel(a / 2, b / 2, n - 1);
      assert a == 2 * (a / 2) + a % 2;
    }
  }

  /** Exclusive or with zero keeps a word, with itself clears it, and does not depend on the order of its operands. */
  lemma {:induction false} XorBitsIdentities(a: nat, b: nat, n: nat)
    requires a < Pow2(n) && b < Pow2(n)
    ensures XorBits(a, 0, n) == a && XorBits(a, a, n) == 0
    ensures XorBits(a, b, n) == XorBits(b, a, n)
  {
    if n > 0 {
      XorBitsIdentities(a / 2, b / 2, n - 1);
      assert a == 2 * (a / 2) + a % 2;
    }
  }

  /** `a ^ b` on `uint32_t`. */
  function Xor32(a: u32, b: u32): u32 {
    WordBits();
    XorBits(a, b, 32)
  }

  /** `v << 4u` on `uint32_t`: the high bits fall off. */
  function ShiftLeft4(v: u32): u32 {
    (v * 16) % 0x1_0000_0000
  }

  /** `v >> 5u` on `uint32_t`. */
  function ShiftRight5(v: u32): u32 {
    v / 32
  }

  /** The round function `((v << 4u) + ka) ^ (v + sum) ^ ((v >> 5u) + kb)`. */
  function Mix(v: u32, sum: u32, ka: u32, kb: u32): (r: u32) {
    Xor32(Xor32(Add32(ShiftLeft4(v), ka), Add32(v, sum)), Add32(ShiftRight5(v), kb))
  }

  // ---------------------------------------------------------------------
  // Rounds

  /** The two words `v0`, `v1` of a chunk. */
  datatype Words = Words(v0: u32, v1: u32)

  /** `sum` after `i` encryption rounds: `DELTA` added `i` times, wrapping around. */
  function Sum(i: nat): (r: u32) {
    if i == 0 then 0 else Add32(Sum(i - 1), DELTA)
  }

  lemma {:induction false} SumAdd(a: nat, b: nat)
    ensures Sum(a + b) == Add32(Sum(a), Sum(b))
  {
    if b > 0 {
      SumAdd(a, b - 1);
      assert a + b - 1 == a + (b - 1);
    }
  }

  /** Decryption starts from the `sum` that 32 encryption rounds reach. */
  lemma DecryptStartIsFinalSum()
    ensures Sum(ROUNDS) == DECRYPT_START
  {
    assert Sum(1) == DELTA;
    assert Sum(2) == 0x3C6EF372 by { SumAdd(1, 1); }
    assert Sum(4) == 0x78DDE6E4 by { SumAdd(2, 2); }
    assert Sum(8) == 0xF1BBCDC8 by { SumAdd(4, 4); }
    assert Sum(16) == 0xE3779B90 by { SumAdd(8, 8); }
    SumAdd(16, 16);
  }

  /** The sums of rounds `1 .. n`, in the order encryption uses them. */
  function Schedule(n: nat): (ss: seq<u32>)
    ensures |ss| == n
    ensures forall i :: 0 <= i < n ==> ss[i] == Sum(i + 1)
  {
    if n == 0 then [] else Schedule(n - 1) + [Sum(n)]
  }

  function Reverse(ss: seq<u32>): (r: seq<u32>)
    ensures |r| == |ss|
    ensures forall i :: 0 <= i < |ss| ==> r[i] == ss[|ss| - 1 - i]
  {
    if ss == [] then [] else [ss[|ss| - 1]] + Reverse(ss[..|ss| - 1])
  }

  /** Lowering `sum` by `DELTA` steps back one round. */
  lemma SumBack(k: nat)
    requires k > 0
    ensures Sub32(Sum(k), DELTA) == Sum(k - 1)
  {
  }

  /** One decryption round: `v1` first, then `v0` (`sum` is lowered afterwards). */
  function DecryptRound(key: Scheme, w: Words, sum: u32): (r: Words)
    ensures Add32(r.v1, Mix(w.v0, sum, key.k2, key.k3)) == w.v1
    ensures Add32(r.v0, Mix(r.v1, sum, key.k0, key.k1)) == w.v0
  {
    var v1 := Sub32(w.v1, Mix(w.v0, sum, key.k2, key.k3));
    var v0 := Sub32(w.v0, Mix(v1, sum, key.k0, key.k1));
    Words(v0, v1)
  }

  /** One encryption round with the already advanced `sum`: `v0` first, then `v1`. */
  function EncryptRound(key: Scheme, w: Words, sum: u32): (r: Words)
    ensures DecryptRound(key, r, sum) == w
  {
    var m0 := Mix(w.v1, sum, key.k0, key.k1);
    var v0 := Add32(w.v0, m0);
    var m1 := Mix(v0, sum, key.k2, key.k3);
    var v1 := Add32(w.v1, m1);
    assert Sub32(v1, m1) == w.v1 && Sub32(v0, m0) == w.v0;
    Words(v0, v1)
  }

  /** A decryption round undoes the encryption round with the same `sum`, and conversely. */
  lemma RoundInverse(key: Scheme, w: Words, sum: u32)
    ensures DecryptRound(key, EncryptRound(key, w, sum), sum) == w
    ensures EncryptRound(key, DecryptRound(key, w, sum), sum) == w
  {
    EncryptRoundUndoes(key, w, sum);
  }

  lemma EncryptRoundUndoes(key: Scheme, w: Words, sum: u32)
    ensures EncryptRound(key, DecryptRound(key, w, sum), sum) == w
  {
    var m1 := Mix(w.v0, sum, key.k2, key.k3);
    var v1 := Sub32(w.v1, m1);
    var m0 := Mix(v1, sum, key.k0, key.k1);
    var v0 := Sub32(w.v0, m0);
    assert DecryptRound(key, w, sum) == Words(v0, v1);
    assert Add32(v0, m0) == w.v0;
    assert Add32(v1, m1) == w.v1;
  }

  /** Encryption rounds using the sums `ss`, first to last. */
  function EncryptWith(key: Scheme, w: Words, ss: seq<u32>): Words {
    if ss == [] then w else EncryptRound(key, EncryptWith(key, w, ss[..|ss| - 1]), ss[|ss| - 1])
  }

  /** Decryption rounds using the sums `ss`, first to last. */
  function DecryptWith(key: Scheme, w: Words, ss: seq<u32>): Words
    decreases |ss|
  {
    if ss == [] then w else DecryptWith(key, DecryptRound(key, w, ss[0]), ss[1..])
  }

  /** Decrypting with the sums in reverse order undoes encrypting, whatever the sums. */
  lemma RoundsInverse(key: Scheme, w: Words, ss: seq<u32>)
    ensures DecryptWith(key, EncryptWith(key, w, ss), Reverse(ss)) == w
    ensures EncryptWith(key, DecryptWith(key, w, Reverse(ss)), ss) == w
  {
    DecryptUndoesEncrypt(key, w, ss);
    EncryptUndoesDecrypt(key, w, ss);
  }

  lemma DecryptWithStep(key: Scheme, e: Words, s: u32, rest: seq<u32>)
    ensures DecryptWith(key, EncryptRound(key, e, s), [s] + rest) == DecryptWith(key, e, rest)
  {
    RoundInverse(key, e, s);
    assert ([s] + rest)[1..] == rest;
  }

  lemma EncryptWithStep(key: Scheme, x: Words, w: Words, ss: seq<u32>)
    requires ss != []
    requires EncryptWith(key, x, ss[..|ss| - 1]) == DecryptRound(key, w, ss[|ss| - 1])
    ensures EncryptWith(key, x, ss) == w
  {
    RoundInverse(key, w, ss[|ss| - 1]);
  }

  /** Decrypting with the last `k` sums in reverse starts with the round for `Sum(k)`. */
  lemma DecryptScheduleStep(key: Scheme, w: Words, k: nat)
    requires k > 0
    ensures DecryptWith(key, w, Reverse(Schedule(k))) == DecryptWith(key, DecryptRound(key, w, Sum(k)), Reverse(Schedule(k - 1)))
  {
    var ss := Schedule(k);
    assert ss[..k - 1] == Schedule(k - 1);
    var r := Reverse(ss);
    assert r == [Sum(k)] + Reverse(Schedule(k - 1));
    assert r[1..] == Reverse(Schedule(k - 1));
  }

  lemma {:induction false} DecryptUndoesEncrypt(key: Scheme, w: Words, ss: seq<u32>)
    ensures DecryptWith(key, EncryptWith(key, w, ss), Reverse(ss)) == w
    decreases |ss|
  {
    if ss != [] {
      var prefix, last := ss[..|ss| - 1], ss[|ss| - 1];
      assert Reverse(ss) == [last] + Reverse(prefix);
      DecryptWithStep(key, EncryptWith(key, w, prefix), last, Reverse(prefix));
      DecryptUndoesEncrypt(key, w, prefix);
    }
  }

  lemma {:induction false} EncryptUndoesDecrypt(key: Scheme, w: Words, ss: seq<u32>)
    ensures EncryptWith(key, DecryptWith(key, w, Reverse(ss)), ss) == w
    decreases |ss|
  {
    if ss != [] {
      var prefix, last := ss[..|ss| - 1], ss[|ss| - 1];
      var undone := DecryptRound(key, w, last);
      var r := Reverse(ss);
      assert r == [last] + Reverse(prefix);
      assert r[1..] == Reverse(prefix);
      assert DecryptWith(key, w, r) == DecryptWith(key, undone, Reverse(prefix));
      EncryptUndoesDecrypt(key, undone, prefix);
      EncryptWithStep(key, DecryptWith(key, w, r), w, ss);
    }
  }

  // ---------------------------------------------------------------------
  // Chunks of 8 bytes

  /** Bytes 0-3 are `v0` and bytes 4-7 are `v1`, each little-endian. */
  function ChunkWords(b: seq<byte>): Words
    requires |b| == CHUNK_SIZE
  {
    Words(DecodeLE32(b[..4]), DecodeLE32(b[4..]))
  }

  function WordsChunk(w: Words): (b: seq<byte>)
    ensures |b| == CHUNK_SIZE
  {
    EncodeLE32(w.v0) + EncodeLE32(w.v1)
  }

  lemma WordsChunkInverse(w: Words, b: seq<byte>)
    requires |b| == CHUNK_SIZE
    ensures ChunkWords(WordsChunk(w)) == w
    ensures WordsChunk(ChunkWords(b)) == b
  {
    var c := WordsChunk(w);
    assert c[..4] == EncodeLE32(w.v0) && c[4..] == EncodeLE32(w.v1);
    DecodeEncode(w.v0);
    DecodeEncode(w.v1);
    EncodeDecode(b[..4]);
    EncodeDecode(b[4..]);
    assert b == b[..4] + b[4..];
  }

  /** What `encrypt_chunk` turns an 8-byte chunk into. */
  function EncryptedChunk(key: Scheme, b: seq<byte>): (r: seq<byte>)
    requires |b| == CHUNK_SIZE
    ensures |r| == CHUNK_SIZE
  {
    WordsChunk(EncryptWith(key, ChunkWords(b), Schedule(ROUNDS)))
  }

  /** What `decrypt_chunk` turns an 8-byte chunk into. */
  function DecryptedChunk(key: Scheme, b: seq<byte>): (r: seq<byte>)
    requires |b| == CHUNK_SIZE
    ensures |r| == CHUNK_SIZE
  {
    WordsChunk(DecryptWith(key, ChunkWords(b), Reverse(Schedule(ROUNDS))))
  }

  /** Chunk decryption exactly inverts chunk encryption, for every key, and conversely. */
  lemma ChunkInverse(key: Scheme, b: seq<byte>)
    requires |b| == CHUNK_SIZE
    ensures DecryptedChunk(key, EncryptedChunk(key, b)) == b
    ensures EncryptedChunk(key, DecryptedChunk(key, b)) == b
  {
    var w := ChunkWords(b);
    var e := EncryptWith(key, w, Schedule(ROUNDS));
    WordsChunkInverse(e, b);
    RoundsInverse(key, w, Schedule(ROUNDS));
    WordsChunkInverse(w, b);
    var d := DecryptWith(key, w, Reverse(Schedule(ROUNDS)));
    WordsChunkInverse(d, b);
  }

  /** Writes the 8 bytes `out` at `buf[at .. at + 8)`. */
  method StoreChunk(buf: array<byte>, at: nat, out: seq<byte>)
    requires |out| == CHUNK_SIZE && at + CHUNK_SIZE <= buf.Length
    modifies buf
    ensures buf[..] == old(buf[..at]) + out + old(buf[at + CHUNK_SIZE..])
  {
    forall j | 0 <= j < CHUNK_SIZE {
      buf[at + j] := out[j];
    }
  }

  /** Reads the two little-endian words of `buf[at .. at + 8)`. */
  function LoadChunk(buf: array<byte>, at: nat): (w: Words)
    requires at + CHUNK_SIZE <= buf.Length
    reads buf
    ensures w == ChunkWords(buf[at..at + CHUNK_SIZE])
  {
    assert buf[at..at + CHUNK_SIZE][..4] == buf[at..at + 4];
    assert buf[at..at + CHUNK_SIZE][4..] == buf[at + 4..at + 8];
    Words(DecodeLE32(buf[at..at + 4]), DecodeLE32(buf[at + 4..at + 8]))
  }

  /** The 32 rounds of `encrypt_chunk` on the deserialised words. */
  method EncryptWords(key: Scheme, w: Words) returns (r: Words)
    ensures r == EncryptWith(key, w, Schedule(ROUNDS))
  {
    var v0, v1 := w.v0, w.v1;
    var sum: u32 := 0;
    var i := 0;
    while i < ROUNDS
      invariant 0 <= i <= ROUNDS
      invariant sum == Sum(i)
      invariant Words(v0, v1) == EncryptWith(key, w, Schedule(i))
    {
      sum := Add32(sum, DELTA);
      v0 := Add32(v0, Mix(v1, sum, key.k0, key.k1));
      v1 := Add32(v1, Mix(v0, sum, key.k2, key.k3));
      i := i + 1;
    }
    r := Words(v0, v1);
  }

  /** The 32 rounds of `decrypt_chunk` on the deserialised words. */
  method DecryptWords(key: Scheme, w: Words) returns (r: Words)
    ensures r == DecryptWith(key, w, Reverse(Schedule(ROUNDS)))
  {
    var v0, v1 := w.v0, w.v1;
    var sum: u32 := DECRYPT_START;
    assert sum == Sum(ROUNDS) by { DecryptStartIsFinalSum(); }
    var i := 0;
    while i < ROUNDS
      invariant 0 <= i <= ROUNDS
      invariant sum == Sum(ROUNDS - i)
      invariant DecryptWith(key, Words(v0, v1), Reverse(Schedule(ROUNDS - i))) == DecryptWith(key, w, Reverse(Schedule(ROUNDS)))
    {
      DecryptScheduleStep(key, Words(v0, v1), ROUNDS - i);
      v1 := Sub32(v1, Mix(v0, sum, key.k2, key.k3));
      v0 := Sub32(v0, Mix(v1, sum, key.k0, key.k1));
      SumBack(ROUNDS - i);
      sum := Sub32(sum, DELTA);
      i := i + 1;
    }
    assert Reverse(Schedule(ROUNDS - i)) == [];
    r := Words(v0, v1);
  }

  /** `tea::encrypt_chunk`: encrypts `buf[at .. at + 8)` in place and touches nothing else. */
  method EncryptChunk(key: Scheme, buf: array<byte>, at: nat)
    requires at + CHUNK_SIZE <= buf.Length
    modifies buf
    ensures buf[..] == old(buf[..at]) + EncryptedChunk(key, old(buf[at..at + CHUNK_SIZE])) + old(buf[at + CHUNK_SIZE..])
  {
    var w := LoadChunk(buf, at);
    w := EncryptWords(key, w);
    StoreChunk(buf, at, WordsChunk(w));
  }

  /** `tea::decrypt_chunk`: decrypts `buf[at .. at + 8)` in place and touches nothing else. */
  method DecryptChunk(key: Scheme, buf: array<byte>, at: nat)
    requires at + CHUNK_SIZE <= buf.Length
    modifies buf
    ensures buf[..] == old(buf[..at]) + DecryptedChunk(key, old(buf[at..at + CHUNK_SIZE])) + old(buf[at + CHUNK_SIZE..])
  {
    var w := LoadChunk(buf, at);
    w := DecryptWords(key, w);
    StoreChunk(buf, at, WordsChunk(w));
  }
}
