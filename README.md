# h1-shader-packager, modelled in Dafny

A model of the codec at the heart of h1-shader-packager, the tool that packs
and unpacks the shader archives of Halo 1 (Retail and Custom Edition).

An archive file, decrypted, is a run of members followed by a 33-byte trailer.
Each member is a little-endian `uint32` size followed by that many bytes of
data. The trailer is the MD5 digest of the member region as 32 lowercase
hexadecimal digits, then a NUL. The whole file is encrypted with the Tiny
Encryption Algorithm (TEA) under the fixed key of `h1_tea`. When the length is
not a multiple of 8, the last 8 bytes are encrypted a second time after the
whole chunks, and decrypted first on the way back.

The model has one Dafny module per concern:

- `ByteIo` (byte_io.dfy): bytes, 32-bit words, the little-endian
  `serialize`/`deserialize` pair and an in-place `std::copy`.
- `Tea` (tea.dfy): `tea::encrypt_chunk` and `tea::decrypt_chunk`.
  - These are in-place methods over an `array`, with the 32-round loops proved
    against round functions.
  - `uint32_t` wrap-around, shifts and xor are written out over integers.
- `Crypt` (crypt.dfy): `encrypt_buffer` and `decrypt_buffer` over any chunk
  cipher (the C++ templates), as in-place methods.
  - They are specified by functions on sequences and proved to round-trip for
    every length.
  - The cipher is a pair of chunk functions. `TeaCipher` is the TEA instance,
    proved invertible.
- `Digest` (digest.dfy): the hex-formatting loop of `compute_md5_digest` and the
  injectivity of its output.
- `Chunks` (chunks.dfy): the member format, the enumerator's queries as
  functions of the range still to enumerate, and packing.
  - Packing and enumerating are proved inverse to each other.
- `Enumerator` (enumerator.dfy): the `archive_enumerator` class with its one
  field `range`.
- `ShaderArchive` (archive.dfy): the `archive` class (`filebuf`, `data`), its
  operations and the two `for_each` templates.
  - It also states what a valid archive is, and proves that a written file
    reads back to the same members.
  - It proves that every file `read_from_file` accepts is such a written file.

The archive's cipher is the field `cipher`, which the constructor sets to
`TeaCipher(H1_TEA)`. The archive's specification functions take any cipher
whose chunk operations are inverse to each other, so the proofs about them do
not unfold TEA. The MD5 implementation is a function from bytes to 16 bytes
that the archive is constructed with.

## Model

| member | source | states |
|---|---|---|
| ByteIo.DecodeEncode | src/archive.cpp:157-159 | a `uint32` serialized little-endian and deserialized again is the same word |
| ByteIo.EncodeDecode | src/archive.cpp:223-226 | four bytes deserialized and serialized again are the same bytes |
| ByteIo.AsBytes | src/archive.cpp:168-170 | reinterpreting single-byte characters as bytes is undone by reinterpreting them as characters, and keeps the length |
| ByteIo.CopyInto | src/archive.cpp:161-164 | copying bytes at an offset writes exactly them there and leaves every other byte of the buffer as it was |
| Tea.WrapIsModular | src/crypt.cpp:43-45 | the wrapped `+=` and `-=` on `uint32_t` are addition and subtraction modulo 2^32 |
| Tea.XorBitsCancel | src/crypt.cpp:44-45 | exclusive or with the same word twice gives the word back |
| Tea.XorBitsIdentities | src/crypt.cpp:44-45 | exclusive or with zero keeps a word, with itself gives zero, and is commutative |
| Tea.DecryptStartIsFinalSum | src/crypt.cpp:40-68 | `decrypt_chunk` starts `sum` at 0xC6EF3720, which is the `sum` that 32 encryption rounds reach (32 times delta, modulo 2^32) |
| Tea.SumBack | src/crypt.cpp:73 | `sum -= delta` turns the sum of round k into that of round k-1 |
| Tea.DecryptRound | src/crypt.cpp:71-72 | adding back the mixes that a decryption round subtracts, `v1` with the mix of the input `v0` and `v0` with the mix of the new `v1`, restores the round's input |
| Tea.EncryptRound | src/crypt.cpp:43-45 | the decryption round with the same sum undoes the encryption round |
| Tea.RoundInverse | src/crypt.cpp:41-74 | a decryption round (`v1` first, then `v0`) undoes the encryption round with the same sum, and conversely |
| Tea.RoundsInverse | src/crypt.cpp:41-74 | decrypting with the round sums in reverse order undoes encrypting with them, and conversely, for any key |
| Tea.DecryptUndoesEncrypt | src/crypt.cpp:41-74 | the decryption rounds in reverse order undo the encryption rounds, by induction on the rounds |
| Tea.EncryptUndoesDecrypt | src/crypt.cpp:41-74 | the encryption rounds undo the decryption rounds in reverse order, by induction on the rounds |
| Tea.WordsChunkInverse | src/crypt.cpp:30-31 | `v0` is read from bytes 0-3 and `v1` from bytes 4-7 and written back to the same positions: splitting a chunk into words and joining them back are inverse |
| Tea.ChunkInverse | src/crypt.cpp:26-78 | `decrypt_chunk` exactly inverts `encrypt_chunk` on every 8-byte chunk, for every key, and conversely |
| Tea.EncryptedChunk | src/crypt.cpp:26-50 | `encrypt_chunk` turns 8 bytes into 8 bytes |
| Tea.DecryptedChunk | src/crypt.cpp:54-78 | `decrypt_chunk` turns 8 bytes into 8 bytes |
| Tea.LoadChunk | src/crypt.cpp:30-31 | the two words read at an offset are the little-endian words of the 8 bytes there |
| Tea.StoreChunk | src/crypt.cpp:48-49 | writing the two words back changes the 8 bytes at the offset and nothing else |
| Tea.EncryptWords | src/crypt.cpp:40-46 | the 32-iteration loop computes the encryption rounds with the sums delta, 2 delta, ..., 32 delta |
| Tea.DecryptWords | src/crypt.cpp:68-74 | the 32-iteration loop computes the decryption rounds with the sums in reverse order |
| Tea.EncryptChunk | src/crypt.cpp:26-50 | `encrypt_chunk` replaces the 8 bytes at the chunk by their encryption and leaves the rest of the buffer alone |
| Tea.DecryptChunk | src/crypt.cpp:54-78 | `decrypt_chunk` replaces the 8 bytes at the chunk by their decryption and leaves the rest of the buffer alone |
| Crypt.TeaCipher | include/h1sp/crypt.hpp:44-54 | the `tea` scheme turns chunks into chunks and its two chunk operations undo each other |
| Crypt.Whole | include/h1sp/crypt.hpp:87 | the loop's end lies `len % 8` before the end of the buffer: a multiple of 8 within 8 bytes of the length |
| Crypt.EncryptedBuffer | include/h1sp/crypt.hpp:76-98 | `encrypt_buffer` keeps the length of the buffer |
| Crypt.DecryptedBuffer | include/h1sp/crypt.hpp:109-132 | `decrypt_buffer` keeps the length of the buffer |
| Crypt.EncryptedBlocksAt | include/h1sp/crypt.hpp:87-92 | output chunk i of the whole-chunk loop is the encryption of input chunk i alone |
| Crypt.DecryptedBlocksUndo | include/h1sp/crypt.hpp:126-131 | decrypting the whole chunks one by one undoes encrypting them one by one |
| Crypt.EncryptedBlocksUndo | include/h1sp/crypt.hpp:87-92 | encrypting the whole chunks one by one undoes decrypting them one by one |
| Crypt.DecryptHeadUndoes | include/h1sp/crypt.hpp:125-131 | the whole-chunk loop of `decrypt_buffer` undoes that of `encrypt_buffer` and keeps the unaligned rest |
| Crypt.EncryptHeadUndoes | include/h1sp/crypt.hpp:87-92 | the whole-chunk loop of `encrypt_buffer` undoes that of `decrypt_buffer` and keeps the unaligned rest |
| Crypt.TailInverse | include/h1sp/crypt.hpp:120-123 | decrypting the last 8 bytes undoes encrypting them once more, and conversely |
| Crypt.BufferRoundTrip | include/h1sp/crypt.hpp:76-132 | for every length, `decrypt_buffer` restores what `encrypt_buffer` produced and conversely, for any cipher whose chunk operations undo each other |
| Crypt.TeaBufferRoundTrip | include/h1sp/crypt.hpp:62-65 | with `h1_tea`, every buffer decrypts back to what was encrypted, and conversely |
| Crypt.EncryptChunkAt | include/h1sp/crypt.hpp:91 | one `encrypt_chunk` call replaces the 8 bytes at the offset by their encryption and nothing else |
| Crypt.DecryptChunkAt | include/h1sp/crypt.hpp:130 | one `decrypt_chunk` call replaces the 8 bytes at the offset by their decryption and nothing else |
| Crypt.EncryptHeadInPlace | include/h1sp/crypt.hpp:87-92 | the pointer loop encrypts every whole chunk, front to back, and leaves the unaligned rest alone |
| Crypt.DecryptHeadInPlace | include/h1sp/crypt.hpp:125-131 | after narrowing to the whole chunks, the loop decrypts each of them and leaves the unaligned rest alone |
| Crypt.EncryptTailInPlace | include/h1sp/crypt.hpp:94-97 | the last 8 bytes are encrypted once more, overlapping the last whole chunk |
| Crypt.DecryptTailInPlace | include/h1sp/crypt.hpp:120-123 | the last 8 bytes are decrypted before the whole chunks |
| Crypt.EncryptBuffer | include/h1sp/crypt.hpp:76-98 | `encrypt_buffer` leaves buffers under 8 bytes unchanged, and otherwise encrypts the whole chunks, then, if unaligned, the last 8 bytes |
| Crypt.DecryptBuffer | include/h1sp/crypt.hpp:109-132 | `decrypt_buffer` leaves buffers under 8 bytes unchanged, and otherwise decrypts the last 8 bytes first if unaligned, then the whole chunks |
| Digest.HexDigit | src/crypt.cpp:98 | a value below 16 prints as a lowercase hexadecimal digit that denotes it |
| Digest.HexByte | src/crypt.cpp:97-99 | `%02hhx` prints a byte as two lowercase digits whose value, high digit first, is the byte |
| Digest.HexString | src/crypt.cpp:95-100 | the digits of n bytes are 2n lowercase hexadecimal characters |
| Digest.HexStringAt | src/crypt.cpp:95-100 | byte i is printed at characters 2i and 2i+1, in byte order |
| Digest.ParseHexString | src/crypt.cpp:92-102 | reading the printed digits back gives the bytes |
| Digest.HexStringOfParse | src/crypt.cpp:92-102 | only a printed form parses, and it parses to the bytes it prints |
| Digest.HexStringInjective | src/crypt.cpp:92-102 | different digests have different text forms |
| Digest.Md5Hex | src/crypt.cpp:80-103 | the text form of a digest is 32 lowercase hexadecimal characters |
| Digest.ComputeMd5Digest | src/crypt.cpp:80-103 | the formatting loop yields the text form of the 16 digest bytes: 32 lowercase digits, two per byte, in byte order |
| Chunks.HasError | src/archive.cpp:248-263 | an error is reported exactly when bytes remain but no whole header, or not all the data it announces, lies ahead; never at the end |
| Chunks.Finished | src/archive.cpp:265-268 | the enumerator is finished exactly when no whole member lies ahead, and always at the end, where it reports no error |
| Chunks.EndOfRange | src/archive.cpp:243-246 | at the end the range is empty, finished without error, yields no members, `advance` keeps it, and it is well formed |
| Chunks.Members | include/h1sp/archive.hpp:26-33 | enumeration yields at most one member per 4 bytes, and yields none exactly when the range is finished at the start |
| Chunks.Data | src/archive.cpp:232-241 | `data` is empty once finished, and otherwise has the announced size and lies, after the header, inside the range |
| Chunks.Advanced | src/archive.cpp:219-230 | `advance` does nothing once finished, and otherwise drops the header and the data, so the range strictly shrinks |
| Chunks.Rest | src/archive.cpp:121 | the validation loop stops at a finished range |
| Chunks.Chunk | src/archive.cpp:157-164 | a member is written as 4 header bytes followed by its data |
| Chunks.Pack | src/archive.cpp:137-142 | the members with their headers take the sum of their sizes plus 4 bytes per member |
| Chunks.AdvanceDecomposes | include/h1sp/archive.hpp:26-33 | a range the enumerator can advance over is the header, the current data, and the range after them |
| Chunks.ReadChunk | src/archive.cpp:219-241 | the enumerator reads a written member back as its data and moves on to exactly what follows it |
| Chunks.PackRoundTrip | src/archive.cpp:155-165 | enumerating packed members yields exactly those members, in order, and ends at the end without error |
| Chunks.PackMembers | include/h1sp/archive.hpp:26-33 | a range whose enumeration ends without error is exactly the packing of the members it yields |
| Chunks.PackAppend | src/archive.cpp:155-165 | writing one more member appends its header and data |
| Enumerator.ArchiveEnumerator.constructor | src/archive.cpp:214-217 | the enumerator starts on the whole range |
| Enumerator.ArchiveEnumerator.IsAtEnd | src/archive.cpp:243-246 | `is_at_end` holds exactly when the range is empty, and then nothing remains to visit and there is no error |
| Enumerator.ArchiveEnumerator.HasError | src/archive.cpp:248-263 | `has_error` holds exactly when bytes remain but no whole header, or not the data it announces, lies ahead |
| Enumerator.ArchiveEnumerator.Finished | src/archive.cpp:265-268 | `finished` is `is_at_end` or `has_error`; once finished, `advance` changes nothing and no member remains |
| Enumerator.ArchiveEnumerator.CanAdvance | include/h1sp/archive.hpp:249 | `operator bool` holds exactly when a whole header and the data it announces lie ahead |
| Enumerator.ArchiveEnumerator.Data | src/archive.cpp:232-241 | `data` is empty once finished; otherwise the range is the header, the data, and what `advance` moves to |
| Enumerator.ArchiveEnumerator.Advance | src/archive.cpp:219-230 | `advance` leaves a finished enumerator alone, and otherwise moves it past the current member, strictly shrinking its range |
| ShaderArchive.Trailer | src/archive.cpp:168-174 | the trailer is 33 bytes: the 32 characters of the hexadecimal digest, then a NUL |
| ShaderArchive.Image | include/h1sp/archive.hpp:22-24 | the decrypted file is the member region followed by the trailer for that region |
| ShaderArchive.ArchiveFile | src/archive.cpp:137-142 | the written file has the size `load_members_from` allocates |
| ShaderArchive.PlainData | src/archive.cpp:94-100 | the member region is the decrypted file without its last 33 bytes |
| ShaderArchive.Judge | src/archive.cpp:101-127 | the digest and member checks answer success or corrupt, never `could_not_open_file`; success means the last 33 bytes are the trailer of the region before them and that region enumerates without error |
| ShaderArchive.Verdict | src/archive.cpp:87-127 | the verdict on the bytes of an opened file is success or corrupt; success means at least 34 bytes whose decrypted member region enumerates without error |
| ShaderArchive.JudgeAccepts | src/archive.cpp:101-127 | the trailer and member checks pass exactly when the decrypted file is the image of a member region that enumerates without error |
| ShaderArchive.SplitPlain | src/archive.cpp:94-97 | the decrypted file is the member region followed by the last 33 bytes |
| ShaderArchive.FileRoundTrip | src/archive.cpp:81-133 | a file written from at least one member is accepted, and its member region enumerates to exactly those members |
| ShaderArchive.AcceptedIsArchiveFile | src/archive.cpp:81-133 | every accepted file is the file written from the (non-empty) members it enumerates to |
| ShaderArchive.NoMembersIsTooShort | src/archive.cpp:87-92 | a file under 34 bytes is refused as corrupt, and an archive of no members is shorter than that |
| ShaderArchive.ThreeMembers | src/archive.cpp:137-165 | members of 0, 5 and 3 bytes pack into a 20-byte region and a 53-byte image, and enumerate back in order |
| ShaderArchive.WriteStep | src/archive.cpp:157-164 | writing a header and then data at the cursor leaves the bytes before it followed by both |
| ShaderArchive.LoadStep | src/archive.cpp:155-165 | one more iteration of the member loop leaves the packing of one more member before the cursor |
| ShaderArchive.Archive.Data | include/h1sp/archive.hpp:94-96 | `data` is the front of `filebuf` |
| ShaderArchive.Archive.constructor | include/h1sp/archive.hpp:90-97 | a default archive is empty and valid, and encrypts with `h1_tea` |
| ShaderArchive.Archive.ReadFromFile | src/archive.cpp:81-133 | an absent or empty file gives `could_not_open_file`; otherwise the result is the verdict on the bytes (under 34, digest, members); state changes only on success, to the decrypted file |
| ShaderArchive.Archive.LoadMembersFrom | src/archive.cpp:135-182 | the new buffer is the members, each with its header, then the digest trailer of that region, unencrypted; `data` is that region |
| ShaderArchive.Archive.FlushToFile | src/archive.cpp:184-207 | under 4 bytes of data gives `no_data_to_write`; an unwritable sink gives `could_not_open_file` and changes nothing; success emits the encrypted image and empties the archive |
| ShaderArchive.Archive.Enumerate | src/archive.cpp:209-212 | the enumerator starts on the member region |
| ShaderArchive.Archive.ForEach | include/h1sp/archive.hpp:252-260 | the visitor receives the data of every member, in order |
| ShaderArchive.Archive.ForEachUntil | include/h1sp/archive.hpp:262-274 | visits members in order up to the first truthy result and returns it; with no truthy result it visits every member and returns nothing |
| ShaderArchive.DigestTrailer | src/archive.cpp:168-174 | the 33 bytes copied are the digest string and its terminating NUL |
| ShaderArchive.OpenArchive | src/archive.cpp:91-127 | the result is the verdict on the bytes; on success the buffer is the decrypted file, the image of its member region, whose enumeration ends without error |
| ShaderArchive.DecryptedCopy | src/archive.cpp:100 | the buffer read is decrypted in place |
| ShaderArchive.CheckArchive | src/archive.cpp:94-127 | the digest comparison and the member validation give the verdict on the decrypted file |
| ShaderArchive.HasCorruptMember | src/archive.cpp:117-127 | the validation loop reports an error exactly when enumerating the member region stops at an error |
| ShaderArchive.TotalSize | src/archive.cpp:137-142 | the allocated size is the sum of the member sizes, 4 bytes per member, and 33 |
| ShaderArchive.WriteMembers | src/archive.cpp:150-165 | the member loop writes the packing of all members at the front of the buffer and leaves the cursor at its end |
| ShaderArchive.VisitAll | include/h1sp/archive.hpp:256-259 | the loop passes the data of every member to the visitor, in order, until the enumerator is finished |
| ShaderArchive.VisitUntil | include/h1sp/archive.hpp:266-273 | the loop stops at the first truthy result and returns it, and otherwise visits every member |
| ShaderArchive.TotalAppend | src/archive.cpp:137-140 | the accumulated size grows by each member's size |
| ShaderArchive.PackThenUnpack | src/archive.cpp:135-207 | members loaded, flushed to a writable sink, and read back from the written bytes are accepted and enumerate to the same members |

## Left out

- MD5 itself (RFC 1321, computed by OpenSSL) is a parameter: a function from bytes to 16 bytes. The program's reliance on the digest to detect damaged files needs MD5 to be collision-free, which the model cannot state.
- The `range_error` guard of `compute_md5_digest` depends on the platform's `unsigned long`, and is not modelled.
- File I/O is not modelled. `read_file`, `write_file` and the `fopen`/`fwrite`/`fclose` calls of `flush_to_file` become inputs and outputs: the result of the read is an optional byte sequence (absent when nothing was read), whether the output file opens is a boolean, and the bytes written are an output.
- ShaderArchive.Archive.ReadFromFile: a missing or unreadable file is passed as `None`. An empty file, for which `read_file` returns an empty buffer (src/archive.cpp:46-50), may be passed as `None` or as `Some([])`; both give `could_not_open_file`, as at src/archive.cpp:84-85.
- Diagnostics printed on standard error are not modelled.
- `std::size_t` is unbounded in the model. Every size sum in the archive fits 64 bits in practice.
- Only the little-endian case of `std::endian` is modelled, the one `h1_tea` uses.
- The concepts `InPlaceEncryptionScheme` and `InPlaceDecryptionScheme` are compile-time constraints. Their role is played by the `Cipher` datatype and the `IsChunkCipher` predicate.
- The program's command-line front end (src/main.cpp) and its name tables (include/h1sp/names.hpp) are not part of this model.
- include/h1sp/io.hpp is not part of this model. Its `serialize` and `deserialize` are defined in `ByteIo` as the little-endian 4-byte pair.
- 32-bit words are integers in [0, 2^32). The wrap-around of `+=`, `-=` and `<<` and the bitwise xor are written out, not taken from bit-vector types.
- ShaderArchive.Archive.LoadMembersFrom: requires every member to be smaller than 2^32 bytes. `chunk_size_type{member.nbytes}` at src/archive.cpp:158 would otherwise narrow the size.
- ShaderArchive.Archive.LoadMembersFrom: the region `data` is taken as the allocated size minus 33. src/archive.cpp:181 reads `buf.nbytes` after the move, which the defaulted move leaves at `total_size`.
- Enumerator.ArchiveEnumerator.Data: returns the member's bytes as a value, not a span into the archive's buffer. Writes through that span are not modelled.
- ShaderArchive.Archive.ForEach: the visitor is modelled by the sequence of arguments it receives. What the visitor does with them is not modelled.
- ShaderArchive.Archive.ForEachUntil: `f` is a pure function. Contextual conversion of its result to `bool` is a second function `truthy`.
- ShaderArchive.Archive.ReadFromFile: the file is copied into a fresh array before being decrypted, where the source decrypts the buffer `read_file` returned. No other alias of that buffer exists.
