/**
 * The `archive` class: a Halo 1 shader archive held in memory. It can be
 * read from a file, assembled from members, enumerated, and written out.
 *
 * Decrypted, an archive file is its members one after the other (module
 * Chunks), then a 33-byte trailer: the MD5 digest of the members in
 * lowercase hexadecimal, then a NUL. The whole file, trailer included, is
 * encrypted by `encrypt_buffer` with the `h1_tea` scheme.
 *
 * File I/O is not modelled. What `read_file` produced is an `Option` input:
 * None when it returned no buffer. `read_file` returns no buffer for an
 * empty file either, so `Some([])` is answered like None. Whether the output file opens is a
 * boolean input. The bytes `fwrite` emits are an output. MD5 is the function
 * `md5` the archive is constructed with.
 */
module ShaderArchive {
  import opened ByteIo
  import opened Tea
  import Crypt
  import Digest
  import Chunks
  import Enumerator

  /** The size of the trailer: 32 hexadecimal digits and a NUL. */
  const TRAILER_SIZE: nat := 33

  /** The smallest file `read_from_file` accepts: a trailer and at least one byte of data. */
  const MIN_ARCHIVE_SIZE: nat := 34

  /** `archive::read_error`. */
  datatype ReadError = Success | CouldNotOpenFile | ArchiveDataIsCorrupt

  /** `archive::write_error`. */
  datatype WriteError = Success | NoDataToWrite | CouldNotOpenFile

  /** An MD5 implementation: bytes to 16 digest bytes. */
  type Md5 = seq<byte> -> Digest.Md5Bytes

  // ---------------------------------------------------------------------
  // Specification

  /** The trailer for the member region `data`: its hexadecimal MD5 digest, then a NUL. */
  function Trailer(md5: Md5, data: seq<byte>): (t: seq<byte>)
    ensures |t| == TRAILER_SIZE && t[TRAILER_SIZE - 1] == 0
    ensures AsChars(t[..TRAILER_SIZE - 1]) == Digest.Md5Hex(md5, data)
  {
    var hex := Digest.Md5Hex(md5, data);
    assert forall i :: 0 <= i < |hex| ==> hex[i] as int < 0x100 by {
      forall i | 0 <= i < |hex|
        ensures hex[i] as int < 0x100
      {
        assert Digest.IsLowerHex(hex[i]);
      }
    }
    var t := AsBytes(hex) + [0];
    assert t[..TRAILER_SIZE - 1] == AsBytes(hex);
    t
  }

  /** The decrypted file of an archive whose member region is `data`. */
  function Image(md5: Md5, data: seq<byte>): (img: seq<byte>)
    ensures |img| == |data| + TRAILER_SIZE
    ensures img[..|data|] == data && img[|data|..] == Trailer(md5, data)
  {
    data + Trailer(md5, data)
  }

  /** The file an archive assembled from `members` is written as. */
  function ArchiveFile(c: Crypt.Cipher, md5: Md5, members: seq<seq<byte>>): (file: seq<byte>)
    requires Crypt.IsChunkCipher(c) && Chunks.Representable(members)
    ensures |file| == Chunks.TotalLength(members) + 4 * |members| + TRAILER_SIZE
  {
    Crypt.EncryptedBuffer(c, Image(md5, Chunks.Pack(members)))
  }

  /** The member region of a file: its decryption without the trailer. */
  function PlainData(c: Crypt.Cipher, bytes: seq<byte>): (data: seq<byte>)
    requires Crypt.IsChunkCipher(c) && |bytes| >= TRAILER_SIZE
    ensures |data| == |bytes| - TRAILER_SIZE
  {
    var plain := Crypt.DecryptedBuffer(c, bytes);
    plain[..|plain| - TRAILER_SIZE]
  }

  /** The checks `read_from_file` makes on a decrypted file: its trailer, then its members. */
  function Judge(md5: Md5, plain: seq<byte>): (r: ReadError)
    requires |plain| >= TRAILER_SIZE
    ensures r != ReadError.CouldNotOpenFile
    ensures r == ReadError.Success ==>
      plain[|plain| - TRAILER_SIZE..] == Trailer(md5, plain[..|plain| - TRAILER_SIZE]) &&
      Chunks.WellFormed(plain[..|plain| - TRAILER_SIZE])
  {
    var data := plain[..|plain| - TRAILER_SIZE];
    if plain[|data|..] != Trailer(md5, data) then ArchiveDataIsCorrupt
    else if !Chunks.WellFormed(data) then ArchiveDataIsCorrupt
    else ReadError.Success
  }

  /** What `read_from_file` decides about the bytes of a file it could read. */
  function Verdict(c: Crypt.Cipher, md5: Md5, bytes: seq<byte>): (r: ReadError)
    requires Crypt.IsChunkCipher(c)
    ensures r != ReadError.CouldNotOpenFile
    ensures r == ReadError.Success ==> |bytes| >= MIN_ARCHIVE_SIZE && Chunks.WellFormed(PlainData(c, bytes))
  {
    if |bytes| < MIN_ARCHIVE_SIZE then ArchiveDataIsCorrupt
    else Judge(md5, Crypt.DecryptedBuffer(c, bytes))
  }

  /** A decrypted file passes the checks exactly when it is the image of a well-formed member region. */
  lemma JudgeAccepts(md5: Md5, plain: seq<byte>)
    requires |plain| >= TRAILER_SIZE
    ensures Judge(md5, plain) == ReadError.Success <==>
      plain == Image(md5, plain[..|plain| - TRAILER_SIZE]) && Chunks.WellFormed(plain[..|plain| - TRAILER_SIZE])
  {
    var data := plain[..|plain| - TRAILER_SIZE];
    assert plain == data + plain[|data|..];
  }

  /** A decrypted file is its member region followed by its trailer. */
  lemma SplitPlain(c: Crypt.Cipher, bytes: seq<byte>)
    requires Crypt.IsChunkCipher(c) && |bytes| >= TRAILER_SIZE
    ensures var plain := Crypt.DecryptedBuffer(c, bytes);
      plain == PlainData(c, bytes) + plain[|bytes| - TRAILER_SIZE..]
  {
    var plain := Crypt.DecryptedBuffer(c, bytes);
    assert PlainData(c, bytes) == plain[..|bytes| - TRAILER_SIZE];
  }

  // ---------------------------------------------------------------------
  // Properties

  /** A file written from at least one member is read back, and enumerates to those members. */
  lemma FileRoundTrip(c: Crypt.Cipher, md5: Md5, members: seq<seq<byte>>)
    requires Crypt.IsChunkCipher(c) && Crypt.Inverts(c)
    requires Chunks.Representable(members) && members != []
    ensures Verdict(c, md5, ArchiveFile(c, md5, members)) == ReadError.Success
    ensures Chunks.Members(PlainData(c, ArchiveFile(c, md5, members))) == members
  {
    var data := Chunks.Pack(members);
    var img := Image(md5, data);
    var file := ArchiveFile(c, md5, members);
    Crypt.BufferRoundTrip(c, img);
    assert Crypt.DecryptedBuffer(c, file) == img;
    assert PlainData(c, file) == data;
    Chunks.PackRoundTrip(members);
  }

  /** Every file `read_from_file` accepts is the file written from its (non-empty) member list. */
  lemma AcceptedIsArchiveFile(c: Crypt.Cipher, md5: Md5, bytes: seq<byte>)
    requires Crypt.IsChunkCipher(c) && Crypt.Inverts(c)
    requires Verdict(c, md5, bytes) == ReadError.Success
    ensures Chunks.Representable(Chunks.Members(PlainData(c, bytes)))
    ensures Chunks.Members(PlainData(c, bytes)) != []
    ensures bytes == ArchiveFile(c, md5, Chunks.Members(PlainData(c, bytes)))
  {
    var plain := Crypt.DecryptedBuffer(c, bytes);
    var data := PlainData(c, bytes);
    SplitPlain(c, bytes);
    assert plain == Image(md5, data);
    Chunks.PackMembers(data);
    Crypt.BufferRoundTrip(c, bytes);
    assert !Chunks.IsAtEnd(data);
  }

  /** No file holds fewer than 34 bytes, and an archive of no members is 33 bytes long. */
  lemma NoMembersIsTooShort(c: Crypt.Cipher, md5: Md5, bytes: seq<byte>)
    requires Crypt.IsChunkCipher(c)
    ensures |ArchiveFile(c, md5, [])| < MIN_ARCHIVE_SIZE
    ensures |bytes| < MIN_ARCHIVE_SIZE ==> Verdict(c, md5, bytes) == ArchiveDataIsCorrupt
  {
  }

  /** Members of 0, 5 and 3 bytes pack into 20 bytes, a 53-byte image, and enumerate back in order. */
  lemma ThreeMembers(md5: Md5)
    ensures var ms: seq<seq<byte>> := [[], [1, 2, 3, 4, 5], [9, 9, 9]];
      Chunks.Representable(ms) && |Chunks.Pack(ms)| == 20 &&
      |Image(md5, Chunks.Pack(ms))| == 53 && Chunks.Members(Chunks.Pack(ms)) == ms
  {
    var ms: seq<seq<byte>> := [[], [1, 2, 3, 4, 5], [9, 9, 9]];
    assert ms[1..][1..][1..] == [];
    Chunks.PackRoundTrip(ms);
  }

  // ---------------------------------------------------------------------
  // Writing members into a buffer

  /** Writing a header and then a payload at `at` leaves the prefix before `at` followed by both. */
  lemma WriteStep(before: seq<byte>, mid: seq<byte>, after: seq<byte>, at: nat, header: seq<byte>, payload: seq<byte>)
    requires at + |header| + |payload| <= |before|
    requires mid == before[..at] + header + before[at + |header|..]
    requires after == mid[..at + |header|] + payload + mid[at + |header| + |payload|..]
    ensures after[..at + |header| + |payload|] == before[..at] + header + payload
  {
    assert mid[..at + |header|] == before[..at] + header;
  }

  /** One more member written after the members before it. */
  lemma LoadStep(members: seq<seq<byte>>, i: nat, before: seq<byte>, mid: seq<byte>, after: seq<byte>, cursor: nat)
    requires Chunks.Representable(members) && i < |members|
    requires cursor + Chunks.HEADER_SIZE + |members[i]| <= |before|
    requires cursor == |Chunks.Pack(members[..i])| && before[..cursor] == Chunks.Pack(members[..i])
    requires mid == before[..cursor] + EncodeLE32(|members[i]|) + before[cursor + Chunks.HEADER_SIZE..]
    requires after == mid[..cursor + Chunks.HEADER_SIZE] + members[i] + mid[cursor + Chunks.HEADER_SIZE + |members[i]|..]
    ensures Chunks.Representable(members[..i + 1])
    ensures after[..cursor + Chunks.HEADER_SIZE + |members[i]|] == Chunks.Pack(members[..i + 1])
    ensures cursor + Chunks.HEADER_SIZE + |members[i]| == |Chunks.Pack(members[..i + 1])|
  {
    var m := members[i];
    WriteStep(before, mid, after, cursor, EncodeLE32(|m|), m);
    assert members[..i + 1] == members[..i] + [m];
    assert Chunks.Representable(members[..i]) by {
      forall j | 0 <= j < i
        ensures |members[..i][j]| < U32_LIMIT
      {
        assert members[..i][j] == members[j];
      }
    }
    Chunks.PackAppend(members[..i], m);
  }

  // ---------------------------------------------------------------------
  // The archive

  class Archive {
    /** MD5, as provided by the library the program is linked against. */
    const md5: Md5

    /** The chunk scheme the archive's files are encrypted with: `h1_tea`, fixed by the constructor. */
    const cipher: Crypt.Cipher

    /** `filebuf`: the decrypted file image, trailer included; empty when there is no archive. */
    var filebuf: array<byte>

    /** The size of `data`, the member region at the front of `filebuf`. */
    var dataLen: nat

    /** The member region `data`. */
    function Data(): (d: seq<byte>)
      reads this, filebuf
      requires dataLen <= filebuf.Length
      ensures |d| == dataLen
    {
      filebuf[..dataLen]
    }

    /** `archive{}`: no buffer and no data. */
    predicate IsEmpty()
      reads this, filebuf
    {
      filebuf.Length == 0 && dataLen == 0
    }

    /** An invertible chunk cipher, and either empty or a decrypted image whose trailer is the digest of its well-formed member region. */
    ghost predicate Valid()
      reads this, filebuf
    {
      Crypt.IsChunkCipher(cipher) && Crypt.Inverts(cipher) &&
      (IsEmpty() ||
       (filebuf.Length == dataLen + TRAILER_SIZE &&
        filebuf[..] == Image(md5, filebuf[..dataLen]) &&
        Chunks.WellFormed(filebuf[..dataLen])))
    }

    /** A default-constructed, empty archive. */
    constructor(md5: Md5)
      ensures this.md5 == md5 && cipher == Crypt.TeaCipher(H1_TEA) && IsEmpty() && Valid()
    {
      this.md5 := md5;
      cipher := Crypt.TeaCipher(H1_TEA);
      filebuf := new byte[0];
      dataLen := 0;
    }

    /** `read_from_file`: decrypts and checks the file's bytes, and takes them only if they are an archive. */
    method ReadFromFile(file: Option<seq<byte>>) returns (err: ReadError)
      requires Valid()
      modifies this
      ensures Valid()
      ensures file.None? || file.value == [] ==> err == ReadError.CouldNotOpenFile
      ensures file.Some? && file.value != [] ==> err == Verdict(cipher, md5, file.value)
      ensures err != ReadError.Success ==> filebuf == old(filebuf) && dataLen == old(dataLen)
      ensures err == ReadError.Success ==>
        file.Some? && fresh(filebuf) &&
        filebuf[..] == Crypt.DecryptedBuffer(cipher, file.value) &&
        Data() == PlainData(cipher, file.value)
    {
      if file.None? || file.value == [] {
        return ReadError.CouldNotOpenFile;
      }
      var buf;
      err, buf := OpenArchive(cipher, md5, file.value);
      if err != ReadError.Success {
        return err;
      }
      filebuf := buf;
      dataLen := buf.Length - TRAILER_SIZE;
    }

    /** `load_members_from`: assembles the members and their trailer into a new buffer, unencrypted. */
    method LoadMembersFrom(members: seq<seq<byte>>)
      requires Valid() && Chunks.Representable(members)
      modifies this
      ensures Valid() && fresh(filebuf)
      ensures Data() == Chunks.Pack(members)
      ensures filebuf[..] == Image(md5, Chunks.Pack(members))
    {
      var totalSize := TotalSize(members);
      var buf := new byte[totalSize];
      var cursor := WriteMembers(members, buf);

      var packed := buf[..buf.Length - TRAILER_SIZE];
      var trailer := DigestTrailer(md5, packed);
      CopyInto(buf, cursor, trailer);
      assert buf[..] == packed + trailer;

      Chunks.PackRoundTrip(members);
      filebuf := buf;
      dataLen := buf.Length - TRAILER_SIZE;
    }

    /** `flush_to_file`: encrypts the buffer, emits it, and empties the archive. */
    method FlushToFile(writable: bool) returns (err: WriteError, written: seq<byte>)
      requires Valid()
      modifies this, filebuf
      ensures Valid()
      ensures err == WriteError.Success <==> old(dataLen) >= Chunks.HEADER_SIZE && writable
      ensures old(dataLen) < Chunks.HEADER_SIZE ==> err == NoDataToWrite
      ensures old(dataLen) >= Chunks.HEADER_SIZE && !writable ==> err == WriteError.CouldNotOpenFile
      ensures err != WriteError.Success ==>
        written == [] && filebuf == old(filebuf) && dataLen == old(dataLen) && filebuf[..] == old(filebuf[..])
      ensures err == WriteError.Success ==>
        written == Crypt.EncryptedBuffer(cipher, old(filebuf[..])) && IsEmpty()
    {
      written := [];
      if dataLen < Chunks.HEADER_SIZE {
        return NoDataToWrite, written;
      }
      if !writable {
        return WriteError.CouldNotOpenFile, written;
      }
      Crypt.EncryptBuffer(cipher, filebuf);
      written := filebuf[..];
      filebuf := new byte[0];
      dataLen := 0;
      return WriteError.Success, written;
    }

    /** `enumerate`: an enumerator over the member region. */
    method Enumerate() returns (e: Enumerator.ArchiveEnumerator)
      requires Valid()
      ensures fresh(e) && e.range == Data()
    {
      e := new Enumerator.ArchiveEnumerator(filebuf[..dataLen]);
    }

    /** The `void` `for_each`: the data of every member, in order, as the visitor receives them. */
    method ForEach() returns (visited: seq<seq<byte>>)
      requires Valid()
      ensures visited == Chunks.Members(Data())
    {
      var e := Enumerate();
      visited := VisitAll(e);
    }

    /** The early-stopping `for_each`: stops at the first member for which `f` gives a truthy result. */
    method ForEachUntil<R>(f: seq<byte> -> R, truthy: R -> bool) returns (result: Option<R>, visited: seq<seq<byte>>)
      requires Valid()
      ensures |visited| <= |Chunks.Members(Data())| && visited == Chunks.Members(Data())[..|visited|]
      ensures result.None? ==> visited == Chunks.Members(Data())
      ensures forall i :: 0 <= i < |visited| ==> (truthy(f(visited[i])) <==> result.Some? && i == |visited| - 1)
      ensures result.Some? ==> visited != [] && result.value == f(visited[|visited| - 1])
    {
      var e := Enumerate();
      result, visited := VisitUntil(e, f, truthy);
    }
  }

  // ---------------------------------------------------------------------
  // The loops of the archive's operations

  /** `compute_md5_digest` of `data`, as the bytes of the string with its terminating NUL. */
  method DigestTrailer(md5: Md5, data: seq<byte>) returns (t: seq<byte>)
    ensures t == Trailer(md5, data)
  {
    var md5Str := Digest.ComputeMd5Digest(md5, data);
    assert forall i :: 0 <= i < |md5Str| ==> md5Str[i] as int < 0x100 by {
      forall i | 0 <= i < |md5Str|
        ensures md5Str[i] as int < 0x100
      {
        assert Digest.IsLowerHex(md5Str[i]);
      }
    }
    t := AsBytes(md5Str) + [0];
  }

  /** The size check, decryption and checks of `read_from_file`, before anything is committed. */
  method OpenArchive(c: Crypt.Cipher, md5: Md5, bytes: seq<byte>) returns (err: ReadError, buf: array<byte>)
    requires Crypt.IsChunkCipher(c)
    ensures err == Verdict(c, md5, bytes)
    ensures err == ReadError.Success ==>
      fresh(buf) && buf.Length == |bytes| >= TRAILER_SIZE &&
      buf[..] == Crypt.DecryptedBuffer(c, bytes) &&
      buf[..] == Image(md5, buf[..buf.Length - TRAILER_SIZE]) &&
      Chunks.WellFormed(buf[..buf.Length - TRAILER_SIZE]) &&
      buf[..buf.Length - TRAILER_SIZE] == PlainData(c, bytes)
  {
    if |bytes| < MIN_ARCHIVE_SIZE {
      return ArchiveDataIsCorrupt, new byte[0];
    }
    buf := DecryptedCopy(c, bytes);
    err := CheckArchive(md5, buf);
    if err == ReadError.Success {
      JudgeAccepts(md5, buf[..]);
    }
  }

  /** A copy of the bytes read, decrypted in place (`decrypt_buffer(h1_tea, buf.range())`). */
  method DecryptedCopy(c: Crypt.Cipher, bytes: seq<byte>) returns (buf: array<byte>)
    requires Crypt.IsChunkCipher(c)
    ensures fresh(buf) && buf[..] == Crypt.DecryptedBuffer(c, bytes)
  {
    buf := new byte[|bytes|](i requires 0 <= i < |bytes| => bytes[i]);
    assert buf[..] == bytes;
    Crypt.DecryptBuffer(c, buf);
  }

  /**
   * The checks of `read_from_file` on the decrypted file: compares its trailer
   * with the digest of what precedes it, then enumerates the members.
   */
  method CheckArchive(md5: Md5, buf: array<byte>) returns (err: ReadError)
    requires buf.Length >= TRAILER_SIZE
    ensures err == Judge(md5, buf[..])
  {
    var dataSize := buf.Length - TRAILER_SIZE;
    var archiveData := buf[..dataSize];
    var archiveMd5 := buf[dataSize..];

    var expected := DigestTrailer(md5, archiveData);
    if archiveMd5 != expected {
      return ArchiveDataIsCorrupt;
    }

    var corrupt := HasCorruptMember(archiveData);
    err := if corrupt then ArchiveDataIsCorrupt else ReadError.Success;
  }

  /** The validation loop of `read_from_file`: enumerates `data` and reports whether it stopped at an error. */
  method HasCorruptMember(data: seq<byte>) returns (corrupt: bool)
    ensures corrupt <==> !Chunks.WellFormed(data)
  {
    var e := new Enumerator.ArchiveEnumerator(data);
    while e.CanAdvance()
      invariant Chunks.Rest(e.range) == Chunks.Rest(data)
      decreases |e.range|
    {
      e.Advance();
    }
    corrupt := e.HasError();
  }

  /** The size `load_members_from` allocates: the members, a header each, and the trailer. */
  method TotalSize(members: seq<seq<byte>>) returns (total: nat)
    ensures total == Chunks.TotalLength(members) + 4 * |members| + TRAILER_SIZE
  {
    total := 0;
    var i := 0;
    while i < |members|
      invariant i <= |members| && total == Chunks.TotalLength(members[..i])
    {
      LoadStepTotal(members, i);
      total := total + |members[i]|;
      i := i + 1;
    }
    assert members[..i] == members;
    total := total + 4 * |members| + TRAILER_SIZE;
  }

  /** The member loop of `load_members_from`: each member's header and data, in order, from the front of `buf`. */
  method WriteMembers(members: seq<seq<byte>>, buf: array<byte>) returns (cursor: nat)
    requires Chunks.Representable(members)
    requires buf.Length == |Chunks.Pack(members)| + TRAILER_SIZE
    modifies buf
    ensures cursor == |Chunks.Pack(members)| && buf[..cursor] == Chunks.Pack(members)
  {
    cursor := 0;
    var i := 0;
    while i < |members|
      invariant i <= |members| && Chunks.Representable(members[..i])
      invariant cursor == |Chunks.Pack(members[..i])| <= buf.Length
      invariant buf[..cursor] == Chunks.Pack(members[..i])
    {
      var member := members[i];
      PrefixFits(members, i);
      ghost var before := buf[..];
      CopyInto(buf, cursor, EncodeLE32(|member|));
      ghost var mid := buf[..];
      CopyInto(buf, cursor + Chunks.HEADER_SIZE, member);
      LoadStep(members, i, before, mid, buf[..], cursor);
      cursor := cursor + Chunks.HEADER_SIZE + |member|;
      i := i + 1;
    }
    assert members[..i] == members;
  }

  /** One member visited: its data joins the visited ones, and the enumeration goes on after it. */
  lemma VisitStep(visited: seq<seq<byte>>, range: seq<byte>, all: seq<seq<byte>>)
    requires visited + Chunks.Members(range) == all && !Chunks.Finished(range)
    ensures (visited + [Chunks.Data(range)]) + Chunks.Members(Chunks.Advanced(range)) == all
    ensures |visited| < |all| && all[..|visited| + 1] == visited + [Chunks.Data(range)]
  {
    var d, next := Chunks.Data(range), Chunks.Members(Chunks.Advanced(range));
    assert Chunks.Members(range) == [d] + next;
    assert (visited + [d]) + next == visited + ([d] + next);
  }

  /** An enumeration that is finished has visited every member. */
  lemma VisitEnd(visited: seq<seq<byte>>, range: seq<byte>, all: seq<seq<byte>>)
    requires visited + Chunks.Members(range) == all && Chunks.Finished(range)
    ensures visited == all
  {
    assert visited + [] == visited;
  }

  /** The loop of the `void` `for_each`: the data of each member until the enumerator is finished. */
  method VisitAll(e: Enumerator.ArchiveEnumerator) returns (visited: seq<seq<byte>>)
    modifies e
    ensures visited == Chunks.Members(old(e.range))
  {
    ghost var all := Chunks.Members(e.range);
    visited := [];
    while e.CanAdvance()
      invariant visited + Chunks.Members(e.range) == all
      decreases |e.range|
    {
      ghost var range := e.range;
      var d := e.Data();
      e.Advance();
      VisitStep(visited, range, all);
      visited := visited + [d];
    }
    VisitEnd(visited, e.range, all);
  }

  /** The loop of the early-stopping `for_each`. */
  method VisitUntil<R>(e: Enumerator.ArchiveEnumerator, f: seq<byte> -> R, truthy: R -> bool)
    returns (result: Option<R>, visited: seq<seq<byte>>)
    modifies e
    ensures |visited| <= |Chunks.Members(old(e.range))| && visited == Chunks.Members(old(e.range))[..|visited|]
    ensures result.None? ==> visited == Chunks.Members(old(e.range))
    ensures forall i :: 0 <= i < |visited| ==> (truthy(f(visited[i])) <==> result.Some? && i == |visited| - 1)
    ensures result.Some? ==> visited != [] && result.value == f(visited[|visited| - 1])
  {
    ghost var all := Chunks.Members(e.range);
    visited := [];
    while e.CanAdvance()
      invariant visited + Chunks.Members(e.range) == all
      invariant forall i :: 0 <= i < |visited| ==> !truthy(f(visited[i]))
      decreases |e.range|
    {
      VisitStep(visited, e.range, all);
      var d := e.Data();
      var r := f(d);
      if truthy(r) {
        visited := visited + [d];
        return Some(r), visited;
      }
      visited := visited + [d];
      e.Advance();
    }
    assert visited + [] == visited;
    return None, visited;
  }

  /** Total of the member sizes, one member further. */
  lemma LoadStepTotal(members: seq<seq<byte>>, i: nat)
    requires i < |members|
    ensures Chunks.TotalLength(members[..i + 1]) == Chunks.TotalLength(members[..i]) + |members[i]|
  {
    TotalAppend(members[..i], members[i]);
    assert members[..i + 1] == members[..i] + [members[i]];
  }

  /** The members before `i`, the member at `i` and their headers fit in the packing of all members. */
  lemma PrefixFits(members: seq<seq<byte>>, i: nat)
    requires i < |members|
    ensures Chunks.TotalLength(members[..i]) + |members[i]| + 4 * (i + 1) <= Chunks.TotalLength(members) + 4 * |members|
  {
    LoadStepTotal(members, i);
    TotalPrefix(members, i + 1);
  }

  /** The members before `j` are no larger in total than all members. */
  lemma {:induction false} TotalPrefix(members: seq<seq<byte>>, j: nat)
    requires j <= |members|
    ensures Chunks.TotalLength(members[..j]) <= Chunks.TotalLength(members)
    decreases |members| - j
  {
    if j < |members| {
      LoadStepTotal(members, j);
      TotalPrefix(members, j + 1);
    } else {
      assert members[..j] == members;
    }
  }

  /** The total size of the members, one member further. */
  lemma {:induction false} TotalAppend(ms: seq<seq<byte>>, m: seq<byte>)
    ensures Chunks.TotalLength(ms + [m]) == Chunks.TotalLength(ms) + |m|
  {
    if ms != [] {
      assert (ms + [m])[1..] == ms[1..] + [m];
      TotalAppend(ms[1..], m);
    }
  }

  // ---------------------------------------------------------------------
  // A client

  /** Packs `members` into an archive, writes it, reads the written file back and enumerates it. */
  method PackThenUnpack(md5: Md5, members: seq<seq<byte>>)
    returns (writeErr: WriteError, readErr: ReadError, unpacked: seq<seq<byte>>)
    requires Chunks.Representable(members) && members != []
    ensures writeErr == WriteError.Success && readErr == ReadError.Success
    ensures unpacked == members
  {
    var packer := new Archive(md5);
    packer.LoadMembersFrom(members);
    Chunks.PackRoundTrip(members);
    var file;
    writeErr, file := packer.FlushToFile(true);
    assert file == ArchiveFile(packer.cipher, md5, members);
    var reader := new Archive(md5);
    readErr := reader.ReadFromFile(Some(file));
    FileRoundTrip(packer.cipher, md5, members);
    unpacked := reader.ForEach();
  }
}
