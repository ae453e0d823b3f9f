/** A download checked against the metadata it started from, chunk by chunk. */
module Download {
  import opened Wrappers

  /** SHA-256, of which nothing is used but that it is a function of the bytes. */
  type Digest = seq<Byte> -> seq<Byte>

  datatype Failure =
    | SizeMismatch(expected: nat, actual: nat)
    | ChecksumMismatch(recorded: seq<Byte>, computed: seq<Byte>)
    | WriteRefused
    | StreamFailed(code: int)

  /** What the server's stream yields: a chunk, or the status it breaks off with. */
  datatype Message = Chunk(bytes: seq<Byte>) | Broken(code: int)

  /** The bytes of the chunks before the stream ends or breaks. */
  function Bytes(stream: seq<Message>): seq<Byte> {
    if stream == [] || stream[0].Broken? then [] else stream[0].bytes + Bytes(stream[1..])
  }

  predicate Unbroken(stream: seq<Message>) {
    stream == [] || (stream[0].Chunk? && Unbroken(stream[1..]))
  }

  lemma {:induction false} OneMoreChunk(stream: seq<Message>, bytes: seq<Byte>)
    requires Unbroken(stream)
    ensures Unbroken(stream + [Chunk(bytes)]) && Bytes(stream + [Chunk(bytes)]) == Bytes(stream) + bytes
    decreases |stream|
  {
    if stream == [] {
      assert [Chunk(bytes)][1..] == [];
      assert [] + [Chunk(bytes)] == [Chunk(bytes)];
      assert bytes + [] == bytes;
    } else {
      assert (stream + [Chunk(bytes)])[1..] == stream[1..] + [Chunk(bytes)];
      OneMoreChunk(stream[1..], bytes);
    }
  }

  function Saturating(n: nat): nat {
    if n > U64_MAX then U64_MAX else n
  }

  /** A writer that refuses every byte after the first `room`, if it has a limit. */
  class Writer {
    var contents: seq<Byte>
    const room: Option<nat>
    const flushes: bool

    constructor (room: Option<nat>, flushes: bool)
      ensures contents == [] && this.room == room && this.flushes == flushes
    {
      contents, this.room, this.flushes := [], room, flushes;
    }

    predicate Fits(n: nat) {
      room.None? || n <= room.value
    }

    predicate Valid()
      reads this
    {
      Fits(|contents|)
    }

    method WriteAll(bytes: seq<Byte>) returns (ok: bool)
      requires Valid()
      modifies this`contents
      ensures Valid()
      ensures ok == old(Fits(|contents| + |bytes|))
      ensures ok ==> contents == old(contents) + bytes
      ensures !ok ==> contents == old(contents) + bytes[..room.value - |old(contents)|]
    {
      ok := Fits(|contents| + |bytes|);
      contents := contents + if ok then bytes else bytes[..room.value - |contents|];
    }
  }

  /** The running state of one verified download. */
  class VerifiedDownload {
    const expectedSize: nat
    var written: nat
    /** Everything the hasher was fed. */
    var hashed: seq<Byte>

    constructor (expectedSize: nat)
      ensures this.expectedSize == expectedSize && hashed == [] && Valid()
    {
      this.expectedSize, this.written, this.hashed := expectedSize, 0, [];
    }

    predicate Valid()
      reads this
    {
      written == Saturating(|hashed|)
    }

    /** Hashes and counts a chunk before anyone else sees it. */
    method Record(chunk: seq<Byte>) returns (failure: Option<Failure>)
      requires Valid()
      modifies this
      ensures Valid() && hashed == old(hashed) + chunk
      ensures failure == if Saturating(|hashed|) > expectedSize
                         then Some(SizeMismatch(expectedSize, Saturating(|hashed|))) else None
    {
      hashed := hashed + chunk;
      written := if written + |chunk| > U64_MAX then U64_MAX else written + |chunk|;
      failure := if written > expectedSize then Some(SizeMismatch(expectedSize, written)) else None;
    }

    /** Records a chunk and only then writes it: an overshooting chunk is never
        handed to the writer. */
    method Absorb(writer: Writer, chunk: seq<Byte>) returns (failure: Option<Failure>)
      requires Valid() && writer.Valid() && writer.contents == hashed
      modifies this, writer
      ensures Valid() && writer.Valid() && hashed == old(hashed) + chunk
      ensures old(writer.contents) <= writer.contents <= hashed
      ensures failure.None? <==> Saturating(|hashed|) <= expectedSize && writer.Fits(|hashed|)
      ensures failure.None? ==> writer.contents == hashed
      ensures failure.Some? ==>
                failure.value == (if Saturating(|hashed|) > expectedSize
                                  then SizeMismatch(expectedSize, Saturating(|hashed|)) else WriteRefused)
      ensures Saturating(|hashed|) > expectedSize ==> writer.contents == old(writer.contents)
    {
      failure := Record(chunk);
      if failure.Some? {
        return;
      }
      var ok := writer.WriteAll(chunk);
      failure := if ok then None else Some(WriteRefused);
    }

    /** The size is checked before the digest. */
    method Finish(digest: Digest, expectedChecksum: seq<Byte>) returns (r: Result<nat, Failure>)
      requires Valid()
      ensures r == if Saturating(|hashed|) != expectedSize
                   then Err(SizeMismatch(expectedSize, Saturating(|hashed|)))
                   else if digest(hashed) != expectedChecksum
                   then Err(ChecksumMismatch(expectedChecksum, digest(hashed)))
                   else Ok(expectedSize)
    {
      if written != expectedSize {
        return Err(SizeMismatch(expectedSize, written));
      }
      var actual := digest(hashed);
      if actual != expectedChecksum {
        return Err(ChecksumMismatch(expectedChecksum, actual));
      }
      return Ok(written);
    }
  }

  /** Everything a verified download asks of the stream and of the writer. */
  ghost predicate Sound(stream: seq<Message>, room: Option<nat>, flushes: bool,
                        expectedSize: nat, digest: Digest, checksum: seq<Byte>)
  {
    && Unbroken(stream)
    && Saturating(|Bytes(stream)|) == expectedSize
    && (room.None? || |Bytes(stream)| <= room.value)
    && flushes
    && digest(Bytes(stream)) == checksum
  }

  /** The chunks before message `at` were hashed, counted and written without fault. */
  predicate Through(stream: seq<Message>, at: nat, room: Option<nat>, expectedSize: nat)
    requires at <= |stream|
  {
    && Unbroken(stream[..at])
    && Saturating(|Bytes(stream[..at])|) <= expectedSize
    && (room.None? || |Bytes(stream[..at])| <= room.value)
  }

  /** What goes wrong with message `at`, if anything: the stream breaks, or the
      chunk overshoots, or the writer refuses it, in this order. */
  function Fault(stream: seq<Message>, at: nat, room: Option<nat>, expectedSize: nat): Option<Failure>
    requires at < |stream|
  {
    if stream[at].Broken? then Some(StreamFailed(stream[at].code))
    else
      var total := |Bytes(stream[..at])| + |stream[at].bytes|;
      if Saturating(total) > expectedSize then Some(SizeMismatch(expectedSize, Saturating(total)))
      else if room.Some? && total > room.value then Some(WriteRefused)
      else None
  }

  lemma {:induction false} SplitAt(stream: seq<Message>, at: nat)
    requires at <= |stream| && Unbroken(stream[..at])
    ensures Bytes(stream) == Bytes(stream[..at]) + Bytes(stream[at..])
    ensures Unbroken(stream) == Unbroken(stream[at..])
    decreases at
  {
    if at == 0 {
      assert stream[..0] == [] && stream[0..] == stream;
    } else {
      assert stream[..at][1..] == stream[1..][..at - 1] && stream[at..] == stream[1..][at - 1..];
      SplitAt(stream[1..], at - 1);
    }
  }

  /** One more message: the faultless part grows by it, or it has its fault. */
  lemma OneFurther(stream: seq<Message>, at: nat, room: Option<nat>, expectedSize: nat)
    requires at < |stream| && Through(stream, at, room, expectedSize)
    ensures Fault(stream, at, room, expectedSize).None? <==> Through(stream, at + 1, room, expectedSize)
    ensures stream[at].Chunk? ==> Bytes(stream[..at + 1]) == Bytes(stream[..at]) + stream[at].bytes
  {
    assert stream[..at + 1] == stream[..at] + [stream[at]];
    if stream[at].Chunk? {
      OneMoreChunk(stream[..at], stream[at].bytes);
    } else {
      SplitAt(stream[..at + 1], at);
      assert stream[..at + 1][..at] == stream[..at] && stream[..at + 1][at..] == [stream[at]];
    }
  }

  /** A stream with a fault anywhere is not sound. */
  lemma FaultIsUnsound(stream: seq<Message>, at: nat, room: Option<nat>, flushes: bool,
                       expectedSize: nat, digest: Digest, checksum: seq<Byte>)
    requires at < |stream| && Through(stream, at, room, expectedSize)
    requires Fault(stream, at, room, expectedSize).Some?
    ensures !Sound(stream, room, flushes, expectedSize, digest, checksum)
  {
    SplitAt(stream, at);
    if stream[at].Chunk? {
      assert Bytes(stream[at..]) == stream[at].bytes + Bytes(stream[at + 1..]);
    }
  }

  /** Takes one message: hashes, counts and writes its chunk, unless it has a fault. */
  method TakeOne(stream: seq<Message>, at: nat, verified: VerifiedDownload, writer: Writer)
    returns (failure: Option<Failure>)
    requires at < |stream| && Through(stream, at, writer.room, verified.expectedSize)
    requires verified.Valid() && writer.Valid() && verified.hashed == writer.contents == Bytes(stream[..at])
    modifies verified, writer
    ensures verified.Valid() && writer.Valid()
    ensures failure == Fault(stream, at, writer.room, verified.expectedSize)
    ensures failure.None? ==>
              && Through(stream, at + 1, writer.room, verified.expectedSize)
              && verified.hashed == writer.contents == Bytes(stream[..at + 1])
    ensures old(writer.contents) <= writer.contents <= Bytes(stream)
    ensures failure != Some(WriteRefused) && failure.Some? ==> writer.contents == old(writer.contents)
  {
    OneFurther(stream, at, writer.room, verified.expectedSize);
    SplitAt(stream, at);
    match stream[at] {
      case Broken(code) => failure := Some(StreamFailed(code));
      case Chunk(bytes) =>
        assert Bytes(stream[at..]) == bytes + Bytes(stream[at..][1..]);
        failure := verified.Absorb(writer, bytes);
        assert Bytes(stream) == verified.hashed + Bytes(stream[at..][1..]);
    }
  }

  /** Takes the stream's messages up to its first fault. */
  method Transfer(stream: seq<Message>, verified: VerifiedDownload, writer: Writer)
    returns (failure: Option<Failure>, at: nat)
    requires verified.Valid() && verified.hashed == [] && writer.Valid() && writer.contents == []
    modifies verified, writer
    ensures verified.Valid() && writer.Valid()
    ensures at <= |stream| && Through(stream, at, writer.room, verified.expectedSize)
    ensures at < |stream| ==> failure.Some? && failure == Fault(stream, at, writer.room, verified.expectedSize)
    ensures at == |stream| ==> failure.None? && verified.hashed == Bytes(stream)
    ensures Bytes(stream[..at]) <= writer.contents <= Bytes(stream)
    ensures failure != Some(WriteRefused) ==> writer.contents == Bytes(stream[..at])
  {
    at := 0;
    while at < |stream|
      invariant at <= |stream| && Through(stream, at, writer.room, verified.expectedSize)
      invariant verified.Valid() && writer.Valid()
      invariant verified.hashed == writer.contents == Bytes(stream[..at])
    {
      failure := TakeOne(stream, at, verified, writer);
      if failure.Some? {
        return;
      }
      at := at + 1;
    }
    failure := None;
    assert stream[..at] == stream;
  }

  /** Streams a download into a fresh `writer` and reports how many bytes it carried.
      `at` is how many messages went through without fault. */
  method DownloadVerifiedInto(stream: seq<Message>, expectedSize: nat, digest: Digest,
                              checksum: seq<Byte>, writer: Writer)
    returns (r: Result<nat, Failure>, ghost at: nat)
    requires writer.Valid() && writer.contents == [] && expectedSize <= U64_MAX
    modifies writer
    ensures at <= |stream| && Through(stream, at, writer.room, expectedSize)
    ensures Bytes(stream[..at]) <= writer.contents <= Bytes(stream)
    ensures |writer.contents| <= expectedSize || expectedSize == U64_MAX
    ensures r.Ok? <==> Sound(stream, writer.room, writer.flushes, expectedSize, digest, checksum)
    ensures r.Ok? ==> r.value == expectedSize && writer.contents == Bytes(stream)
    ensures at < |stream| && stream[at].Broken? ==> r == Err(StreamFailed(stream[at].code))
    ensures r.Err? && r.error.StreamFailed? ==> at < |stream| && stream[at].Broken?
    ensures at < |stream| && stream[at].Chunk? ==>
              var count := |Bytes(stream[..at + 1])|;
              if Saturating(count) > expectedSize then r == Err(SizeMismatch(expectedSize, Saturating(count)))
              else r == Err(WriteRefused) && !writer.Fits(count)
    ensures at < |stream| && r != Err(WriteRefused) ==> writer.contents == Bytes(stream[..at])
    ensures r.Ok? ==>
              && at == |stream| && Saturating(|Bytes(stream)|) == expectedSize
              && digest(Bytes(stream)) == checksum && writer.flushes
    ensures at == |stream| && r.Err? ==>
              if |Bytes(stream)| < expectedSize then r.error == SizeMismatch(expectedSize, |Bytes(stream)|)
              else if digest(Bytes(stream)) != checksum
              then r.error == ChecksumMismatch(checksum, digest(Bytes(stream)))
              else r.error == WriteRefused && !writer.flushes
  {
    var verified := new VerifiedDownload(expectedSize);
    var failure, n := Transfer(stream, verified, writer);
    at := n;
    if failure.Some? {
      OneFurther(stream, n, writer.room, expectedSize);
      FaultIsUnsound(stream, n, writer.room, writer.flushes, expectedSize, digest, checksum);
      return Err(failure.value), at;
    }
    assert stream[..n] == stream;
    var outcome := verified.Finish(digest, checksum);
    if outcome.Err? {
      return outcome, at;
    }
    r := if writer.flushes then outcome else Err(WriteRefused);
  }

  /** Below the largest 64-bit size the saturating count is the count, so success
      means the stream carries exactly the promised number of bytes. At that one
      size it is not: a longer stream passes the size check as well. */
  lemma CountIsExact(expectedSize: nat)
    requires expectedSize <= U64_MAX
    ensures (forall total: nat :: Saturating(total) == expectedSize <==> total == expectedSize)
            <==> expectedSize < U64_MAX
  {
    assert Saturating(U64_MAX + 1) == U64_MAX;
  }
}
