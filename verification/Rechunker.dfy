/** The streaming re-chunker: a bounded buffer between a caller's arbitrarily
    sliced, fallible stream and the fixed-size messages of an upload. */
module Rechunker {
  import opened Wrappers
  import opened Upload

  class RechunkState {
    const chunkSize: ChunkSize
    const sizeBytes: nat

    /** What the caller's stream has still to yield. */
    var source: seq<Item>
    var buffer: seq<Byte>
    var pending: seq<Byte>
    var pendingOffset: nat
    var totalWritten: nat
    var wroteAny: bool
    var sourceExhausted: bool
    var metadata: Option<Metadata>
    var errorSlot: Option<UploadError>

    /** The whole source and metadata, as handed over. */
    ghost const origin: seq<Item>
    ghost const attached: Metadata
    /** Every byte pulled from the source so far, and every chunk sent. */
    ghost var pulled: seq<Byte>
    ghost var sent: seq<seq<Byte>>

    constructor (chunkSize: ChunkSize, sizeBytes: nat, metadata: Metadata, source: seq<Item>)
      ensures Valid() && Live()
      ensures this.chunkSize == chunkSize && this.sizeBytes == sizeBytes
      ensures origin == source && attached == metadata && sent == []
    {
      this.chunkSize, this.sizeBytes := chunkSize, sizeBytes;
      this.source, this.buffer, this.pending, this.pendingOffset := source, [], [], 0;
      this.totalWritten, this.wroteAny, this.sourceExhausted := 0, false, false;
      this.metadata, this.errorSlot := Some(metadata), None;
      this.origin, this.attached, this.pulled, this.sent := source, metadata, [], [];
    }

    /** The undrained tail of an oversized source item. */
    function PendingTail(): seq<Byte>
      requires pendingOffset <= |pending|
      reads this
    {
      pending[pendingOffset..]
    }

    /** The buffer is at most one chunk, no byte is lost or reordered between the
        source and the wire, and the running totals describe what was sent. */
    ghost predicate Valid()
      reads this
    {
      && |buffer| <= chunkSize
      && pendingOffset <= |pending|
      && (!HasPending() ==> pending == [] && pendingOffset == 0)
      && Flatten(sent) + (buffer + PendingTail()) == pulled
      && totalWritten == |Flatten(sent)|
      && wroteAny == (sent != [])
      && metadata == (if sent == [] then Some(attached) else None)
      && (CutWhole(chunkSize, sent) || Flushed())
    }

    /** The last, possibly short, chunk is out. */
    ghost predicate Flushed()
      reads this
    {
      sourceExhausted && buffer == [] && pending == [] && CutToTheEnd(chunkSize, sent)
    }

    /** The stream has not ended: no error, and what is left of the source
        continues the reading of the whole of it. */
    ghost predicate Live()
      reads this
    {
      && errorSlot.None?
      && |pulled| <= sizeBytes
      && (sourceExhausted || sent == [] || totalWritten < sizeBytes)
      && InStep(origin, sizeBytes, source, pulled, sourceExhausted)
    }

    /** The source has just gone past the declared size; nothing more is sent. */
    ghost predicate Overrun()
      reads this
    {
      && errorSlot.None?
      && |pulled| > sizeBytes
      && Read(origin, sizeBytes, []).Overshot?
      && source == Read(origin, sizeBytes, []).rest
      && sent == Emitted(chunkSize, sizeBytes, origin)
    }

    /** Bounds the messages still to come. */
    ghost function Remaining(): nat
      requires pendingOffset <= |pending|
      reads this
    {
      (if sourceExhausted then 0 else |Delivered(source)|) + |buffer| + |PendingTail()| + (if wroteAny then 0 else 1)
    }

    /** Declared bytes held but not emitted. */
    function UnsentLen(): (n: nat)
      requires Valid()
      reads this
      ensures totalWritten + n == |pulled|
    {
      |buffer| + (|pending| - pendingOffset)
    }

    predicate HasPending()
      reads this
    {
      pendingOffset < |pending|
    }

    /** Turns `chunk` into the next message; the metadata leaves with the first. */
    method NextRequest(chunk: seq<Byte>) returns (r: UploadRequest)
      modifies this`metadata
      ensures metadata == None
      ensures r == match old(metadata)
                   case Some(m) => FirstRequest(m, sizeBytes, chunk)
                   case None => LaterRequest(chunk)
    {
      match metadata
      case Some(m) =>
        metadata := None;
        r := UploadRequest(m.tenantId, m.bucket, m.fileId, sizeBytes, m.contentType, m.checksum, chunk, m.requestId);
      case None =>
        r := UploadRequest("", "", "", 0, "", [], chunk, "");
    }

    /** Takes in a source item without ever growing the buffer past one chunk. */
    method Ingest(piece: seq<Byte>)
      requires |buffer| <= chunkSize
      requires !HasPending() && pending == [] && pendingOffset == 0
      modifies this`buffer, this`pending, this`pendingOffset
      ensures |buffer| <= chunkSize
      ensures pendingOffset <= |pending| && (!HasPending() ==> pending == [] && pendingOffset == 0)
      ensures buffer + PendingTail() == old(buffer) + piece
      ensures HasPending() ==> |buffer| == chunkSize
    {
      var spaceLeft := chunkSize - |buffer|;
      if |piece| <= spaceLeft {
        buffer := buffer + piece;
      } else {
        buffer := buffer + piece[..spaceLeft];
        pending := piece;
        pendingOffset := spaceLeft;
      }
    }

    /** Moves pending bytes into whatever room the buffer has. */
    method DrainPending()
      requires |buffer| <= chunkSize && pendingOffset <= |pending|
      requires !HasPending() ==> pending == [] && pendingOffset == 0
      modifies this`buffer, this`pending, this`pendingOffset
      ensures |buffer| <= chunkSize
      ensures pendingOffset <= |pending| && (!HasPending() ==> pending == [] && pendingOffset == 0)
      ensures buffer + PendingTail() == old(buffer + PendingTail())
      ensures |buffer| == chunkSize || !HasPending()
    {
      if !HasPending() {
        return;
      }
      var spaceLeft := chunkSize - |buffer|;
      var available := |pending| - pendingOffset;
      var take := Min(spaceLeft, available);
      var end := pendingOffset + take;
      ghost var tail := PendingTail();
      assert tail == pending[pendingOffset..end] + pending[end..];
      buffer := buffer + pending[pendingOffset..end];
      pendingOffset := end;
      if !HasPending() {
        pending := [];
        pendingOffset := 0;
      }
    }

    /** What is out so far is a first part of all that will be. */
    lemma SentIsFirst()
      requires Valid() && Live()
      ensures sent <= Emitted(chunkSize, sizeBytes, origin)
    {
      ReadGrows(if sourceExhausted then [] else source, sizeBytes, pulled);
      var out := Flatten(sent);
      assert out <= pulled;
      if Flushed() {
        assert out + (buffer + PendingTail()) == out;
      } else {
        WholeChunksAreEmittedFirst(chunkSize, sizeBytes, origin, out);
      }
    }

    /** A full chunk leaves the buffer. */
    method EmitFullChunk() returns (request: UploadRequest)
      requires Valid() && Live() && |buffer| == chunkSize
      requires sourceExhausted || totalWritten + chunkSize != sizeBytes
      modifies this`buffer, this`totalWritten, this`wroteAny, this`metadata, this`sent
      ensures Valid() && Live()
      ensures Remaining() < old(Remaining())
      ensures sent == old(sent) + [request.chunk]
      ensures request == RequestAt(attached, sizeBytes, |old(sent)|, request.chunk)
    {
      var piece := buffer[..chunkSize];
      assert buffer == piece && buffer + PendingTail() == piece + PendingTail();
      assert Flatten(sent) + (piece + PendingTail()) == Flatten(sent) + piece + PendingTail();
      WholeChunkOut(chunkSize, sent, piece);
      buffer := buffer[chunkSize..];
      assert buffer + PendingTail() == PendingTail();
      totalWritten := totalWritten + chunkSize;
      wroteAny := true;
      request := NextRequest(piece);
      sent := sent + [piece];
    }

    /** The source is done: what is buffered leaves as the last chunk. */
    method Flush() returns (request: UploadRequest)
      requires Valid() && Live() && !HasPending() && sourceExhausted
      requires |buffer| < chunkSize && (buffer != [] || !wroteAny)
      modifies this`buffer, this`totalWritten, this`wroteAny, this`metadata, this`sent
      ensures Valid() && Live()
      ensures Remaining() < old(Remaining())
      ensures sent == old(sent) + [request.chunk]
      ensures request == RequestAt(attached, sizeBytes, |old(sent)|, request.chunk)
    {
      var piece := buffer;
      assert buffer + PendingTail() == piece;
      LastChunkOut(chunkSize, sent, piece);
      totalWritten := totalWritten + |buffer|;
      wroteAny := true;
      buffer := [];
      assert Flatten(sent) + piece + (buffer + PendingTail()) == Flatten(sent) + piece;
      request := NextRequest(piece);
      sent := sent + [piece];
    }

    /** Takes in the item just pulled, which may be the one that goes too far. */
    method Accept(piece: seq<Byte>, ghost before: seq<Item>)
      requires Valid() && !HasPending() && !sourceExhausted && errorSlot.None?
      requires |pulled| <= sizeBytes && (sent == [] || totalWritten < sizeBytes)
      requires before != [] && before[0] == Piece(piece) && source == before[1..]
      requires InStep(origin, sizeBytes, before, pulled, false)
      requires sent == Released(chunkSize, sizeBytes, pulled)
      modifies this`buffer, this`pending, this`pendingOffset, this`pulled
      ensures Valid() && (Live() || Overrun())
      ensures |buffer| + |PendingTail()| == old(|buffer|) + |piece|
    {
      PieceRead(origin, sizeBytes, before, pulled);
      ghost var held := buffer + PendingTail();
      assert held == buffer;
      Ingest(piece);
      assert (Flatten(sent) + held) + piece == Flatten(sent) + (held + piece);
      assert |buffer + PendingTail()| == |held + piece|;
      pulled := pulled + piece;
    }

    /** Asks the source for one item. `stop` when it failed with bytes missing. */
    method Pull() returns (stop: bool)
      requires Valid() && Live() && !HasPending() && !sourceExhausted
      requires |buffer| < chunkSize || totalWritten + chunkSize == sizeBytes
      modifies this`source, this`buffer, this`pending, this`pendingOffset, this`sourceExhausted,
               this`errorSlot, this`pulled
      ensures stop ==>
                && sent == Emitted(chunkSize, sizeBytes, origin)
                && errorSlot == Verdict(sizeBytes, origin)
                && source == Unpulled(sizeBytes, origin)
      ensures !stop ==> Valid() && (Live() || Overrun()) && Remaining() <= old(Remaining())
      ensures !stop ==> |source| < old(|source|) || (sourceExhausted && source == old(source))
    {
      assert pulled == Flatten(sent) + buffer by { assert buffer + PendingTail() == buffer; }
      HeldBack(chunkSize, sizeBytes, Flatten(sent), buffer);
      if source == [] {
        sourceExhausted := true;
        return false;
      }
      var item := source[0];
      ghost var before := source;
      source := source[1..];
      match item {
        case Piece(piece) =>
          Accept(piece, before);
          return false;
        case Failure(error) =>
          if sizeBytes > 0 && totalWritten + UnsentLen() == sizeBytes {
            sourceExhausted := true;
            return false;
          }
          errorSlot := Some(SourceFailed(error));
          return true;
      }
    }

    /** One poll of the outgoing stream: the next message, or the end of it. */
    method Next() returns (r: Option<UploadRequest>)
      requires Valid() && Live()
      modifies this
      ensures r.Some? ==>
                && Valid() && Live()
                && sent == old(sent) + [r.value.chunk]
                && r.value == RequestAt(attached, sizeBytes, |old(sent)|, r.value.chunk)
                && Remaining() < old(Remaining())
      ensures r.None? ==>
                && sent == old(sent) == Emitted(chunkSize, sizeBytes, origin)
                && errorSlot == Verdict(sizeBytes, origin)
                && source == Unpulled(sizeBytes, origin)
    {
      while true
        invariant Valid() && (Live() || Overrun())
        invariant sent == old(sent) && Remaining() <= old(Remaining())
        decreases |source|, if sourceExhausted then 0 else 1, |pending| - pendingOffset
      {
        if totalWritten + UnsentLen() > sizeBytes {
          errorSlot := Some(TooManyBytes(sizeBytes));
          return None;
        }
        var completesTheFile := totalWritten + chunkSize == sizeBytes;
        if |buffer| >= chunkSize && (!completesTheFile || sourceExhausted) {
          var request := EmitFullChunk();
          return Some(request);
        }
        if HasPending() {
          DrainPending();
          continue;
        }
        if !sourceExhausted {
          var stop := Pull();
          if stop {
            return None;
          }
          continue;
        }
        if buffer != [] || !wroteAny {
          var request := Flush();
          return Some(request);
        }
        assert pulled == Flatten(sent);
        if !Flushed() { ChunksOfMultiple(chunkSize, Flatten(sent)); }
        if totalWritten != sizeBytes {
          errorSlot := Some(TooFewBytes(totalWritten, sizeBytes));
        }
        return None;
      }
    }
  }
}
