/** The two ergonomic uploads: a whole buffer, and a stream of byte chunks. */
module Uploader {
  import opened Wrappers
  import opened Upload
  import opened Rechunker

  const DEFAULT_CHUNK_SIZE: ChunkSize := 1048576

  datatype UploadFailure =
    | FileTooLarge(sizeBytes: nat, limit: nat)
    | ClientSide(error: UploadError)
    | Upstream(status: Status)

  /** How the server answers a stream: it takes at most `patience` messages
      before answering, and its answer depends on what it got and on whether it
      saw the stream end. */
  datatype Server = Server(patience: nat, answer: (seq<UploadRequest>, bool) -> Option<Status>)

  function Payload(requests: seq<UploadRequest>): seq<Byte> {
    if requests == [] then [] else requests[0].chunk + Payload(requests[1..])
  }

  /** The server accepts only a stream that ended, and whose bytes add up to the
      size its first message declares. */
  ghost predicate Committing(server: Server) {
    forall requests: seq<UploadRequest>, ended: bool :: server.answer(requests, ended).None? ==>
      ended && requests != [] && |Payload(requests)| == requests[0].sizeBytes
  }

  /** The messages of an in-memory upload, metadata taken by the first of them. */
  method ChunkUploadRequests(c: ChunkSize, metadata: Metadata, bytes: seq<Byte>)
    returns (requests: seq<UploadRequest>)
    ensures requests == Requests(metadata, |bytes|, Chunks(c, bytes))
  {
    var chunkCount := if bytes == [] then 1 else (|bytes| + c - 1) / c;
    var held := Some(metadata);
    ghost var chunks := Chunks(c, bytes);
    ChunkCount(c, bytes);
    requests := [];
    for index := 0 to chunkCount
      invariant requests == Requests(metadata, |bytes|, chunks[..index])
      invariant held == if index == 0 then Some(metadata) else None
    {
      ChunkBounds(c, bytes, index);
      var start := index * c;
      var end := Min(start + c, |bytes|);
      var chunk := bytes[start..end];
      var request;
      match held {
        case Some(m) =>
          request := UploadRequest(m.tenantId, m.bucket, m.fileId, |bytes|, m.contentType, m.checksum,
                                   chunk, m.requestId);
          held := None;
        case None =>
          request := UploadRequest("", "", "", 0, "", [], chunk, "");
      }
      requests := requests + [request];
    }
    assert chunks[..chunkCount] == chunks;
  }

  lemma {:induction false} ChunkCount(c: ChunkSize, bytes: seq<Byte>)
    ensures |Chunks(c, bytes)| == if bytes == [] then 1 else (|bytes| + c - 1) / c
    decreases |bytes|
  {
    if |bytes| > c {
      ChunkCount(c, bytes[c..]);
      QuotientStep(|bytes| - 1, c);
    } else if bytes != [] {
      SmallQuotient(|bytes| - 1, c);
      QuotientStep(|bytes| - 1 + c, c);
    }
  }

  lemma QuotientStep(n: nat, c: ChunkSize)
    requires n >= c
    ensures n / c == (n - c) / c + 1
    ensures (n + c) / c == n / c + 1
  {
    DivUnique(n, c, (n - c) / c + 1, (n - c) % c);
    DivUnique(n + c, c, n / c + 1, n % c);
  }

  lemma SmallQuotient(n: nat, c: ChunkSize)
    requires n < c
    ensures n / c == 0
  {
  }

  lemma {:induction false} ChunkBounds(c: ChunkSize, bytes: seq<Byte>, index: nat)
    requires index < |Chunks(c, bytes)|
    ensures 0 <= index * c <= Min(index * c + c, |bytes|) <= |bytes|
    ensures Chunks(c, bytes)[index] == bytes[index * c..Min(index * c + c, |bytes|)]
    decreases |bytes|
  {
    if index != 0 {
      ChunkBounds(c, bytes[c..], index - 1);
      assert index * c == (index - 1) * c + c;
    }
  }

  lemma {:induction false} PayloadOfRequests(chunks: seq<seq<Byte>>, requests: seq<UploadRequest>)
    requires |requests| == |chunks|
    requires forall i :: 0 <= i < |chunks| ==> requests[i].chunk == chunks[i]
    ensures Payload(requests) == Flatten(chunks)
    decreases |chunks|
  {
    if chunks != [] {
      PayloadOfRequests(chunks[1..], requests[1..]);
    }
  }

  /** The stream is over, and the slot holds the verdict. */
  ghost predicate Exhausted(state: RechunkState)
    reads state
  {
    && state.sent == Emitted(state.chunkSize, state.sizeBytes, state.origin)
    && state.errorSlot == Verdict(state.sizeBytes, state.origin)
    && state.source == Unpulled(state.sizeBytes, state.origin)
  }

  /** Polls a fresh stream to its end. */
  method Drain(state: RechunkState) returns (requests: seq<UploadRequest>)
    requires state.Valid() && state.Live() && state.sent == []
    modifies state
    ensures requests == Requests(state.attached, state.sizeBytes,
                                 Emitted(state.chunkSize, state.sizeBytes, state.origin))
    ensures state.errorSlot == Verdict(state.sizeBytes, state.origin)
    ensures state.source == Unpulled(state.sizeBytes, state.origin)
  {
    requests := [];
    var drained := false;
    while !drained
      invariant requests == Requests(state.attached, state.sizeBytes, state.sent)
      invariant !drained ==> state.Valid() && state.Live()
      invariant drained ==> Exhausted(state)
      decreases !drained, if !drained then state.Remaining() else 0
    {
      var message := state.Next();
      match message {
        case Some(request) => requests := requests + [request];
        case None => drained := true;
      }
    }
  }

  /** However a file is sliced into items, the stream of it is the in-memory
      upload of it, message by message, and ends without an error. */
  method StreamedIsInMemory(c: ChunkSize, metadata: Metadata, source: seq<Item>, bytes: seq<Byte>)
    returns (streamed: seq<UploadRequest>, inMemory: seq<UploadRequest>, error: Option<UploadError>)
    requires EndsCleanly(source) && Delivered(source) == bytes
    ensures streamed == inMemory && error == None
  {
    var state := new RechunkState(c, |bytes|, metadata, source);
    streamed := Drain(state);
    error := state.errorSlot;
    inMemory := ChunkUploadRequests(c, metadata, bytes);
    SlicingIndependence(c, source, bytes);
  }

  /** Polls the stream for up to `polls` further messages. */
  method Poll(state: RechunkState, polls: nat) returns (messages: seq<UploadRequest>, drained: bool)
    requires state.Valid() && state.Live()
    modifies state
    ensures old(state.sent) <= state.sent && |messages| == |state.sent| - |old(state.sent)| <= polls
    ensures forall i :: 0 <= i < |messages| ==>
              messages[i] == RequestAt(state.attached, state.sizeBytes, |old(state.sent)| + i,
                                       state.sent[|old(state.sent)| + i])
    ensures if drained then Exhausted(state) else state.Valid() && state.Live() && |messages| == polls
  {
    messages, drained := [], false;
    while |messages| < polls && !drained
      invariant old(state.sent) <= state.sent && |messages| == |state.sent| - |old(state.sent)| <= polls
      invariant forall i :: 0 <= i < |messages| ==>
                  messages[i] == RequestAt(state.attached, state.sizeBytes, |old(state.sent)| + i,
                                           state.sent[|old(state.sent)| + i])
      invariant if drained then Exhausted(state) else state.Valid() && state.Live()
      decreases !drained, polls - |messages|
    {
      var message := state.Next();
      match message {
        case Some(request) => messages := messages + [request];
        case None => drained := true;
      }
    }
  }

  /** Hands the server the messages of a stream until it answers; by then the
      transport may have polled the stream for up to `ahead` messages more. */
  method UploadRaw(state: RechunkState, server: Server, ahead: nat)
    returns (received: seq<UploadRequest>, ended: bool, drained: bool, answer: Option<Status>)
    requires state.Valid() && state.Live() && state.sent == []
    modifies state
    ensures var chunks := Emitted(state.chunkSize, state.sizeBytes, state.origin);
            && |received| <= |chunks|
            && received == Requests(state.attached, state.sizeBytes, chunks[..|received|])
            && (if ended then |received| == |chunks| else |received| == server.patience)
    ensures ended ==> drained
    ensures answer == server.answer(received, ended)
    ensures state.errorSlot == if drained then Verdict(state.sizeBytes, state.origin) else None
  {
    received, ended := Poll(state, server.patience);
    drained := ended;
    answer := server.answer(received, ended);
    if !ended {
      ghost var taken := state.sent;
      assert received == Requests(state.attached, state.sizeBytes, taken);
      state.SentIsFirst();
      var more;
      more, drained := Poll(state, ahead);
    }
  }

  lemma ReceivedWhole(c: ChunkSize, metadata: Metadata, sizeBytes: nat, source: seq<Item>,
                      received: seq<UploadRequest>, server: Server)
    requires received == Requests(metadata, sizeBytes, Emitted(c, sizeBytes, source))
    requires Committing(server) && server.answer(received, true).None?
    ensures Verdict(sizeBytes, source).None?
    ensures Payload(received) == Delivered(source) && |Delivered(source)| == sizeBytes
  {
    PayloadOfRequests(Emitted(c, sizeBytes, source), received);
    VerdictAgreement(c, sizeBytes, source);
    EmittedIsFaithful(c, sizeBytes, source);
    SuccessCondition(sizeBytes, source);
  }

  /** Uploads a caller's stream. An error the client has recorded wins over the
      server's answer; against a committing server the two never disagree, and what
      was committed is exactly what the source delivered. */
  method UploadFileChunked(c: ChunkSize, maxFileBytes: nat, metadata: Metadata, sizeBytes: nat,
                           source: seq<Item>, server: Server, ahead: nat)
    returns (r: Result<(), UploadFailure>, received: seq<UploadRequest>, ended: bool, drained: bool)
    ensures sizeBytes > maxFileBytes ==>
              r == Err(FileTooLarge(sizeBytes, maxFileBytes)) && received == [] && !ended && !drained
    ensures sizeBytes <= maxFileBytes ==>
              var chunks := Emitted(c, sizeBytes, source);
              && |received| <= |chunks|
              && received == Requests(metadata, sizeBytes, chunks[..|received|])
              && (if ended then |received| == |chunks| else |received| == server.patience)
    ensures ended ==> drained
    ensures sizeBytes <= maxFileBytes && drained && Verdict(sizeBytes, source).Some? ==>
              r == Err(ClientSide(Verdict(sizeBytes, source).value))
    ensures sizeBytes <= maxFileBytes && (!drained || Verdict(sizeBytes, source).None?) ==>
              r == if server.answer(received, ended).None? then Ok(())
                   else Err(Upstream(server.answer(received, ended).value))
    ensures sizeBytes <= maxFileBytes && Committing(server) ==>
              && (r.Ok? <==> server.answer(received, ended).None?)
              && (r.Ok? ==> Payload(received) == Delivered(source) && |Delivered(source)| == sizeBytes)
  {
    if sizeBytes > maxFileBytes {
      return Err(FileTooLarge(sizeBytes, maxFileBytes)), [], false, false;
    }
    var state := new RechunkState(c, sizeBytes, metadata, source);
    var answer;
    received, ended, drained, answer := UploadRaw(state, server, ahead);
    if Committing(server) && answer.None? {
      assert received == Requests(metadata, sizeBytes, Emitted(c, sizeBytes, source));
      ReceivedWhole(c, metadata, sizeBytes, source, received, server);
    }
    match state.errorSlot {
      case Some(error) => r := Err(ClientSide(error));
      case None => r := if answer.None? then Ok(()) else Err(Upstream(answer.value));
    }
  }
}
