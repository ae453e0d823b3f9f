/** What an upload stream must carry: the requests of an in-memory upload, the
    outcome of re-chunking a fallible source, and the relation between the two. */
module Upload {
  import opened Wrappers

  type ChunkSize = n: int | 0 < n witness 1

  datatype IoError = IoError(code: int)

  /** One item of the caller's stream: `io::Result<Bytes>`. */
  datatype Item = Piece(bytes: seq<Byte>) | Failure(error: IoError)

  datatype UploadError =
    | TooManyBytes(declared: nat)
    | TooFewBytes(sent: nat, declared: nat)
    | SourceFailed(error: IoError)

  datatype Metadata = Metadata(
    tenantId: string, bucket: string, fileId: string,
    contentType: string, checksum: seq<Byte>, requestId: string)

  datatype UploadRequest = UploadRequest(
    tenantId: string, bucket: string, fileId: string, sizeBytes: nat,
    contentType: string, checksum: seq<Byte>, chunk: seq<Byte>, requestId: string)

  /** The message that opens the stream and carries the file's metadata. */
  function FirstRequest(m: Metadata, sizeBytes: nat, chunk: seq<Byte>): UploadRequest {
    UploadRequest(m.tenantId, m.bucket, m.fileId, sizeBytes, m.contentType, m.checksum, chunk, m.requestId)
  }

  /** Every later message: the chunk, and protobuf defaults for the rest. */
  function LaterRequest(chunk: seq<Byte>): UploadRequest {
    UploadRequest("", "", "", 0, "", [], chunk, "")
  }

  function RequestAt(m: Metadata, sizeBytes: nat, index: nat, chunk: seq<Byte>): UploadRequest {
    if index == 0 then FirstRequest(m, sizeBytes, chunk) else LaterRequest(chunk)
  }

  function Requests(m: Metadata, sizeBytes: nat, chunks: seq<seq<Byte>>): seq<UploadRequest> {
    seq(|chunks|, i requires 0 <= i < |chunks| => RequestAt(m, sizeBytes, i, chunks[i]))
  }

  /** The file's metadata travels on the first message and on no other; every
      message carries its own chunk. */
  lemma MetadataOnFirstOnly(m: Metadata, sizeBytes: nat, chunks: seq<seq<Byte>>, i: nat)
    requires i < |chunks|
    ensures var requests := Requests(m, sizeBytes, chunks);
            var r := requests[i];
            && |requests| == |chunks| && r.chunk == chunks[i]
            && r.tenantId == (if i == 0 then m.tenantId else "")
            && r.bucket == (if i == 0 then m.bucket else "")
            && r.fileId == (if i == 0 then m.fileId else "")
            && r.sizeBytes == (if i == 0 then sizeBytes else 0)
            && r.contentType == (if i == 0 then m.contentType else "")
            && r.checksum == (if i == 0 then m.checksum else [])
            && r.requestId == (if i == 0 then m.requestId else "")
  {
  }

  // ---- cutting bytes into chunks -------------------------------------------

  /** Only the full chunks of `data`; a shorter tail is left out. */
  function WholeChunks(c: ChunkSize, data: seq<Byte>): seq<seq<Byte>> {
    if |data| < c then [] else [data[..c]] + WholeChunks(c, data[c..])
  }

  /** Full chunks and then the tail; the empty file is one empty chunk. */
  function Chunks(c: ChunkSize, data: seq<Byte>): seq<seq<Byte>> {
    if |data| <= c then [data] else [data[..c]] + Chunks(c, data[c..])
  }

  /** `n` is a whole number of chunks. */
  predicate Aligned(c: ChunkSize, n: nat) {
    n == 0 || (n >= c && Aligned(c, n - c))
  }

  lemma {:induction false} WholeChunksAppend(c: ChunkSize, a: seq<Byte>, b: seq<Byte>)
    requires Aligned(c, |a|)
    ensures WholeChunks(c, a + b) == WholeChunks(c, a) + WholeChunks(c, b)
    decreases |a|
  {
    if |a| < c {
      assert |a| == 0;
      assert a + b == b;
    } else {
      WholeChunksAppend(c, a[c..], b);
      assert (a + b)[..c] == a[..c];
      assert (a + b)[c..] == a[c..] + b;
    }
  }

  lemma {:induction false} ChunksAppend(c: ChunkSize, a: seq<Byte>, b: seq<Byte>)
    requires Aligned(c, |a|) && b != []
    ensures Chunks(c, a + b) == WholeChunks(c, a) + Chunks(c, b)
    decreases |a|
  {
    if |a| < c {
      assert |a| == 0;
      assert a + b == b;
    } else {
      ChunksAppend(c, a[c..], b);
      assert (a + b)[..c] == a[..c];
      assert (a + b)[c..] == a[c..] + b;
    }
  }

  /** Only full chunks are out. */
  predicate CutWhole(c: ChunkSize, chunks: seq<seq<Byte>>) {
    chunks == WholeChunks(c, Flatten(chunks)) && Aligned(c, |Flatten(chunks)|)
  }

  /** The last chunk is out, too. */
  predicate CutToTheEnd(c: ChunkSize, chunks: seq<seq<Byte>>) {
    chunks != [] && chunks == Chunks(c, Flatten(chunks))
  }

  lemma WholeChunkOut(c: ChunkSize, chunks: seq<seq<Byte>>, piece: seq<Byte>)
    requires CutWhole(c, chunks) && |piece| == c
    ensures CutWhole(c, chunks + [piece]) && Flatten(chunks + [piece]) == Flatten(chunks) + piece
  {
    FlattenAppend(chunks, piece);
    WholeChunksAppend(c, Flatten(chunks), piece);
    assert piece[..c] == piece && WholeChunks(c, piece) == [piece];
  }

  lemma LastChunkOut(c: ChunkSize, chunks: seq<seq<Byte>>, piece: seq<Byte>)
    requires CutWhole(c, chunks) && |piece| < c && (piece != [] || chunks == [])
    ensures CutToTheEnd(c, chunks + [piece]) && Flatten(chunks + [piece]) == Flatten(chunks) + piece
  {
    FlattenAppend(chunks, piece);
    if piece != [] {
      ChunksAppend(c, Flatten(chunks), piece);
    }
  }

  /** A whole number of chunks is cut the same way with or without a tail rule. */
  lemma {:induction false} ChunksOfMultiple(c: ChunkSize, a: seq<Byte>)
    requires Aligned(c, |a|) && a != []
    ensures Chunks(c, a) == WholeChunks(c, a)
    decreases |a|
  {
    if |a| > c {
      ChunksOfMultiple(c, a[c..]);
    } else {
      assert |a| == c;
      assert a[..c] == a;
      assert a[c..] == [];
    }
  }

  lemma {:induction false} ChunksFlatten(c: ChunkSize, data: seq<Byte>)
    ensures Flatten(Chunks(c, data)) == data
    ensures Chunks(c, data) != []
    decreases |data|
  {
    if |data| <= c {
      assert Flatten([data]) == data + Flatten<Byte>([]);
    } else {
      ChunksFlatten(c, data[c..]);
      assert Chunks(c, data)[1..] == Chunks(c, data[c..]);
    }
  }

  lemma {:induction false} WholeChunksFlatten(c: ChunkSize, data: seq<Byte>)
    ensures Flatten(WholeChunks(c, data)) <= data
    ensures Aligned(c, |data|) ==> Flatten(WholeChunks(c, data)) == data
    decreases |data|
  {
    if |data| < c {
    } else {
      WholeChunksFlatten(c, data[c..]);
      assert WholeChunks(c, data)[1..] == WholeChunks(c, data[c..]);
      assert data == data[..c] + data[c..];
    }
  }

  /** The wire contract: every message but the last carries exactly one chunk's
      worth of bytes, the last at most that, and only an empty file an empty one. */
  ghost predicate WellCut(c: ChunkSize, chunks: seq<seq<Byte>>) {
    && (forall i :: 0 <= i < |chunks| - 1 ==> |chunks[i]| == c)
    && (forall i :: 0 <= i < |chunks| ==> |chunks[i]| <= c)
    && (|chunks| > 1 ==> forall i :: 0 <= i < |chunks| ==> chunks[i] != [])
  }

  /** `Chunks` is the only way to cut `data` that honours the wire contract. */
  lemma {:induction false} WellCutIsChunks(c: ChunkSize, chunks: seq<seq<Byte>>, data: seq<Byte>)
    requires chunks != [] && Flatten(chunks) == data
    ensures WellCut(c, chunks) <==> chunks == Chunks(c, data)
    decreases |chunks|
  {
    ChunksWellCut(c, data);
    if WellCut(c, chunks) {
      if |chunks| == 1 {
        assert chunks[1..] == [];
        assert data == chunks[0];
        assert chunks == [data];
      } else {
        var rest := chunks[1..];
        assert WellCut(c, rest) by {
          assert forall i :: 0 <= i < |rest| ==> rest[i] == chunks[i + 1];
        }
        WellCutIsChunks(c, rest, Flatten(rest));
        assert data == chunks[0] + Flatten(rest);
        assert chunks[1] != [] && Flatten(rest) == rest[0] + Flatten(rest[1..]);
        assert |data| > c && data[..c] == chunks[0] && data[c..] == Flatten(rest);
      }
    }
  }

  lemma {:induction false} ChunksWellCut(c: ChunkSize, data: seq<Byte>)
    ensures WellCut(c, Chunks(c, data))
    ensures data != [] ==> forall i :: 0 <= i < |Chunks(c, data)| ==> Chunks(c, data)[i] != []
    decreases |data|
  {
    if |data| > c {
      ChunksWellCut(c, data[c..]);
    }
  }

  // ---- the outcome of re-chunking a source ---------------------------------

  /** How the source behaves as seen against the declared size: it ends, it
      fails, or an item takes the total past the declaration. `data` is what the
      items before that point held, `rest` what is never pulled. */
  datatype Reading =
    | Ended(data: seq<Byte>)
    | Broken(data: seq<Byte>, error: IoError, rest: seq<Item>)
    | Overshot(data: seq<Byte>, rest: seq<Item>)

  function Read(items: seq<Item>, sizeBytes: nat, seen: seq<Byte>): Reading {
    if items == [] then Ended(seen)
    else match items[0]
      case Failure(e) => Broken(seen, e, items[1..])
      case Piece(b) =>
        if |seen + b| > sizeBytes then Overshot(seen, items[1..])
        else Read(items[1..], sizeBytes, seen + b)
  }

  /** What is left of a source, and whether it is done with, continue the reading
      of the whole of it from the bytes pulled so far. */
  predicate InStep(origin: seq<Item>, sizeBytes: nat, source: seq<Item>, pulled: seq<Byte>, exhausted: bool) {
    var reading := Read(origin, sizeBytes, []);
    if !exhausted then reading == Read(source, sizeBytes, pulled)
    else
      && reading.data == pulled
      && ((reading.Ended? && source == []) || (Forgiven(reading, sizeBytes) && source == reading.rest))
  }

  lemma PieceRead(origin: seq<Item>, sizeBytes: nat, source: seq<Item>, pulled: seq<Byte>)
    requires InStep(origin, sizeBytes, source, pulled, false) && source != [] && source[0].Piece?
    ensures var more := pulled + source[0].bytes;
            if |more| <= sizeBytes then InStep(origin, sizeBytes, source[1..], more, false)
            else Read(origin, sizeBytes, []) == Overshot(pulled, source[1..])
  {
  }

  /** The chunks out on the wire while the source may still yield more: all the
      full ones, except the one that would complete the file. */
  function Released(c: ChunkSize, sizeBytes: nat, data: seq<Byte>): seq<seq<Byte>> {
    WholeChunks(c, if 0 < sizeBytes <= |data| then data[..sizeBytes - 1] else data)
  }

  /** Every declared byte is in hand when the source fails (and there was one). */
  predicate Forgiven(reading: Reading, sizeBytes: nat) {
    reading.Broken? && sizeBytes > 0 && |reading.data| == sizeBytes
  }

  /** The chunks emitted over the whole life of the stream. */
  function Emitted(c: ChunkSize, sizeBytes: nat, items: seq<Item>): seq<seq<Byte>> {
    var reading := Read(items, sizeBytes, []);
    if reading.Ended? || Forgiven(reading, sizeBytes) then Chunks(c, reading.data)
    else Released(c, sizeBytes, reading.data)
  }

  /** The error left in the slot once the stream is over. */
  function Verdict(sizeBytes: nat, items: seq<Item>): Option<UploadError> {
    var reading := Read(items, sizeBytes, []);
    match reading
    case Ended(d) => if |d| == sizeBytes then None else Some(TooFewBytes(|d|, sizeBytes))
    case Broken(_, e, _) => if Forgiven(reading, sizeBytes) then None else Some(SourceFailed(e))
    case Overshot(_, _) => Some(TooManyBytes(sizeBytes))
  }

  /** The items that are never asked for. */
  function Unpulled(sizeBytes: nat, items: seq<Item>): seq<Item> {
    match Read(items, sizeBytes, [])
    case Ended(_) => []
    case Broken(_, _, rest) => rest
    case Overshot(_, rest) => rest
  }

  // ---- what the outcome promises -------------------------------------------

  /** The bytes of the items before the first failure. */
  function Delivered(items: seq<Item>): seq<Byte> {
    if items == [] || items[0].Failure? then [] else items[0].bytes + Delivered(items[1..])
  }

  predicate EndsCleanly(items: seq<Item>) {
    items == [] || (items[0].Piece? && EndsCleanly(items[1..]))
  }

  /** A server that commits exactly when the stream is whole. */
  predicate Complete(sizeBytes: nat, chunks: seq<seq<Byte>>) {
    chunks != [] && |Flatten(chunks)| == sizeBytes
  }

  lemma {:induction false} ReadFacts(items: seq<Item>, sizeBytes: nat, seen: seq<Byte>)
    requires |seen| <= sizeBytes
    ensures var r := Read(items, sizeBytes, seen);
            var all := seen + Delivered(items);
            && |r.data| <= sizeBytes
            && r.data <= all
            && (r.Overshot? <==> |all| > sizeBytes)
            && (!r.Overshot? ==> r.data == all)
            && (!r.Overshot? ==> (r.Ended? <==> EndsCleanly(items)))
    decreases |items|
  {
    if items == [] || items[0].Failure? {
      assert seen + [] == seen;
    } else {
      var b := items[0].bytes;
      assert seen + Delivered(items) == (seen + b) + Delivered(items[1..]);
      if |seen + b| <= sizeBytes {
        ReadFacts(items[1..], sizeBytes, seen + b);
      }
    }
  }

  /** The item that decides the outcome: everything before it was taken in, and it
      fails, overshoots, or is not there because the source ends. */
  predicate StopsAt(items: seq<Item>, sizeBytes: nat, k: nat) {
    && k <= |items|
    && EndsCleanly(items[..k])
    && |Delivered(items[..k])| <= sizeBytes
    && (k < |items| ==>
          items[k].Failure? || |Delivered(items[..k])| + |items[k].bytes| > sizeBytes)
  }

  lemma {:induction false} ReadStops(items: seq<Item>, sizeBytes: nat, seen: seq<Byte>) returns (k: nat)
    requires |seen| <= sizeBytes
    ensures k <= |items| && EndsCleanly(items[..k])
    ensures Read(items, sizeBytes, seen)
            == var data := seen + Delivered(items[..k]);
               if k == |items| then Ended(data)
               else if items[k].Failure? then Broken(data, items[k].error, items[k + 1..])
               else Overshot(data, items[k + 1..])
    ensures |seen| + |Delivered(items[..k])| <= sizeBytes
    ensures k < |items| && items[k].Piece? ==> |seen| + |Delivered(items[..k])| + |items[k].bytes| > sizeBytes
    decreases |items|
  {
    if items == [] || items[0].Failure? || |seen + items[0].bytes| > sizeBytes {
      k := 0;
      assert items[..0] == [] && seen + [] == seen;
    } else {
      var b := items[0].bytes;
      k := ReadStops(items[1..], sizeBytes, seen + b);
      assert items[..k + 1][1..] == items[1..][..k];
      assert seen + (b + Delivered(items[1..][..k])) == (seen + b) + Delivered(items[1..][..k]);
      if k + 1 < |items| { assert items[1..][k + 1..] == items[k + 2..]; }
      k := k + 1;
    }
  }

  lemma {:induction false} DeliveredFirst(items: seq<Item>, k: nat)
    requires k <= |items| && EndsCleanly(items[..k])
    ensures Delivered(items) == Delivered(items[..k]) + Delivered(items[k..])
    ensures EndsCleanly(items) == EndsCleanly(items[k..])
    decreases k
  {
    if k == 0 {
      assert items[..0] == [] && items[0..] == items;
    } else {
      assert items[..k][1..] == items[1..][..k - 1] && items[1..][k - 1..] == items[k..];
      DeliveredFirst(items[1..], k - 1);
    }
  }

  /** The verdict, the items never pulled and the messages of any source, read off
      the one item that decides them. */
  lemma OutcomeExplained(c: ChunkSize, sizeBytes: nat, items: seq<Item>) returns (k: nat)
    ensures StopsAt(items, sizeBytes, k)
    ensures var total := |Delivered(items[..k])|;
            Verdict(sizeBytes, items) ==
              if k == |items| then (if total < sizeBytes then Some(TooFewBytes(total, sizeBytes)) else None)
              else if items[k].Piece? then Some(TooManyBytes(sizeBytes))
              else if total == sizeBytes && sizeBytes > 0 then None
              else Some(SourceFailed(items[k].error))
    ensures Unpulled(sizeBytes, items) == if k == |items| then [] else items[k + 1..]
    ensures var out := Flatten(Emitted(c, sizeBytes, items));
            if k == |items| || Verdict(sizeBytes, items).None? then out == Delivered(items[..k])
            else AllButHeldBack(c, sizeBytes, Delivered(items[..k]), |out|)
  {
    k := ReadStops(items, sizeBytes, []);
    var data := Delivered(items[..k]);
    assert [] + data == data;
    ChunksFlatten(c, data);
    ReleasedIsMost(c, sizeBytes, data);
  }

  /** Of `data`, `out` bytes are out: all but less than a chunk, or all but the
      chunk that would complete the file. */
  predicate AllButHeldBack(c: ChunkSize, sizeBytes: nat, data: seq<Byte>, out: nat) {
    && Aligned(c, out) && out <= |data|
    && (|data| < out + c || out < sizeBytes == |data| == out + c)
  }

  lemma {:induction false} WholeChunksLength(c: ChunkSize, data: seq<Byte>)
    ensures var out := |Flatten(WholeChunks(c, data))|;
            Aligned(c, out) && out <= |data| < out + c
    decreases |data|
  {
    if |data| >= c {
      WholeChunksLength(c, data[c..]);
      assert WholeChunks(c, data)[1..] == WholeChunks(c, data[c..]);
    }
  }

  lemma ReleasedIsMost(c: ChunkSize, sizeBytes: nat, data: seq<Byte>)
    requires |data| <= sizeBytes
    ensures AllButHeldBack(c, sizeBytes, data, |Flatten(Released(c, sizeBytes, data))|)
  {
    WholeChunksLength(c, if 0 < sizeBytes <= |data| then data[..sizeBytes - 1] else data);
  }

  /** Only one item can decide. */
  lemma StopIsUnique(items: seq<Item>, sizeBytes: nat, j: nat, k: nat)
    requires StopsAt(items, sizeBytes, j) && StopsAt(items, sizeBytes, k)
    ensures j == k
  {
    if j < k {
      StopsOnce(items, sizeBytes, j, k);
    } else if k < j {
      StopsOnce(items, sizeBytes, k, j);
    }
  }

  lemma StopsOnce(items: seq<Item>, sizeBytes: nat, j: nat, k: nat)
    requires StopsAt(items, sizeBytes, j) && j < k <= |items|
    ensures !StopsAt(items, sizeBytes, k)
  {
    if EndsCleanly(items[..k]) {
      assert items[..k][..j] == items[..j] && items[..k][j..][0] == items[j];
      DeliveredFirst(items[..k], j);
    }
  }

  /** Which error is recorded, in terms of the source alone. */
  lemma VerdictExplained(sizeBytes: nat, items: seq<Item>)
    ensures forall n :: Verdict(sizeBytes, items) == Some(TooManyBytes(n)) <==> |Delivered(items)| > sizeBytes == n
    ensures forall a, b :: Verdict(sizeBytes, items) == Some(TooFewBytes(a, b)) <==>
                           EndsCleanly(items) && a == |Delivered(items)| < sizeBytes == b
    ensures forall e :: Verdict(sizeBytes, items) == Some(SourceFailed(e)) <==>
                        && FirstFailure(items) == Some(e)
                        && |Delivered(items)| <= sizeBytes
                        && !(|Delivered(items)| == sizeBytes && sizeBytes > 0)
  {
    var k := OutcomeExplained(1, sizeBytes, items);
    DeliveredFirst(items, k);
    FirstFailureAt(items, k);
    if k < |items| { assert items[k..][0] == items[k]; }
  }

  function FirstFailure(items: seq<Item>): Option<IoError> {
    if items == [] then None
    else if items[0].Failure? then Some(items[0].error)
    else FirstFailure(items[1..])
  }

  lemma {:induction false} FirstFailureAt(items: seq<Item>, k: nat)
    requires k <= |items| && EndsCleanly(items[..k])
    ensures k < |items| && items[k].Failure? ==> FirstFailure(items) == Some(items[k].error)
    ensures FirstFailure(items).None? <==> EndsCleanly(items)
    decreases |items|
  {
    if items != [] && items[0].Piece? {
      if k > 0 {
        assert items[..k][1..] == items[1..][..k - 1];
        FirstFailureAt(items[1..], k - 1);
      } else {
        assert items[1..][..0] == [];
        FirstFailureAt(items[1..], 0);
      }
    }
  }

  lemma {:induction false} ReleasedFacts(c: ChunkSize, sizeBytes: nat, data: seq<Byte>)
    requires |data| <= sizeBytes
    ensures Flatten(Released(c, sizeBytes, data)) <= data
    ensures Released(c, sizeBytes, data) == [] || |Flatten(Released(c, sizeBytes, data))| < sizeBytes
  {
    WholeChunksFlatten(c, if 0 < sizeBytes <= |data| then data[..sizeBytes - 1] else data);
  }

  /** While the source may yield more, the chunks already out are exactly the
      released ones: at most a partial chunk, or the completing one, waits. */
  lemma HeldBack(c: ChunkSize, sizeBytes: nat, out: seq<Byte>, held: seq<Byte>)
    requires Aligned(c, |out|)
    requires |held| < c || (|held| == c && |out| + c == sizeBytes)
    requires |out + held| <= sizeBytes
    requires out == [] || |out| < sizeBytes
    ensures Released(c, sizeBytes, out + held) == WholeChunks(c, out)
  {
    if 0 < sizeBytes <= |out + held| {
      assert (out + held)[..sizeBytes - 1] == out + held[..|held| - 1];
      WholeChunksAppend(c, out, held[..|held| - 1]);
    } else {
      WholeChunksAppend(c, out, held);
    }
  }

  /** The full chunks of a prefix are the first full chunks of the whole. */
  lemma WholeChunksPrefix(c: ChunkSize, out: seq<Byte>, data: seq<Byte>)
    requires Aligned(c, |out|) && out <= data
    ensures WholeChunks(c, out) <= WholeChunks(c, data)
    ensures WholeChunks(c, out) <= Chunks(c, data)
  {
    var rest := data[|out|..];
    assert data == out + rest;
    WholeChunksAppend(c, out, rest);
    if rest != [] {
      ChunksAppend(c, out, rest);
    } else if out != [] {
      ChunksOfMultiple(c, out);
      assert data == out;
    }
  }

  /** Chunks cut from a prefix of what is being read are the first chunks emitted. */
  lemma WholeChunksAreEmittedFirst(c: ChunkSize, sizeBytes: nat, items: seq<Item>, out: seq<Byte>)
    requires Aligned(c, |out|)
    requires out <= Read(items, sizeBytes, []).data
    requires out == [] || |out| < sizeBytes || Verdict(sizeBytes, items).None?
    ensures WholeChunks(c, out) <= Emitted(c, sizeBytes, items)
  {
    var d := Read(items, sizeBytes, []).data;
    WholeChunksPrefix(c, out, d);
    if 0 < sizeBytes <= |d| && |out| < sizeBytes {
      WholeChunksPrefix(c, out, d[..sizeBytes - 1]);
    }
  }

  lemma {:induction false} ReadGrows(items: seq<Item>, sizeBytes: nat, seen: seq<Byte>)
    ensures seen <= Read(items, sizeBytes, seen).data
    decreases |items|
  {
    if items != [] && items[0].Piece? && |seen + items[0].bytes| <= sizeBytes {
      ReadGrows(items[1..], sizeBytes, seen + items[0].bytes);
    }
  }

  /** The slot is empty exactly when the source delivers the declared number of
      bytes before it stops, and stops cleanly or after at least one byte. */
  lemma {:induction false} SuccessCondition(sizeBytes: nat, items: seq<Item>)
    ensures Verdict(sizeBytes, items).None? <==>
            |Delivered(items)| == sizeBytes && (sizeBytes > 0 || EndsCleanly(items))
  {
    ReadFacts(items, sizeBytes, []);
    assert [] + Delivered(items) == Delivered(items);
  }

  /** Client and committing server never disagree. */
  lemma {:induction false} VerdictAgreement(c: ChunkSize, sizeBytes: nat, items: seq<Item>)
    ensures Verdict(sizeBytes, items).None? <==> Complete(sizeBytes, Emitted(c, sizeBytes, items))
    ensures Verdict(sizeBytes, items).Some? ==>
              Emitted(c, sizeBytes, items) == [] || |Flatten(Emitted(c, sizeBytes, items))| < sizeBytes
  {
    ReadFacts(items, sizeBytes, []);
    var d := Read(items, sizeBytes, []).data;
    ChunksFlatten(c, d);
    ReleasedFacts(c, sizeBytes, d);
  }

  /** Whatever is emitted is a prefix of what the source delivered, cut at the
      wire's chunk size; a committed file is exactly what was delivered. */
  lemma {:induction false} EmittedIsFaithful(c: ChunkSize, sizeBytes: nat, items: seq<Item>)
    ensures Flatten(Emitted(c, sizeBytes, items)) <= Delivered(items)
    ensures WellCut(c, Emitted(c, sizeBytes, items))
    ensures Verdict(sizeBytes, items).None? ==> Flatten(Emitted(c, sizeBytes, items)) == Delivered(items)
  {
    ReadFacts(items, sizeBytes, []);
    assert [] + Delivered(items) == Delivered(items);
    var d := Read(items, sizeBytes, []).data;
    ChunksFlatten(c, d);
    ChunksWellCut(c, d);
    ReleasedFacts(c, sizeBytes, d);
    WholeChunksWellCut(c, if 0 < sizeBytes <= |d| then d[..sizeBytes - 1] else d);
  }

  lemma {:induction false} WholeChunksWellCut(c: ChunkSize, data: seq<Byte>)
    ensures WellCut(c, WholeChunks(c, data))
    ensures forall i :: 0 <= i < |WholeChunks(c, data)| ==> |WholeChunks(c, data)[i]| == c
    decreases |data|
  {
    if |data| >= c {
      WholeChunksWellCut(c, data[c..]);
    }
  }

  /** However `bytes` is cut into items, the chunks are those of the in-memory
      upload of `bytes` and no error is recorded. */
  lemma {:induction false} SlicingIndependence(c: ChunkSize, items: seq<Item>, bytes: seq<Byte>)
    requires EndsCleanly(items) && Delivered(items) == bytes
    ensures Emitted(c, |bytes|, items) == Chunks(c, bytes)
    ensures Verdict(|bytes|, items) == None
    ensures Unpulled(|bytes|, items) == []
  {
    ReadFacts(items, |bytes|, []);
    assert [] + Delivered(items) == Delivered(items);
  }
}
