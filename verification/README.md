# A verified model of the RociaDB Rust SDK's core

The project models the parts of the RociaDB Rust client that carry state, branching or
arithmetic of their own, and proves what they promise. Everything is Dafny 4.11;
`dafny verify dfyconfig.toml` checks the whole of it.

| module | what it is |
|---|---|
| `Upload`, `Rechunker`, `Uploader` | the upload re-chunker: its reference outcome, the buffering state machine, and the two uploads with the server as second observer |
| `Download` | the verified download: counting, hashing, writing, and their order |
| `Civil`, `Rfc3339`, `Rfc3339Bytes` | proleptic Gregorian day counting, the timestamp parser over all byte strings, and what it accepts byte by byte |
| `Retry`, `Replay` | delay ceilings, multiply-and-shift jitter, the refresh-and-replay of one RPC, the retry loop |
| `TokenRefresh` | coalesced token refresh: every interleaving of any number of callers, with cancellation |
| `BackgroundRefresh` | the background refresh task in time |
| `Grouping`, `BatchWrites` | batch writes: grouping, ten groups at a time, stop at the first error, resume against a deduplicating server |
| `NeighborWalk` | the cursor walk over all pages |

Where the source changes state, the model does: `RechunkState`, `VerifiedDownload`,
`TokenManager`, `Client` and `RefreshTask` are classes whose methods are proved against
functions, and the loops over digits, groups, pages and attempts are loops with
invariants. The two protocols with concurrency, token refresh and batch writes, are state
machines over atomic steps; their results hold in every state of every run.

How the environment is modelled: a byte source is a sequence of items, each bytes or a
failure; a server, an identity provider and a writer are arbitrary functions or arbitrary
step choices; a random draw is a parameter; a clock is the time of an event; a digest is an
arbitrary function of the bytes. The chunk size is any positive constant (the SDK uses
1 MiB, `Uploader.DEFAULT_CHUNK_SIZE`).

## Main results

- **Slicing independence and verdict agreement.** The re-chunker emits what the in-memory
  upload of the same bytes emits, however they are sliced; its error slot is empty exactly
  when what it emitted is a complete file, so it cannot disagree with a server that commits
  whole files only.
- **Resume converges.** Any number of stopped batch runs under any schedule, with abandoned
  calls landing late, more than once or never, followed by one successful run, leave the
  server as one clean sequential run does.
- **Coalescing is linearizable, and a queued caller waits through at most one completed
  attempt**, with snapshot and enqueue as separate steps and futures dropped at both awaits.
- **The cached token never expires** as long as every failing attempt comes more than 30 s
  before the expiry of the token then cached, over any number of tokens of two seconds or more
  and of outages, and for every jitter draw and requested wake-up.
- **Day counting is a bijection** between valid dates and all integers that preserves order.
- **The timestamp parser accepts exactly the grammar's renderings** that keep the calendar's
  limits, names the first limit broken by the others, and returns the instant rendered.
- **Jitter is as uniform as integers allow**, counted over all 2^56 numerators.

## Where code and documentation differ

The model follows the code; each difference is proved with its exact condition.

- `RetryPolicy::delay_ceiling` is documented as `min(base_delay * 2^retry, max_delay)`
  (src/retry.rs:170-172). From retry 32 on the factor stays at 2^32 - 1, so this fails unless
  that factor already reaches `max_delay` or the base is zero: `Retry.DocumentedCeiling`.
- The refresh interval is said always to land before the token expires
  (src/auth.rs:471-476). It does exactly for lifetimes of two seconds or more:
  `BackgroundRefresh.IntervalBeforeExpiry`.
- A verified download is said to require exactly `size_bytes` bytes (src/file.rs:1729-1731).
  The saturating count makes the largest 64-bit size, and only that one, accept a longer
  stream: `Download.CountIsExact`.

## Model

| member | source | states |
|---|---|---|
| Rechunker.RechunkState.constructor | src/file.rs:2089-2108 | The stream starts valid and live: nothing pulled, nothing sent, metadata attached. |
| Rechunker.RechunkState.UnsentLen | src/file.rs:1937-1940 | What is held, plus what is sent, is exactly what was pulled. |
| Rechunker.RechunkState.NextRequest | src/file.rs:1965-1982 | The metadata leaves with the first message and with no other. |
| Rechunker.RechunkState.Ingest | src/file.rs:2000-2009 | No byte of an item is lost or reordered, undrained bytes are never overwritten, and the buffer stays within one chunk. |
| Rechunker.RechunkState.DrainPending | src/file.rs:2024-2039 | Moves pending bytes without loss until the buffer is full or none are left. |
| Rechunker.RechunkState.EmitFullChunk | src/file.rs:2138-2146 | A full chunk leaves as the next message; the conservation invariant and the reading of the source stand. |
| Rechunker.RechunkState.Flush | src/file.rs:2244-2254 | After the source is done the rest leaves as the last chunk, empty only for an empty file. |
| Rechunker.RechunkState.Accept | src/file.rs:2159-2162 | The item just pulled either continues the stream or is the one that overshoots, with everything sent before it already decided. |
| Rechunker.RechunkState.Pull | src/file.rs:2157-2240 | One item is asked for; a failure with bytes missing ends the stream with that error, and a failure after the last declared byte is forgiven unless nothing was declared. |
| Rechunker.RechunkState.Next | src/file.rs:2110-2264 | Each poll terminates; it yields the next message or ends with exactly the chunks, the error and the unpulled items the reference outcome names, as `Upload.OutcomeExplained` spells out. |
| Rechunker.RechunkState.SentIsFirst | src/file.rs:2110-2264 | At any moment what is out is a prefix of all that will be sent. |
| Upload.HeldBack | src/file.rs:2130-2146 | Before each pull exactly the full chunks that do not complete the file are out. |
| Upload.MetadataOnFirstOnly | src/file.rs:1965-1982 | Every message carries its own chunk; each metadata field travels on the first and is at its default on all others. |
| Upload.OutcomeExplained | src/file.rs:2110-2263 | For any source: the error, the items never pulled and the bytes sent, read off the one item that ends the reading; on an error every byte is out but less than a chunk, or but the completing chunk. |
| Upload.StopIsUnique | src/file.rs:2157-2240 | Only one item can be that item. |
| Upload.VerdictExplained | src/file.rs:2110-2263 | Too many bytes, too few with the count sent, and the source's first failure are each reported exactly when the source alone says so. |
| Upload.WellCutIsChunks | src/file.rs:1837-1853 | `Chunks` is the one way to cut bytes into full messages with a shorter last one, and a single empty one for the empty file. |
| Upload.SuccessCondition | src/file.rs:2205-2226 | No error is recorded exactly when the source delivers the declared number of bytes and stops cleanly, or after at least one byte. |
| Upload.VerdictAgreement | src/file.rs:1056-1083 | The error slot is empty exactly when a complete file was emitted; with an error, nothing or strictly fewer than the declared bytes were. |
| Upload.EmittedIsFaithful | src/file.rs:2042-2073 | What is emitted is a prefix of what the source delivered, cut at the wire's chunk size, and all of it on success. |
| Upload.SlicingIndependence | src/file.rs:2110-2264 | However bytes are split into items, the chunks are those of the in-memory cut, no error is recorded and every item is pulled. |
| Uploader.Drain | src/file.rs:2110-2264 | A stream polled to its end yields the reference outcome's requests, error and unpulled items. |
| Uploader.StreamedIsInMemory | src/file.rs:1824-1866 | The requests of the drained stream are, message by message, those of the in-memory upload of the same bytes, however sliced. |
| Uploader.ChunkUploadRequests | src/file.rs:1824-1866 | The in-memory upload's messages: its chunks in order, metadata taken by the first. |
| Uploader.ChunkCount | src/file.rs:1836-1842 | The number of chunks is the rounded-up quotient, and one for the empty file. |
| Uploader.ChunkBounds | src/file.rs:1850-1852 | Chunk i is the bytes from i chunk sizes on, cut at the end. |
| Uploader.Poll | src/file.rs:2110-2264 | Any number of polls yields the next messages in order, each as its place in the whole stream demands. |
| Uploader.UploadRaw | src/file.rs:795-805 | The server gets a prefix of the stream in order, the whole of it if it saw the end; the slot holds the verdict exactly if the transport polled to the end, as it may whether or not the server read that far. |
| Uploader.ReceivedWhole | src/file.rs:1056-1083 | A stream a committing server accepts carries exactly what the source delivered. |
| Uploader.UploadFileChunked | src/file.rs:1026-1086 | The size limit comes first, an error the client has recorded by the time of the answer wins over it, and against a committing server the two never disagree. |
| Download.VerifiedDownload.Record | src/file.rs:1759-1769 | Every chunk is hashed and counted, and the count that goes past the expected size is reported. |
| Download.VerifiedDownload.Absorb | src/file.rs:1774-1780 | An overshooting chunk never reaches the writer; otherwise the writer holds what was hashed, or a prefix when it refuses. |
| Download.VerifiedDownload.Finish | src/file.rs:1789-1804 | The size is judged before the digest. |
| Download.OneFurther | src/file.rs:1774-1780 | The faultless part of a stream grows by a message exactly if that message has no fault: a break, an overshoot, or a refusal, in this order. |
| Download.Transfer | src/file.rs:1450-1455 | The stream is taken up to its first fault, whose error is returned; the writer holds what came before it, and a part of the chunk only if that was refused. |
| Download.DownloadVerifiedInto | src/file.rs:1432-1459 | The writer holds a prefix of the stream within the expected size; success means unbroken stream, right size, every write and the flush accepted, and the digest of the whole; a break gives the stream's own code and nothing else does, an overshoot the count through its chunk, a refusal the writer's error; after a whole stream size, digest and flush are judged in this order. |
| Download.CountIsExact | src/file.rs:1759-1769 | The saturating count identifies the size for every expected size but the largest. |
| Civil.EraIsFloor | src/file.rs:535-536 | The truncating division with its shifted numerator is the floor, negative years included, and the year of era is in 0..399. |
| Civil.ClosedForm | src/file.rs:530-541 | The day count is that of a March-based year by four divisions plus the day within it. |
| Civil.NextDayIsNext | src/file.rs:516-541 | From every valid date to its calendar successor the count advances by one. |
| Civil.OrderPreserved | src/file.rs:516-541 | Dates are ordered, and equal, exactly as their day numbers are. |
| Civil.EpochIsZero | src/file.rs:524-526 | 1970-01-01 is day zero. |
| Civil.CountingDays | src/file.rs:516-541 | Every integer is the day number of the date found by counting from the epoch. |
| Civil.CountingDaysInverse | src/file.rs:516-541 | Every valid date is found again from its day number. |
| Civil.FourCenturies | src/file.rs:523-525 | Four hundred years are 146097 days. |
| Rfc3339.Digits | src/file.rs:429-436 | The loop reads the decimal value of all-digit bytes and refuses every other. |
| Rfc3339.ParseFraction | src/file.rs:446-464 | The loop reads nine places, padded, and leaves what follows the digits. |
| Rfc3339.NanosAreFloor | src/file.rs:438-463 | For any number of digits the nanoseconds are the floor of the exact fraction times 10^9, below one second. |
| Rfc3339.FractionRoundTrip | src/file.rs:446-464 | A rendered fraction is read back whole, and none means zero. |
| Rfc3339.OffsetRoundTrip | src/file.rs:472-497 | A rendered offset reads as its seconds, or as the first of its limits broken. |
| Rfc3339.DateTimeRoundTrip | src/file.rs:371-394 | The fixed 19 bytes are read back field by field. |
| Rfc3339.DateTimeSplit | src/file.rs:371-394 | Nineteen bytes that read as date and time are the rendering of what was read. |
| Rfc3339.ResolveFindsFirst | src/file.rs:398-419 | The range checks report the first calendar limit broken, or the instant. |
| Rfc3339.RenderThenParse | src/file.rs:364-420 | Parsing the rendering of any grammatical timestamp gives its instant, or the first limit it breaks. |
| Rfc3339.ParsedIsRendered | src/file.rs:364-420 | Every string not found misshapen is the rendering of a grammatical timestamp. |
| Rfc3339.AcceptedExactly | src/file.rs:187-204 | Exactly the renderings of timestamps within the limits are accepted, and exactly those of the others get a range error. |
| Rfc3339Bytes.AcceptedAsWritten | src/file.rs:364-497 | Byte by byte: a string is accepted exactly if it is written as a timestamp within the limits, and means the time written less what it is ahead of UTC. |
| Rfc3339Bytes.ShapeErrors | src/file.rs:371-394 | Exactly the strings without the date-time's shape are misshapen; a point without a digit after it is named as such. |
| Rfc3339Bytes.RangeErrors | src/file.rs:398-419 | Each range error names the limit broken, those judged before it kept. |
| Rfc3339Bytes.OffsetShifts | src/file.rs:472-497 | Written with +hh:mm a time is that much before the same written with Z, and with -hh:mm that much after it. |
| Rfc3339Bytes.EpochParses | src/file.rs:416-420 | 1970-01-01T00:00:00Z is zero. |
| Rfc3339Bytes.NextSecondIsNext | src/file.rs:416-420 | The next second of clock and calendar is one second later, over minutes, hours, days, months and years. |
| Rfc3339Bytes.NanosecondsCounted | src/file.rs:314-317 | The signed count is 10^9 nanoseconds a second and the fraction's. |
| Rfc3339.ParsedNanosBelowSecond | src/file.rs:438-464 | An accepted timestamp's nanoseconds are below one second. |
| Rfc3339.AccessorsAgree | src/file.rs:288-325 | Both accessors report one signed nanosecond count on either side of 1970 and fail alike, but for the platform's range. |
| Rfc3339.InstantsOrderedAsFields | src/file.rs:314-317 | Accepted timestamps with one offset, however it is spelled, are ordered as their fields are, lexicographically. |
| Retry.FactorIsCapped | src/retry.rs:173-174 | The shift with its fallback is the power of two, capped at 2^32 - 1. |
| Retry.CeilingFormula | src/retry.rs:170-177 | The ceiling is min(base * min(2^retry, 2^32 - 1), maximum), saturation included. |
| Retry.CeilingsMonotone | src/retry.rs:170-177 | Ceilings never decrease and never exceed the maximum delay. |
| Retry.DocumentedCeiling | src/retry.rs:170-177 | The documented formula holds exactly under the stated condition. |
| Retry.DocumentedCeilingFails | src/retry.rs:170-177 | Retry 32 with a base of 1 ns and a maximum of 10 s falls a nanosecond short of the documented ceiling. |
| Retry.JitterIsScaling | src/retry.rs:207-224 | No narrowing or clamping ever bites, the draw is within the cap, and the product stays below 2^120. |
| Retry.JitterRangeIsPow2 | src/retry.rs:207-224 | A jitter fraction has 56 binary places. |
| Retry.DrawsAreInterval | src/retry.rs:207-224 | The numerators that draw a value are the integers between two rounded-up quotients. |
| Retry.JitterIsUniform | src/retry.rs:207-224 | Every value up to the cap has the floor or the ceiling of 2^56/(cap+1) numerators, and none lies beyond. |
| Replay.DelayUnderCeiling | src/retry.rs:177-181 | A delay is at most its ceiling, and that at most the maximum. |
| Replay.DelayAt | src/retry.rs:276-304 | The i-th sleep is drawn under the i-th ceiling, min(base * min(2^i, 2^32 - 1), maximum). |
| Replay.RetryPolicy.WhatIsTriedAgain | src/retry.rs:164-187 | ABORTED is always tried again, UNAVAILABLE by choice, nothing else ever; zero attempts mean one. |
| Replay.SleepIsBounded | src/retry.rs:276-304 | All the sleeping of n retries is bounded by the sum of their ceilings. |
| Replay.Client.RefreshForReplay | src/lib.rs:1509-1535 | One refresh, only for UNAUTHENTICATED with auth enabled, and a replay only if it succeeds. |
| Replay.Client.AttemptWithReplay | src/lib.rs:1462-1491 | A second RPC is issued exactly when auth is enabled, the first is refused as unauthenticated and the refresh succeeds; a refresh exactly under the first two; the answer is the last RPC's. |
| Replay.Client.CountsAreBounded | src/lib.rs:1462-1491 | However outcomes and refreshes fall, n attempts issue between n and 2n RPCs and at most n refreshes, and no replay without a refresh. |
| Replay.Client.RetryCall | src/retry.rs:276-304 | At most the policy's attempts, each but the last retryable, and fewer only when the last is not; the RPCs and refreshes are those of that many attempts; the answer is the last RPC's; the sleeps are the policy's delays. |
| TokenRefresh.TokenManager.constructor | src/auth.rs:424-450 | A new manager holds its first token, generation and attempts zero. |
| TokenRefresh.TokenManager.AfterLock | src/auth.rs:574-590 | With the generation moved the contemporaneous attempt's outcome is the answer and nothing changes; otherwise a fetch is counted. |
| TokenRefresh.TokenManager.FetchAndInstall | src/auth.rs:629-655 | A failed fetch leaves the cached token as it is; a successful one replaces lifetime and header. |
| TokenRefresh.TokenManager.AfterFetch | src/auth.rs:591-607 | The outcome is installed, recorded and counted before it is returned, on success and failure alike. |
| TokenRefresh.TokenManager.RefreshNow | src/auth.rs:571-608 | Holding the lock, a caller inherits the recorded outcome and changes nothing if the generation has moved since its snapshot, and otherwise makes, installs, records and counts its own attempt. |
| TokenRefresh.CompletionIsComplete | src/auth.rs:591-655 | The separate steps of a completing caller add up to the method's effect. |
| TokenRefresh.OthersLeaveShared | src/auth.rs:367-373 | Only the lock holder's steps change what the lock protects. |
| TokenRefresh.NothingIsRuledOut | src/auth.rs:571-592 | Any caller may come at any time; a caller may be dropped while it waits or fetches, which leaves the token as it is; a fetch may come to any end. |
| TokenRefresh.InvariantAlways | src/auth.rs:571-608 | Every step of every caller, cancellation included, keeps the protocol's invariant. |
| TokenRefresh.CoalescingIsLinearizable | src/auth.rs:572-607 | A returning caller answers with the latest completed attempt, one completed after its snapshot, success and failure alike. |
| TokenRefresh.AnswersLast | src/auth.rs:576-588 | A given answer remains that of an attempt the snapshot had not counted, message and all. |
| TokenRefresh.FailuresAreMarked | src/auth.rs:576-588 | A caller's failure is marked as another's exactly when another caller made the attempt. |
| TokenRefresh.WaitsThroughOneAttempt | src/auth.rs:572-588 | Between joining the queue and holding the lock at most one attempt completes. |
| TokenRefresh.FetchesAreExclusive | src/auth.rs:591-592 | One fetch at a time, by a caller whose snapshot is the current generation; attempts are those completed, abandoned and under way. |
| TokenRefresh.OneAttemptPerGeneration | src/auth.rs:574-607 | The i-th completed attempt is by a caller that observed generation i before queueing: of all callers that observed one generation, at most one completes a fetch. |
| TokenRefresh.InstalledTogether | src/auth.rs:639-653 | With the lock free header and lifetime are the latest successful attempt's token; the lifetime is never the older. |
| TokenRefresh.QueueMoves | src/auth.rs:571-608 | A non-empty queue always has someone able to move it along. |
| BackgroundRefresh.IntervalBeforeExpiry | src/auth.rs:477-483 | The next refresh precedes expiry exactly for lifetimes of two seconds or more; the tick period never lengthens it. |
| BackgroundRefresh.IntervalIsTwoThirds | src/auth.rs:477-483 | The cadence is two thirds of the lifetime in whole seconds from eight seconds on, five seconds for six and seven, all but the last second below, and at least one. |
| BackgroundRefresh.TickPeriodIsAtLeastASecond | src/auth.rs:686-693 | The ticker's period is the interval asked for, but never below a second. |
| BackgroundRefresh.BackoffSchedule | src/auth.rs:791-797 | The backoff is 2^attempt seconds capped at 30. |
| BackgroundRefresh.JitterKeepsUpperHalf | src/auth.rs:811-815 | A jittered backoff lies in the upper half of its ceiling. |
| BackgroundRefresh.BackoffIsUniform | src/auth.rs:811-815 | Every value of the upper half has the floor or the ceiling of its share of the 2^56 numerators, every other none. |
| BackgroundRefresh.NextTickIsDue | src/auth.rs:752-770 | After a success the next tick is the new token's interval away; after a failure that follows n in a row it lies in the upper half of min(2^n, 30) seconds. |
| BackgroundRefresh.RefreshTask.Loop | src/auth.rs:734-774 | The task's loop follows the timed machine: success resets the count and takes the cadence of the lifetime just recorded, failure backs off. |
| BackgroundRefresh.NeverExpires | src/auth.rs:714-733 | No cached token expires in a run, over any number of tokens and outages, if every token lives two seconds and every failing attempt comes more than 30 s before the expiry of the token then cached. |
| BackgroundRefresh.OneOutage | src/auth.rs:714-733 | For tokens of one lifetime it is enough that no attempt fails from 30 s before the first expiry on. |
| BackgroundRefresh.RenewedBeforeExpiry | src/auth.rs:734-774 | Such a run that lasts until a cached token's expiry has a successful attempt before it. |
| BackgroundRefresh.SpawnedIsFresh | src/auth.rs:734-739 | A task spawned within a second of its token has its first tick before the expiry exactly for lifetimes of two seconds or more. |
| BackgroundRefresh.TimerAttemptsAreSpaced | src/auth.rs:716-724 | Timer-driven attempts are at least half a second apart. |
| BackgroundRefresh.TickIsLegal | src/auth.rs:748-752 | The task can always wait for its tick and attempt then, and be woken and attempt at any time before. |
| Grouping.Gather | src/graph.rs:300-305 | The map holds each key's items in the order given, and no key without items. |
| Grouping.GroupIsSubsequence | src/graph.rs:300-306 | A key's group is the items at the increasing positions where the key occurs, all of them. |
| Grouping.GroupPreservingOrder | src/graph.rs:300-306 | The groups are, in some order, each key's items in the caller's order. |
| Grouping.PartitionConserves | src/graph.rs:300-306 | No item is lost or duplicated by grouping. |
| BatchWrites.MarkedIffApplied | src/lib.rs:550-556 | A request that may be delivered is marked exactly when it has been applied. |
| BatchWrites.DeliverReady | src/lib.rs:550-556 | Delivery applies the next item of a key or recognizes a replay, and keeps each key's order. |
| BatchWrites.IdsArePerKey | src/lib.rs:550-556 | Two items collide only if they share node and request id. |
| BatchWrites.CleanRun | src/graph.rs:473-480 | A clean sequential run writes every item exactly when no request id repeats within a key or with an earlier write. |
| BatchWrites.StepKeepsInvariant | src/graph.rs:494-507 | Every step of scheduler, network and server keeps per-key order and the concurrency bound. |
| BatchWrites.ResumeConverges | src/graph.rs:473-480 | After any stopped runs, a successful one leaves every item applied once, in order per key, and the server as after a clean sequential run. |
| BatchWrites.FinalStore | src/graph.rs:473-480 | The store then holds the last payload the caller gave for each key, and other keys are untouched. |
| BatchWrites.AbandonedCallsCanLand | src/graph.rs:473-507 | A call in flight when a run stops can still land, and land again, before and during the next run. |
| BatchWrites.CallsCanBeReplayed | src/lib.rs:1462-1491 | A call in flight may be replayed, whether or not it has landed; either can land, in either order. |
| BatchWrites.GroupsOverlap | src/graph.rs:494-506 | With fewer than ten groups active, another can begin and send its first item beside them. |
| BatchWrites.NothingMoreIsApplied | src/graph.rs:476-480 | Once everything is applied, replays and late calls change nothing. |
| BatchWrites.AlwaysOrderedAndBounded | src/graph.rs:456-471 | In every reachable state each key's applied items are a prefix of the caller's, and at most ten groups are active. |
| BatchWrites.ResumeIsPossible | src/graph.rs:473-480 | From any state between runs some schedule of one more run succeeds. |
| NeighborWalk.FetchPage | src/graph.rs:676-690 | A page never names the empty string as its next cursor, and sending its cursor back gives the server's own string. |
| NeighborWalk.NeverStartsOver | src/graph.rs:932-976 | Every request of a walk but the first carries a cursor. |
| NeighborWalk.GetNeighbors | src/graph.rs:932-976 | Against any server whose chains of distinct cursors end, the walk ends, asks for no cursor twice, follows the server's cursors, and returns all items asked for unless an RPC fails. |
| NeighborWalk.WalkEndsIffChainsDo | src/graph.rs:332-340 | Walks end against exactly the servers whose chains of distinct cursors do. |
| NeighborWalk.FiniteCursorsEndChains | src/graph.rs:332-340 | They do, after one request a cursor and one more, against a server that draws its cursors from a finite set. |
| NeighborWalk.HonestWalkIsComplete | src/graph.rs:308-331 | Against an honest chain of distinct cursors all pages are returned in order, empty and short ones included. |

## Left out

- NeighborWalk.GetNeighbors: says nothing of a server that invents new cursors for ever, against which the source's walk does not end; by `NeighborWalk.WalkEndsIffChainsDo` that is the only case it leaves out.
- Rechunker.RechunkState.UnsentLen: does not model 64-bit wrap-around; the sum with the bytes sent is the number of bytes pulled, which passes 2^64 only if the declared size plus one item does.
- BatchWrites.ResumeConverges: says nothing of `add_edges`, whose items interact on the server through their `(from, label, to)` triplets, nor of writers other than the batch.
- TokenRefresh.WaitsThroughOneAttempt: counts completed attempts only; a caller may wait through any number of abandoned fetches.
- BackgroundRefresh.NeverExpires: attempts take no time and the task is the only caller of the manager.
- Fairness of the lock is a modelling decision: it is granted in arrival order, as the asynchronous runtime's mutex documents.
- The pre-flight check `ensure_fresh` and `refresh_token_before_stream`: one comparison before `refresh_now`.
- The in-memory upload's own replay, which repeats the rule of `Replay.Client.AttemptWithReplay` around the same request sequence.
- Per-attempt deadlines: a timeout is one more outcome of an RPC.
- Fetching and decoding the node payloads of a walk; JSON, SHA-256, UUIDs and the HTTP and gRPC layers.
- The server beyond its deduplication and commit contracts: leases, marker expiry, edge triplets.
- Document, tenant and options code, request-field mapping and error formatting: they would only add field-copying members.
- Decoding `expires_in`, secret redaction, logging, lock poisoning and the refresh guard's drop.
