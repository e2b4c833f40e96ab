# Chunked gRPC file transfer, modelled in Dafny

The system is a gRPC file-transfer service and its console client. A file
travels as an ordered stream of frames. Each frame is either a `Metadata`
frame (file name, `Start` and `End` flags) or a `Data` frame (a slice of the
file's bytes).

- The sender reads the file into a reused buffer and writes one `Data` frame
  per non-empty read. Buffers are 32 KiB on the interactive paths and 2 MiB
  on the benchmark paths.
- The receiver stages the stream: it appends every `Data` payload to
  `<id>/data.bin` and overwrites `<id>/metadata.json` with every `Metadata`
  frame.
- When the stream is over, the receiver commits. The last metadata names
  the file. A non-empty name moves the staged bytes to `<name>` and deletes
  the staging directory.

The server's `UploadFile` and the client's `Download` both run this
staging/commit logic. The server's `DownloadFile` and the client's `Upload`
are the two senders. A benchmark service and client time the same
transfers in several call shapes. The chunked duplex benchmark is the most
involved: it reuses one bidirectional stream for two transfer cycles, times
only the second cycle, and closes the request stream once.

Modules:

- `Frames`: the frame and metadata types, and the 32 KiB and 2 MiB chunk
  sizes. It defines what a stream means: `Payload`, the concatenated `Data`
  bytes, and `LastMetadata`, the metadata that wins. It also defines
  `IsChunking`: every frame is a `Data` frame of 1..n bytes, and the
  payloads concatenate to the file.
- `Calls`: a call as a log of events: writes, reads, the request stream's
  close, and stopwatch start/stop marks. `Inbound` is what a handler's
  request stream delivers: the messages, then a normal end or an
  `RpcException`.
- `FileStore`: the storage root as a class holding a map from paths to
  bytes, the `metadata.json` sidecars and the set of directories. Its
  methods are `Directory.CreateDirectory`, `File.Create`, appending writes,
  `File.WriteAllTextAsync`, `File.Move` (which refuses to overwrite) and a
  recursive `Directory.Delete`. A read stream hands out short reads.
- `Chunker`: the shared read-and-send loop.
- `Staging`: reassembly and commit, shared by both receivers.
- `TransferService`: the server's `UploadFile` and `DownloadFile`.
- `ClientProgram`: the client's `Upload`, `Download`, credential header,
  retry policy constants and `GetRetryCount`.
- `TestTransferService`: the benchmark handlers.
- `ClientTests`: the benchmark client.
- `RoundTrip`: both ends composed over the wire.

Two nondeterministic inputs become parameters:

- Random directory names (`Path.GetRandomFileName`) are taken as a
  parameter, with a freshness precondition `Fresh`.
- What a client or handler receives from its peer is taken as a parameter,
  either an `Inbound` stream or the peer's log.

## Model

| member | source | states |
|---|---|---|
| Frames.PayloadConcat | GrpcService/Services/TransferService.cs:41-53 | the bytes a stream stages are those of its first part followed by those of its second: payloads are appended in arrival order |
| Frames.PayloadIgnoresMetadata | GrpcService/Services/TransferService.cs:43-52 | a metadata frame contributes no bytes to the staged file |
| Frames.LastMetadataWins | GrpcService/Services/TransferService.cs:43-48 | when only data frames follow a metadata frame, that metadata is the one resolved, whatever earlier metadata frames said |
| Frames.LastMetadataNone | GrpcService/Services/TransferService.cs:30-48 | no metadata is resolved exactly when the stream holds only data frames |
| Frames.LastMetadataIsSent | GrpcService/Services/TransferService.cs:43-48 | the resolved metadata is one that actually arrived |
| Frames.EmptyDataNoChunks | GrpcService/Services/TransferService.cs:92-97 | an empty file is sent as no data frame at all |
| Frames.ChunkCountBounds | GrpcService/Services/TransferService.cs:89-104 | a chunking of a file into frames of at most n bytes has at least the file's length divided by n frames and at most as many frames as the file has bytes |
| Frames.ChunkingSnoc | GrpcService/Services/TransferService.cs:95-103 | sending one more non-empty read of at most n bytes extends a chunking of what was read so far |
| Frames.ChunkingConcat | GrpcService/Services/TransferService.cs:92-104 | chunkings of two parts of a file concatenate to a chunking of the whole |
| Calls.Sends | GrpcService/Services/TransferService.cs:100-103 | writing messages one after another logs one write per message, in order |
| Calls.LogConcat | GrpcClient/Tests.cs:234-303 | the messages written, reads and closes of a log are those of its first part plus those of its second |
| Calls.SendsSent | GrpcClient/Tests.cs:264-267 | a run of writes sends exactly its messages and neither reads nor closes |
| Calls.SendsConcat | GrpcClient/Tests.cs:247-279 | writing two runs of messages one after the other logs the writes of their concatenation |
| Calls.Call.Write | GrpcClient/Tests.cs:264-267 | a write appends it to the log; a closed request stream cannot be written to |
| Calls.Call.MoveNext | GrpcClient/Tests.cs:282 | a read appends one read to the log and leaves the stream's open or closed state as it was |
| Calls.Call.CompleteRequests | GrpcClient/Tests.cs:299 | closing the request stream is logged, and is allowed only while it is open |
| Calls.Call.StartTimer | GrpcClient/Tests.cs:244 | starting the stopwatch is logged and leaves the stream's open or closed state as it was |
| Calls.Call.StopTimer | GrpcClient/Tests.cs:296 | stopping the stopwatch is logged and leaves the stream's open or closed state as it was |
| FileStore.FileSystem.CreateDirectory | GrpcService/Services/TransferService.cs:35 | creating the staging directory adds it and changes nothing else |
| FileStore.FileSystem.Create | GrpcService/Services/TransferService.cs:39 | `data.bin` is created empty (an existing one is truncated) and nothing else changes |
| FileStore.FileSystem.Move | GrpcService/Services/TransferService.cs:64 | the move succeeds exactly when the destination does not exist; it then removes the source and stores its bytes at the destination, and otherwise changes nothing |
| FileStore.FileSystem.DeleteDirectory | GrpcService/Services/TransferService.cs:66 | a recursive delete removes the staging directory, its staged file and its sidecar, and nothing else |
| FileStore.FileSystem.Append | GrpcService/Services/TransferService.cs:51 | an append adds the bytes at the end of the open file and changes nothing else |
| FileStore.FileSystem.WriteSidecar | GrpcService/Services/TransferService.cs:47 | `metadata.json` is overwritten with the new metadata |
| FileStore.ReadStream.Read | GrpcService/Services/TransferService.cs:95 | a read copies the next 1..buffer-length bytes into the buffer and advances; it returns 0 only at end of file (or for an empty buffer) |
| FileStore.ReadStream.constructor | GrpcService/Services/TransferService.cs:90 | a file opened for reading is positioned at its start, with the whole file remaining |
| Chunker.PumpChunks | GrpcService/Services/TransferService.cs:89-104 | whatever the lengths of the short reads, the frames written are a chunking of everything left in the file, written in order on the call, which stays open |
| Chunker.FullReadsIsChunking | GrpcClient/Program.cs:226-244 | the split produced by full reads is a chunking |
| Chunker.FullReadsCount | GrpcService/Services/TestTransferService.cs:93-112 | every frame of the reference split but the last holds exactly n bytes, so the split has the file's length divided by n, rounded up, frames: n times the count is at least the length and less than the length plus n |
| Chunker.FullReadsIsShortest | GrpcClient/Tests.cs:147-172 | no sequence of short reads can send a file in fewer frames than full reads do |
| Staging.Reassemble | GrpcService/Services/TransferService.cs:39-55 | the receive loop returns the last metadata that arrived, and leaves the staged file extended by the data payloads in order and the sidecar set to that last metadata |
| Staging.StageSpecSnocMetadata | GrpcService/Services/TransferService.cs:43-48 | a metadata frame overwrites the upload's sidecar and leaves the staged bytes and directories unchanged |
| Staging.StageSpecSnocData | GrpcService/Services/TransferService.cs:49-52 | a data frame appends its bytes to the staged file and leaves sidecars and directories unchanged |
| Staging.Commit | GrpcService/Services/TransferService.cs:57-67 | no metadata fails; metadata with a Start or End flag set fails, its rendering not being a string dictionary; an empty name commits nothing; an existing `<name>` makes the move fail; otherwise the staged bytes move to `<name>` and the staging directory goes |
| Staging.StagedBytes | GrpcService/Services/TransferService.cs:39-53 | a freshly created `data.bin` ends up holding exactly the data payloads, in order |
| Staging.StageSpecConcat | GrpcService/Services/TransferService.cs:41-53 | staging a stream in two parts is staging the whole stream |
| Staging.LastMetadataConcat | GrpcService/Services/TransferService.cs:43-48 | the metadata resolved from two parts is the second part's if it has one, else the first's |
| Staging.CommitIff | GrpcService/Services/TransferService.cs:59-67 | the commit moves the staged bytes to `<name>` and removes the staging directory and sidecar exactly when metadata arrived, has neither flag set, and names a new, non-empty `<name>`; otherwise nothing changes, and a set flag is the `FlagNotText` failure |
| TransferService.UploadSpec | GrpcService/Services/TransferService.cs:28-70 | a successful upload answers with the generated upload id; an aborted request stream fails the call with its `RpcException` |
| TransferService.UploadFile | GrpcService/Services/TransferService.cs:28-70 | the handler's answer and the store afterwards are those of `UploadSpec`: create the directory and `data.bin`, stage, then commit |
| TransferService.UploadCommits | GrpcService/Services/TransferService.cs:59-69 | a completed upload whose last metadata has neither flag set and names a new, non-empty `<name>` answers with the upload id and stores exactly the data payloads there; nothing else in the store changes |
| TransferService.UploadLeavesStaged | GrpcService/Services/TransferService.cs:59-61 | otherwise nothing is committed: `data.bin` keeps the payloads, the sidecar keeps the last metadata, and the call answers with the id exactly when the stream completed and the resolved metadata has no flag set and an empty name |
| TransferService.UploadFlagRefused | GrpcService/Services/TransferService.cs:45-59 | a completed upload whose last metadata has its Start or End flag set fails in deserialisation and keeps the payloads staged |
| TransferService.UploadLastMetadataWins | GrpcService/Services/TransferService.cs:43-48 | whatever names earlier metadata frames carried, the file is committed under the name in the last one |
| TransferService.ReportScenario | GrpcService/Services/TransferService.cs:28-69 | metadata `report.txt` and then chunks of 32768, 32768 and 100 bytes commit a 65636-byte `report.txt`, answering with the upload id |
| TransferService.NotFoundError | GrpcService/Services/TransferService.cs:81 | the download failure carries status `NotFound` |
| TransferService.DownloadFile | GrpcService/Services/TransferService.cs:74-105 | a missing file fails with `NotFound` before any frame is written; otherwise the call succeeds, and the first frame is the metadata naming the file, followed by a 32 KiB chunking of the file |
| TransferService.DownloadReassembles | GrpcService/Services/TransferService.cs:84-104 | the download stream reassembles to the file, under the requested name |
| ClientProgram.AuthHeaders | GrpcClient/Program.cs:195-200 | a single `Authorization` header exactly when a token is held, none otherwise |
| ClientProgram.AuthHeadersCarryToken | GrpcClient/Program.cs:195-200 | the server reads back from the headers exactly the token the client held (and none when it held none) |
| ClientProgram.Upload | GrpcClient/Program.cs:185-258 | the call is opened with those headers; an empty or missing path writes nothing; otherwise the call writes the metadata naming the chosen file name, then a 32 KiB chunking of the local file, then closes the request stream and reads the response |
| ClientProgram.DownloadSpec | GrpcClient/Program.cs:263-336 | a download is reported stored only when the response stream completed normally |
| ClientProgram.Download | GrpcClient/Program.cs:263-336 | the request names the input and carries the credential headers; the outcome and the client's storage afterwards are those of `DownloadSpec`: create the staging directory, stage, then commit |
| ClientProgram.FailedDownloadLeavesStaging | GrpcClient/Program.cs:268-271 | a download the server refuses before any frame is reported and leaves behind the staging directory with an empty `data.bin` |
| ClientProgram.DownloadCommitIff | GrpcClient/Program.cs:315-325 | the file goes to `downloads/<name>` exactly when the stream completed and its last metadata has neither flag set and names a new, non-empty `<name>`; the file then holds the payloads and nothing else has changed |
| ClientProgram.GetRetryCount | GrpcClient/Program.cs:546-551 | the text is empty exactly when the `grpc-previous-rpc-attempts` header is absent |
| ClientProgram.RetryCountRoundTrip | GrpcClient/Program.cs:549-550 | the header value can be read back out of the rendered `(retry count: N)` |
| TestTransferService.TransferUnaryTest | GrpcService/Services/TestTransferService.cs:18-27 | the reply is `Message received: ` followed by the request text |
| TestTransferService.ReplyIdentifiesMessage | GrpcService/Services/TestTransferService.cs:23-26 | distinct texts get distinct replies |
| TestTransferService.Echoes | GrpcService/Services/TestTransferService.cs:34-43 | one reply per message, in order, each the prefixed echo of its message |
| TestTransferService.TransferDuplexStreamTest | GrpcService/Services/TestTransferService.cs:29-49 | the handler writes exactly the echoes of the messages that arrived, in order |
| TestTransferService.EndAcksConcat | GrpcService/Services/TestTransferService.cs:122-147 | the acknowledgments for a stream are those for its first part followed by those for its second |
| TestTransferService.EndAcksOfData | GrpcService/Services/TestTransferService.cs:142-146 | data frames are never acknowledged |
| TestTransferService.UploadDuplexStreamTest | GrpcService/Services/TestTransferService.cs:115-153 | the handler writes one empty response per metadata frame with `End` set, and no other |
| TestTransferService.MessageAcks | GrpcService/Services/TestTransferService.cs:159-168 | one empty response per message, whatever it holds |
| TestTransferService.UploadNoChunkDuplexStreamTest | GrpcService/Services/TestTransferService.cs:155-175 | the handler writes one empty response per message that arrived |
| TestTransferService.UploadUnaryTest | GrpcService/Services/TestTransferService.cs:51-59 | the response is empty, whatever the request |
| TestTransferService.UploadStreamTest | GrpcService/Services/TestTransferService.cs:73-89 | once the whole request stream is consumed, the handler answers with an empty response; an aborted stream fails the call with its exception |
| TestTransferService.DownloadUnaryTest | GrpcService/Services/TestTransferService.cs:61-71 | the handler answers exactly when `bigdata.txt` exists, with one data frame holding the whole file |
| TestTransferService.DownloadStreamTest | GrpcService/Services/TestTransferService.cs:91-113 | the handler fails when `bigdata.txt` is missing; otherwise it writes a 2 MiB chunking of the file with no metadata frame |
| ClientTests.TimedSpan | GrpcClient/Tests.cs:243-297 | a stopwatch started after one stretch of events and stopped after the next measures exactly that next stretch |
| ClientTests.TimedRounds | GrpcClient/Tests.cs:52-85 | a stopwatch started before whole write/read rounds and stopped right after them measures exactly those rounds |
| ClientTests.StreamUploadTimed | GrpcClient/Tests.cs:156-181 | in the client-streaming upload, the stopwatch measures the writes, the completion of the request stream and the one reply read |
| ClientTests.DuplexRunTimed | GrpcClient/Tests.cs:242-297 | in the two-cycle run, the stopwatch measures the second cycle and nothing of the first |
| ClientTests.DuplexRunShape | GrpcClient/Tests.cs:234-303 | the two-cycle run writes the first cycle's frames then the second's and reads exactly twice; it closes the request stream exactly once, as its last action, after both reads |
| ClientTests.DuplexRunReads | GrpcClient/Tests.cs:234-303 | the run's only reads are the one ending the first cycle and the one ending the second |
| ClientTests.DuplexRunSentBeforeRead | GrpcClient/Tests.cs:247-282 | before the first read exactly the first cycle has been written and nothing read; before the second read, both cycles have been written and one response read |
| ClientTests.ChunkedCycleAcks | GrpcClient/Tests.cs:247-279 | each cycle of the chunked duplex test carries exactly one frame the server acknowledges, its end marker |
| ClientTests.ChunkedExchange | GrpcClient/Tests.cs:247-282 | one cycle writes the start marker, a 2 MiB chunking of the file and the end marker, then reads once |
| ClientTests.UploadDuplexStreamTest | GrpcClient/Tests.cs:219-306 | both cycles send a 2 MiB chunking of `bigdata.txt` between start and end markers and read once; the stopwatch brackets the second cycle only; the request stream is closed after the second cycle's response; the value returned is what the stopwatch measured |
| ClientTests.ChunkedDuplexReadsMeetAcks | GrpcClient/Tests.cs:247-299 | against the server's chunked duplex handler, each client read finds exactly one unread acknowledgment, the one for the cycle it ends, and at the end every acknowledgment has been read |
| ClientTests.UploadNoChunkDuplexStreamTest | GrpcClient/Tests.cs:311-361 | both cycles send the whole file as a single data frame and read once; timing and closing are as in the chunked test |
| ClientTests.NoChunkDuplexReadsMeetAcks | GrpcClient/Tests.cs:324-357 | against the server's single-frame duplex handler, each read finds exactly one unread acknowledgment, and none is left over |
| ClientTests.RoundsCounts | GrpcClient/Tests.cs:63-78 | `k` write/read rounds write `k` copies of the text and read `k` times |
| ClientTests.RoundsNoMarks | GrpcClient/Tests.cs:63-78 | the rounds neither close the request stream nor touch the stopwatch |
| ClientTests.RoundsAlternate | GrpcClient/Tests.cs:63-78 | write k always comes right before read k: every read follows whole rounds plus one more write |
| ClientTests.TransferDuplexStreamTest | GrpcClient/Tests.cs:52-85 | exactly `attempts` timed write/read rounds; the request stream is closed after the stopwatch stops |
| ClientTests.TransferDuplexReadsMeetEchoes | GrpcClient/Tests.cs:63-82 | against the echo handler, every read finds exactly one unread reply, the echo of the text just written |
| ClientTests.TimedRoundsPrefix | GrpcClient/Tests.cs:63-78 | in the timed duplex run, what precedes each read is the timer mark, whole write/read rounds and one further write |
| ClientTests.EchoAfterRounds | GrpcClient/Tests.cs:63-82 | after whole rounds and one more write, the echo handler has produced exactly one reply more than the client has read, and that reply is the echo of the text |
| ClientTests.TransferUnaryTest | GrpcClient/Tests.cs:24-47 | exactly `attempts` calls, each awaited before the next is made, all timed |
| ClientTests.UploadStreamTest | GrpcClient/Tests.cs:141-184 | a timed 2 MiB chunking of `bigdata.txt` with no metadata, then the request stream closed and the response read |
| RoundTrip.DownloadOfServedFile | GrpcClient/Program.cs:295-325 | a stream shaped as the server's `DownloadFile` produces, fully received under a new non-empty name, commits the file byte for byte and leaves nothing else behind |
| RoundTrip.DownloadRoundTrip | GrpcClient/Program.cs:263-336 | a call the server's bearer-token check refuses (always so without a token) is reported as `Unauthenticated` and leaves an empty staging directory; on an accepted call, a file the server holds is stored byte for byte at `downloads/<name>`, and one it lacks is reported as `NotFound` and leaves an empty staging directory |
| RoundTrip.WrittenThenClosed | GrpcClient/Program.cs:240-249 | a call that writes some messages, closes and reads delivers exactly those messages |
| RoundTrip.UploadWire | GrpcClient/Program.cs:218-247 | `Upload` puts the metadata naming the chosen file name, then the data chunks, on the wire; that metadata is the one the server resolves and the payloads are the file's |
| RoundTrip.UploadRoundTrip | GrpcClient/Program.cs:185-258 | a call the server's bearer-token check refuses (always so without a token) never reaches the handler and leaves the server's storage untouched; on an accepted call, uploading a local file under a new name stores its bytes on the server under that name, and the handler answers with the upload id |
| RoundTrip.Unauthorized | GrpcService/Program.cs:17-37 | a call refused by the JWT bearer authentication fails with status `Unauthenticated` |

## Left out

- The JSON round-trip of metadata is left out. `FileMetadata.ToString()` and
  `JsonSerializer.Deserialize` are library calls, so the resolved file name
  is modelled abstractly as the name in the last metadata frame.
  - With no metadata frame, deserialising the empty string throws. This is
    modelled as the fault `NoMetadata`.
  - A metadata frame with its Start or End flag set renders that flag as a
    JSON boolean, which deserialising into a string dictionary refuses.
    This is modelled as the fault `FlagNotText` in Staging.CommitSpec, and
    stated by Staging.CommitIff, TransferService.UploadFlagRefused and
    ClientProgram.DownloadCommitIff.
  - A metadata frame with an empty file name is taken down the "nothing
    committed" branch. The protobuf JSON formatter omits empty fields, so
    the real lookup of `fileName` may throw instead. That library behaviour
    is not modelled.
- Path semantics of `Path.Combine` are left out. Names containing separators
  or absolute names are not modelled: a committed name is a flat key in the
  store.
- File-system exceptions other than `File.Move` onto an existing file and a
  missing download source are left out. Examples are permissions, full
  disks and a directory named like the file.
- Concurrency, async suspension and back-pressure are left out. Each call's
  events are modelled as one sequential log.
- ClientTests.UploadDuplexStreamTest, ClientTests.UploadNoChunkDuplexStreamTest,
  ClientTests.TransferDuplexStreamTest, ClientTests.TransferUnaryTest and
  ClientTests.UploadStreamTest return the stretch of events their stopwatch
  measured, not milliseconds. Stopwatch values are wall-clock readings.
  The elapsed value of 0 that a duplex test returns when its second cycle
  never completes is not modelled either, because an exception propagates
  out of the method.
- ClientTests.TransferUnaryTest records its sequential unary calls on one
  log, one write/read pair per call. Separate call objects are not modelled.
- `UnsafeByteOperations.UnsafeWrap` buffer aliasing is left out. Each written
  frame carries a copy of the filled part of the buffer.
- Console input and output, `Main`, the menu, `UseLiveChat`, `Authenticate`
  (an HTTP call) and `RunSpeedTests` (averages of timings) are left out.
  `RunSpeedTests` reports an `UploadUnaryTest` result under the "Download
  stream" label; that mislabel is console output and not part of this
  model.
- The benchmark client's `UploadUnaryTest`, `DownloadUnaryTest` and
  `DownloadStreamTest` are left out. They only time one call each and
  discard its response.
- `CreateChannel` is left out. Its retries are performed by the gRPC library;
  the retry policy and the 25 MiB message limit are recorded as constants.
  Keep-alive settings are not modelled.
- The server's `Program.cs` is not part of this model beyond the outcome of
  its bearer-token check. Token minting, HTTP/2 settings and the
  validation itself (signature, lifetime, name claim) are left out: the
  handlers model a call the check accepted.
- RoundTrip.DownloadRoundTrip, RoundTrip.UploadRoundTrip: the check's
  verdict is a parameter, `accepted`, that is false whenever no token is
  sent. On a refused upload the client's writes are not modelled as
  failing; only the untouched server storage is stated.
- `OnlinerService` (a constant reply) and `ChatService` (forwarding to a
  chat hub) are not part of this model.
- Logging and the responses the client only prints are left out.
