/**
 * The console client's transfer paths: `Upload` streams a local file to
 * the server, `Download` stages and commits a file the server streams
 * back; both attach the bearer credential when there is one.  The
 * channel's retry policy is recorded as data, and `GetRetryCount` renders
 * the retry header.
 */
module ClientProgram {
  import opened Wrappers
  import opened Frames
  import opened Calls
  import opened FileStore
  import opened Staging
  import opened Chunker

  /** The channel's retry policy; the retries themselves are done by the gRPC library. */
  datatype RetryPolicy = RetryPolicy(
    maxAttempts: nat, initialBackoffMs: nat, maxBackoffMs: nat, backoffMultiplier: nat,
    retryableStatusCodes: set<StatusCode>)

  const ChannelRetryPolicy := RetryPolicy(5, 500, 500, 1, {Unavailable})

  /** Largest message the channel accepts (25 MiB). */
  const MaxReceiveMessageSize: nat := 1024 * 1024 * 25

  const AuthorizationKey := "Authorization"
  const BearerPrefix := "Bearer "

  /** The call headers: an `Authorization: Bearer <token>` entry when a token is held, no headers otherwise. */
  function AuthHeaders(token: Option<string>): (headers: Option<seq<(string, string)>>)
    ensures headers.Some? <==> token.Some?
    ensures headers.Some? ==> |headers.value| == 1 && headers.value[0].0 == AuthorizationKey
  {
    match token
    case None => None
    case Some(t) => Some([(AuthorizationKey, BearerPrefix + t)])
  }

  /** The token a server reads back from the call headers. */
  function BearerToken(headers: Option<seq<(string, string)>>): Option<string>
  {
    if headers.None? || |headers.value| == 0 then None
    else
      var (key, value) := headers.value[0];
      if key == AuthorizationKey && |value| >= |BearerPrefix| && value[..|BearerPrefix|] == BearerPrefix
      then Some(value[|BearerPrefix|..])
      else None
  }

  /** The credential travels intact: the server reads back exactly the token the client held. */
  lemma AuthHeadersCarryToken(token: Option<string>)
    ensures BearerToken(AuthHeaders(token)) == token
  {
    if token.Some? {
      var value := BearerPrefix + token.value;
      assert value[..|BearerPrefix|] == BearerPrefix;
      assert value[|BearerPrefix|..] == token.value;
    }
  }

  /**
   * `Upload`: opens the call, then gives up, having written nothing, if the
   * path is empty or names no local file; otherwise writes the metadata
   * frame naming `filename`, the file in 32 KiB chunks, closes the request
   * stream and awaits the response.  `frames` are the data frames written.
   */
  method Upload(token: Option<string>, localFiles: map<string, seq<byte>>, filepath: string, filename: string)
    returns (call: Call<Frame>, frames: seq<Frame>)
    ensures fresh(call) && call.headers == AuthHeaders(token)
    ensures filepath == "" || filepath !in localFiles ==> call.log == [] && frames == []
    ensures filepath != "" && filepath in localFiles ==>
      && IsChunking(frames, localFiles[filepath], InteractiveChunkSize)
      && call.log == [Send(Metadata(FileMetadata(filename, false, false)))] + Sends(frames) + [Complete, Receive]
  {
    var headers := AuthHeaders(token);
    call := new Call(headers);
    frames := [];
    if filepath == "" || filepath !in localFiles {
      return;
    }
    call.Write(Metadata(FileMetadata(filename, false, false)));
    var readStream := new ReadStream(localFiles[filepath]);
    frames := PumpChunks(readStream, call, InteractiveChunkSize);
    call.CompleteRequests();
    call.MoveNext();
  }

  /** How `Download` ended. */
  datatype DownloadOutcome =
    | Stored(newPath: Option<string>)   // "successfully stored": at `<name>`, or nowhere when the name is empty
    | RpcFailed(error: RpcException)   // caught and reported; the staging directory stays
    | Crashed(fault: Fault)            // an exception no handler catches

  /** The `Download` outcome and the client storage afterwards, given what the server streamed back. */
  function DownloadSpec(s: Store, downloadId: string, responseStream: Inbound<Frame>): (out: (DownloadOutcome, Store))
    ensures out.0.Stored? ==> responseStream.end.Completed?
  {
    var created := s.(dirs := s.dirs + {downloadId}, files := s.files[Staged(downloadId) := []]);
    var staged := StageSpec(created, downloadId, responseStream.messages);
    if responseStream.end.Aborted? then
      (RpcFailed(responseStream.end.error), staged)
    else
      var (c, t) := CommitSpec(staged, downloadId, LastMetadata(responseStream.messages));
      (if c.Success? then Stored(c.value) else Crashed(c.error), t)
  }

  /**
   * `Download`: creates `downloads/<downloadId>/` before the call, asks for
   * `input`, stages what arrives and commits it under the last metadata's
   * name.  `responseStream` is what the server sent back.
   */
  method Download(fs: FileSystem, downloadId: string, input: string, token: Option<string>, responseStream: Inbound<Frame>)
    returns (request: DownloadFileRequest, headers: Option<seq<(string, string)>>, outcome: DownloadOutcome)
    modifies fs
    ensures request == DownloadFileRequest(input) && headers == AuthHeaders(token)
    ensures (outcome, fs.State()) == DownloadSpec(old(fs.State()), downloadId, responseStream)
  {
    fs.CreateDirectory(downloadId);
    headers := AuthHeaders(token);
    request := DownloadFileRequest(input);
    fs.Create(Staged(downloadId));
    var metadata := Reassemble(fs, downloadId, responseStream.messages);
    if responseStream.end.Aborted? {
      return request, headers, RpcFailed(responseStream.end.error);
    }
    var committed := Commit(fs, downloadId, metadata);
    if committed.Failure? {
      return request, headers, Crashed(committed.error);
    }
    outcome := Stored(committed.value);
  }

  /**
   * A download the server refuses before sending any frame is reported,
   * and leaves `downloads/<downloadId>/` behind holding an empty
   * `data.bin`; nothing else changes.
   */
  lemma FailedDownloadLeavesStaging(s: Store, downloadId: string, error: RpcException)
    requires Fresh(s, downloadId)
    ensures DownloadSpec(s, downloadId, Inbound([], Aborted(error)))
         == (RpcFailed(error), s.(files := s.files[Staged(downloadId) := []], dirs := s.dirs + {downloadId}))
  {
    var created := s.(dirs := s.dirs + {downloadId}, files := s.files[Staged(downloadId) := []]);
    assert Payload([]) == [] && LastMetadata([]) == None;
    assert created.files[Staged(downloadId)] + Payload([]) == [];
    assert created.files[Staged(downloadId) := []] == created.files;
  }

  /**
   * The downloaded file is moved to `downloads/<name>` and its staging
   * directory deleted exactly when the stream completed with a last
   * metadata naming a new non-empty `<name>`; the moved file holds the
   * data payloads in arrival order.
   */
  lemma DownloadCommitIff(s: Store, downloadId: string, responseStream: Inbound<Frame>)
    requires Fresh(s, downloadId)
    ensures var (outcome, t) := DownloadSpec(s, downloadId, responseStream);
      var m := LastMetadata(responseStream.messages);
      (outcome.Stored? && outcome.newPath.Some?) <==>
        (responseStream.end.Completed? && m.Some? && Textual(m.value) && m.value.fileName != "" && Final(m.value.fileName) !in s.files)
    ensures var (outcome, t) := DownloadSpec(s, downloadId, responseStream);
      outcome.Stored? && outcome.newPath.Some? ==>
        t == s.(files := s.files[Final(outcome.newPath.value) := Payload(responseStream.messages)])
  {
    var frames := responseStream.messages;
    var created := s.(dirs := s.dirs + {downloadId}, files := s.files[Staged(downloadId) := []]);
    var staged := StageSpec(created, downloadId, frames);
    assert [] + Payload(frames) == Payload(frames);
    assert staged.files == s.files[Staged(downloadId) := Payload(frames)];
    assert staged.files - {Staged(downloadId)} == s.files;
    assert staged.sidecars - {downloadId} == s.sidecars;
    assert staged.dirs - {downloadId} == s.dirs;
    var m := LastMetadata(frames);
    if m.Some? && Textual(m.value) && m.value.fileName != "" {
      assert Final(m.value.fileName) in staged.files <==> Final(m.value.fileName) in s.files;
    }
  }

  const RetryCountPrefix := "(retry count: "
  const RetryCountSuffix := ")"

  /** `GetRetryCount`: the `grpc-previous-rpc-attempts` header rendered for the console, or nothing. */
  function GetRetryCount(previousAttemptCount: Option<string>): (r: string)
    ensures r == "" <==> previousAttemptCount.None?
  {
    match previousAttemptCount
    case None => ""
    case Some(n) => RetryCountPrefix + n + RetryCountSuffix
  }

  /** Reads the header value back out of a rendered retry count. */
  function ParseRetryCount(r: string): Option<string>
  {
    if |r| >= |RetryCountPrefix| + |RetryCountSuffix| && r[..|RetryCountPrefix|] == RetryCountPrefix
       && r[|r| - |RetryCountSuffix|..] == RetryCountSuffix
    then Some(r[|RetryCountPrefix|..|r| - |RetryCountSuffix|])
    else None
  }

  /** The rendering loses nothing: the header value is recovered from the text. */
  lemma RetryCountRoundTrip(previousAttemptCount: Option<string>)
    ensures ParseRetryCount(GetRetryCount(previousAttemptCount)) == previousAttemptCount
  {
    if previousAttemptCount.Some? {
      var n := previousAttemptCount.value;
      var r := RetryCountPrefix + n + RetryCountSuffix;
      assert r[..|RetryCountPrefix|] == RetryCountPrefix;
      assert r[|r| - |RetryCountSuffix|..] == RetryCountSuffix;
      assert r[|RetryCountPrefix|..|r| - |RetryCountSuffix|] == n;
    }
  }
}
