/**
 * Both ends of a transfer composed over the wire: what one side writes on
 * a call is what the other side's stream delivers, completed normally
 * unless the sending handler failed with an `RpcException`.
 */
module RoundTrip {
  import opened Wrappers
  import opened Frames
  import opened Calls
  import opened FileStore
  import opened Staging
  import opened TransferService
  import opened ClientProgram

  /** What a peer receives from a call the other side wrote on and then ended with `end`. */
  function Delivered<M>(log: seq<Event<M>>, end: StreamEnd): (inbound: Inbound<M>)
    ensures inbound.messages == Sent(log) && inbound.end == end
  {
    Inbound(Sent(log), end)
  }

  /** How a server handler's outcome ends the response stream its client reads. */
  function EndOf(r: Outcome<RpcException>): (end: StreamEnd)
    ensures end.Completed? <==> r.Pass?
    ensures r.Fail? ==> end == Aborted(r.error)
  {
    if r.Fail? then Aborted(r.error) else Completed
  }

  /**
   * How the client sees a call the server's bearer-token check turned away
   * before any handler ran: the HTTP 401 the authentication middleware
   * answers with, surfaced by the client library as `Unauthenticated`.
   */
  function Unauthorized(): (e: RpcException)
    ensures e.code == Unauthenticated
  {
    RpcException(Unauthenticated, "Bad gRPC response. HTTP status code: 401")
  }

  /**
   * A download stream as the server produces it for a file it holds, fully
   * received under a new non-empty name, is committed there byte for byte
   * and leaves nothing else behind.
   */
  lemma DownloadOfServedFile(s: Store, downloadId: string, frames: seq<Frame>, name: string, file: seq<byte>)
    requires Fresh(s, downloadId)
    requires IsDownloadResponse(frames, name, file, InteractiveChunkSize)
    requires name != "" && Final(name) !in s.files
    ensures DownloadSpec(s, downloadId, Inbound(frames, Completed)) == (Stored(Some(name)), s.(files := s.files[Final(name) := file]))
  {
    DownloadReassembles(frames, name, file, InteractiveChunkSize);
    DownloadCommitIff(s, downloadId, Inbound(frames, Completed));
  }

  /**
   * The client's `Download` of `name` against the server's `DownloadFile`.
   * `accepted` is the server's verdict on the call's bearer token (its
   * signature, its lifetime and its name claim); a call carrying no token
   * is never accepted.  A refused call is reported as
   * `Unauthenticated` and leaves an empty staging directory behind.  On an
   * accepted call, a file the server holds, downloaded under a new
   * non-empty name, lands in the client's `downloads/<name>` byte for byte
   * and the staging directory is gone; a file the server lacks is reported
   * as `NotFound` and leaves an empty staging directory behind.
   */
  method DownloadRoundTrip(server: FileSystem, client: FileSystem, name: string, downloadId: string,
                           token: Option<string>, accepted: bool)
    returns (outcome: DownloadOutcome)
    requires server != client
    requires Fresh(client.State(), downloadId)
    requires token.None? ==> !accepted
    modifies client
    ensures !accepted ==>
      && outcome == RpcFailed(Unauthorized())
      && client.State() == old(client.State()).(files := old(client.files)[Staged(downloadId) := []], dirs := old(client.dirs) + {downloadId})
    ensures accepted && Final(name) in server.files && name != "" && Final(name) !in old(client.files) ==>
      && outcome == Stored(Some(name))
      && client.State() == old(client.State()).(files := old(client.files)[Final(name) := server.files[Final(name)]])
    ensures accepted && Final(name) !in server.files ==>
      && outcome == RpcFailed(NotFoundError(name))
      && client.State() == old(client.State()).(files := old(client.files)[Staged(downloadId) := []], dirs := old(client.dirs) + {downloadId})
  {
    ghost var s := client.State();
    var inbound: Inbound<Frame>;
    if !accepted {
      inbound := Inbound([], Aborted(Unauthorized()));
      FailedDownloadLeavesStaging(s, downloadId, Unauthorized());
    } else {
      var responseStream := new Call<Frame>(None);
      var r := DownloadFile(server, DownloadFileRequest(name), responseStream);
      inbound := Delivered(responseStream.log, EndOf(r));
      if Final(name) in server.files {
        if name != "" && Final(name) !in s.files {
          DownloadOfServedFile(s, downloadId, inbound.messages, name, server.files[Final(name)]);
        }
      } else {
        assert inbound == Inbound([], Aborted(NotFoundError(name)));
        FailedDownloadLeavesStaging(s, downloadId, NotFoundError(name));
      }
    }
    var request, headers;
    request, headers, outcome := Download(client, downloadId, name, token, inbound);
  }

  /** A call that writes `ms`, closes its request stream and reads the response delivers exactly `ms`. */
  lemma WrittenThenClosed<M>(ms: seq<M>)
    ensures Sent(Sends(ms) + [Complete, Receive]) == ms
  {
    var tail: seq<Event<M>> := [Complete, Receive];
    assert tail == [Complete] + [Receive];
    LogConcat(Sends(ms), tail);
    SendsSent(ms);
    SentSnoc<M>([], Complete);
    SentSnoc<M>([Complete], Receive);
  }

  /** The frames the client's `Upload` puts on the wire: the metadata frame, then the data chunks. */
  lemma UploadWire(filename: string, frames: seq<Frame>)
    requires AllData(frames)
    ensures var wire := Sent([Send(Metadata(FileMetadata(filename, false, false)))] + Sends(frames) + [Complete, Receive]);
      && wire == [Metadata(FileMetadata(filename, false, false))] + frames
      && LastMetadata(wire) == Some(FileMetadata(filename, false, false))
      && Payload(wire) == Payload(frames)
  {
    var m := FileMetadata(filename, false, false);
    assert [Send(Metadata(m))] == Sends([Metadata(m)]);
    SendsConcat([Metadata(m)], frames);
    WrittenThenClosed([Metadata(m)] + frames);
    LastMetadataWins([], m, frames);
    assert [] + [Metadata(m)] + frames == [Metadata(m)] + frames;
    PayloadIgnoresMetadata(frames, m);
  }

  /**
   * The client's `Upload` of a local file against the server's
   * `UploadFile`.  `accepted` is the server's verdict on the call's bearer
   * token, as for `DownloadRoundTrip`.  A refused call never reaches the
   * handler: `handled` is `None` and the server's storage is untouched.  On
   * an accepted call, when the server holds no file of that name yet, the
   * handler answers with the upload id and stores the local file's bytes
   * under the name the client chose; nothing else in its store changes.
   */
  method UploadRoundTrip(server: FileSystem, localFiles: map<string, seq<byte>>, filepath: string, filename: string,
                         uploadId: string, token: Option<string>, accepted: bool)
    returns (handled: Option<Result<UploadFileResponse, UploadError>>)
    requires filepath != "" && filepath in localFiles
    requires filename != "" && Final(filename) !in server.files
    requires Fresh(server.State(), uploadId)
    requires token.None? ==> !accepted
    modifies server
    ensures !accepted ==> handled == None && server.State() == old(server.State())
    ensures accepted ==> handled == Some(Success(UploadFileResponse(uploadId)))
    ensures accepted ==> server.State() == old(server.State()).(files := old(server.files)[Final(filename) := localFiles[filepath]])
  {
    ghost var s := server.State();
    var call, frames := Upload(token, localFiles, filepath, filename);
    if !accepted {
      return None;
    }
    var inbound := Delivered(call.log, Completed);
    UploadWire(filename, frames);
    UploadCommits(s, inbound, uploadId, filename);
    var r := UploadFile(server, inbound, uploadId);
    handled := Some(r);
  }
}
