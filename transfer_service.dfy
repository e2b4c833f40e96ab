/**
 * The file transfer service: `UploadFile` stages a client stream and
 * commits it under the name its metadata gives; `DownloadFile` sends a
 * stored file as one metadata frame followed by 32 KiB data frames.
 */
module TransferService {
  import opened Wrappers
  import opened Frames
  import opened Calls
  import opened FileStore
  import opened Staging
  import opened Chunker

  /** Why `UploadFile` ended with an exception instead of a response. */
  datatype UploadError =
    | StreamAborted(error: RpcException)   // reading the request stream threw
    | Threw(fault: Fault)                   // the commit step threw

  /**
   * The result of `UploadFile` and the storage afterwards: create
   * `<id>/`, stage the stream into it, and, if the stream completed,
   * commit under the resolved name.
   */
  function UploadSpec(s: Store, requestStream: Inbound<Frame>, uploadId: string): (out: (Result<UploadFileResponse, UploadError>, Store))
    ensures out.0.Success? ==> out.0.value.id == uploadId
    ensures requestStream.end.Aborted? ==> out.0 == Failure(StreamAborted(requestStream.end.error))
  {
    var created := s.(files := s.files[Staged(uploadId) := []], dirs := s.dirs + {uploadId});
    var staged := StageSpec(created, uploadId, requestStream.messages);
    if requestStream.end.Aborted? then
      (Failure(StreamAborted(requestStream.end.error)), staged)
    else
      var (c, t) := CommitSpec(staged, uploadId, LastMetadata(requestStream.messages));
      (if c.Success? then Success(UploadFileResponse(uploadId)) else Failure(Threw(c.error)), t)
  }

  /**
   * `UploadFile`: `uploadId` is the random name `Path.GetRandomFileName`
   * returned.  Reading the request stream may throw once the delivered
   * messages have been handled; nothing catches it.
   */
  method UploadFile(fs: FileSystem, requestStream: Inbound<Frame>, uploadId: string)
    returns (r: Result<UploadFileResponse, UploadError>)
    modifies fs
    ensures (r, fs.State()) == UploadSpec(old(fs.State()), requestStream, uploadId)
  {
    fs.CreateDirectory(uploadId);
    fs.Create(Staged(uploadId));
    var metadata := Reassemble(fs, uploadId, requestStream.messages);
    if requestStream.end.Aborted? {
      return Failure(StreamAborted(requestStream.end.error));
    }
    var committed := Commit(fs, uploadId, metadata);
    if committed.Failure? {
      return Failure(Threw(committed.error));
    }
    return Success(UploadFileResponse(uploadId));
  }

  /**
   * A completed upload whose last metadata names a new file commits it:
   * the response carries the upload id, `<name>` holds exactly the data
   * payloads in arrival order, and nothing else in the store changed (the
   * staging directory and its sidecar are gone).
   */
  lemma UploadCommits(s: Store, requestStream: Inbound<Frame>, uploadId: string, name: string)
    requires Fresh(s, uploadId)
    requires requestStream.end.Completed?
    requires LastMetadata(requestStream.messages).Some? && LastMetadata(requestStream.messages).value.fileName == name
    requires Textual(LastMetadata(requestStream.messages).value)
    requires name != "" && Final(name) !in s.files
    ensures UploadSpec(s, requestStream, uploadId)
         == (Success(UploadFileResponse(uploadId)), s.(files := s.files[Final(name) := Payload(requestStream.messages)]))
  {
    var frames := requestStream.messages;
    var created := s.(files := s.files[Staged(uploadId) := []], dirs := s.dirs + {uploadId});
    var staged := StageSpec(created, uploadId, frames);
    assert [] + Payload(frames) == Payload(frames);
    assert staged.files == s.files[Staged(uploadId) := Payload(frames)];
    assert staged.files - {Staged(uploadId)} == s.files;
    assert Final(name) !in staged.files;
    assert staged.sidecars - {uploadId} == s.sidecars;
    assert staged.dirs - {uploadId} == s.dirs;
  }

  /**
   * Otherwise nothing is committed: the staging directory stays, holding
   * the data payloads in `data.bin` and the last metadata in its sidecar,
   * and no stored file changed.  The response carries the upload id
   * exactly when the stream completed and the resolved name is empty.
   */
  lemma UploadLeavesStaged(s: Store, requestStream: Inbound<Frame>, uploadId: string)
    requires Fresh(s, uploadId)
    requires var m := LastMetadata(requestStream.messages);
      requestStream.end.Aborted? || m.None? || !Textual(m.value) || m.value.fileName == "" || Final(m.value.fileName) in s.files
    ensures var (r, t) := UploadSpec(s, requestStream, uploadId);
      && t.files == s.files[Staged(uploadId) := Payload(requestStream.messages)]
      && t.dirs == s.dirs + {uploadId}
      && (LastMetadata(requestStream.messages).Some? ==> t.sidecars == s.sidecars[uploadId := LastMetadata(requestStream.messages).value])
      && (LastMetadata(requestStream.messages).None? ==> t.sidecars == s.sidecars)
      && (r.Success? <==> requestStream.end.Completed? && LastMetadata(requestStream.messages).Some?
                          && Textual(LastMetadata(requestStream.messages).value)
                          && LastMetadata(requestStream.messages).value.fileName == "")
  {
    var frames := requestStream.messages;
    var created := s.(files := s.files[Staged(uploadId) := []], dirs := s.dirs + {uploadId});
    var staged := StageSpec(created, uploadId, frames);
    assert [] + Payload(frames) == Payload(frames);
    assert staged.files == s.files[Staged(uploadId) := Payload(frames)];
  }

  /**
   * A completed upload whose last metadata has its Start or End flag set
   * is not committed: deserialising the rendered metadata throws, and the
   * staging directory stays.
   */
  lemma UploadFlagRefused(s: Store, requestStream: Inbound<Frame>, uploadId: string)
    requires Fresh(s, uploadId)
    requires requestStream.end.Completed?
    requires LastMetadata(requestStream.messages).Some? && !Textual(LastMetadata(requestStream.messages).value)
    ensures var (r, t) := UploadSpec(s, requestStream, uploadId);
      r == Failure(Threw(FlagNotText)) && t.files == s.files[Staged(uploadId) := Payload(requestStream.messages)]
  {
    UploadLeavesStaged(s, requestStream, uploadId);
  }

  /**
   * The last metadata frame wins: a stream whose last metadata frame names
   * `m.fileName`, followed only by data frames, is committed under that
   * name, whatever names earlier metadata frames carried.
   */
  lemma UploadLastMetadataWins(s: Store, before: seq<Frame>, m: FileMetadata, after: seq<Frame>, uploadId: string)
    requires Fresh(s, uploadId) && AllData(after)
    requires Textual(m) && m.fileName != "" && Final(m.fileName) !in s.files
    ensures var frames := before + [Metadata(m)] + after;
      UploadSpec(s, Inbound(frames, Completed), uploadId).1.files == s.files[Final(m.fileName) := Payload(frames)]
  {
    LastMetadataWins(before, m, after);
    UploadCommits(s, Inbound(before + [Metadata(m)] + after, Completed), uploadId, m.fileName);
  }

  /**
   * An upload of metadata `report.txt` followed by chunks of 32768, 32768
   * and 100 bytes commits a `report.txt` of 65636 bytes and answers with
   * the (non-empty) upload id.
   */
  lemma ReportScenario(s: Store, uploadId: string, a: seq<byte>, b: seq<byte>, c: seq<byte>)
    requires Fresh(s, uploadId) && uploadId != "" && Final("report.txt") !in s.files
    requires |a| == 32768 && |b| == 32768 && |c| == 100
    ensures var frames := [Metadata(FileMetadata("report.txt", false, false)), Data(a), Data(b), Data(c)];
      var (r, t) := UploadSpec(s, Inbound(frames, Completed), uploadId);
      r == Success(UploadFileResponse(uploadId)) && r.value.id != ""
      && Final("report.txt") in t.files && |t.files[Final("report.txt")]| == 65636
  {
    var meta := FileMetadata("report.txt", false, false);
    var data := [Data(a), Data(b), Data(c)];
    var frames := [Metadata(meta), Data(a), Data(b), Data(c)];
    assert frames == [] + [Metadata(meta)] + data;
    assert AllData(data);
    LastMetadataWins([], meta, data);
    PayloadIgnoresMetadata(data, meta);
    assert [Metadata(meta)] + data == frames;
    assert data == [Data(a), Data(b)] + [Data(c)];
    assert [Data(a), Data(b)] == [Data(a)] + [Data(b)];
    assert [Data(a)] == [] + [Data(a)];
    PayloadSnoc([], Data(a));
    PayloadSnoc([Data(a)], Data(b));
    PayloadSnoc([Data(a), Data(b)], Data(c));
    UploadCommits(s, Inbound(frames, Completed), uploadId, "report.txt");
  }

  /** The `NotFound` status `DownloadFile` raises for a missing file. */
  function NotFoundError(fileName: string): (e: RpcException)
    ensures e.code == NotFound
  {
    RpcException(NotFound, "File " + fileName + " isn't found on the server.")
  }

  /**
   * What a download stream carries: a metadata frame naming the requested
   * file, then the file's bytes as a chunking into frames of at most `n`
   * bytes.
   */
  predicate IsDownloadResponse(frames: seq<Frame>, fileName: string, file: seq<byte>, n: nat)
  {
    |frames| >= 1
    && frames[0] == Metadata(FileMetadata(fileName, false, false))
    && IsChunking(frames[1..], file, n)
  }

  /**
   * `DownloadFile`: a missing file fails with `NotFound` before any frame
   * is written; otherwise the metadata frame, then the file in 32 KiB
   * chunks.
   */
  method DownloadFile(fs: FileSystem, request: DownloadFileRequest, responseStream: Call<Frame>)
    returns (r: Outcome<RpcException>)
    requires responseStream.log == []
    modifies responseStream
    ensures Final(request.fileName) !in fs.files ==> r == Fail(NotFoundError(request.fileName)) && responseStream.log == []
    ensures Final(request.fileName) in fs.files ==>
      && r == Pass
      && responseStream.log == Sends(Sent(responseStream.log))
      && IsDownloadResponse(Sent(responseStream.log), request.fileName, fs.files[Final(request.fileName)], InteractiveChunkSize)
  {
    if Final(request.fileName) !in fs.files {
      return Fail(NotFoundError(request.fileName));
    }
    var metadata := Metadata(FileMetadata(request.fileName, false, false));
    responseStream.Write(metadata);
    var fileStream := new ReadStream(fs.files[Final(request.fileName)]);
    var chunks := PumpChunks(fileStream, responseStream, InteractiveChunkSize);
    assert [Send(metadata)] == Sends([metadata]);
    SendsConcat([metadata], chunks);
    SendsSent([metadata] + chunks);
    assert ([metadata] + chunks)[1..] == chunks;
    return Pass;
  }

  /**
   * Reassembling a download stream gives back the file under the requested
   * name: the payloads concatenate to the file and the last metadata is
   * the one naming it.
   */
  lemma DownloadReassembles(frames: seq<Frame>, fileName: string, file: seq<byte>, n: nat)
    requires IsDownloadResponse(frames, fileName, file, n)
    ensures Payload(frames) == file
    ensures LastMetadata(frames) == Some(FileMetadata(fileName, false, false))
  {
    assert frames == [frames[0]] + frames[1..];
    PayloadIgnoresMetadata(frames[1..], frames[0].meta);
    assert frames == [] + [frames[0]] + frames[1..];
    LastMetadataWins([], frames[0].meta, frames[1..]);
  }
}
