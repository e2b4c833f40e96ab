/**
 * Staging then commit, as both ends run it: the server's `UploadFile` on
 * its storage root and the client's `Download` on its `downloads`
 * directory.  Every `Data` payload is appended to `<id>/data.bin` in
 * arrival order, every `Metadata` frame overwrites `<id>/metadata.json`;
 * once the stream is over, the last metadata names the file, and a
 * non-empty name moves the staged bytes to `<name>` and deletes the
 * staging directory.
 */
module Staging {
  import opened Wrappers
  import opened Frames
  import opened FileStore

  /** Exceptions other than an `RpcException` that the commit step can raise. */
  datatype Fault =
    | NoMetadata          // no metadata frame arrived: deserialising the empty string throws
    | DestinationExists   // `File.Move` refuses to overwrite an existing `<name>`
    | FlagNotText         // a set Start or End flag renders as a JSON boolean, which a string dictionary refuses

  /**
   * The rendered metadata deserialises into a string dictionary: the JSON
   * rendering omits flags that are not set, and a set flag would appear
   * as `true`, which is not a string.
   */
  predicate Textual(m: FileMetadata)
  {
    !m.start && !m.end
  }

  /** The store once `frames` have been staged under `id` (directory and data file already created). */
  function StageSpec(s: Store, id: string, frames: seq<Frame>): (t: Store)
    requires Staged(id) in s.files
  {
    var sidecars := if LastMetadata(frames).Some? then s.sidecars[id := LastMetadata(frames).value] else s.sidecars;
    Store(s.files[Staged(id) := s.files[Staged(id)] + Payload(frames)], sidecars, s.dirs)
  }

  /**
   * The commit step on the metadata that was resolved: which name the file
   * was committed under (`None` when the name is empty and the bytes stay
   * staged), or the exception raised, and the store afterwards.
   */
  function CommitSpec(s: Store, id: string, metadata: Option<FileMetadata>): (Result<Option<string>, Fault>, Store)
    requires Staged(id) in s.files
  {
    match metadata
    case None => (Failure(NoMetadata), s)
    case Some(m) =>
      if !Textual(m) then (Failure(FlagNotText), s)
      else if m.fileName == "" then (Success(None), s)
      else if Final(m.fileName) in s.files then (Failure(DestinationExists), s)
      else
        var files := (s.files - {Staged(id)})[Final(m.fileName) := s.files[Staged(id)]];
        (Success(Some(m.fileName)), Store(files, s.sidecars - {id}, s.dirs - {id}))
  }

  /**
   * The receive loop: appends each `Data` payload to the staged file and
   * records each `Metadata` frame in the sidecar; returns the last metadata.
   */
  method Reassemble(fs: FileSystem, id: string, frames: seq<Frame>) returns (metadata: Option<FileMetadata>)
    requires Staged(id) in fs.files
    modifies fs
    ensures metadata == LastMetadata(frames)
    ensures fs.State() == StageSpec(old(fs.State()), id, frames)
  {
    ghost var s0 := fs.State();
    metadata := None;
    assert frames[..0] == [];
    assert s0.files[Staged(id)] + [] == s0.files[Staged(id)];
    assert s0.files[Staged(id) := s0.files[Staged(id)]] == s0.files;
    for i := 0 to |frames|
      invariant Staged(id) in fs.files
      invariant metadata == LastMetadata(frames[..i])
      invariant fs.State() == StageSpec(s0, id, frames[..i])
    {
      var message := frames[i];
      assert frames[..i + 1] == frames[..i] + [message];
      LastMetadataSnoc(frames[..i], message);
      if message.Metadata? {
        StageSpecSnocMetadata(s0, id, frames[..i], message.meta);
        metadata := Some(message.meta);
        fs.WriteSidecar(id, message.meta);
      } else {
        StageSpecSnocData(s0, id, frames[..i], message.bytes);
        fs.Append(Staged(id), message.bytes);
      }
    }
    assert frames[..|frames|] == frames;
  }

  /** Resolves the name from the last metadata and, if it is non-empty, moves the staged file there. */
  method Commit(fs: FileSystem, id: string, metadata: Option<FileMetadata>) returns (r: Result<Option<string>, Fault>)
    requires Staged(id) in fs.files
    modifies fs
    ensures (r, fs.State()) == CommitSpec(old(fs.State()), id, metadata)
  {
    if metadata.None? {
      return Failure(NoMetadata);
    }
    if !Textual(metadata.value) {
      return Failure(FlagNotText);
    }
    var filename := metadata.value.fileName;
    if filename != "" {
      ghost var s0 := fs.State();
      var moved := fs.Move(Staged(id), Final(filename));
      if !moved {
        return Failure(DestinationExists);
      }
      fs.DeleteDirectory(id);
      assert fs.files == (s0.files - {Staged(id)})[Final(filename) := s0.files[Staged(id)]];
      return Success(Some(filename));
    }
    return Success(None);
  }

  /** A metadata frame overwrites the sidecar and leaves the staged bytes alone. */
  lemma StageSpecSnocMetadata(s: Store, id: string, frames: seq<Frame>, m: FileMetadata)
    requires Staged(id) in s.files
    ensures var t := StageSpec(s, id, frames);
      StageSpec(s, id, frames + [Metadata(m)]) == Store(t.files, t.sidecars[id := m], t.dirs)
  {
    PayloadSnoc(frames, Metadata(m));
    LastMetadataSnoc(frames, Metadata(m));
    assert Payload(frames + [Metadata(m)]) == Payload(frames) + [] == Payload(frames);
    var t := StageSpec(s, id, frames);
    assert t.sidecars[id := m] == s.sidecars[id := m];
  }

  /** A data frame appends its bytes to the staged file and leaves the sidecar alone. */
  lemma StageSpecSnocData(s: Store, id: string, frames: seq<Frame>, bytes: seq<byte>)
    requires Staged(id) in s.files
    ensures var t := StageSpec(s, id, frames);
      StageSpec(s, id, frames + [Data(bytes)]) == Store(t.files[Staged(id) := t.files[Staged(id)] + bytes], t.sidecars, t.dirs)
  {
    PayloadSnoc(frames, Data(bytes));
    LastMetadataSnoc(frames, Data(bytes));
    var staged, t := s.files[Staged(id)], StageSpec(s, id, frames);
    assert LastMetadata(frames + [Data(bytes)]) == LastMetadata(frames);
    assert staged + Payload(frames + [Data(bytes)]) == (staged + Payload(frames)) + bytes;
    assert t.files[Staged(id)] == staged + Payload(frames);
  }

  /** Staging appends: the staged file holds exactly the data payloads, in arrival order. */
  lemma StagedBytes(s: Store, id: string, frames: seq<Frame>)
    requires Staged(id) in s.files && s.files[Staged(id)] == []
    ensures StageSpec(s, id, frames).files[Staged(id)] == Payload(frames)
  {
  }

  /** Staging in two parts is staging the whole stream: the receive loop is incremental. */
  lemma {:induction false} StageSpecConcat(s: Store, id: string, a: seq<Frame>, b: seq<Frame>)
    requires Staged(id) in s.files
    ensures StageSpec(StageSpec(s, id, a), id, b) == StageSpec(s, id, a + b)
  {
    PayloadConcat(a, b);
    LastMetadataConcat(a, b);
    assert s.files[Staged(id)] + Payload(a + b) == (s.files[Staged(id)] + Payload(a)) + Payload(b);
  }

  lemma {:induction false} LastMetadataConcat(a: seq<Frame>, b: seq<Frame>)
    ensures LastMetadata(a + b) == if LastMetadata(b).Some? then LastMetadata(b) else LastMetadata(a)
  {
    if b == [] {
      assert a + b == a;
    } else {
      assert (a + b)[..|a + b| - 1] == a + b[..|b| - 1];
      LastMetadataConcat(a, b[..|b| - 1]);
    }
  }

  /**
   * A commit happens exactly when a metadata frame arrived, its name is
   * non-empty and no file of that name exists; the committed file holds
   * the staged bytes and the staging directory with its sidecar is gone.
   */
  lemma CommitIff(s: Store, id: string, metadata: Option<FileMetadata>)
    requires Staged(id) in s.files
    ensures var (r, t) := CommitSpec(s, id, metadata);
      (r.Success? && r.value.Some?) <==>
        (metadata.Some? && Textual(metadata.value) && metadata.value.fileName != "" && Final(metadata.value.fileName) !in s.files)
    ensures var (r, t) := CommitSpec(s, id, metadata);
      r.Success? && r.value.Some? ==>
        r.value.value == metadata.value.fileName
        && t.files[Final(r.value.value)] == s.files[Staged(id)]
        && Staged(id) !in t.files && id !in t.sidecars && id !in t.dirs
    ensures var (r, t) := CommitSpec(s, id, metadata);
      !(r.Success? && r.value.Some?) ==> t == s
    ensures var (r, t) := CommitSpec(s, id, metadata);
      metadata.Some? && !Textual(metadata.value) ==> r == Failure(FlagNotText)
  {
  }
}
