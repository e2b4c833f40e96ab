/**
 * The wire messages of the transfer protocol: a frame is either the file's
 * metadata or a chunk of its bytes.  Reassembly, name resolution and the
 * shape of a chunked payload are defined here once and used by every
 * pipeline.
 */
module Frames {
  import opened Wrappers

  newtype byte = b: int | 0 <= b < 256

  /** Chunk size of the interactive upload and download paths (32 KiB). */
  const InteractiveChunkSize: nat := 1024 * 32

  /** Chunk size of the benchmark paths (2 MiB). */
  const BulkChunkSize: nat := 1024 * 1024 * 2

  /** `FileMetadata`: the file name; `start` and `end` only matter on the duplex benchmark. */
  datatype FileMetadata = FileMetadata(fileName: string, start: bool, end: bool)

  /** `UploadFileRequest` / `DownloadFileResponse`: exactly one of the two parts is set. */
  datatype Frame = Metadata(meta: FileMetadata) | Data(bytes: seq<byte>)

  /** `DownloadFileRequest`: the name of the file asked for. */
  datatype DownloadFileRequest = DownloadFileRequest(fileName: string)

  /** `UploadFileResponse`: the acknowledgment, carrying the upload id (empty on the benchmark services). */
  datatype UploadFileResponse = UploadFileResponse(id: string)

  /** The bytes a frame contributes to the staged file: a metadata frame contributes none. */
  function BytesOf(f: Frame): seq<byte>
  {
    if f.Data? then f.bytes else []
  }

  /** Concatenation of the `Data` payloads of `fs`, in order. */
  function Payload(fs: seq<Frame>): seq<byte>
  {
    if fs == [] then [] else Payload(fs[..|fs| - 1]) + BytesOf(fs[|fs| - 1])
  }

  /** The metadata of the last `Metadata` frame of `fs`, if there is one. */
  function LastMetadata(fs: seq<Frame>): Option<FileMetadata>
  {
    if fs == [] then None
    else if fs[|fs| - 1].Metadata? then Some(fs[|fs| - 1].meta)
    else LastMetadata(fs[..|fs| - 1])
  }

  predicate AllData(fs: seq<Frame>)
  {
    forall i :: 0 <= i < |fs| ==> fs[i].Data?
  }

  /**
   * `fs` is the output of one run of the chunk loop over `data`: only `Data`
   * frames, each holding between 1 and `n` bytes, whose payloads concatenate
   * back to `data`.  Nothing says that all but the last are full: a read may
   * return fewer bytes than the buffer holds.
   */
  predicate IsChunking(fs: seq<Frame>, data: seq<byte>, n: nat)
  {
    AllData(fs)
    && (forall i :: 0 <= i < |fs| ==> 1 <= |fs[i].bytes| <= n)
    && Payload(fs) == data
  }

  lemma PayloadSnoc(fs: seq<Frame>, f: Frame)
    ensures Payload(fs + [f]) == Payload(fs) + BytesOf(f)
  {
    assert (fs + [f])[..|fs|] == fs;
  }

  lemma LastMetadataSnoc(fs: seq<Frame>, f: Frame)
    ensures LastMetadata(fs + [f]) == if f.Metadata? then Some(f.meta) else LastMetadata(fs)
  {
    assert (fs + [f])[..|fs|] == fs;
  }

  /** Reassembly distributes over concatenation of frame sequences. */
  lemma {:induction false} PayloadConcat(a: seq<Frame>, b: seq<Frame>)
    ensures Payload(a + b) == Payload(a) + Payload(b)
    decreases |b|
  {
    if b == [] {
      assert a + b == a;
    } else {
      var b', f := b[..|b| - 1], b[|b| - 1];
      assert b' + [f] == b;
      assert (a + b') + [f] == a + b;
      PayloadConcat(a, b');
      PayloadConcatStep(a, b', f);
    }
  }

  lemma AppendAssoc(x: seq<byte>, y: seq<byte>, z: seq<byte>)
    ensures (x + y) + z == x + (y + z)
  {
  }

  lemma PayloadConcatStep(a: seq<Frame>, b: seq<Frame>, f: Frame)
    requires Payload(a + b) == Payload(a) + Payload(b)
    ensures Payload((a + b) + [f]) == Payload(a) + Payload(b + [f])
  {
    calc {
      Payload((a + b) + [f]);
      == { PayloadSnoc(a + b, f); }
      Payload(a + b) + BytesOf(f);
      == (Payload(a) + Payload(b)) + BytesOf(f);
      == { AppendAssoc(Payload(a), Payload(b), BytesOf(f)); }
      Payload(a) + (Payload(b) + BytesOf(f));
      == { PayloadSnoc(b, f); }
      Payload(a) + Payload(b + [f]);
    }
  }

  /** Metadata frames contribute no bytes: the payload is that of the data frames alone. */
  lemma {:induction false} PayloadIgnoresMetadata(fs: seq<Frame>, m: FileMetadata)
    ensures Payload([Metadata(m)] + fs) == Payload(fs)
  {
    PayloadConcat([Metadata(m)], fs);
    assert [Metadata(m)] == [] + [Metadata(m)];
    PayloadSnoc([], Metadata(m));
  }

  /** The last metadata frame wins: any metadata frame followed only by data frames decides the name. */
  lemma {:induction false} LastMetadataWins(a: seq<Frame>, m: FileMetadata, b: seq<Frame>)
    requires AllData(b)
    ensures LastMetadata(a + [Metadata(m)] + b) == Some(m)
  {
    if b == [] {
      assert a + [Metadata(m)] + b == a + [Metadata(m)];
    } else {
      var b' := b[..|b| - 1];
      assert b[|b| - 1].Data?;
      assert a + [Metadata(m)] + b == (a + [Metadata(m)] + b') + [b[|b| - 1]];
      assert (a + [Metadata(m)] + b)[..|a + [Metadata(m)] + b| - 1] == a + [Metadata(m)] + b';
      LastMetadataWins(a, m, b');
    }
  }

  /** There is no resolved metadata exactly when no frame is a `Metadata` frame. */
  lemma {:induction false} LastMetadataNone(fs: seq<Frame>)
    ensures LastMetadata(fs).None? <==> AllData(fs)
  {
    if fs != [] {
      LastMetadataNone(fs[..|fs| - 1]);
      if AllData(fs[..|fs| - 1]) && fs[|fs| - 1].Data? {
        assert forall i :: 0 <= i < |fs| ==> fs[i].Data? by {
          forall i | 0 <= i < |fs| ensures fs[i].Data? {
            if i < |fs| - 1 { assert fs[i] == fs[..|fs| - 1][i]; }
          }
        }
      }
      if !AllData(fs[..|fs| - 1]) {
        var i :| 0 <= i < |fs| - 1 && !fs[..|fs| - 1][i].Data?;
        assert !fs[i].Data?;
      }
    }
  }

  /** Whenever some metadata is resolved, it is the metadata of one of the frames. */
  lemma {:induction false} LastMetadataIsSent(fs: seq<Frame>)
    requires LastMetadata(fs).Some?
    ensures Metadata(LastMetadata(fs).value) in fs
  {
    if !fs[|fs| - 1].Metadata? {
      LastMetadataIsSent(fs[..|fs| - 1]);
      assert fs[..|fs| - 1] <= fs;
    }
  }

  /** Every chunk holds at least one byte, so an empty file is sent as no data frames at all. */
  lemma {:induction false} EmptyDataNoChunks(fs: seq<Frame>, n: nat)
    requires IsChunking(fs, [], n)
    ensures fs == []
  {
    if fs != [] {
      assert false;
    }
  }

  /** A chunking has at least one frame per `n` bytes and at most one frame per byte. */
  lemma {:induction false} ChunkCountBounds(fs: seq<Frame>, data: seq<byte>, n: nat)
    requires IsChunking(fs, data, n)
    ensures |fs| <= |data| <= n * |fs|
  {
    if fs != [] {
      var fs' := fs[..|fs| - 1];
      var last := fs[|fs| - 1];
      assert IsChunking(fs', Payload(fs'), n) by {
        forall i | 0 <= i < |fs'| ensures fs'[i].Data? && 1 <= |fs'[i].bytes| <= n {
          assert fs'[i] == fs[i];
        }
      }
      ChunkCountBounds(fs', Payload(fs'), n);
      assert |data| == |Payload(fs')| + |last.bytes|;
      assert 1 <= |last.bytes| <= n;
      MulStep(n, |fs'|);
    }
  }

  lemma MulStep(n: nat, k: nat)
    ensures n * (k + 1) == n * k + n
  {
  }

  /** One more chunk of 1 to `n` bytes extends a chunking of `data` to one of `data + b`. */
  lemma ChunkingSnoc(fs: seq<Frame>, data: seq<byte>, b: seq<byte>, n: nat)
    requires IsChunking(fs, data, n) && 1 <= |b| <= n
    ensures IsChunking(fs + [Data(b)], data + b, n)
  {
    PayloadSnoc(fs, Data(b));
  }

  /** Chunkings compose: frames for `a` followed by frames for `b` are frames for `a + b`. */
  lemma ChunkingConcat(fa: seq<Frame>, a: seq<byte>, fb: seq<Frame>, b: seq<byte>, n: nat)
    requires IsChunking(fa, a, n) && IsChunking(fb, b, n)
    ensures IsChunking(fa + fb, a + b, n)
  {
    PayloadConcat(fa, fb);
  }
}
