/**
 * The read loop every sender runs: read the source into one reused buffer
 * and write a `Data` frame for each non-empty read, until a read returns
 * nothing.  It appears, with 32 KiB or 2 MiB buffers, in the server's
 * `DownloadFile`, the client's `Upload`, and the benchmark client and
 * service.
 */
module Chunker {
  import opened Frames
  import opened Calls
  import opened FileStore

  /**
   * Sends what remains of `src` as `Data` frames of at most `chunkSize`
   * bytes.  Each frame carries a copy of the buffer's filled prefix, so a
   * later read into the buffer cannot change a frame already written.
   */
  method PumpChunks(src: ReadStream, dst: Call<Frame>, chunkSize: nat) returns (frames: seq<Frame>)
    requires src.Valid() && chunkSize > 0 && !dst.Closed()
    modifies src, dst
    ensures src.Valid() && src.position == |src.contents|
    ensures IsChunking(frames, old(src.Remaining()), chunkSize)
    ensures dst.log == old(dst.log) + Sends(frames) && !dst.Closed()
  {
    var buffer := new byte[chunkSize];
    frames := [];
    while true
      invariant src.Valid() && old(src.position) <= src.position
      invariant IsChunking(frames, src.contents[old(src.position)..src.position], chunkSize)
      invariant dst.log == old(dst.log) + Sends(frames) && !dst.Closed()
      decreases |src.contents| - src.position
    {
      ghost var done := src.contents[old(src.position)..src.position];
      ghost var before := src.position;
      var count := src.Read(buffer);
      if count == 0 {
        break;
      }
      var bytes := buffer[..count];
      dst.Write(Data(bytes));
      ChunkingSnoc(frames, done, bytes, chunkSize);
      SendsSnoc(frames, Data(bytes));
      assert src.contents[old(src.position)..src.position] == done + bytes;
      frames := frames + [Data(bytes)];
    }
  }

  /** The split a reader that always fills the buffer would produce: the reference chunking. */
  function FullReads(data: seq<byte>, n: nat): (fs: seq<Frame>)
    requires n > 0
    decreases |data|
  {
    if data == [] then []
    else if |data| <= n then [Data(data)]
    else [Data(data[..n])] + FullReads(data[n..], n)
  }

  /** The reference split is a chunking. */
  lemma {:induction false} FullReadsIsChunking(data: seq<byte>, n: nat)
    requires n > 0
    ensures IsChunking(FullReads(data, n), data, n)
    decreases |data|
  {
    if data == [] {
      assert FullReads(data, n) == [];
    } else if |data| <= n {
      assert FullReads(data, n) == [Data(data)];
      SingleChunk(data, n);
    } else {
      var head, tail := data[..n], data[n..];
      assert data == head + tail;
      assert FullReads(data, n) == [Data(head)] + FullReads(tail, n);
      FullReadsIsChunking(tail, n);
      SingleChunk(head, n);
      ChunkingConcat([Data(head)], head, FullReads(tail, n), tail, n);
    }
  }

  lemma SingleChunk(b: seq<byte>, n: nat)
    requires 1 <= |b| <= n
    ensures IsChunking([Data(b)], b, n)
  {
    assert [Data(b)] == [] + [Data(b)];
    PayloadSnoc([], Data(b));
  }

  /**
   * Every frame of the reference split but the last is full, so it has
   * `ceil(|data| / n)` frames: `n * k` is at least `|data|` and less than
   * `|data| + n`.
   */
  lemma {:induction false} FullReadsCount(data: seq<byte>, n: nat)
    requires n > 0
    ensures var fs := FullReads(data, n);
      forall i :: 0 <= i < |fs| - 1 ==> fs[i].Data? && |fs[i].bytes| == n
    ensures |data| <= n * |FullReads(data, n)| < |data| + n
    decreases |data|
  {
    var fs := FullReads(data, n);
    if data == [] {
    } else if |data| <= n {
      MulStep(n, 0);
    } else {
      var rest := FullReads(data[n..], n);
      assert fs == [Data(data[..n])] + rest;
      FullReadsCount(data[n..], n);
      MulStep(n, |rest|);
      forall i | 0 <= i < |fs| - 1
        ensures fs[i].Data? && |fs[i].bytes| == n
      {
        if i > 0 {
          assert fs[i] == rest[i - 1];
        }
      }
    }
  }

  /**
   * However short the reads, no chunking has fewer frames than the reference
   * split.
   */
  lemma FullReadsIsShortest(fs: seq<Frame>, data: seq<byte>, n: nat)
    requires n > 0 && IsChunking(fs, data, n)
    ensures |FullReads(data, n)| <= |fs|
  {
    FullReadsCount(data, n);
    ChunkCountBounds(fs, data, n);
    if |FullReads(data, n)| > |fs| {
      MulStep(n, |fs|);
      MulMonotone(n, |fs| + 1, |FullReads(data, n)|);
    }
  }

  lemma MulMonotone(n: nat, a: nat, b: nat)
    requires n > 0 && a <= b
    ensures n * a <= n * b
  {
    assert n * b == n * a + n * (b - a);
  }
}
