/**
 * The client's speed tests.  Each drives one call (or, for the unary test,
 * a series of calls) and marks its stopwatch on the call's log; what a
 * test returns is the part of the log its stopwatch measured, since
 * wall-clock readings are not modelled.  The duplex upload tests reuse one
 * bidirectional stream for two transfer cycles: the first warms the stream
 * up, only the second is timed, and the request stream is closed once,
 * after the second cycle's acknowledgment.
 */
module ClientTests {
  import opened Frames
  import opened Calls
  import opened FileStore
  import opened Chunker
  import opened TestTransferService

  /** The metadata frame that opens a cycle of the chunked duplex test. */
  const StartFrame: Frame := Metadata(FileMetadata("", true, false))

  /** The metadata frame that closes a cycle of the chunked duplex test. */
  const EndFrame: Frame := Metadata(FileMetadata("", false, true))

  /** Write the given messages, then read one response. */
  function Exchange<M>(sends: seq<M>): seq<Event<M>>
  {
    Sends(sends) + [Receive]
  }

  /** A two-cycle duplex run: the warm-up cycle, then the timed cycle, then the request stream closed. */
  function DuplexRun<M>(warmUp: seq<Event<M>>, timed: seq<Event<M>>): seq<Event<M>>
  {
    warmUp + [TimerStart] + timed + [TimerStop, Complete]
  }

  /** `k` write/read rounds of the same message, each write followed by its read. */
  function Rounds<M>(m: M, k: nat): (log: seq<Event<M>>)
    ensures |log| == 2 * k
  {
    if k == 0 then [] else Rounds(m, k - 1) + Exchange([m])
  }

  /** What a stopwatch marked on `log` measures: the events after its start and before its stop. */
  function Timed<M>(log: seq<Event<M>>): seq<Event<M>>
  {
    if log == [] then []
    else if log[0] == TimerStart then UntilStop(log[1..])
    else Timed(log[1..])
  }

  function UntilStop<M>(log: seq<Event<M>>): seq<Event<M>>
  {
    if log == [] || log[0] == TimerStop then [] else [log[0]] + UntilStop(log[1..])
  }

  /** A stopwatch started after `before` and stopped after `measured` measures exactly `measured`. */
  lemma {:induction false} TimedSpan<M>(before: seq<Event<M>>, measured: seq<Event<M>>, after: seq<Event<M>>)
    requires TimerStart !in before && TimerStop !in measured
    ensures Timed(before + [TimerStart] + measured + [TimerStop] + after) == measured
  {
    var log := before + [TimerStart] + measured + [TimerStop] + after;
    if before == [] {
      assert log[0] == TimerStart;
      assert log[1..] == measured + [TimerStop] + after;
      UntilStopSpan(measured, after);
    } else {
      assert log[0] == before[0] && log[0] != TimerStart;
      assert log[1..] == before[1..] + [TimerStart] + measured + [TimerStop] + after;
      TimedSpan(before[1..], measured, after);
    }
  }

  lemma {:induction false} UntilStopSpan<M>(measured: seq<Event<M>>, after: seq<Event<M>>)
    requires TimerStop !in measured
    ensures UntilStop(measured + [TimerStop] + after) == measured
  {
    var log := measured + [TimerStop] + after;
    if measured != [] {
      assert log[0] == measured[0] && log[0] != TimerStop;
      assert log[1..] == measured[1..] + [TimerStop] + after;
      UntilStopSpan(measured[1..], after);
    }
  }

  lemma SendsNoMarks<M>(ms: seq<M>)
    ensures Receive !in Sends(ms) && Complete !in Sends(ms)
    ensures TimerStart !in Sends(ms) && TimerStop !in Sends(ms)
  {
    SendsAt(ms);
    assert forall i :: 0 <= i < |Sends(ms)| ==> Sends(ms)[i].Send?;
  }

  /** A timed client-streaming upload measures its sends, the completion and the one reply. */
  lemma StreamUploadTimed<M>(ms: seq<M>)
    ensures var log: seq<Event<M>> := [TimerStart] + Sends(ms) + [Complete] + [Receive];
      log[1..] == Sends(ms) + [Complete, Receive] && Timed(log + [TimerStop]) == log[1..]
  {
    var body: seq<Event<M>> := Sends(ms) + [Complete, Receive];
    var log: seq<Event<M>> := [TimerStart] + Sends(ms) + [Complete] + [Receive];
    assert log[1..] == body;
    SendsNoMarks(ms);
    assert TimerStop !in body;
    var none: seq<Event<M>> := [];
    assert log + [TimerStop] == none + [TimerStart] + body + [TimerStop] + none;
    TimedSpan(none, body, none);
  }

  /** In a two-cycle run, the stopwatch measures the second cycle and nothing of the first. */
  lemma DuplexRunTimed<M>(a: seq<M>, b: seq<M>)
    ensures Timed(DuplexRun(Exchange(a), Exchange(b))) == Exchange(b)
  {
    SendsNoMarks(a);
    SendsNoMarks(b);
    assert DuplexRun(Exchange(a), Exchange(b)) == Exchange(a) + [TimerStart] + Exchange(b) + [TimerStop] + [Complete];
    TimedSpan(Exchange(a), Exchange(b), [Complete]);
  }

  /** One exchange writes its messages and reads once, and closes nothing. */
  lemma ExchangeCounts<M>(ms: seq<M>)
    ensures Sent(Exchange(ms)) == ms && Receives(Exchange(ms)) == 1 && Completions(Exchange(ms)) == 0
  {
    SendsSent(ms);
    SentSnoc(Sends(ms), Receive);
  }

  /**
   * A two-cycle run writes the first cycle's messages then the second's,
   * reads twice, and closes the request stream exactly once, as its last
   * action, after both reads.
   */
  lemma DuplexRunShape<M>(a: seq<M>, b: seq<M>)
    ensures var log := DuplexRun(Exchange(a), Exchange(b));
      && Sent(log) == a + b
      && Receives(log) == 2
      && Completions(log) == 1
      && log[|log| - 1] == Complete
      && Receives(log[..|log| - 1]) == 2
      && Completions(log[..|log| - 1]) == 0
  {
    var cycles := Exchange(a) + [TimerStart] + Exchange(b) + [TimerStop];
    DuplexRunLast(Exchange(a), Exchange(b));
    ExchangeCounts(a);
    ExchangeCounts(b);
    TimedCounts(Exchange(a), Exchange(b));
    SentSnoc(cycles, Complete);
  }

  /** The counters of two stretches joined by the timer marks are those of the stretches. */
  lemma TimedCounts<M>(warmUp: seq<Event<M>>, timed: seq<Event<M>>)
    ensures var log := warmUp + [TimerStart] + timed + [TimerStop];
      && Sent(log) == Sent(warmUp) + Sent(timed)
      && Receives(log) == Receives(warmUp) + Receives(timed)
      && Completions(log) == Completions(warmUp) + Completions(timed)
  {
    SentSnoc(warmUp, TimerStart);
    LogConcat(warmUp + [TimerStart], timed);
    SentSnoc(warmUp + [TimerStart] + timed, TimerStop);
  }

  /** A two-cycle run ends with the one Complete, after both cycles and the timer stop. */
  lemma DuplexRunLast<M>(warmUp: seq<Event<M>>, timed: seq<Event<M>>)
    ensures var log := DuplexRun(warmUp, timed);
      && log == (warmUp + [TimerStart] + timed + [TimerStop]) + [Complete]
      && log[..|log| - 1] == warmUp + [TimerStart] + timed + [TimerStop]
  {
    var cycles := warmUp + [TimerStart] + timed + [TimerStop];
    assert DuplexRun(warmUp, timed) == cycles + [Complete];
    assert (cycles + [Complete])[..|cycles|] == cycles;
  }

  lemma SingleEvents<M>()
    ensures Sent<M>([Receive]) == [] && Receives<M>([Receive]) == 1 && Completions<M>([Receive]) == 0
    ensures Sent<M>([TimerStart]) == [] && Receives<M>([TimerStart]) == 0 && Completions<M>([TimerStart]) == 0
  {
    SentSnoc<M>([], Receive);
    SentSnoc<M>([], TimerStart);
  }

  /**
   * The reads of a two-cycle run happen exactly at the end of each cycle:
   * right after the first cycle's messages, and right after the first
   * cycle, the timer start and the second cycle's messages.
   */
  lemma DuplexRunReads<M>(a: seq<M>, b: seq<M>, p: nat)
    requires var log := DuplexRun(Exchange(a), Exchange(b)); p < |log| && log[p] == Receive
    ensures p == |a| || p == |a| + 2 + |b|
  {
    var tail: seq<Event<M>> := [TimerStart] + Exchange(b) + [TimerStop, Complete];
    var log := Exchange(a) + tail;
    assert DuplexRun(Exchange(a), Exchange(b)) == log;
    if p <= |a| {
      FirstRead(a, tail, p);
    } else {
      var q := p - |a| - 1;
      assert tail[q] == log[p];
      OnlyRead([TimerStart], b, [TimerStop, Complete], q);
    }
  }

  /** Within the first exchange of a log, the only read is the one ending it. */
  lemma FirstRead<M>(ms: seq<M>, rest: seq<Event<M>>, q: nat)
    requires q <= |ms| && (Exchange(ms) + rest)[q] == Receive
    ensures q == |ms|
  {
    var log := Exchange(ms) + rest;
    SendsAt(ms);
    assert forall j :: 0 <= j < |ms| ==> log[j] == Send(ms[j]);
  }

  /** An exchange framed by events that are not reads holds the only read, at its end. */
  lemma OnlyRead<M>(pre: seq<Event<M>>, ms: seq<M>, rest: seq<Event<M>>, q: nat)
    requires Receive !in pre && Receive !in rest
    requires q < |pre + Exchange(ms) + rest| && (pre + Exchange(ms) + rest)[q] == Receive
    ensures q == |pre| + |ms|
  {
    var log := pre + Exchange(ms) + rest;
    var after := |pre| + |ms| + 1;
    SendsAt(ms);
    assert forall j :: 0 <= j < |pre| ==> log[j] == pre[j];
    assert forall j :: |pre| <= j < |pre| + |ms| ==> log[j] == Send(ms[j - |pre|]);
    assert forall j :: after <= j < |log| ==> log[j] == rest[j - after];
  }

  /** The messages written before each read of a run: one cycle's worth, or two. */
  lemma DuplexRunSentBeforeRead<M>(a: seq<M>, b: seq<M>, p: nat)
    requires var log := DuplexRun(Exchange(a), Exchange(b)); p < |log| && log[p] == Receive
    ensures var log := DuplexRun(Exchange(a), Exchange(b));
      || (Sent(log[..p]) == a && Receives(log[..p]) == 0)
      || (Sent(log[..p]) == a + b && Receives(log[..p]) == 1)
  {
    DuplexRunReads(a, b, p);
    var first := Exchange(a) + [TimerStart];
    var log := first + (Exchange(b) + [TimerStop, Complete]);
    assert DuplexRun(Exchange(a), Exchange(b)) == log;
    SendsSent(a);
    if p == |a| {
      assert log[..p] == Sends(a);
    } else {
      assert log[..p] == first + Sends(b);
      SendsSent(b);
      ExchangeCounts(a);
      SentSnoc(Exchange(a), TimerStart);
      LogConcat(first, Sends(b));
    }
  }

  /** The frames of one cycle of the chunked duplex test. */
  function ChunkedCycle(chunks: seq<Frame>): seq<Frame>
  {
    [StartFrame] + chunks + [EndFrame]
  }

  /** Each chunked cycle ends with exactly one frame the server acknowledges. */
  lemma ChunkedCycleAcks(chunks: seq<Frame>)
    requires AllData(chunks)
    ensures EndAcks(ChunkedCycle(chunks)) == [Ack]
  {
    EndAcksConcat([StartFrame] + chunks, [EndFrame]);
    EndAcksConcat([StartFrame], chunks);
    EndAcksOfData(chunks);
    EndAcksSnoc([], StartFrame);
    EndAcksSnoc([], EndFrame);
    assert [StartFrame] == [] + [StartFrame];
    assert [EndFrame] == [] + [EndFrame];
  }

  /** One cycle of the chunked duplex test: the start marker, `bigdata` in 2 MiB chunks, the end marker, then one read. */
  method ChunkedExchange(bigdata: seq<byte>, duplexStream: Call<Frame>) returns (chunks: seq<Frame>)
    requires !duplexStream.Closed()
    modifies duplexStream
    ensures IsChunking(chunks, bigdata, BulkChunkSize)
    ensures duplexStream.log == old(duplexStream.log) + Exchange(ChunkedCycle(chunks))
    ensures !duplexStream.Closed()
  {
    var readStream := new ReadStream(bigdata);
    duplexStream.Write(StartFrame);
    chunks := PumpChunks(readStream, duplexStream, BulkChunkSize);
    duplexStream.Write(EndFrame);
    duplexStream.MoveNext();
    SendsConcat([StartFrame] + chunks, [EndFrame]);
    SendsConcat([StartFrame], chunks);
  }

  /**
   * `UploadDuplexStreamTest`: two cycles over one stream; the stopwatch
   * brackets the second cycle only, and the request stream is closed
   * after the second response.
   */
  method UploadDuplexStreamTest(bigdata: seq<byte>, duplexStream: Call<Frame>)
    returns (measured: seq<Event<Frame>>, chunks0: seq<Frame>, chunks1: seq<Frame>)
    requires duplexStream.log == []
    modifies duplexStream
    ensures IsChunking(chunks0, bigdata, BulkChunkSize) && IsChunking(chunks1, bigdata, BulkChunkSize)
    ensures duplexStream.log == DuplexRun(Exchange(ChunkedCycle(chunks0)), Exchange(ChunkedCycle(chunks1)))
    ensures measured == Timed(duplexStream.log)
  {
    measured := [];
    chunks0, chunks1 := [], [];
    var i := 0;
    while i < 2
      invariant 0 <= i <= 2
      invariant i >= 1 ==> IsChunking(chunks0, bigdata, BulkChunkSize)
      invariant i == 0 ==> duplexStream.log == []
      invariant i == 1 ==> duplexStream.log == Exchange(ChunkedCycle(chunks0)) && !duplexStream.Closed()
      invariant i == 2 ==> IsChunking(chunks1, bigdata, BulkChunkSize)
      invariant i == 2 ==> duplexStream.log == DuplexRun(Exchange(ChunkedCycle(chunks0)), Exchange(ChunkedCycle(chunks1)))
      invariant i == 2 ==> measured == Exchange(ChunkedCycle(chunks1))
    {
      if i == 1 {
        duplexStream.StartTimer();
      }
      var started := |duplexStream.log|;
      var chunks := ChunkedExchange(bigdata, duplexStream);
      if i == 1 {
        duplexStream.StopTimer();
        measured := duplexStream.log[started..|duplexStream.log| - 1];
        duplexStream.CompleteRequests();
        chunks1 := chunks;
      } else {
        chunks0 := chunks;
      }
      i := i + 1;
    }
    DuplexRunTimed(ChunkedCycle(chunks0), ChunkedCycle(chunks1));
  }

  /**
   * The chunked duplex client and `UploadDuplexStreamTest` on the server
   * pair up: when the client performs a read, the server, having handled
   * what was written so far, has produced exactly one acknowledgment more
   * than the client has read, the one for the cycle just ended; and at
   * the end every acknowledgment has been read.
   */
  lemma ChunkedDuplexReadsMeetAcks(chunks0: seq<Frame>, chunks1: seq<Frame>)
    requires AllData(chunks0) && AllData(chunks1)
    ensures var log := DuplexRun(Exchange(ChunkedCycle(chunks0)), Exchange(ChunkedCycle(chunks1)));
      forall p :: 0 <= p < |log| && log[p] == Receive ==>
        |EndAcks(Sent(log[..p]))| == Receives(log[..p]) + 1
    ensures var log := DuplexRun(Exchange(ChunkedCycle(chunks0)), Exchange(ChunkedCycle(chunks1)));
      |EndAcks(Sent(log))| == Receives(log) == 2
  {
    var a, b := ChunkedCycle(chunks0), ChunkedCycle(chunks1);
    var log := DuplexRun(Exchange(a), Exchange(b));
    ChunkedCycleAcks(chunks0);
    ChunkedCycleAcks(chunks1);
    EndAcksConcat(a, b);
    forall p | 0 <= p < |log| && log[p] == Receive
      ensures |EndAcks(Sent(log[..p]))| == Receives(log[..p]) + 1
    {
      DuplexRunSentBeforeRead(a, b, p);
    }
    DuplexRunShape(a, b);
  }

  /**
   * `UploadNoChunkDuplexStreamTest`: two cycles over one stream, each
   * sending the whole of `bigdata` as one data frame and reading one
   * response; timed and closed as in the chunked test.
   */
  method UploadNoChunkDuplexStreamTest(bigdata: seq<byte>, duplexStream: Call<Frame>)
    returns (measured: seq<Event<Frame>>)
    requires duplexStream.log == []
    modifies duplexStream
    ensures duplexStream.log == DuplexRun(Exchange([Data(bigdata)]), Exchange([Data(bigdata)]))
    ensures measured == Timed(duplexStream.log)
  {
    measured := [];
    var i := 0;
    while i < 2
      invariant 0 <= i <= 2
      invariant i == 0 ==> duplexStream.log == []
      invariant i == 1 ==> duplexStream.log == Exchange([Data(bigdata)])
      invariant i == 2 ==> duplexStream.log == DuplexRun(Exchange([Data(bigdata)]), Exchange([Data(bigdata)]))
      invariant i == 2 ==> measured == Exchange([Data(bigdata)])
    {
      var fileContent := bigdata;
      if i == 1 {
        duplexStream.StartTimer();
      }
      var started := |duplexStream.log|;
      SendsNoMarks([Data(bigdata)]);
      duplexStream.Write(Data(fileContent));
      duplexStream.MoveNext();
      assert duplexStream.log[started..] == Exchange([Data(bigdata)]);
      if i == 1 {
        duplexStream.StopTimer();
        measured := duplexStream.log[started..|duplexStream.log| - 1];
        duplexStream.CompleteRequests();
      }
      i := i + 1;
    }
    DuplexRunTimed([Data(bigdata)], [Data(bigdata)]);
  }

  /**
   * The single-frame duplex client and `UploadNoChunkDuplexStreamTest` on
   * the server pair up the same way: each read finds exactly one unread
   * acknowledgment, and none is left over.
   */
  lemma NoChunkDuplexReadsMeetAcks(bigdata: seq<byte>)
    ensures var log := DuplexRun(Exchange([Data(bigdata)]), Exchange([Data(bigdata)]));
      forall p :: 0 <= p < |log| && log[p] == Receive ==>
        |MessageAcks(Sent(log[..p]))| == Receives(log[..p]) + 1
    ensures var log := DuplexRun(Exchange([Data(bigdata)]), Exchange([Data(bigdata)]));
      |MessageAcks(Sent(log))| == Receives(log) == 2
  {
    var a := [Data(bigdata)];
    var log := DuplexRun(Exchange(a), Exchange(a));
    forall p | 0 <= p < |log| && log[p] == Receive
      ensures |MessageAcks(Sent(log[..p]))| == Receives(log[..p]) + 1
    {
      DuplexRunSentBeforeRead(a, a, p);
    }
    DuplexRunShape(a, a);
  }

  lemma RoundsStep<M>(m: M, k: nat)
    requires k > 0
    ensures Rounds(m, k) == Rounds(m, k - 1) + [Send(m)] + [Receive]
  {
  }

  /** The rounds write `k` copies of the message and read `k` times. */
  lemma {:induction false} RoundsCounts<M>(m: M, k: nat)
    ensures Sent(Rounds(m, k)) == Copies(m, k) && Receives(Rounds(m, k)) == k
  {
    if k > 0 {
      var r := Rounds(m, k - 1);
      RoundsStep(m, k);
      RoundsCounts(m, k - 1);
      SentSnoc(r, Send(m));
      SentSnoc(r + [Send(m)], Receive);
    }
  }

  /** The rounds neither close the request stream nor touch the stopwatch. */
  lemma {:induction false} RoundsNoMarks<M>(m: M, k: nat)
    ensures Complete !in Rounds(m, k) && TimerStart !in Rounds(m, k) && TimerStop !in Rounds(m, k)
  {
    if k > 0 {
      RoundsStep(m, k);
      RoundsNoMarks(m, k - 1);
    }
  }

  /** `k` copies of `m`. */
  function Copies<M>(m: M, k: nat): (ms: seq<M>)
    ensures |ms| == k && forall i :: 0 <= i < k ==> ms[i] == m
  {
    if k == 0 then [] else Copies(m, k - 1) + [m]
  }

  /** Each write of the rounds comes right before its read: every read follows whole rounds and one more write. */
  lemma {:induction false} RoundsAlternate<M>(m: M, k: nat)
    ensures forall p :: 0 <= p < |Rounds(m, k)| && Rounds(m, k)[p] == Receive ==>
      Rounds(m, k)[..p] == Rounds(m, p / 2) + [Send(m)]
  {
    if k > 0 {
      var r := Rounds(m, k - 1);
      var log := Rounds(m, k);
      RoundsAlternate(m, k - 1);
      assert log == r + [Send(m), Receive];
      forall p | 0 <= p < |log| && log[p] == Receive
        ensures log[..p] == Rounds(m, p / 2) + [Send(m)]
      {
        if p < |r| {
          assert log[..p] == r[..p] && r[p] == log[p];
        } else {
          assert p == |r| + 1 && log[..p] == r + [Send(m)];
        }
      }
    }
  }

  /**
   * `TransferDuplexStreamTest`: over one stream, `attempts` rounds of
   * writing the text and reading one response, all timed; the request
   * stream is closed after the stopwatch stops.
   */
  method TransferDuplexStreamTest(text: string, attempts: int, duplexStream: Call<string>)
    returns (measured: seq<Event<string>>)
    requires duplexStream.log == []
    modifies duplexStream
    ensures var k := if attempts < 0 then 0 else attempts;
      duplexStream.log == [TimerStart] + Rounds(text, k) + [TimerStop, Complete]
    ensures measured == Timed(duplexStream.log)
  {
    var i := 0;
    duplexStream.StartTimer();
    while i < attempts
      invariant 0 <= i && (attempts >= 0 ==> i <= attempts) && (attempts < 0 ==> i == 0)
      invariant duplexStream.log == [TimerStart] + Rounds(text, i)
      invariant !duplexStream.Closed()
    {
      ghost var before := duplexStream.log;
      duplexStream.Write(text);
      duplexStream.MoveNext();
      assert duplexStream.log == before + [Send(text)] + [Receive];
      TimedRoundsStep(text, i);
      i := i + 1;
    }
    ghost var beforeStop := duplexStream.log;
    measured := duplexStream.log[1..];
    duplexStream.StopTimer();
    duplexStream.CompleteRequests();
    assert duplexStream.log == beforeStop + [TimerStop] + [Complete];
    TimedRounds(text, i, [Complete]);
  }

  /** One more write-then-read round extends a timed run of rounds. */
  lemma TimedRoundsStep<M>(m: M, i: nat)
    ensures [TimerStart] + Rounds(m, i) + [Send(m)] + [Receive] == [TimerStart] + Rounds(m, i + 1)
  {
    RoundsStep(m, i + 1);
  }

  /** A stopwatch around whole rounds measures exactly those rounds. */
  lemma TimedRounds<M>(m: M, i: nat, after: seq<Event<M>>)
    ensures ([TimerStart] + Rounds(m, i))[1..] == Rounds(m, i)
    ensures Timed(([TimerStart] + Rounds(m, i)) + [TimerStop] + after) == Rounds(m, i)
  {
    RoundsNoMarks(m, i);
    var none: seq<Event<M>> := [];
    assert ([TimerStart] + Rounds(m, i)) + [TimerStop] + after == none + [TimerStart] + Rounds(m, i) + [TimerStop] + after;
    TimedSpan(none, Rounds(m, i), after);
  }

  /**
   * Against the echo handler, every read of the duplex test finds exactly
   * one unread reply, the echo of the message just written.
   */
  lemma TransferDuplexReadsMeetEchoes(text: string, k: nat)
    ensures var log := [TimerStart] + Rounds(text, k) + [TimerStop, Complete];
      forall p :: 0 <= p < |log| && log[p] == Receive ==>
        var echoes := Echoes(Sent(log[..p]));
        |echoes| == Receives(log[..p]) + 1 && echoes[|echoes| - 1] == TestTransferService.TransferUnaryTest(text)
  {
    var log := [TimerStart] + Rounds(text, k) + [TimerStop, Complete];
    forall p | 0 <= p < |log| && log[p] == Receive
      ensures var echoes := Echoes(Sent(log[..p]));
        |echoes| == Receives(log[..p]) + 1 && echoes[|echoes| - 1] == TestTransferService.TransferUnaryTest(text)
    {
      var j := TimedRoundsPrefix(text, k, p);
      EchoAfterRounds(text, j);
    }
  }

  /** Before each read of a timed run of rounds stand the timer mark, whole rounds and one send. */
  lemma TimedRoundsPrefix<M>(m: M, k: nat, p: nat) returns (j: nat)
    requires var log := [TimerStart] + Rounds(m, k) + [TimerStop, Complete];
      p < |log| && log[p] == Receive
    ensures ([TimerStart] + Rounds(m, k) + [TimerStop, Complete])[..p] == [TimerStart] + Rounds(m, j) + [Send(m)]
  {
    var r := Rounds(m, k);
    var log := [TimerStart] + r + [TimerStop, Complete];
    RoundsAlternate(m, k);
    assert 1 <= p <= |r| && log[p] == r[p - 1];
    j := (p - 1) / 2;
    assert r[..p - 1] == Rounds(m, j) + [Send(m)];
    assert log[..p] == [TimerStart] + r[..p - 1];
  }

  /** After whole rounds and one more send, the server has one echo more than the reads so far. */
  lemma EchoAfterRounds(text: string, j: nat)
    ensures var pre := [TimerStart] + Rounds(text, j) + [Send(text)];
      var echoes := Echoes(Sent(pre));
      |echoes| == Receives(pre) + 1 && echoes[|echoes| - 1] == TestTransferService.TransferUnaryTest(text)
  {
    RoundsCounts(text, j);
    SingleEvents<string>();
    LogConcat([TimerStart], Rounds(text, j));
    SentSnoc([TimerStart] + Rounds(text, j), Send(text));
  }

  /**
   * `TransferUnaryTest`: `attempts` unary calls made one after the other,
   * each awaited before the next is made, all timed.
   */
  method TransferUnaryTest(text: string, attempts: int, client: Call<string>)
    returns (measured: seq<Event<string>>)
    requires client.log == []
    modifies client
    ensures var k := if attempts < 0 then 0 else attempts;
      client.log == [TimerStart] + Rounds(text, k) + [TimerStop]
    ensures measured == Timed(client.log)
  {
    var i := 0;
    client.StartTimer();
    while i < attempts
      invariant 0 <= i && (attempts >= 0 ==> i <= attempts) && (attempts < 0 ==> i == 0)
      invariant client.log == [TimerStart] + Rounds(text, i)
      invariant !client.Closed()
    {
      ghost var before := client.log;
      client.Write(text);
      client.MoveNext();
      assert client.log == before + [Send(text)] + [Receive];
      TimedRoundsStep(text, i);
      i := i + 1;
    }
    ghost var beforeStop := client.log;
    measured := client.log[1..];
    client.StopTimer();
    assert client.log == beforeStop + [TimerStop] + [];
    TimedRounds(text, i, []);
  }

  /**
   * `UploadStreamTest`: `bigdata` in 2 MiB data frames, without metadata,
   * then the request stream closed and the response awaited, all timed.
   */
  method UploadStreamTest(bigdata: seq<byte>, call: Call<Frame>)
    returns (measured: seq<Event<Frame>>, chunks: seq<Frame>)
    requires call.log == []
    modifies call
    ensures IsChunking(chunks, bigdata, BulkChunkSize)
    ensures call.log == [TimerStart] + Sends(chunks) + [Complete, Receive, TimerStop]
    ensures measured == Timed(call.log)
  {
    var readStream := new ReadStream(bigdata);
    call.StartTimer();
    chunks := PumpChunks(readStream, call, BulkChunkSize);
    call.CompleteRequests();
    call.MoveNext();
    ghost var beforeStop := call.log;
    assert beforeStop == [TimerStart] + Sends(chunks) + [Complete] + [Receive];
    StreamUploadTimed(chunks);
    measured := call.log[1..];
    call.StopTimer();
    assert call.log == beforeStop + [TimerStop];
  }
}
