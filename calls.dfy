/**
 * One gRPC call as its code observes it.  The transport delivers frames in
 * the order they are written, so an outbound stream is the log of what was
 * done on it; an inbound stream is the messages delivered before it ended,
 * and how it ended.
 */
module Calls {
  import opened Wrappers

  datatype StatusCode = NotFound | Unknown | Cancelled | Unavailable | Unauthenticated

  /** `RpcException`: a status code and its detail text. */
  datatype RpcException = RpcException(code: StatusCode, detail: string)

  /** How an inbound stream ended: the peer completed it, or reading it threw. */
  datatype StreamEnd = Completed | Aborted(error: RpcException)

  /** The messages delivered on an inbound stream, in order, and how it ended. */
  datatype Inbound<M> = Inbound(messages: seq<M>, end: StreamEnd)

  /**
   * What happens on a call, in order: a message written, one read of the
   * response stream, the request stream closed.  The benchmark stopwatch is
   * marked on the same log so that what it measures can be stated in terms
   * of the call's events.
   */
  datatype Event<M> = Send(msg: M) | Receive | Complete | TimerStart | TimerStop

  /** The messages written, in order. */
  function Sent<M>(log: seq<Event<M>>): seq<M>
  {
    if log == [] then []
    else Sent(log[..|log| - 1]) + (if log[|log| - 1].Send? then [log[|log| - 1].msg] else [])
  }

  /** The number of reads performed. */
  function Receives<M>(log: seq<Event<M>>): nat
  {
    if log == [] then 0 else Receives(log[..|log| - 1]) + (if log[|log| - 1] == Receive then 1 else 0)
  }

  /** The number of times the request stream was closed. */
  function Completions<M>(log: seq<Event<M>>): nat
  {
    if log == [] then 0 else Completions(log[..|log| - 1]) + (if log[|log| - 1] == Complete then 1 else 0)
  }

  /** The log of writing `ms` one after the other. */
  function Sends<M>(ms: seq<M>): (log: seq<Event<M>>)
    ensures |log| == |ms|
  {
    if ms == [] then [] else Sends(ms[..|ms| - 1]) + [Send(ms[|ms| - 1])]
  }

  /** The `i`-th event of a run of writes writes the `i`-th message. */
  lemma {:induction false} SendsAt<M>(ms: seq<M>)
    ensures forall i :: 0 <= i < |ms| ==> Sends(ms)[i] == Send(ms[i])
  {
    if ms != [] {
      SendsAt(ms[..|ms| - 1]);
    }
  }

  lemma SentSnoc<M>(log: seq<Event<M>>, e: Event<M>)
    ensures Sent(log + [e]) == Sent(log) + (if e.Send? then [e.msg] else [])
    ensures Receives(log + [e]) == Receives(log) + (if e == Receive then 1 else 0)
    ensures Completions(log + [e]) == Completions(log) + (if e == Complete then 1 else 0)
  {
    assert (log + [e])[..|log|] == log;
  }

  /** Counting what happened on a log distributes over concatenation. */
  lemma {:induction false} LogConcat<M>(a: seq<Event<M>>, b: seq<Event<M>>)
    ensures Sent(a + b) == Sent(a) + Sent(b)
    ensures Receives(a + b) == Receives(a) + Receives(b)
    ensures Completions(a + b) == Completions(a) + Completions(b)
  {
    if b == [] {
      assert a + b == a;
    } else {
      var b' := b[..|b| - 1];
      var e := b[|b| - 1];
      assert b == b' + [e];
      assert a + b == (a + b') + [e];
      LogConcat(a, b');
      SentSnoc(a + b', e);
      SentSnoc(b', e);
    }
  }

  /** Writing `ms` sends exactly `ms`, and neither reads nor closes anything. */
  lemma {:induction false} SendsSent<M>(ms: seq<M>)
    ensures Sent(Sends(ms)) == ms
    ensures Receives(Sends(ms)) == 0 && Completions(Sends(ms)) == 0
  {
    if ms != [] {
      var ms' := ms[..|ms| - 1];
      SendsSent(ms');
      SentSnoc(Sends(ms'), Send(ms[|ms| - 1]));
      assert ms' + [ms[|ms| - 1]] == ms;
    }
  }

  lemma {:induction false} SendsConcat<M>(a: seq<M>, b: seq<M>)
    ensures Sends(a + b) == Sends(a) + Sends(b)
  {
    if b != [] {
      var b' := b[..|b| - 1];
      assert a + b == (a + b') + [b[|b| - 1]];
      assert b == b' + [b[|b| - 1]];
      SendsConcat(a, b');
      SendsSnoc(a + b', b[|b| - 1]);
      SendsSnoc(b', b[|b| - 1]);
    } else {
      assert a + b == a;
    }
  }

  lemma SendsSnoc<M>(ms: seq<M>, m: M)
    ensures Sends(ms + [m]) == Sends(ms) + [Send(m)]
  {
    assert (ms + [m])[..|ms|] == ms;
  }

  /** A log that has written `ms` and then writes `m` has written `ms + [m]`. */
  lemma WriteAfterSends<M>(log: seq<Event<M>>, ms: seq<M>, m: M)
    ensures (log + Sends(ms)) + [Send(m)] == log + Sends(ms + [m])
  {
    SendsSnoc(ms, m);
    assert (log + Sends(ms)) + [Send(m)] == log + (Sends(ms) + [Send(m)]);
  }

  /**
   * The client or handler side of a call: the stream it writes to and the log
   * of everything it does on the call.  `headers` are the call's request
   * headers, fixed when the call is opened.
   */
  class Call<M> {
    const headers: Option<seq<(string, string)>>
    var log: seq<Event<M>>

    ghost predicate Closed()
      reads this
    {
      Complete in log
    }

    constructor (headers: Option<seq<(string, string)>>)
      ensures this.headers == headers && log == []
    {
      this.headers := headers;
      log := [];
    }

    /** `WriteAsync`: a frame may not be written once the request stream is closed. */
    method Write(m: M)
      requires !Closed()
      modifies this
      ensures log == old(log) + [Send(m)] && !Closed()
    {
      log := log + [Send(m)];
    }

    /** `ResponseStream.MoveNext`: one read of the response stream. */
    method MoveNext()
      modifies this
      ensures log == old(log) + [Receive]
      ensures Closed() == old(Closed())
    {
      log := log + [Receive];
    }

    /** `RequestStream.CompleteAsync`. */
    method CompleteRequests()
      requires !Closed()
      modifies this
      ensures log == old(log) + [Complete]
    {
      log := log + [Complete];
    }

    /** `Stopwatch.StartNew`, marked on this call's log. */
    method StartTimer()
      modifies this
      ensures log == old(log) + [TimerStart]
      ensures Closed() == old(Closed())
    {
      log := log + [TimerStart];
    }

    /** `Stopwatch.Stop`, marked on this call's log. */
    method StopTimer()
      modifies this
      ensures log == old(log) + [TimerStop]
      ensures Closed() == old(Closed())
    {
      log := log + [TimerStop];
    }
  }
}
