/** Properties of whole runs of the ping object: a sequence of `begin` and `result` calls,
    each with the clock reading and socket outcomes it sees, replayed from a starting object. */
module AsyncPingRuns {
  import opened BoundedInts
  import opened ResultCodes
  import opened EchoCodec
  import opened AsyncPing

  /** One call of an entry point with everything it reads from outside. */
  datatype Event =
    | BeginEvent(dstIp: uint32, timeoutMs: int32, pingLen: uint8, now: uint64, io: BeginIo)
    | ResultEvent(now: uint64, rx: Received)

  /** The sessions a run passes through (the starting one first) and all socket calls made. */
  datatype Run = Run(trace: seq<Session>, calls: seq<Call>)

  /** The socket layer's answer to an event is one it can give, and readable. */
  predicate EventAllowed(s: Session, e: Event)
  {
    e.ResultEvent? ==> (ReceiveCalled(s, e.now) ==> WellFormedReceive(e.rx) && ReplyReadable(e.rx))
  }

  function Apply(s: Session, e: Event): Step
    requires EventAllowed(s, e)
  {
    match e
    case BeginEvent(dstIp, timeoutMs, pingLen, now, io) => Begin(s, dstIp, timeoutMs, pingLen, now, io)
    case ResultEvent(now, rx) => Poll(s, now, rx)
  }

  /** Every event of the run is allowed in the session it meets. */
  predicate Admissible(s: Session, events: seq<Event>)
    decreases |events|
  {
    |events| == 0 || (EventAllowed(s, events[0]) && Admissible(Apply(s, events[0]).after, events[1..]))
  }

  function Replay(s: Session, events: seq<Event>): (r: Run)
    requires Admissible(s, events)
    ensures |r.trace| == |events| + 1 && r.trace[0] == s
    decreases |events|
  {
    if |events| == 0 then Run([s], [])
    else
      var step := Apply(s, events[0]);
      var rest := Replay(step.after, events[1..]);
      Run([s] + rest.trace, step.calls + rest.calls)
  }

  function Last(trace: seq<Session>): Session
    requires |trace| > 0
  {
    trace[|trace| - 1]
  }

  /** Number of adjacent sessions in the trace that go from Pending to an answered result. */
  function Answers(trace: seq<Session>): nat
    decreases |trace|
  {
    if |trace| < 2 then 0
    else (if trace[0].state == Pending && IsAnswered(trace[1].state) then 1 else 0) + Answers(trace[1..])
  }

  /** Number of `closesocket` calls in a list of calls. */
  function CloseCount(calls: seq<Call>): nat
    decreases |calls|
  {
    if |calls| == 0 then 0 else (if calls[0].CloseSocket? then 1 else 0) + CloseCount(calls[1..])
  }

  lemma {:induction false} CloseCountAppend(a: seq<Call>, b: seq<Call>)
    ensures CloseCount(a + b) == CloseCount(a) + CloseCount(b)
    decreases |a|
  {
    if |a| == 0 {
      assert a + b == b;
    } else {
      assert (a + b)[1..] == a[1..] + b;
      CloseCountAppend(a[1..], b);
    }
  }

  /** Two advances of a 16-bit counter, by `d` and then by `a`, are one advance by `d + a`. */
  lemma CounterSteps(start: uint16, mid: uint16, end: uint16, d: nat, a: nat)
    requires mid == ToUint16(start + d) && end == ToUint16(mid + a)
    ensures end == ToUint16(start + (d + a))
  {
  }

  /** From `a` to `b` the counter advances by one (modulo 2^16) if `a` was Pending and `b` is
      answered, and stays put otherwise. */
  predicate CounterStep(a: Session, b: Session)
  {
    b.seqNo == ToUint16(a.seqNo + (if a.state == Pending && IsAnswered(b.state) then 1 else 0))
  }

  /** A single event advances the sequence number by one (modulo 2^16) exactly when it takes
      a Pending attempt to an answered result, and leaves it alone otherwise. */
  lemma SeqNoStep(s: Session, e: Event)
    requires EventAllowed(s, e)
    ensures CounterStep(s, Apply(s, e).after)
  {
  }

  /** Consecutive sessions of a trace move the counter as a single event does. */
  predicate CounterStepsOk(trace: seq<Session>)
  {
    forall i :: 0 <= i < |trace| - 1 ==> CounterStep(trace[i], trace[i + 1])
  }

  lemma CounterStepsOkCons(s: Session, trace: seq<Session>)
    requires |trace| > 0 && CounterStep(s, trace[0]) && CounterStepsOk(trace)
    ensures CounterStepsOk([s] + trace)
  {
    var t := [s] + trace;
    forall i | 0 <= i < |t| - 1
      ensures CounterStep(t[i], t[i + 1])
    {
      if i > 0 {
        assert t[i] == trace[i - 1] && t[i + 1] == trace[i];
      }
    }
  }

  /** Every trace a run produces moves the counter as single events do. */
  lemma {:induction false} ReplayCounterStepsOk(s: Session, events: seq<Event>)
    requires Admissible(s, events)
    ensures CounterStepsOk(Replay(s, events).trace)
    decreases |events|
  {
    if |events| > 0 {
      var after := Apply(s, events[0]).after;
      var rest := Replay(after, events[1..]).trace;
      ReplayCounterStepsOk(after, events[1..]);
      SeqNoStep(s, events[0]);
      assert Replay(s, events).trace == [s] + rest;
      CounterStepsOkCons(s, rest);
    }
  }

  /** Along a trace whose steps move the counter as single events do, the final counter is the
      first one plus the number of answered attempts, modulo 2^16. */
  lemma {:induction false} CounterCountsAnswers(trace: seq<Session>)
    requires |trace| > 0 && CounterStepsOk(trace)
    ensures Last(trace).seqNo == ToUint16(trace[0].seqNo + Answers(trace))
    decreases |trace|
  {
    if |trace| > 1 {
      var rest := trace[1..];
      assert CounterStepsOk(rest) by {
        forall i | 0 <= i < |rest| - 1
          ensures CounterStep(rest[i], rest[i + 1])
        {
          assert rest[i] == trace[i + 1] && rest[i + 1] == trace[i + 2];
        }
      }
      CounterCountsAnswers(rest);
      var d := if trace[0].state == Pending && IsAnswered(trace[1].state) then 1 else 0;
      assert CounterStep(trace[0], trace[1]);
      assert Last(trace) == Last(rest);
      CounterSteps(trace[0].seqNo, trace[1].seqNo, Last(rest).seqNo, d, Answers(rest));
    }
  }

  /** The sequence counter of the object at the end of any run is the starting counter plus the
      number of answered attempts in the run, modulo 2^16: neither `begin`, nor a timeout, nor a
      still-pending poll moves it. */
  lemma SeqNoCountsAnswers(s: Session, events: seq<Event>)
    requires Admissible(s, events)
    ensures Last(Replay(s, events).trace).seqNo == ToUint16(s.seqNo + Answers(Replay(s, events).trace))
  {
    var trace := Replay(s, events).trace;
    ReplayCounterStepsOk(s, events);
    CounterCountsAnswers(trace);
    assert trace[0] == s;
  }

  predicate OnlyPolls(events: seq<Event>)
  {
    forall i :: 0 <= i < |events| ==> events[i].ResultEvent?
  }

  /** Polling alone never closes the socket twice: a run of `result` calls makes at most one
      `closesocket`, exactly one when it takes a Pending attempt to a result, on the handle held
      at the start. From any state other than Pending it makes no call and changes nothing. */
  lemma {:induction false} PollsCloseAtMostOnce(s: Session, events: seq<Event>)
    requires Admissible(s, events) && OnlyPolls(events)
    ensures CloseCount(Replay(s, events).calls) <= 1
    ensures CloseCount(Replay(s, events).calls) == 1
        <==> s.state == Pending && Last(Replay(s, events).trace).state != Pending
    ensures CloseSocket(s.socket) in Replay(s, events).calls
        <==> CloseCount(Replay(s, events).calls) == 1
    ensures s.state != Pending ==>
      Replay(s, events).calls == [] && forall i :: 0 <= i < |events| + 1 ==> Replay(s, events).trace[i] == s
    decreases |events|
  {
    var run := Replay(s, events);
    if |events| > 0 {
      var step := Apply(s, events[0]);
      var rest := Replay(step.after, events[1..]);
      assert OnlyPolls(events[1..]) by {
        forall i | 0 <= i < |events[1..]| ensures events[1..][i].ResultEvent? {
          assert events[1..][i] == events[i + 1];
        }
      }
      PollsCloseAtMostOnce(step.after, events[1..]);
      assert run.trace[1..] == rest.trace;
      assert Last(run.trace) == Last(rest.trace);
      CloseCountAppend(step.calls, rest.calls);
      assert CloseCount([CloseSocket(s.socket)]) == 1;
      assert CloseCount([ReceiveFrom(s.socket, RECV_BUFFER_LEN, s.cursor)]) == 0;
      assert CloseCount([ReceiveFrom(s.socket, RECV_BUFFER_LEN, s.cursor), CloseSocket(s.socket)]) == 1;
      if s.state != Pending {
        forall i | 0 <= i < |events| + 1 ensures run.trace[i] == s {
          if i > 0 {
            assert run.trace[i] == rest.trace[i - 1];
          }
        }
      } else if step.after.state == Pending {
        assert step.after.socket == s.socket;
      } else {
        assert CloseSocket(s.socket) in step.calls;
      }
    }
  }

  /** A new object reports NotStarted, with no socket call, however often it is polled before
      `begin`. */
  lemma FreshReportsNotStarted(events: seq<Event>)
    requires Admissible(Fresh(), events) && OnlyPolls(events)
    ensures forall i :: 0 <= i < |events| + 1 ==> Replay(Fresh(), events).trace[i].state == NotStarted
    ensures Replay(Fresh(), events).calls == []
  {
    PollsCloseAtMostOnce(Fresh(), events);
  }

  /** The first 64 octets of a datagram, as a receive into the 64-octet buffer keeps them. */
  function Truncate(frame: seq<uint8>): (data: seq<uint8>)
    ensures |data| <= RECV_BUFFER_LEN && |data| <= |frame| && data == frame[..|data|]
    ensures |data| == RECV_BUFFER_LEN || data == frame
  {
    if |frame| <= RECV_BUFFER_LEN then frame else frame[..RECV_BUFFER_LEN]
  }

  /** The receive outcome of a datagram arriving whole (up to the buffer size). */
  function Arrival(frame: seq<uint8>, addrLen: uint32): (rx: Received)
    ensures WellFormedReceive(rx)
  {
    var data := Truncate(frame);
    Received(|data|, data, addrLen)
  }

  /** An IPv4 header whose IHL field gives its own length, with the echo read kept in bounds. */
  predicate IpHeaderOk(ipHeader: seq<uint8>)
  {
    IP_HEADER_LEN <= |ipHeader| <= RECV_BUFFER_LEN - ECHO_HEADER_LEN && |ipHeader| == (ipHeader[0] % 16) * 4
  }

  /** A Pending attempt polled before its deadline, receiving an IPv4 datagram that carries an
      echo message, ends in Success exactly when the echo carries this object's identifier and
      current sequence number, and in InvalidResponse otherwise. */
  lemma EchoReplyDecides(s: Session, now: uint64, ipHeader: seq<uint8>, h: EchoHeader,
                         payload: seq<uint8>, addrLen: uint32)
    requires ReceiveCalled(s, now) && IpHeaderOk(ipHeader)
    ensures WellFormedReceive(Arrival(ipHeader + Encode(h, payload), addrLen))
    ensures ReplyReadable(Arrival(ipHeader + Encode(h, payload), addrLen))
    ensures Poll(s, now, Arrival(ipHeader + Encode(h, payload), addrLen)).after.state
         == if h.id == PING_ID && h.seqNo == s.seqNo then Success else InvalidResponse
  {
    var frame := ipHeader + Encode(h, payload);
    var rx := Arrival(frame, addrLen);
    var n := |ipHeader| + ECHO_HEADER_LEN;
    assert rx.data[0] == frame[0] == ipHeader[0];
    var buf := Deliver(s.buf, rx);
    assert buf[..n] == rx.data[..n] == frame[..n];
    ClassifyEchoFrame(ipHeader, h, payload, buf, rx.ret, s.seqNo);
  }

  /** The success scenario with the default arguments: after `begin(dstIp)` sends its request,
      a reply carrying the identifier and the sequence number, arriving within 1000 ms, gives
      Success, a latency between 0 and 1,000,000 microseconds, and a counter advanced by one. */
  lemma SuccessScenario(s: Session, dstIp: uint32, t0: uint64, io: BeginIo, t1: uint64,
                        ipHeader: seq<uint8>, payload: seq<uint8>, addrLen: uint32)
    requires io.socketRet >= 0 && io.setsockoptRet >= 0 && io.sendtoRet != 0
    requires t0 <= t1 <= t0 + 1_000_000
    requires IpHeaderOk(ipHeader)
    ensures var begun := BeginWithDefaults(s, dstIp, t0, io).after;
      var rx := Arrival(ipHeader + Encode(EchoHeader(ICMP_ECHO_REPLY, 0, PING_ID, s.seqNo), payload), addrLen);
      && begun.state == Pending
      && ReceiveCalled(begun, t1) && WellFormedReceive(rx) && ReplyReadable(rx)
      && Poll(begun, t1, rx).after.state == Success
      && 0 <= LastPingTimeMicros(Poll(begun, t1, rx).after) <= 1_000_000
      && Poll(begun, t1, rx).after.seqNo == ToUint16(s.seqNo + 1)
  {
    var begun := BeginWithDefaults(s, dstIp, t0, io).after;
    var h := EchoHeader(ICMP_ECHO_REPLY, 0, PING_ID, s.seqNo);
    assert ElapsedMicros(begun, t1) == t1 - t0;
    EchoReplyDecides(begun, t1, ipHeader, h, payload, addrLen);
    var rx := Arrival(ipHeader + Encode(h, payload), addrLen);
    AnsweredLatencyIsElapsed(begun, t1, rx);
  }

  /** The wrong-sequence scenario: a reply with the right identifier but the sequence number one
      below the expected one (modulo 2^16) gives InvalidResponse. */
  lemma WrongSequenceScenario(s: Session, now: uint64, ipHeader: seq<uint8>, payload: seq<uint8>, addrLen: uint32)
    requires ReceiveCalled(s, now) && IpHeaderOk(ipHeader)
    ensures var rx := Arrival(ipHeader + Encode(EchoHeader(ICMP_ECHO_REPLY, 0, PING_ID, ToUint16(s.seqNo - 1)), payload), addrLen);
      && WellFormedReceive(rx) && ReplyReadable(rx)
      && Poll(s, now, rx).after.state == InvalidResponse
  {
  }

  /** The silent-target scenario with the default arguments: polled more than 1000 ms after
      `begin` sent its request, the attempt is a Timeout whose reported latency is exactly
      1,000,000 microseconds, and the sequence counter has not moved. */
  lemma SilentTargetScenario(s: Session, dstIp: uint32, t0: uint64, io: BeginIo, t1: uint64, rx: Received)
    requires io.socketRet >= 0 && io.setsockoptRet >= 0 && io.sendtoRet != 0
    requires t0 + 1_000_000 < t1
    ensures var begun := BeginWithDefaults(s, dstIp, t0, io).after;
      && begun.state == Pending && TimedOut(begun, t1)
      && Poll(begun, t1, rx).after.state == Timeout
      && LastPingTimeMicros(Poll(begun, t1, rx).after) == 1_000_000
      && Poll(begun, t1, rx).after.seqNo == s.seqNo
  {
  }
}
