/** The ping session object: one outstanding Echo Request at a time, started by
    `begin` and driven to a result by repeated calls of `result`.

    The object is an immutable record and both entry points are pure transition
    functions. What the C++ class reads from the outside world is passed in: the
    clock reading (microseconds, as the unsigned 64-bit value the object stores)
    and the return values of the socket calls. What it does to the outside world is
    returned: the list of socket calls made, in order. */
module AsyncPing {
  import opened BoundedInts
  import opened ResultCodes
  import opened InternetChecksum
  import opened EchoCodec

  /** Size of the object's receive buffer. */
  const RECV_BUFFER_LEN: nat := 64
  /** Receive timeout configured on the socket so that a receive returns almost at once. */
  const RECV_TIMEOUT_MICROS: nat := 1000
  const MICROS_PER_MILLI: nat := 1000
  /** Default arguments of `begin`. */
  const DEFAULT_TIMEOUT_MS: int32 := 1000
  const DEFAULT_PING_LEN: uint8 := 32
  /** The handle value the object stores once its socket is closed. */
  const CLOSED_SOCKET: int32 := -1

  type RecvBuffer = b: seq<uint8> | |b| == RECV_BUFFER_LEN witness seq(RECV_BUFFER_LEN, i => 0)

  /** A socket call the object makes, with the arguments that matter. A send is recorded by
      the arguments of `ping_send`; the octets it hands to `sendto` are `Octets()`. */
  datatype Call =
    | OpenRawSocket
    | SetReceiveTimeout(socket: int32, micros: nat)
    | SendEcho(socket: int32, dstIp: uint32, size: uint16, seqNo: uint16)
    | ReceiveFrom(socket: int32, maxLen: nat, addrLen: uint32)
    | CloseSocket(socket: int32)
  {
    /** The Echo Request a send puts on the wire. */
    function Octets(): (p: seq<uint8>)
      requires SendEcho?
      ensures |p| == PacketLength(size) <= SEND_BUFFER_LEN
    {
      SendPacket(size, seqNo)
    }
  }

  /** The object's fields. `socketOpen` records whether `socket` is a handle the object has
      opened and not yet closed; the C++ class keeps only the handle. `cursor` is the address
      length passed to and returned by the receive call. */
  datatype Session = Session(
    state: PingResult,
    timeoutMs: int32,
    startedAt: uint64,
    finishedAt: uint64,
    socket: int32,
    socketOpen: bool,
    seqNo: uint16,
    pingLen: uint8,
    cursor: uint32,
    buf: RecvBuffer)

  /** The object after an entry point, and the socket calls the entry point made. */
  datatype Step = Step(after: Session, calls: seq<Call>)

  /** What the socket layer returns to `begin`: from `socket`, `setsockopt` and `sendto`. */
  datatype BeginIo = BeginIo(socketRet: int32, setsockoptRet: int32, sendtoRet: int32)

  /** What one receive call returns: its return value, the octets it wrote to the buffer
      and the address length it wrote back. */
  datatype Received = Received(ret: int32, data: seq<uint8>, addrLen: uint32)

  /** A newly constructed object. Members the constructor leaves uninitialised are zero here;
      nothing below depends on their values before `begin`. */
  function Fresh(): (s: Session)
    ensures s.state == NotStarted && s.seqNo == 0 && !s.socketOpen && Valid(s)
  {
    Session(NotStarted, 0, 0, 0, 0, false, 0, 0, 0, seq(RECV_BUFFER_LEN, i => 0))
  }

  /** The object invariant: a socket is held open exactly while a request is Pending or after
      its send failed, an open handle is a real (non-negative) one, and once an attempt has
      been made a handle not held open is negative. */
  predicate Valid(s: Session)
  {
    && (s.socketOpen <==> s.state == Pending || s.state == SocketSendFailed)
    && (s.socketOpen ==> s.socket >= 0)
    && (!s.socketOpen && s.state != NotStarted ==> s.socket < 0)
  }

  /** The states `begin` can leave, whatever the state before: Pending or a transport failure. */
  predicate BeginOutcome(r: PingResult)
  {
    r == Pending || r == SocketCreationFailed || r == SocketSendFailed
  }

  /** Transitions `result` can take: out of Pending to Pending, Success, Timeout or
      InvalidResponse; every other state stays as it is. */
  predicate PollTransition(from: PingResult, to: PingResult)
  {
    if from == Pending then to == Pending || to == Success || to == Timeout || to == InvalidResponse
    else to == from
  }

  /** `close`: closes the held handle and forgets it. Nothing else changes. */
  function Close(s: Session): (step: Step)
    ensures step.calls == [CloseSocket(s.socket)]
    ensures !step.after.socketOpen && step.after.socket == CLOSED_SOCKET
    ensures step.after.(socket := s.socket, socketOpen := s.socketOpen) == s
  {
    Step(s.(socket := CLOSED_SOCKET, socketOpen := false), [CloseSocket(s.socket)])
  }

  /** `begin(dstIp, timeoutMs, pingLen)` at clock reading `now`. The start time, timeout and
      length are recorded first. A failed `socket` ends the attempt at once; a failed
      `setsockopt` closes the new socket; then the request is built and sent, and the attempt
      is Pending unless `sendto` returned 0. A send failure leaves the socket open, and a
      handle held from an earlier attempt is overwritten without being closed. */
  function Begin(s: Session, dstIp: uint32, timeoutMs: int32, pingLen: uint8, now: uint64, io: BeginIo): (step: Step)
    ensures Valid(step.after)
    ensures BeginOutcome(step.after.state)
    ensures step.after.startedAt == now && step.after.timeoutMs == timeoutMs && step.after.pingLen == pingLen
    ensures step.after.seqNo == s.seqNo && step.after.finishedAt == s.finishedAt && step.after.buf == s.buf
    ensures io.socketRet < 0 ==>
      && step.after.state == SocketCreationFailed
      && step.calls == [OpenRawSocket]
      && step.after.socket == io.socketRet
      && step.after.cursor == s.cursor
    ensures io.socketRet >= 0 && io.setsockoptRet < 0 ==>
      && step.after.state == SocketCreationFailed
      && step.calls == [OpenRawSocket, SetReceiveTimeout(io.socketRet, RECV_TIMEOUT_MICROS), CloseSocket(io.socketRet)]
      && step.after.socket == CLOSED_SOCKET
      && step.after.cursor == s.cursor
    ensures io.socketRet >= 0 && io.setsockoptRet >= 0 ==>
      && step.calls == [OpenRawSocket, SetReceiveTimeout(io.socketRet, RECV_TIMEOUT_MICROS),
                        SendEcho(io.socketRet, dstIp, pingLen, s.seqNo)]
      && step.after.socketOpen && step.after.socket == io.socketRet
      && step.after.cursor == 0
      && (step.after.state == Pending <==> io.sendtoRet != 0)
  {
    var started := s.(startedAt := now, timeoutMs := timeoutMs, pingLen := pingLen, socket := io.socketRet);
    if io.socketRet < 0 then
      Step(started.(state := SocketCreationFailed, socketOpen := false), [OpenRawSocket])
    else
      var held := started.(socketOpen := true);
      var setup := [OpenRawSocket, SetReceiveTimeout(io.socketRet, RECV_TIMEOUT_MICROS)];
      if io.setsockoptRet < 0 then
        var closed := Close(held);
        Step(closed.after.(state := SocketCreationFailed), setup + closed.calls)
      else
        var ready := held.(cursor := 0);
        var calls := setup + [SendEcho(io.socketRet, dstIp, pingLen, s.seqNo)];
        if SendAccepted(io.sendtoRet) then Step(ready.(state := Pending), calls)
        else Step(ready.(state := SocketSendFailed), calls)
  }

  /** `begin` with its default arguments: a 1000 ms timeout and 32 octets of data. */
  function BeginWithDefaults(s: Session, dstIp: uint32, now: uint64, io: BeginIo): (step: Step)
    ensures step.after.timeoutMs == 1000 && step.after.pingLen == 32
    ensures io.socketRet >= 0 && io.setsockoptRet >= 0 ==>
      |step.calls| == 3 && step.calls[2].SendEcho? && |step.calls[2].Octets()| == 40
  {
    Begin(s, dstIp, DEFAULT_TIMEOUT_MS, DEFAULT_PING_LEN, now, io)
  }

  /** Microseconds since the start, in unsigned 64-bit arithmetic (a clock that went back
      gives a huge value). */
  function ElapsedMicros(s: Session, now: uint64): uint64
  {
    ToUint64(now - s.startedAt)
  }

  /** The timeout in microseconds, `timeoutMs * 1000`, converted to unsigned 64 bits for the
      comparison (a negative timeout becomes a huge bound). */
  function TimeoutBound(s: Session): uint64
  {
    ToUint64(s.timeoutMs * MICROS_PER_MILLI)
  }

  /** The timeout test of `result`; strictly greater, so the exact deadline is not yet late. */
  predicate TimedOut(s: Session, now: uint64)
  {
    ElapsedMicros(s, now) > TimeoutBound(s)
  }

  /** The finish time recorded on a timeout: start plus the timeout, not the clock reading. */
  function Deadline(s: Session): uint64
  {
    ToUint64(s.startedAt + s.timeoutMs * MICROS_PER_MILLI)
  }

  /** `result` reaches the receive call: the attempt is Pending and not timed out. */
  predicate ReceiveCalled(s: Session, now: uint64)
  {
    s.state == Pending && !TimedOut(s, now)
  }

  /** What the socket layer can return from a receive into the 64-octet buffer: a negative
      value (nothing received) writes nothing, otherwise `ret` octets are written. */
  predicate WellFormedReceive(rx: Received)
  {
    rx.ret <= RECV_BUFFER_LEN && |rx.data| == (if rx.ret > 0 then rx.ret as int else 0)
  }

  /** The received datagram's IHL keeps the eight-octet echo header read inside the buffer
      (IHL at most 14), whenever that read happens (28 octets or more). IHL = 15 would make
      `AsyncPing::result` read past the end of its buffer. */
  predicate ReplyReadable(rx: Received)
  {
    rx.ret < MIN_REPLY_LEN || (|rx.data| > 0 && rx.data[0] % 16 <= 14)
  }

  /** The buffer after a receive: the received octets in front, the octets of earlier
      receives behind them. */
  function Deliver(buf: RecvBuffer, rx: Received): (r: RecvBuffer)
    requires WellFormedReceive(rx)
    ensures rx.ret > 0 ==> r[..rx.ret] == rx.data && r[rx.ret..] == buf[rx.ret..]
    ensures rx.ret <= 0 ==> r == buf
  {
    if rx.ret > 0 then rx.data + buf[rx.ret..] else buf
  }

  /** `result()` at clock reading `now`, with `rx` the outcome of the receive call should it
      be made. Not Pending: the stored result, nothing done. Past the deadline: close, Timeout,
      finish time = start + timeout, sequence number kept. Otherwise receive and classify;
      a decided frame closes the socket, records `now` and advances the sequence number. */
  function Poll(s: Session, now: uint64, rx: Received): (step: Step)
    requires ReceiveCalled(s, now) ==> WellFormedReceive(rx) && ReplyReadable(rx)
    ensures Valid(s) ==> Valid(step.after)
    ensures PollTransition(s.state, step.after.state)
    ensures s.state != Pending ==> step == Step(s, [])
    ensures s.state == Pending && TimedOut(s, now) ==>
      && step.calls == [CloseSocket(s.socket)]
      && step.after == s.(state := Timeout, finishedAt := Deadline(s), socket := CLOSED_SOCKET, socketOpen := false)
    ensures ReceiveCalled(s, now) ==>
      && step.after.state != Timeout
      && |step.calls| >= 1
      && step.calls[0] == ReceiveFrom(s.socket, RECV_BUFFER_LEN, s.cursor)
      && step.after.cursor == rx.addrLen
      && step.after.buf == Deliver(s.buf, rx)
      && (step.after.state == Success <==>
            rx.ret >= MIN_REPLY_LEN && EchoMatches(Deliver(s.buf, rx), s.seqNo))
      && (step.after.state == Pending <==> rx.ret < MIN_REPLY_LEN)
    ensures ReceiveCalled(s, now) && step.after.state == Pending ==>
      && step.calls == [ReceiveFrom(s.socket, RECV_BUFFER_LEN, s.cursor)]
      && step.after == s.(buf := Deliver(s.buf, rx), cursor := rx.addrLen)
    ensures ReceiveCalled(s, now) && IsAnswered(step.after.state) ==>
      && step.calls == [ReceiveFrom(s.socket, RECV_BUFFER_LEN, s.cursor), CloseSocket(s.socket)]
      && step.after == s.(state := step.after.state, buf := Deliver(s.buf, rx), cursor := rx.addrLen,
                          finishedAt := now, seqNo := ToUint16(s.seqNo + 1),
                          socket := CLOSED_SOCKET, socketOpen := false)
    ensures step.after.startedAt == s.startedAt && step.after.timeoutMs == s.timeoutMs
  {
    if s.state != Pending then
      Step(s, [])
    else if TimedOut(s, now) then
      var closed := Close(s);
      Step(closed.after.(finishedAt := Deadline(s), state := Timeout), closed.calls)
    else
      var buf := Deliver(s.buf, rx);
      assert rx.ret >= MIN_REPLY_LEN ==> buf[0] == rx.data[0];
      var r := Classify(buf, rx.ret, ToInt16(s.seqNo));
      Int16RoundTrip(s.seqNo);
      var received := s.(state := r, buf := buf, cursor := rx.addrLen);
      var recv := [ReceiveFrom(s.socket, RECV_BUFFER_LEN, s.cursor)];
      if r == Pending then
        Step(received, recv)
      else
        var closed := Close(received);
        Step(closed.after.(finishedAt := now, seqNo := ToUint16(s.seqNo + 1)), recv + closed.calls)
  }

  /** `lastPingTimeMicros()`: finish minus start in unsigned 64 bits, returned as a 32-bit int.
      The result is the true difference modulo 2^32, and exactly it when it fits. */
  function LastPingTimeMicros(s: Session): (r: int32)
    ensures exists k :: r == s.finishedAt - s.startedAt + k * TWO_TO_THE_32
    ensures 0 <= s.finishedAt - s.startedAt < TWO_TO_THE_31 ==> r == s.finishedAt - s.startedAt
  {
    NarrowingComposes(s.finishedAt - s.startedAt);
    ToInt32(ToUint64(s.finishedAt - s.startedAt))
  }

  /** Converting to `uint64` and then to a 32-bit `int` keeps the value modulo 2^32. */
  lemma NarrowingComposes(d: int)
    ensures exists k :: ToInt32(ToUint64(d)) == d + k * TWO_TO_THE_32
  {
    var u := ToUint64(d);
    var k1 :| d == u + k1 * TWO_TO_THE_64;
    var r := ToInt32(u);
    var k2 :| u == r + k2 * TWO_TO_THE_32;
    assert TWO_TO_THE_64 == TWO_TO_THE_32 * TWO_TO_THE_32;
    assert k1 * TWO_TO_THE_64 == (k1 * TWO_TO_THE_32) * TWO_TO_THE_32;
    assert r == d + (-k1 * TWO_TO_THE_32 - k2) * TWO_TO_THE_32;
  }

  /** Shifting by a multiple of 2^64 does not change the `uint64` conversion; used for the
      unsigned 64-bit wrap of the time difference in `TimeoutLatencyIsExact`. */
  lemma ToUint64Periodic(x: int, k: int)
    ensures ToUint64(x + k * TWO_TO_THE_64) == ToUint64(x)
  {
  }

  /** Shifting by a multiple of 2^64 (itself a multiple of 2^32) does not change the 32-bit
      `int` conversion; used for the same `uint64` wrap in `TimeoutLatencyIsExact`. */
  lemma ToInt32Periodic(x: int, k: int)
    ensures ToInt32(x + k * TWO_TO_THE_64) == ToInt32(x)
  {
  }

  /** After a timeout the reported latency is exactly the timeout in microseconds, however
      late the poll came, provided `timeoutMs * 1000` fits the 32-bit return type. */
  lemma TimeoutLatencyIsExact(s: Session, now: uint64, rx: Received)
    requires s.state == Pending && TimedOut(s, now)
    requires -TWO_TO_THE_31 <= s.timeoutMs * MICROS_PER_MILLI < TWO_TO_THE_31
    ensures Poll(s, now, rx).after.state == Timeout
    ensures LastPingTimeMicros(Poll(s, now, rx).after) == s.timeoutMs * MICROS_PER_MILLI
  {
    var t := s.timeoutMs * MICROS_PER_MILLI;
    var after := Poll(s, now, rx).after;
    var k1 :| s.startedAt + t == after.finishedAt + k1 * TWO_TO_THE_64;
    assert after.finishedAt - s.startedAt == t + (-k1) * TWO_TO_THE_64;
    ToUint64Periodic(t, -k1);
    var k2 :| t == ToUint64(t) + k2 * TWO_TO_THE_64;
    assert ToUint64(t) == t + (-k2) * TWO_TO_THE_64;
    ToInt32Periodic(t, -k2);
  }

  /** After an answered poll the reported latency is the elapsed time at that poll when that
      time is below 2^31 µs. For a non-negative timeout it also lies in [0, timeoutMs * 1000];
      a negative timeout is an unbounded unsigned bound, so nothing is claimed then. */
  lemma AnsweredLatencyIsElapsed(s: Session, now: uint64, rx: Received)
    requires ReceiveCalled(s, now) && WellFormedReceive(rx) && ReplyReadable(rx)
    requires IsAnswered(Poll(s, now, rx).after.state)
    requires ElapsedMicros(s, now) < TWO_TO_THE_31
    ensures LastPingTimeMicros(Poll(s, now, rx).after) == ElapsedMicros(s, now)
    ensures s.timeoutMs >= 0 ==> 0 <= LastPingTimeMicros(Poll(s, now, rx).after) <= s.timeoutMs * MICROS_PER_MILLI
  {
  }

  /** A poll exactly at the deadline is not late: the receive is still attempted. */
  lemma DeadlineIsNotLate(s: Session, now: uint64)
    requires s.state == Pending && ElapsedMicros(s, now) == TimeoutBound(s)
    ensures ReceiveCalled(s, now)
  {
  }

  /** A poll with no data before the deadline leaves the attempt Pending and everything but the
      receive bookkeeping unchanged. */
  lemma NoDataStaysPending(s: Session, now: uint64, rx: Received)
    requires ReceiveCalled(s, now) && WellFormedReceive(rx) && rx.ret < MIN_REPLY_LEN
    ensures Poll(s, now, rx).after == s.(buf := Deliver(s.buf, rx), cursor := rx.addrLen)
  {
  }

  /** `begin` never closes a handle it did not itself just open: a socket held open from an
      earlier attempt (Pending, or left open by a failed send) is dropped without `close`,
      since the new socket gets a different handle. */
  lemma BeginDropsHeldSocket(s: Session, dstIp: uint32, timeoutMs: int32, pingLen: uint8, now: uint64, io: BeginIo)
    requires Valid(s) && s.socketOpen && io.socketRet != s.socket
    ensures CloseSocket(s.socket) !in Begin(s, dstIp, timeoutMs, pingLen, now, io).calls
    ensures Begin(s, dstIp, timeoutMs, pingLen, now, io).after.socket != s.socket
  {
  }

  /** A send error reported as a negative return is not detected: the attempt goes Pending. */
  lemma SendErrorGoesPending(s: Session, dstIp: uint32, timeoutMs: int32, pingLen: uint8, now: uint64, io: BeginIo)
    requires io.socketRet >= 0 && io.setsockoptRet >= 0 && io.sendtoRet < 0
    ensures Begin(s, dstIp, timeoutMs, pingLen, now, io).after.state == Pending
  {
  }
}
