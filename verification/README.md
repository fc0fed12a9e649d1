# Non-blocking ICMP ping — Dafny model

This project models the core of an asynchronous, single-target ICMP ping for lwIP-based
embedded stacks. A ping object sends one ICMP Echo Request to an IPv4 host. The caller then
polls the object until the attempt ends in Success, Timeout or InvalidResponse, or until it
has already failed to create a socket or to send.

The model has two parts.

- **The echo codec** (`EchoCodec`, with the RFC 1071 checksum in `InternetChecksum`). It
  builds the Echo Request that `ping_prepare_echo`/`ping_send` produce, clamps its length
  to the 256-octet send buffer, and classifies a received IPv4 datagram the way `ping_recv`
  does. Packets are `seq<uint8>` with explicit offsets. Multi-octet fields are in network
  order, following the Echo / Echo Reply format of RFC 792.
- **The session** (`AsyncPing`, with run-level properties in `AsyncPingRuns`). The object's
  fields form an immutable record. `begin` is the pure function `Begin` and `result()` is
  `Poll`; `close` is `Close`. `Begin` and `Poll` take the clock reading (microseconds,
  `uint64`) and the return values of the socket calls as parameters. All three return the
  next record and the list of socket calls made (`Call`: open, set receive timeout, send, receive, close). A send
  is recorded by the arguments of `ping_send`, and the octets it puts on the wire are
  `SendPacket(size, seqNo)`.
  `result()` returns the state it stores, which is `Poll(...).after.state`.

Fixed-width C arithmetic is modelled in `BoundedInts`: `uint16` counter wrap, unsigned
64-bit time differences, the conversion of `int` to `uint64`, and the 32-bit `int` that
`lastPingTimeMicros()` returns. The target's `int` is taken to be 32 bits wide.

## Behaviour as written

The model follows the code as written, including these behaviours:

- The timeout test is strictly greater than: a poll exactly at the deadline still receives
  (`DeadlineIsNotLate`).
- A failed send leaves the socket open. The invariant `Valid` says a socket is held open
  exactly in Pending and SocketSendFailed.
- `sendto` counts as failed only when it returns 0, so a negative error return gives Pending
  (`SendErrorGoesPending`).
- `begin` overwrites a handle that is still open without closing it (`BeginDropsHeldSocket`).
- A Timeout does not advance the sequence counter. Only Success and InvalidResponse do
  (`SeqNoStep`, `SeqNoCountsAnswers`).
- The ICMP type of a reply is not checked. Any datagram of at least 28 octets decides the
  attempt.
- The 8-octet echo header is read at `IHL*4` inside the 64-octet receive buffer. That read is
  in bounds only when IHL ≤ 14 (`ReadInBoundsIffIhl`). `Classify` and `Poll` therefore require
  it whenever the read happens. Octets beyond the received length are stale contents of the
  buffer, and they can decide the outcome (`StaleOctetsDecide`). For this reason the buffer is
  part of the session record.

## Model

| member | source | states |
|---|---|---|
| `InternetChecksum.OnesSumIsFold` | AsyncPing.cpp:29 | The word-by-word one's-complement sum with end-around carry equals a reference fold of the plain word sum: it is 0 only for all-zero data and otherwise the value in [1, 0xFFFF] congruent to the sum modulo 0xFFFF |
| `InternetChecksum.FilledChecksumVerifies` | AsyncPing.cpp:20-29 | Writing the checksum of the data, taken with a zeroed word-aligned field, into that field makes the data's one's-complement sum all ones |
| `ResultCodes.Code` | AsyncPing.h:6-14 | Pending is code 0, Success is the only positive code, and every code lies in [-5, 1] |
| `ResultCodes.CodeRoundTrip` | AsyncPing.h:6-14 | Codes and results are in one-to-one correspondence in both directions |
| `EchoCodec.Encode` | AsyncPing.cpp:18-29 | The encoded message holds the header fields at their offsets and the data after them; its checksum field is the checksum of the message with that field zeroed, and the message verifies |
| `EchoCodec.DecodeEncode` | AsyncPing.cpp:18-29 | Decoding an encoded message gives back its header and data |
| `EchoCodec.EncodeDecode` | AsyncPing.cpp:20-29 | Re-encoding a decoded message reproduces it if and only if its checksum field was correct |
| `EchoCodec.BuildEcho` | AsyncPing.cpp:14-30 | The request has type 8 and code 0, identifier octets 0xAF 0xAF, the sequence number big-endian, data octet `i` equal to `i mod 256`, the checksum of the zeroed packet in its checksum field, and it verifies |
| `EchoCodec.PrepareEcho` | AsyncPing.cpp:14-30 | Header, then the data octets one by one in a loop, then the checksum, written into a buffer: the first `len` octets are the request and the rest of the buffer is unchanged |
| `EchoCodec.PacketLength` | AsyncPing.cpp:34-38 | The sent length is at least the header length and at most 256; it is header plus data unless that exceeds 256 |
| `EchoCodec.SendPacket` | AsyncPing.cpp:32-42 | The octets handed to `sendto` never exceed the 256-octet buffer and have the clamped length |
| `EchoCodec.ClampReachable` | AsyncPing.h:31 | With the 8-bit data length of `begin` the clamp cuts exactly the lengths above 248 |
| `EchoCodec.ReadInBoundsIffIhl` | AsyncPing.cpp:66 | In the 64-octet buffer the 8-octet header read at `IHL*4` is in bounds if and only if IHL ≤ 14 |
| `EchoCodec.Classify` | AsyncPing.cpp:59-71 | Pending if and only if fewer than 28 octets were received (a negative return included); Success if and only if at least 28 were received and the identifier and sequence octets at the IHL offset match; InvalidResponse otherwise |
| `EchoCodec.IdByteOrderIrrelevant` | AsyncPing.cpp:67 | The identifier 0xAFAF compares equal in host order exactly when it does in network order |
| `EchoCodec.ClassifyEchoFrame` | AsyncPing.cpp:65-69 | A datagram made of an IPv4 header and any encoded echo message is Success exactly when the message carries 0xAFAF and the expected sequence number, and InvalidResponse otherwise |
| `EchoCodec.StaleOctetsDecide` | AsyncPing.cpp:58-67 | Two buffers that agree on the 28 received octets can be classified differently, because the header read can reach past the received length |
| `BoundedInts.Int16RoundTrip` | AsyncPing.cpp:52 | Passing the unsigned 16-bit counter through the `int16_t` parameter and `htons` gives back the same 16-bit value |
| `AsyncPing.Fresh` | AsyncPing.h:21-24 | A new object is NotStarted, with sequence number 0 and no socket held, and satisfies the object invariant |
| `AsyncPing.Close` | AsyncPing.cpp:74-77 | Closes exactly the held handle, stores -1 and changes nothing else |
| `AsyncPing.Begin` | AsyncPing.cpp:79-116 | Records start time, timeout and length, and keeps the invariant. Socket failure: SocketCreationFailed after the one call, with the negative return stored as the handle. `setsockopt` failure: the new socket is closed, the handle set to -1, SocketCreationFailed. Otherwise the clamped request with the current sequence number is sent, the cursor is reset, the socket stays open, and the state is Pending if and only if `sendto` did not return 0. It only ever closes the socket it just opened |
| `AsyncPing.BeginWithDefaults` | AsyncPing.h:31 | The default arguments give a 1000 ms timeout and a 40-octet request |
| `AsyncPing.Deliver` | AsyncPing.cpp:58 | A receive writes its octets at the front of the buffer and leaves the rest of the buffer as it was |
| `AsyncPing.Poll` | AsyncPing.cpp:118-146 | Keeps the invariant and moves only out of Pending. Not Pending: returns the stored result with no call and no change. Late: one close, Timeout, finish time = start + timeout, the handle set to -1, and every other field (counter, buffer, cursor, length) unchanged. Otherwise one receive, the cursor written back, Success if and only if the delivered buffer matches the identifier and counter, and Pending if and only if fewer than 28 octets arrived. A decided frame closes the socket, sets the handle to -1, records the poll time and adds one to the counter modulo 2^16. Nothing else changes: a still-pending poll changes only the buffer and the cursor, and a decided one only those and the fields just named |
| `AsyncPing.LastPingTimeMicros` | AsyncPing.h:34 | Finish time minus start time, congruent to the true difference modulo 2^32, and equal to it whenever it lies in [0, 2^31) |
| `AsyncPing.TimeoutLatencyIsExact` | AsyncPing.cpp:126-131 | After a Timeout, `lastPingTimeMicros()` is exactly `timeoutMs * 1000`, whatever the poll time, when that fits in 32 bits |
| `AsyncPing.AnsweredLatencyIsElapsed` | AsyncPing.cpp:140-144 | When the elapsed time at the poll is below 2^31 µs, the latency after an answered poll equals it; for a non-negative timeout it also lies in [0, timeoutMs*1000]. A negative timeout is accepted by `begin` and becomes a huge unsigned bound, so no such bound holds then |
| `AsyncPing.DeadlineIsNotLate` | AsyncPing.cpp:126 | A poll whose elapsed time equals the timeout still receives, because the test is strict |
| `AsyncPing.NoDataStaysPending` | AsyncPing.cpp:135-145 | A poll before the deadline that receives fewer than 28 octets changes only the buffer and the cursor |
| `AsyncPing.BeginDropsHeldSocket` | AsyncPing.cpp:89 | A `begin` while a socket is held open neither closes nor keeps that handle |
| `AsyncPing.SendErrorGoesPending` | AsyncPing.cpp:46-49 | A negative `sendto` return is taken as sent and gives Pending |
| `AsyncPingRuns.SeqNoStep` | AsyncPing.cpp:140-144 | One event advances the counter by one modulo 2^16 exactly when it takes Pending to Success or InvalidResponse |
| `AsyncPingRuns.SeqNoCountsAnswers` | AsyncPing.cpp:143 | Over any run the final counter is the initial one plus the number of answered attempts, modulo 2^16 |
| `AsyncPingRuns.PollsCloseAtMostOnce` | AsyncPing.cpp:118-146 | Polling alone closes the socket at most once, on the handle held at the start. It closes it exactly when a Pending attempt reaches a result. From any other state it makes no calls and changes nothing |
| `AsyncPingRuns.FreshReportsNotStarted` | AsyncPing.h:21 | A new object reports NotStarted, with no socket call, however often it is polled before `begin` |
| `AsyncPingRuns.EchoReplyDecides` | AsyncPing.cpp:135-145 | Before the deadline, a received IPv4 datagram carrying an echo message gives Success exactly when the message carries the object's identifier and current counter, and InvalidResponse otherwise |
| `AsyncPingRuns.SuccessScenario` | AsyncPing.cpp:111-144 | With the defaults, a matching reply within 1000 ms gives Success, a latency in [0, 1,000,000] µs and a counter advanced by one |
| `AsyncPingRuns.WrongSequenceScenario` | AsyncPing.cpp:67-69 | A reply whose sequence number is one below the expected one gives InvalidResponse |
| `AsyncPingRuns.SilentTargetScenario` | AsyncPing.cpp:126-131 | With the defaults, a poll more than 1000 ms after the send gives Timeout, a latency of exactly 1,000,000 µs and an unchanged counter |

## Left out

- The socket calls (`socket`, `setsockopt`, `sendto`, `recvfrom`, `closesocket`) are lwIP functions outside this code. Their return values are parameters (`BeginIo`, `Received`), and the calls made are returned as a `Call` list.
- `gettimeofday` and the `tv_sec * 1000000 + tv_usec` arithmetic are not modelled. The clock reading is given directly as a `uint64` number of microseconds.
- The `sockaddr_in` / `inet_addr_*` conversions (AsyncPing.cpp:43-45, 61-62, 94-95) are not modelled. The destination address is recorded in `SendEcho` unchanged, and the source address of a reply is never used.
- lwIP's `inet_chksum` is not modelled. The checksum is specified from RFC 1071 instead.
- The packed `icmp_echo_hdr` / `ip_hdr` overlays are replaced by explicit offsets.
- The commented-out `ping_recv_orig` is not modelled. Concurrent or multiple sessions are not modelled.
- Poll: `timeoutMs * 1000` is computed without bounds before its conversion to `uint64`. The source's 32-bit signed overflow, which is undefined in C for |timeoutMs| > 2147483, is not modelled.
- Classify: requires the 8-octet header read at the IHL offset to lie inside the buffer whenever 28 or more octets were received. The source reads out of bounds otherwise, which is undefined.
- Poll: requires the received datagram to have IHL ≤ 14 whenever the header is read. With IHL = 15 the source reads past its 64-octet buffer, which is undefined, so that case is not modelled.
- Poll: requires the receive to return at most 64 and to write exactly that many octets. This is the socket layer's side of the call.
- Fresh: members the constructor leaves uninitialised (`_timeout`, `_startetAt`, `_finishedAt`, `_pingLen`, `_cursor`, `_buf`) are zero in the model. No property relies on their values before `begin`.
- PrepareEcho: the `(char)i` store is taken to keep the low 8 bits of `i`.
