/** The ICMP Echo codec of the ping component: building the Echo Request that is
    sent (`ping_prepare_echo`, `ping_send`) and classifying the IPv4 datagram that
    comes back (`ping_recv`). The message layout is the Echo / Echo Reply format of
    RFC 792: type, code, checksum, identifier, sequence number, then data. Header
    fields are read and written at explicit byte offsets, multi-octet fields in
    network (big-endian) order. */
module EchoCodec {
  import opened BoundedInts
  import opened Wrappers
  import opened InternetChecksum
  import opened ResultCodes

  /** ICMP type of an Echo Request (RFC 792). */
  const ICMP_ECHO: uint8 := 8
  /** ICMP type of an Echo Reply (RFC 792). */
  const ICMP_ECHO_REPLY: uint8 := 0
  /** The identifier every request of this component carries. */
  const PING_ID: uint16 := 0xAFAF
  /** Size of the ICMP echo header: type, code, checksum, identifier, sequence number. */
  const ECHO_HEADER_LEN: nat := 8
  /** Size of an IPv4 header without options. */
  const IP_HEADER_LEN: nat := 20
  /** The shortest received datagram that is classified rather than left pending. */
  const MIN_REPLY_LEN: nat := IP_HEADER_LEN + ECHO_HEADER_LEN
  /** Size of the stack buffer the request is built in; longer requests are clamped to it. */
  const SEND_BUFFER_LEN: nat := 256

  datatype EchoHeader = EchoHeader(icmpType: uint8, code: uint8, id: uint16, seqNo: uint16)

  /** A decoded echo message: its header, the checksum field as found, and the data. */
  datatype EchoMessage = EchoMessage(header: EchoHeader, checksum: uint16, payload: seq<uint8>)

  /** The eight header octets with the given value in the checksum field. */
  function HeaderBytes(h: EchoHeader, checksum: uint16): (b: seq<uint8>)
    ensures |b| == ECHO_HEADER_LEN
  {
    [h.icmpType, h.code] + NetworkOrder(checksum) + NetworkOrder(h.id) + NetworkOrder(h.seqNo)
  }

  /** The echo header whose first octet is at offset `o` of `b`. */
  function HeaderAt(b: seq<uint8>, o: nat): EchoHeader
    requires o + ECHO_HEADER_LEN <= |b|
  {
    EchoHeader(b[o], b[o + 1], b[o + 4] * TWO_TO_THE_8 + b[o + 5], b[o + 6] * TWO_TO_THE_8 + b[o + 7])
  }

  /** The message with its checksum field zeroed, as the checksum is computed over it. */
  function Zeroed(b: seq<uint8>): (z: seq<uint8>)
    requires |b| >= ECHO_HEADER_LEN
    ensures |z| == |b| && z[2] == 0 && z[3] == 0
    ensures forall i :: 0 <= i < |b| && i != 2 && i != 3 ==> z[i] == b[i]
  {
    b[..2] + [0, 0] + b[4..]
  }

  /** The checksum field holds the Internet checksum of the message taken with that field zeroed. */
  predicate ChecksumFieldValid(b: seq<uint8>)
    requires |b| >= ECHO_HEADER_LEN
  {
    b[2..4] == NetworkOrder(Checksum(Zeroed(b)))
  }

  /** Encodes an echo message: header, then data, with the checksum filled in. */
  function Encode(h: EchoHeader, payload: seq<uint8>): (b: seq<uint8>)
    ensures |b| == ECHO_HEADER_LEN + |payload|
    ensures HeaderAt(b, 0) == h
    ensures b[ECHO_HEADER_LEN..] == payload
    ensures ChecksumFieldValid(b)
    ensures Verifies(b)
  {
    var c := Checksum(HeaderBytes(h, 0) + payload);
    var b := HeaderBytes(h, c) + payload;
    var rest := NetworkOrder(h.id) + NetworkOrder(h.seqNo) + payload;
    assert HeaderBytes(h, 0) + payload == [h.icmpType, h.code] + [0, 0] + rest;
    assert b == [h.icmpType, h.code] + NetworkOrder(c) + rest;
    assert Zeroed(b) == HeaderBytes(h, 0) + payload;
    FilledChecksumVerifies([h.icmpType, h.code], rest);
    b
  }

  /** Decodes an echo message; anything shorter than the header has none. */
  function Decode(b: seq<uint8>): (m: Option<EchoMessage>)
    ensures m.Some? <==> |b| >= ECHO_HEADER_LEN
  {
    if |b| < ECHO_HEADER_LEN then None
    else Some(EchoMessage(HeaderAt(b, 0), b[2] * TWO_TO_THE_8 + b[3], b[ECHO_HEADER_LEN..]))
  }

  /** Decoding an encoded message gives back its header and data, with a checksum under
      which the message verifies. */
  lemma DecodeEncode(h: EchoHeader, payload: seq<uint8>)
    ensures Decode(Encode(h, payload)).Some?
    ensures Decode(Encode(h, payload)).value.header == h
    ensures Decode(Encode(h, payload)).value.payload == payload
    ensures Decode(Encode(h, payload)).value.checksum == Checksum(HeaderBytes(h, 0) + payload)
  {
  }

  /** Re-encoding a decoded message reproduces it exactly when, and only when, its
      checksum field was correct. */
  lemma EncodeDecode(b: seq<uint8>)
    requires |b| >= ECHO_HEADER_LEN
    ensures Encode(Decode(b).value.header, Decode(b).value.payload) == b <==> ChecksumFieldValid(b)
  {
    var m := Decode(b).value;
    var c := Checksum(HeaderBytes(m.header, 0) + m.payload);
    var e := Encode(m.header, m.payload);
    assert e == HeaderBytes(m.header, c) + m.payload;
    assert Zeroed(b) == HeaderBytes(m.header, 0) + m.payload;
    assert e[..2] == b[..2] && e[4..8] == b[4..8] && e[8..] == b[8..];
    assert e[2..4] == NetworkOrder(c);
    assert b == b[..2] + b[2..4] + b[4..8] + b[8..];
    assert e == e[..2] + e[2..4] + e[4..8] + e[8..];
  }

  /** The data the request carries: octet `i` is `i` modulo 256. */
  function Payload(n: nat): (p: seq<uint8>)
    ensures |p| == n
    ensures forall i :: 0 <= i < n ==> p[i] == i % TWO_TO_THE_8
  {
    seq(n, i => i % TWO_TO_THE_8)
  }

  /** The Echo Request of total length `len` for sequence number `seqNo`
      (the buffer `ping_prepare_echo` fills). The caller always passes at least a header. */
  function BuildEcho(len: uint16, seqNo: uint16): (p: seq<uint8>)
    requires len >= ECHO_HEADER_LEN
    ensures |p| == len
    ensures p[0] == ICMP_ECHO && p[1] == 0
    ensures p[4] == 0xAF && p[5] == 0xAF
    ensures p[6..8] == NetworkOrder(seqNo)
    ensures forall i :: ECHO_HEADER_LEN <= i < len ==> p[i] == (i - ECHO_HEADER_LEN) % TWO_TO_THE_8
    ensures p[2..4] == NetworkOrder(Checksum(Zeroed(p)))
    ensures Verifies(p)
  {
    var p := Encode(EchoHeader(ICMP_ECHO, 0, PING_ID, seqNo), Payload(len - ECHO_HEADER_LEN));
    assert p[6..8] == [p[6], p[7]];
    assert forall i :: ECHO_HEADER_LEN <= i < len ==> p[i] == p[ECHO_HEADER_LEN..][i - ECHO_HEADER_LEN];
    p
  }

  /** The statement-by-statement construction of the request in a caller's buffer: the
      header with a zero checksum, the data octets one at a time, then the checksum.
      The first `len` octets end up as the request; the rest of the buffer is untouched. */
  method PrepareEcho(buf: seq<uint8>, len: uint16, seqNo: uint16) returns (out: seq<uint8>)
    requires ECHO_HEADER_LEN <= len <= |buf|
    ensures |out| == |buf|
    ensures out[..len] == BuildEcho(len, seqNo)
    ensures out[len..] == buf[len..]
  {
    var header := HeaderBytes(EchoHeader(ICMP_ECHO, 0, PING_ID, seqNo), 0);
    out := header + buf[ECHO_HEADER_LEN..];
    var dataLen := len - ECHO_HEADER_LEN;
    var i := 0;
    while i < dataLen
      invariant 0 <= i <= dataLen
      invariant |out| == |buf|
      invariant out[..ECHO_HEADER_LEN] == header
      invariant forall k :: 0 <= k < i ==> out[ECHO_HEADER_LEN + k] == k % TWO_TO_THE_8
      invariant out[len..] == buf[len..]
    {
      out := out[ECHO_HEADER_LEN + i := i % TWO_TO_THE_8];
      i := i + 1;
    }
    assert out[..len] == header + Payload(dataLen);
    var c := Checksum(out[..len]);
    out := out[2 := c / TWO_TO_THE_8][3 := c % TWO_TO_THE_8];
    assert out[..len] == HeaderBytes(EchoHeader(ICMP_ECHO, 0, PING_ID, seqNo), c) + Payload(dataLen);
  }

  /** Total length of the request `ping_send` builds for `size` octets of data: header plus
      data, clamped to the send buffer. */
  function PacketLength(size: uint16): (n: uint16)
    ensures ECHO_HEADER_LEN <= n <= SEND_BUFFER_LEN
    ensures n == ECHO_HEADER_LEN + size || (n == SEND_BUFFER_LEN < ECHO_HEADER_LEN + size)
  {
    if ECHO_HEADER_LEN + size > SEND_BUFFER_LEN then SEND_BUFFER_LEN else ECHO_HEADER_LEN + size
  }

  /** The bytes `ping_send` hands to `sendto`. */
  function SendPacket(size: uint16, seqNo: uint16): (p: seq<uint8>)
    ensures |p| <= SEND_BUFFER_LEN
    ensures |p| == PacketLength(size)
  {
    BuildEcho(PacketLength(size), seqNo)
  }

  /** `ping_send` reports failure only when `sendto` returns exactly 0; a negative
      (error) return counts as sent. */
  predicate SendAccepted(sendtoRet: int)
  {
    sendtoRet != 0
  }

  /** Data lengths as `begin` passes them (an 8-bit count) reach the clamp: exactly the
      lengths above 248 are cut to the 256-octet buffer. */
  lemma ClampReachable(pingLen: uint8)
    ensures PacketLength(pingLen) < ECHO_HEADER_LEN + pingLen <==> pingLen > 248
    ensures PacketLength(pingLen) <= ECHO_HEADER_LEN + 255
  {
  }

  /** Offset of the ICMP header inside a received IPv4 datagram: the IHL field (low
      nibble of the first octet) counts 32-bit words (section 3.1 of RFC 791). */
  function IcmpOffset(frame: seq<uint8>): (o: nat)
    requires |frame| > 0
    ensures o % 4 == 0 && o <= 60
  {
    (frame[0] % 16) * 4
  }

  /** The eight-octet echo header read at the IHL offset lies inside the buffer. */
  predicate EchoReadInBounds(buf: seq<uint8>)
  {
    |buf| > 0 && IcmpOffset(buf) + ECHO_HEADER_LEN <= |buf|
  }

  /** For the 64-octet receive buffer the read stays inside exactly when IHL is at most 14;
      IHL = 15 puts it past the end. */
  lemma ReadInBoundsIffIhl(buf: seq<uint8>)
    requires |buf| == 64
    ensures EchoReadInBounds(buf) <==> buf[0] % 16 <= 14
  {
  }

  /** The octets of the echo header at the IHL offset carry this component's identifier
      and `seqNo` in network order. */
  predicate EchoMatches(buf: seq<uint8>, seqNo: uint16)
    requires EchoReadInBounds(buf)
  {
    var o := IcmpOffset(buf);
    buf[o + 4] == 0xAF && buf[o + 5] == 0xAF && buf[o + 6 .. o + 8] == NetworkOrder(seqNo)
  }

  /** The decision `ping_recv` takes on a received datagram of `len` octets now held in `buf`:
      Pending when there are fewer than 28 octets (including a negative "no data" return),
      Success when the identifier and the sequence number at the IHL offset match, and
      InvalidResponse otherwise. The ICMP type is not inspected. */
  function Classify(buf: seq<uint8>, len: int, expected: int16): (r: PingResult)
    requires len >= MIN_REPLY_LEN ==> EchoReadInBounds(buf)
    ensures r == Pending <==> len < MIN_REPLY_LEN
    ensures r == Pending || r == Success || r == InvalidResponse
    ensures r == Success <==> len >= MIN_REPLY_LEN && EchoMatches(buf, ToUint16(expected))
  {
    if len >= MIN_REPLY_LEN then
      var h := HeaderAt(buf, IcmpOffset(buf));
      if h.id == PING_ID && h.seqNo == ToUint16(expected) then Success else InvalidResponse
    else
      Pending
  }

  /** The identifier 0xAFAF reads the same in either byte order, so comparing it in host
      order, as the receive routine does, is the same as comparing it in network order. */
  lemma IdByteOrderIrrelevant(hi: uint8, lo: uint8)
    ensures hi * TWO_TO_THE_8 + lo == PING_ID <==> lo * TWO_TO_THE_8 + hi == PING_ID
  {
  }

  /** A datagram made of an IPv4 header (of IHL words, at most 14) and an encoded echo
      message, of which the receive buffer holds at least the headers, is a Success exactly
      when the echo carries this component's identifier and the expected sequence number,
      and an InvalidResponse otherwise, whatever its type, code, data or checksum. */
  lemma ClassifyEchoFrame(ipHeader: seq<uint8>, h: EchoHeader, payload: seq<uint8>,
                          buf: seq<uint8>, len: int, expected: uint16)
    requires IP_HEADER_LEN <= |ipHeader| && |ipHeader| == (ipHeader[0] % 16) * 4
    requires |ipHeader| + ECHO_HEADER_LEN <= |buf|
    requires buf[..|ipHeader| + ECHO_HEADER_LEN] == (ipHeader + Encode(h, payload))[..|ipHeader| + ECHO_HEADER_LEN]
    requires len >= MIN_REPLY_LEN
    ensures Classify(buf, len, ToInt16(expected))
         == if h.id == PING_ID && h.seqNo == expected then Success else InvalidResponse
  {
  }

  /** The octets past the received length still decide the outcome: with IHL = 6 the
      identifier and sequence number of a 28-octet datagram are read from octets 28..31,
      which the datagram did not write. */
  lemma StaleOctetsDecide(expected: int16)
    ensures exists b1: seq<uint8>, b2: seq<uint8> ::
      |b1| == |b2| == 64 && b1[..MIN_REPLY_LEN] == b2[..MIN_REPLY_LEN]
      && EchoReadInBounds(b1) && EchoReadInBounds(b2)
      && Classify(b1, MIN_REPLY_LEN, expected) == Success
      && Classify(b2, MIN_REPLY_LEN, expected) == InvalidResponse
  {
    var front: seq<uint8> := [0x46] + seq(27, i => 0);
    var back: seq<uint8> := seq(32, i => 0);
    var b1 := front + [0xAF, 0xAF] + NetworkOrder(ToUint16(expected)) + back;
    var b2 := front + [0, 0] + NetworkOrder(ToUint16(expected)) + back;
    assert IcmpOffset(b1) == 24 && IcmpOffset(b2) == 24;
    assert b1[..MIN_REPLY_LEN] == front == b2[..MIN_REPLY_LEN];
    assert b1[30..32] == NetworkOrder(ToUint16(expected));
    assert Classify(b1, MIN_REPLY_LEN, expected) == Success;
    assert Classify(b2, MIN_REPLY_LEN, expected) == InvalidResponse;
  }
}
