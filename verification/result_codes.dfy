/** The result enumeration `asyncping_result_t` of the ping component, with the
    integer codes the header assigns to each value. */
module ResultCodes {
  import opened Wrappers

  datatype PingResult =
    | Pending
    | Success
    | Timeout
    | InvalidResponse
    | SocketCreationFailed
    | SocketSendFailed
    | NotStarted

  /** The integer value of each enumerator as the header declares it. */
  function Code(r: PingResult): (c: int)
    ensures c == 0 <==> r == Pending
    ensures c > 0 <==> r == Success
    ensures -5 <= c <= 1
  {
    match r
    case Pending => 0
    case Success => 1
    case Timeout => -1
    case InvalidResponse => -2
    case SocketCreationFailed => -3
    case SocketSendFailed => -4
    case NotStarted => -5
  }

  /** The enumerator an integer code denotes, if any. */
  function FromCode(c: int): (r: Option<PingResult>)
    ensures r.Some? <==> -5 <= c <= 1
  {
    if c == 0 then Some(Pending)
    else if c == 1 then Some(Success)
    else if c == -1 then Some(Timeout)
    else if c == -2 then Some(InvalidResponse)
    else if c == -3 then Some(SocketCreationFailed)
    else if c == -4 then Some(SocketSendFailed)
    else if c == -5 then Some(NotStarted)
    else None
  }

  /** Codes identify results: decoding the code of a result gives that result back,
      and every valid code is the code of the result it decodes to. */
  lemma CodeRoundTrip(r: PingResult, c: int)
    ensures FromCode(Code(r)) == Some(r)
    ensures FromCode(c).Some? ==> Code(FromCode(c).value) == c
  {
  }

  /** The outcomes decided by a received frame (the only ones that advance the sequence counter). */
  predicate IsAnswered(r: PingResult)
  {
    r == Success || r == InvalidResponse
  }
}
