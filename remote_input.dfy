/**
 * handle_client_socket: what the client does with one receive from the server.
 *
 * The receive itself is not modelled; its result is the input. `Received(data)`
 * stands for `recv` returning `|data|` bytes (zero when the server closed the
 * connection), `RecvFailed(interrupted)` for `recv` returning -1 with errno equal
 * to EINTR or not.
 */
module RemoteInput {
  import opened Protocol

  datatype RecvResult = RecvFailed(interrupted: bool) | Received(data: seq<char>)

  /** The four ways handle_client_socket can end. */
  datatype RemoteOutcome =
    | RecvWarning             // warns and goes on
    | PeerClosed              // "Connection to server has been lost."
    | ServerBye               // "Server initiated shutdown."
    | Message(text: seq<char>) // displayed

  function RemoteVerdict(o: RemoteOutcome): Verdict
  {
    if o.PeerClosed? || o.ServerBye? then Stop else Continue
  }

  /**
   * The handler writes its terminator at `inbuf[bytes_recvd]` whenever the first
   * branch is not taken. That write stays inside a buffer of `capacity` chars only
   * when the receive was not interrupted (EINTR leaves bytes_recvd at -1 and the
   * write lands on inbuf[-1]) and when fewer than `capacity` bytes arrived (the
   * receive asks for as many bytes as the buffer holds, so a full receive puts
   * the terminator one past its end).
   */
  predicate TerminatorFits(r: RecvResult, capacity: nat)
  {
    match r
    case RecvFailed(interrupted) => !interrupted
    case Received(data) => |data| < capacity
  }

  /** The two inputs on which the source writes outside inbuf. */
  lemma TerminatorDefects(capacity: nat, full: seq<char>)
    requires |full| == capacity
    ensures !TerminatorFits(RecvFailed(true), capacity)
    ensures !TerminatorFits(Received(full), capacity)
    ensures capacity > 0 ==> TerminatorFits(Received(full[..capacity - 1]), capacity)
  {
  }

  /** The branch handle_client_socket takes for a receive result. */
  function RemoteStep(r: RecvResult): (o: RemoteOutcome)
    requires !(r.RecvFailed? && r.interrupted)
    ensures o.RecvWarning? <==> r.RecvFailed?
    // zero bytes: the server has gone, and nothing is displayed
    ensures o.PeerClosed? <==> r == Received([])
    // the received text "bye" is the server's request to end the session
    ensures o.ServerBye? <==> r.Received? && r.data != [] && Text(r.data) == BYE
    // anything else is displayed: the received bytes up to their first NUL
    ensures o.Message? ==> r.Received? && r.data != [] && o.text == Text(r.data) && o.text != BYE
    ensures RemoteVerdict(o) == Stop <==> r == Received([]) || (r.Received? && Text(r.data) == BYE)
  {
    match r
    case RecvFailed(_) => RecvWarning
    case Received(data) =>
      if data == [] then PeerClosed
      else if Text(data) == BYE then ServerBye
      else Message(Text(data))
  }

  /**
   * inbuf after the handler: a non-empty receive has put its bytes at the front
   * and the handler a NUL right behind them; every other result leaves it alone.
   */
  function InbufAfter(r: RecvResult, inbuf: seq<char>): (b: seq<char>)
    requires TerminatorFits(r, |inbuf|)
    ensures |b| == |inbuf|
    ensures r.Received? && r.data != [] ==>
              b[..|r.data| + 1] == r.data + [NUL] &&
              b[|r.data| + 1..] == inbuf[|r.data| + 1..] &&
              NUL in b && CStr(b) == Text(r.data)
    ensures !(r.Received? && r.data != []) ==> b == inbuf
  {
    if r.Received? && r.data != [] then
      var n := |r.data|;
      var b := r.data + [NUL] + inbuf[n + 1..];
      assert b[..n + 1] == r.data + [NUL];
      CStrOfPrefix(b, n + 1);
      b
    else
      inbuf
  }
}
