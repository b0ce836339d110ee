/**
 * handle_stdin: what the client does with one line read from its input.
 *
 * The line reader (get_string) is not modelled; its status and the buffer it
 * leaves behind are the inputs, and so is whether the one send succeeds.
 */
module LocalInput {
  import opened Wrappers
  import opened Protocol

  /** The statuses the line reader reports. */
  datatype LineStatus = NoInput | EndOfFile | TooLong | Ok

  /** The three things handle_stdin decides: what it sends, whether the loop goes on, what it warns. */
  datatype StdinOutcome = StdinOutcome(frame: Option<seq<char>>, verdict: Verdict, warning: Option<Warning>)

  /**
   * handle_stdin measures the buffer with strlen only after NO_INPUT and OK,
   * so only then must the buffer the line reader left hold a NUL.
   */
  predicate Measurable(status: LineStatus, outbuf: seq<char>)
  {
    (status == NoInput || status == Ok) ==> NUL in outbuf
  }

  /** The buffer the line reader fills: outbuf, of `maxMsgLen + 1` chars, as handle_stdin may read it. */
  predicate LineBuffer(status: LineStatus, outbuf: seq<char>, maxMsgLen: nat)
  {
    |outbuf| == maxMsgLen + 1 && Measurable(status, outbuf)
  }

  /** One call of handle_stdin on the line reader's status and buffer; `sendOk` is the result of send. */
  function HandleStdin(status: LineStatus, outbuf: seq<char>, maxMsgLen: nat, sendOk: bool): (r: StdinOutcome)
    requires LineBuffer(status, outbuf, maxMsgLen)
    // a frame goes out exactly for a complete line, and it is the buffer's string and one NUL
    ensures r.frame.Some? <==> status == Ok
    ensures status == Ok ==>
              r.frame == Some(Frame(CStr(outbuf))) &&
              r.frame.value == outbuf[..StrLen(outbuf) + 1] &&
              |r.frame.value| == StrLen(outbuf) + 1
    // the session ends on end of input, on a non-empty buffer without a line, and on "bye"
    ensures r.verdict == Stop <==>
              status == EndOfFile ||
              (status == NoInput && StrLen(outbuf) != 0) ||
              (status == Ok && CStr(outbuf) == BYE)
    // a warning for an over-long line, and for a send that failed; none otherwise
    // a frame never holds more than outbuf: at most maxMsgLen characters and the NUL
    ensures r.frame.Some? ==> |r.frame.value| <= maxMsgLen + 1
    ensures r.warning.Some? <==> status == TooLong || (status == Ok && !sendOk)
    ensures status == TooLong ==> r.warning == Some(MessageTooLong(maxMsgLen))
    ensures status == Ok && !sendOk ==> r.warning == Some(SendFailed(CStr(outbuf)))
  {
    if status == NoInput && StrLen(outbuf) != 0 then
      StdinOutcome(None, Stop, None)
    else if status == EndOfFile then
      StdinOutcome(None, Stop, None)
    else if status == NoInput then
      StdinOutcome(None, Continue, None)
    else if status == TooLong then
      StdinOutcome(None, Continue, Some(MessageTooLong(maxMsgLen)))
    else
      var line := CStr(outbuf);
      var sent := outbuf[..StrLen(outbuf) + 1];
      SentBytesAreFrame(outbuf);
      var warning := if sendOk then None else Some(SendFailed(line));
      if line == BYE then
        StdinOutcome(Some(sent), Stop, warning)
      else
        StdinOutcome(Some(sent), Continue, warning)
  }

  /** A line "bye" goes out as the four bytes b, y, e, NUL and stops the client, however the send ends. */
  lemma ByeIsSentAndStops(outbuf: seq<char>, maxMsgLen: nat, sendOk: bool)
    requires |outbuf| == maxMsgLen + 1 && NUL in outbuf && CStr(outbuf) == BYE
    ensures HandleStdin(Ok, outbuf, maxMsgLen, sendOk).frame == Some(['b', 'y', 'e', NUL])
    ensures HandleStdin(Ok, outbuf, maxMsgLen, sendOk).verdict == Stop
  {
    assert Frame(BYE) == ['b', 'y', 'e', NUL];
  }
}
