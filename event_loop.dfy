/**
 * The `while (running)` loop of main, as functions of its inputs.
 *
 * Each iteration waits in select, then handles the local input if it is ready
 * and the client is still running, then the server's socket under the same two
 * conditions. A stop verdict from either handler closes the socket and leaves
 * the loop with failure. The loop ends with success when it finds `running`
 * false, which only the SIGINT handler makes it.
 */
module EventLoop {
  import opened Wrappers
  import opened Protocol
  import opened LocalInput
  import opened RemoteInput

  /** Where in an iteration a SIGINT arrives, if one does. */
  datatype SignalPoint =
    | NoSignal
    | InSelect        // before either handler is considered
    | InStdinHandler  // after the local input is considered, before the socket is
    | InSocketHandler // after both handlers are considered

  /**
   * What the outside world supplies to one iteration: whether select failed for
   * a reason other than EINTR, which descriptors it reports ready, what the line
   * reader returns and whether the send succeeds, and what recv returns.
   */
  datatype Step = Step(
    signal: SignalPoint,
    selectFailed: bool,
    stdinReady: bool,
    socketReady: bool,
    status: LineStatus,
    line: seq<char>,
    sendOk: bool,
    recv: RecvResult)

  /** What the client does that can be seen from outside. */
  datatype Event =
    | Connect           // the connection to the server is being set up
    | Send(frame: seq<char>)
    | Display(text: seq<char>)
    | Warn(warning: Warning)
    | Close

  datatype StopReason = SelectFailed | LocalEnd | ConnectionLost | ServerShutdown

  /** Stopped: closed and returned failure. Signalled: found running false. Pending: the inputs ran out. */
  datatype LoopEnd = Stopped(reason: StopReason) | Signalled | Pending

  /** One iteration: what it did, whether it stopped, `running` afterwards, inbuf afterwards. */
  datatype StepResult = StepResult(events: seq<Event>, stop: Option<StopReason>, running: bool, inbuf: seq<char>)

  /** A run of the loop: what it did, how it ended, inbuf at the end. */
  datatype Trace = Trace(events: seq<Event>, end: LoopEnd, inbuf: seq<char>)

  /** A trace with `evs` done before it. */
  function Prepend(evs: seq<Event>, t: Trace): Trace
  {
    Trace(evs + t.events, t.end, t.inbuf)
  }

  lemma PrependTwice(a: seq<Event>, b: seq<Event>, t: Trace)
    ensures Prepend(a, Prepend(b, t)) == Prepend(a + b, t)
  {
    assert a + (b + t.events) == (a + b) + t.events;
  }

  lemma AppendAssoc(a: seq<Event>, b: seq<Event>, c: seq<Event>)
    ensures a + b + c == a + (b + c)
  {
  }

  /**
   * The inputs of an iteration on which both handlers are defined, for outbuf
   * of `maxMsgLen + 1` chars and inbuf of `capacity` chars.
   */
  predicate StepOk(s: Step, maxMsgLen: nat, capacity: nat)
  {
    LineBuffer(s.status, s.line, maxMsgLen) && TerminatorFits(s.recv, capacity)
  }

  predicate StepsOk(steps: seq<Step>, maxMsgLen: nat, capacity: nat)
  {
    forall i :: 0 <= i < |steps| ==> StepOk(steps[i], maxMsgLen, capacity)
  }

  /** Events of the stdin handler. */
  predicate IsLocal(e: Event)
  {
    e.Send? || (e.Warn? && (e.warning.MessageTooLong? || e.warning.SendFailed?))
  }

  /** Events of the socket handler. */
  predicate IsRemote(e: Event)
  {
    e.Display? || (e.Warn? && e.warning.ReceiveFailed?)
  }

  /** The send handle_stdin attempts, then the warning it writes. */
  function StdinEvents(o: StdinOutcome): (evs: seq<Event>)
    requires o.warning != Some(ReceiveFailed)
    ensures forall k :: 0 <= k < |evs| ==> IsLocal(evs[k])
  {
    (if o.frame.Some? then [Send(o.frame.value)] else []) +
    (if o.warning.Some? then [Warn(o.warning.value)] else [])
  }

  /** The warning or the message handle_client_socket writes. */
  function RemoteEvents(o: RemoteOutcome): (evs: seq<Event>)
    ensures forall k :: 0 <= k < |evs| ==> IsRemote(evs[k])
  {
    match o
    case RecvWarning => [Warn(ReceiveFailed)]
    case Message(text) => [Display(text)]
    case _ => []
  }

  /** Whether the stdin handler runs in an iteration that got past select. */
  predicate StdinRuns(s: Step)
  {
    s.signal != InSelect && s.stdinReady
  }

  /** Whether the socket handler runs in an iteration that got past the stdin handler. */
  predicate SocketRuns(s: Step)
  {
    (s.signal == NoSignal || s.signal == InSocketHandler) && s.socketReady
  }

  /** The socket handler's part of an iteration: `running` is sampled, then the handler may run. */
  function SocketPhase(s: Step, inbuf: seq<char>): (r: StepResult)
    requires TerminatorFits(s.recv, |inbuf|)
    ensures |r.inbuf| == |inbuf|
  {
    if !SocketRuns(s) then
      StepResult([], None, s.signal == NoSignal, inbuf)
    else
      var o := RemoteStep(s.recv);
      var after := InbufAfter(s.recv, inbuf);
      if o.PeerClosed? then
        StepResult(RemoteEvents(o) + [Close], Some(ConnectionLost), s.signal == NoSignal, after)
      else if o.ServerBye? then
        StepResult(RemoteEvents(o) + [Close], Some(ServerShutdown), s.signal == NoSignal, after)
      else
        StepResult(RemoteEvents(o), None, s.signal == NoSignal, after)
  }

  /** One iteration of the loop body, entered with `running` true. */
  function Iterate(s: Step, maxMsgLen: nat, inbuf: seq<char>): (r: StepResult)
    requires StepOk(s, maxMsgLen, |inbuf|)
    ensures |r.inbuf| == |inbuf|
  {
    if s.selectFailed then
      StepResult([Close], Some(SelectFailed), true, inbuf)
    else if !StdinRuns(s) then
      SocketPhase(s, inbuf)
    else
      var o := HandleStdin(s.status, s.line, maxMsgLen, s.sendOk);
      if o.verdict == Stop then
        StepResult(StdinEvents(o) + [Close], Some(LocalEnd), s.signal == NoSignal, inbuf)
      else
        var rest := SocketPhase(s, inbuf);
        StepResult(StdinEvents(o) + rest.events, rest.stop, rest.running, rest.inbuf)
  }

  /** The loop run on successive iterations' inputs, starting with the given `running`. */
  function Loop(steps: seq<Step>, running: bool, maxMsgLen: nat, inbuf: seq<char>): (t: Trace)
    requires StepsOk(steps, maxMsgLen, |inbuf|)
    ensures |t.inbuf| == |inbuf|
    decreases |steps|
  {
    if !running then Trace([], Signalled, inbuf)
    else if steps == [] then Trace([], Pending, inbuf)
    else
      var r := Iterate(steps[0], maxMsgLen, inbuf);
      if r.stop.Some? then Trace(r.events, Stopped(r.stop.value), r.inbuf)
      else
        var rest := Loop(steps[1..], r.running, maxMsgLen, r.inbuf);
        Trace(r.events + rest.events, rest.end, rest.inbuf)
  }

  /** `Close` is in `evs` exactly when `closed`, and then only as the last event. */
  predicate ClosedOnceAtEnd(evs: seq<Event>, closed: bool)
  {
    (Close in evs <==> closed) &&
    (closed ==> evs[|evs| - 1] == Close && Close !in evs[..|evs| - 1])
  }

  lemma ClosedOnceAtEndAppend(a: seq<Event>, b: seq<Event>, closed: bool)
    requires ClosedOnceAtEnd(a, false) && ClosedOnceAtEnd(b, closed)
    ensures ClosedOnceAtEnd(a + b, closed)
  {
    if closed {
      assert (a + b)[..|a + b| - 1] == a + b[..|b| - 1];
    }
  }

  /** The inputs from iteration `i` on are the inputs of iteration `i` and those after it. */
  lemma StepsOkTail(steps: seq<Step>, i: nat, maxMsgLen: nat, capacity: nat)
    requires i < |steps| && StepsOk(steps[i..], maxMsgLen, capacity)
    ensures StepOk(steps[i], maxMsgLen, capacity) && StepsOk(steps[i + 1..], maxMsgLen, capacity)
  {
    assert steps[i] == steps[i..][0];
    var tail := steps[i + 1..];
    forall j | 0 <= j < |tail| ensures StepOk(tail[j], maxMsgLen, capacity) {
      assert tail[j] == steps[i..][j + 1];
    }
  }

  /**
   * A run that has done `done` and is about to enter iteration `i` with
   * `running` true: that iteration either ends it or leaves the rest to do.
   */
  lemma {:induction false} LoopAdvance(steps: seq<Step>, i: nat, maxMsgLen: nat, inbuf: seq<char>, done: seq<Event>, whole: Trace)
    requires i < |steps| && StepsOk(steps[i..], maxMsgLen, |inbuf|)
    requires whole == Prepend(done, Loop(steps[i..], true, maxMsgLen, inbuf))
    ensures StepOk(steps[i], maxMsgLen, |inbuf|) && StepsOk(steps[i + 1..], maxMsgLen, |inbuf|)
    ensures var r := Iterate(steps[i], maxMsgLen, inbuf);
            (r.stop.Some? ==> whole == Trace(done + r.events, Stopped(r.stop.value), r.inbuf)) &&
            (r.stop.None? ==> whole == Prepend(done + r.events, Loop(steps[i + 1..], r.running, maxMsgLen, r.inbuf)))
  {
    assert steps[i..][0] == steps[i] && steps[i..][1..] == steps[i + 1..];
    StepsOkTail(steps, i, maxMsgLen, |inbuf|);
    var r := Iterate(steps[i], maxMsgLen, inbuf);
    if r.stop.None? {
      PrependTwice(done, r.events, Loop(steps[i + 1..], r.running, maxMsgLen, r.inbuf));
    }
  }

  /** The end of a run: the inputs ran out, or `running` was found false. */
  lemma LoopFinishes(steps: seq<Step>, i: nat, running: bool, maxMsgLen: nat, inbuf: seq<char>, done: seq<Event>, whole: Trace)
    requires i <= |steps| && StepsOk(steps[i..], maxMsgLen, |inbuf|)
    requires whole == Prepend(done, Loop(steps[i..], running, maxMsgLen, inbuf))
    requires !running || i == |steps|
    ensures whole == Trace(done, if running then Pending else Signalled, inbuf)
  {
    assert done + [] == done;
  }

  /**
   * The socket phase: when the handler runs, its events, then a close if it
   * stops (a stop shows nothing), with inbuf as the handler leaves it and the
   * stop reason its outcome gives; otherwise nothing happens. Either way
   * `running` is then false exactly when a signal has arrived.
   */
  lemma SocketPhaseParts(s: Step, inbuf: seq<char>) returns (remote: seq<Event>)
    requires TerminatorFits(s.recv, |inbuf|)
    ensures remote == (if SocketRuns(s) then RemoteEvents(RemoteStep(s.recv)) else [])
    ensures forall k :: 0 <= k < |remote| ==> IsRemote(remote[k])
    ensures var r := SocketPhase(s, inbuf);
            r.events == remote + (if r.stop.Some? then [Close] else []) &&
            |remote| <= 1 && (r.stop.Some? ==> remote == [])
    ensures var r := SocketPhase(s, inbuf);
            var o := RemoteStep(s.recv);
            r.inbuf == (if SocketRuns(s) then InbufAfter(s.recv, inbuf) else inbuf) &&
            r.running == (s.signal == NoSignal) &&
            r.stop == (if SocketRuns(s) && o.PeerClosed? then Some(ConnectionLost)
                       else if SocketRuns(s) && o.ServerBye? then Some(ServerShutdown)
                       else None)
  {
    remote := if SocketRuns(s) then RemoteEvents(RemoteStep(s.recv)) else [];
  }

  /**
   * An iteration's events: what the stdin handler decides, if it runs; then
   * what the socket handler decides, if it runs after a stdin handler that did
   * not stop; then a close exactly when the iteration stops. Only the socket
   * handler touches inbuf, and an iteration that goes on leaves `running`
   * false exactly when a signal has arrived.
   */
  lemma IterateParts(s: Step, maxMsgLen: nat, inbuf: seq<char>) returns (local: seq<Event>, remote: seq<Event>)
    requires StepOk(s, maxMsgLen, |inbuf|)
    ensures var stdinRuns := !s.selectFailed && StdinRuns(s);
            local == (if stdinRuns then StdinEvents(HandleStdin(s.status, s.line, maxMsgLen, s.sendOk)) else [])
    ensures var stdinStops := !s.selectFailed && StdinRuns(s) &&
                              HandleStdin(s.status, s.line, maxMsgLen, s.sendOk).verdict == Stop;
            var socketRuns := !s.selectFailed && !stdinStops && SocketRuns(s);
            var r := Iterate(s, maxMsgLen, inbuf);
            remote == (if socketRuns then RemoteEvents(RemoteStep(s.recv)) else []) &&
            r.inbuf == (if socketRuns then InbufAfter(s.recv, inbuf) else inbuf) &&
            (r.stop.None? ==> r.running == (s.signal == NoSignal))
    ensures forall k :: 0 <= k < |local| ==> IsLocal(local[k])
    ensures forall k :: 0 <= k < |remote| ==> IsRemote(remote[k])
    ensures var r := Iterate(s, maxMsgLen, inbuf);
            r.events == local + remote + (if r.stop.Some? then [Close] else []) &&
            |remote| <= 1 && (r.stop.Some? ==> remote == [])
  {
    var r := Iterate(s, maxMsgLen, inbuf);
    local, remote := [], [];
    if s.selectFailed {
    } else if !StdinRuns(s) {
      assert r == SocketPhase(s, inbuf);
      remote := SocketPhaseParts(s, inbuf);
    } else {
      var o := HandleStdin(s.status, s.line, maxMsgLen, s.sendOk);
      local := StdinEvents(o);
      if o.verdict == Stop {
        assert r.events == local + [Close] && r.stop.Some?;
      } else {
        var rest := SocketPhase(s, inbuf);
        assert r.events == local + rest.events && r.stop == rest.stop;
        remote := SocketPhaseParts(s, inbuf);
        var closing := if rest.stop.Some? then [Close] else [];
        assert local + (remote + closing) == local + remote + closing;
      }
    }
  }

  /** IterateParts with only the kinds of the parts and where the close goes. */
  lemma IterateShape(s: Step, maxMsgLen: nat, inbuf: seq<char>) returns (local: seq<Event>, remote: seq<Event>)
    requires StepOk(s, maxMsgLen, |inbuf|)
    ensures forall k :: 0 <= k < |local| ==> IsLocal(local[k])
    ensures forall k :: 0 <= k < |remote| ==> IsRemote(remote[k])
    ensures var r := Iterate(s, maxMsgLen, inbuf);
            r.events == local + remote + (if r.stop.Some? then [Close] else []) &&
            |remote| <= 1 && (r.stop.Some? ==> remote == [])
  {
    local, remote := IterateParts(s, maxMsgLen, inbuf);
  }

  /** An iteration closes the socket exactly when it stops, and closing is the last thing it does. */
  lemma IterateClosesOnStop(s: Step, maxMsgLen: nat, inbuf: seq<char>)
    requires StepOk(s, maxMsgLen, |inbuf|)
    ensures var r := Iterate(s, maxMsgLen, inbuf);
            ClosedOnceAtEnd(r.events, r.stop.Some?)
  {
    var r := Iterate(s, maxMsgLen, inbuf);
    var local, remote := IterateShape(s, maxMsgLen, inbuf);
    assert Close !in local + remote by {
      forall k | 0 <= k < |local + remote| ensures (local + remote)[k] != Close {
        if k >= |local| {
          assert (local + remote)[k] == remote[k - |local|];
        }
      }
    }
    if r.stop.Some? {
      assert r.events[..|r.events| - 1] == local + remote;
    }
  }

  /**
   * Over a whole run the socket is closed at most once: exactly when the loop
   * stops, as its last action, so the connection is never used after it.
   */
  lemma {:induction false} LoopClosesOnce(steps: seq<Step>, running: bool, maxMsgLen: nat, inbuf: seq<char>)
    requires StepsOk(steps, maxMsgLen, |inbuf|)
    ensures var t := Loop(steps, running, maxMsgLen, inbuf);
            ClosedOnceAtEnd(t.events, t.end.Stopped?)
    decreases |steps|
  {
    if running && steps != [] {
      var r := Iterate(steps[0], maxMsgLen, inbuf);
      IterateClosesOnStop(steps[0], maxMsgLen, inbuf);
      if r.stop.None? {
        assert StepsOk(steps[1..], maxMsgLen, |r.inbuf|) by {
          forall i | 0 <= i < |steps[1..]| ensures StepOk(steps[1..][i], maxMsgLen, |r.inbuf|) {
            assert steps[1..][i] == steps[i + 1];
          }
        }
        LoopClosesOnce(steps[1..], r.running, maxMsgLen, r.inbuf);
        var rest := Loop(steps[1..], r.running, maxMsgLen, r.inbuf);
        ClosedOnceAtEndAppend(r.events, rest.events, rest.end.Stopped?);
      }
    }
  }

  /** Every frame sent in `evs` fits outbuf: at most `maxMsgLen` characters and the NUL. */
  predicate FramesFit(evs: seq<Event>, maxMsgLen: nat)
  {
    forall k :: 0 <= k < |evs| && evs[k].Send? ==> |evs[k].frame| <= maxMsgLen + 1
  }

  lemma FramesFitAppend(a: seq<Event>, b: seq<Event>, maxMsgLen: nat)
    requires FramesFit(a, maxMsgLen) && FramesFit(b, maxMsgLen)
    ensures FramesFit(a + b, maxMsgLen)
  {
    forall k | 0 <= k < |a + b| && (a + b)[k].Send? ensures |(a + b)[k].frame| <= maxMsgLen + 1 {
      if k >= |a| {
        assert (a + b)[k] == b[k - |a|];
      }
    }
  }

  /** An iteration sends only frames that fit outbuf. */
  lemma IterateFramesFit(s: Step, maxMsgLen: nat, inbuf: seq<char>)
    requires StepOk(s, maxMsgLen, |inbuf|)
    ensures FramesFit(Iterate(s, maxMsgLen, inbuf).events, maxMsgLen)
  {
    var r := Iterate(s, maxMsgLen, inbuf);
    var local, remote := IterateParts(s, maxMsgLen, inbuf);
    assert FramesFit(remote, maxMsgLen);
    FramesFitAppend(local, remote, maxMsgLen);
    FramesFitAppend(local + remote, if r.stop.Some? then [Close] else [], maxMsgLen);
  }

  /** Over a whole run every frame sent fits outbuf, so no message longer than MAX_MSG_LEN reaches the server. */
  lemma {:induction false} LoopFramesFit(steps: seq<Step>, running: bool, maxMsgLen: nat, inbuf: seq<char>)
    requires StepsOk(steps, maxMsgLen, |inbuf|)
    ensures FramesFit(Loop(steps, running, maxMsgLen, inbuf).events, maxMsgLen)
    decreases |steps|
  {
    if running && steps != [] {
      var r := Iterate(steps[0], maxMsgLen, inbuf);
      IterateFramesFit(steps[0], maxMsgLen, inbuf);
      if r.stop.None? {
        assert StepsOk(steps[1..], maxMsgLen, |r.inbuf|) by {
          forall i | 0 <= i < |steps[1..]| ensures StepOk(steps[1..][i], maxMsgLen, |r.inbuf|) {
            assert steps[1..][i] == steps[i + 1];
          }
        }
        LoopFramesFit(steps[1..], r.running, maxMsgLen, r.inbuf);
        FramesFitAppend(r.events, Loop(steps[1..], r.running, maxMsgLen, r.inbuf).events, maxMsgLen);
      }
    }
  }

  /**
   * Within an iteration a socket event is the last thing that happens (a stop
   * from the socket handler displays nothing), so every stdin event comes
   * before it.
   */
  lemma LocalBeforeRemote(s: Step, maxMsgLen: nat, inbuf: seq<char>)
    requires StepOk(s, maxMsgLen, |inbuf|)
    ensures var evs := Iterate(s, maxMsgLen, inbuf).events;
            (forall j :: 0 <= j < |evs| && IsRemote(evs[j]) ==> j == |evs| - 1) &&
            (forall j, k :: 0 <= j < k < |evs| && IsRemote(evs[j]) ==> !IsLocal(evs[k]))
  {
    var evs := Iterate(s, maxMsgLen, inbuf).events;
    var local, remote := IterateShape(s, maxMsgLen, inbuf);
    assert forall j :: 0 <= j < |local| ==> evs[j] == local[j];
  }

  /**
   * A handler runs only while `running` holds: a signal during select skips both,
   * a signal during the stdin handler skips the socket, and the next check of
   * `running` ends the loop with success.
   */
  lemma SignalSkipsHandlers(s: Step, maxMsgLen: nat, inbuf: seq<char>)
    requires StepOk(s, maxMsgLen, |inbuf|) && !s.selectFailed && s.signal != NoSignal
    ensures var r := Iterate(s, maxMsgLen, inbuf);
            !r.running &&
            (s.signal == InSelect ==> r == StepResult([], None, false, inbuf)) &&
            (s.signal == InStdinHandler ==>
               r.inbuf == inbuf && (r.stop.Some? ==> r.stop == Some(LocalEnd)) &&
               forall k :: 0 <= k < |r.events| ==> !IsRemote(r.events[k]))
  {
    if s.signal == InSelect {
      assert !StdinRuns(s) && !SocketRuns(s);
      assert Iterate(s, maxMsgLen, inbuf) == SocketPhase(s, inbuf);
    } else if s.signal == InStdinHandler {
      assert !SocketRuns(s);
      var evs := Iterate(s, maxMsgLen, inbuf).events;
      var local, remote := IterateParts(s, maxMsgLen, inbuf);
      assert forall k :: 0 <= k < |local| ==> evs[k] == local[k];
    }
  }

  /** A signal before an iteration's check of `running` ends the loop at once, with nothing done. */
  lemma SignalledLoopDoesNothing(steps: seq<Step>, maxMsgLen: nat, inbuf: seq<char>)
    requires StepsOk(steps, maxMsgLen, |inbuf|)
    ensures Loop(steps, false, maxMsgLen, inbuf) == Trace([], Signalled, inbuf)
  {
  }

  /** A select that fails other than by a signal closes the socket and ends the loop with failure at once. */
  lemma SelectFailureEndsIteration(s: Step, maxMsgLen: nat, inbuf: seq<char>)
    requires StepOk(s, maxMsgLen, |inbuf|) && s.selectFailed
    ensures Iterate(s, maxMsgLen, inbuf) == StepResult([Close], Some(SelectFailed), true, inbuf)
  {
  }

  /**
   * A stop verdict from either handler closes the socket and ends the loop with
   * failure; the reason names the handler that gave it.
   */
  lemma StopVerdictEndsLoop(s: Step, maxMsgLen: nat, inbuf: seq<char>)
    requires StepOk(s, maxMsgLen, |inbuf|) && !s.selectFailed
    ensures var r := Iterate(s, maxMsgLen, inbuf);
            var stdinStops := StdinRuns(s) && HandleStdin(s.status, s.line, maxMsgLen, s.sendOk).verdict == Stop;
            var socketStops := !stdinStops && SocketRuns(s) && RemoteVerdict(RemoteStep(s.recv)) == Stop;
            (stdinStops ==> r.stop == Some(LocalEnd)) &&
            (socketStops && s.recv == Received([]) ==> r.stop == Some(ConnectionLost)) &&
            (socketStops && s.recv != Received([]) ==> r.stop == Some(ServerShutdown)) &&
            (r.stop.Some? <==> stdinStops || socketStops)
  {
  }
}
