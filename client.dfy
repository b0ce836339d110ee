/**
 * The chat client's process state and the imperative parts of main: the
 * username prompt, the receive handler's in-place terminator, and the event
 * loop. The global buffers of the source are the arrays of a ChatClient; the
 * SIGINT flag is its `running` field; `log` records what the client does that
 * can be seen from outside.
 */
module Client {
  import opened Wrappers
  import opened Protocol
  import opened LocalInput
  import opened RemoteInput
  import opened Username
  import opened EventLoop

  /** The port numbers the client accepts. */
  predicate PortInRange(port: int)
  {
    1024 <= port <= 65535
  }

  datatype SessionEnd =
    | PortRejected
    | NameFailed(outcome: NameOutcome)
    | BootstrapFailed
    | LoopEnded(end: LoopEnd)

  class ChatClient {
    const bufLen: nat
    const maxMsgLen: nat
    const maxNameLen: nat
    const inbuf: array<char>    // BUFLEN + 1 chars
    const outbuf: array<char>   // MAX_MSG_LEN + 1 chars
    const username: array<char> // MAX_NAME_LEN + 1 chars
    var running: bool
    var log: seq<Event>

    ghost predicate Valid()
    {
      inbuf.Length == bufLen + 1 &&
      outbuf.Length == maxMsgLen + 1 &&
      username.Length == maxNameLen + 1 &&
      inbuf != outbuf && inbuf != username && outbuf != username
    }

    /** The process at start-up: zeroed buffers, `running` set, nothing done yet. */
    constructor (bufLen: nat, maxMsgLen: nat, maxNameLen: nat)
      ensures Valid() && running && log == []
      ensures this.bufLen == bufLen && this.maxMsgLen == maxMsgLen && this.maxNameLen == maxNameLen
      ensures fresh(inbuf) && fresh(outbuf) && fresh(username)
      ensures forall k :: 0 <= k < inbuf.Length ==> inbuf[k] == NUL
      ensures forall k :: 0 <= k < outbuf.Length ==> outbuf[k] == NUL
      ensures forall k :: 0 <= k < username.Length ==> username[k] == NUL
    {
      this.bufLen, this.maxMsgLen, this.maxNameLen := bufLen, maxMsgLen, maxNameLen;
      inbuf := new char[bufLen + 1](_ => NUL);
      outbuf := new char[maxMsgLen + 1](_ => NUL);
      username := new char[maxNameLen + 1](_ => NUL);
      running := true;
      log := [];
    }

    /**
     * handle_client_socket: the receive puts its bytes at the front of inbuf, then
     * the handler terminates them in place and decides.
     */
    method HandleClientSocket(r: RecvResult) returns (o: RemoteOutcome)
      requires Valid() && TerminatorFits(r, inbuf.Length)
      modifies inbuf
      ensures o == RemoteStep(r)
      ensures inbuf[..] == InbufAfter(r, old(inbuf[..]))
    {
      if r.Received? {
        forall k | 0 <= k < |r.data| {
          inbuf[k] := r.data[k];
        }
      }
      if r.RecvFailed? {
        o := RecvWarning;
      } else if r.data == [] {
        o := PeerClosed;
      } else {
        var n := |r.data|;
        inbuf[n] := NUL;
        assert inbuf[..] == InbufAfter(r, old(inbuf[..]));
        if CStr(inbuf[..]) == BYE {
          o := ServerBye;
        } else {
          o := Message(CStr(inbuf[..]));
        }
      }
    }

    /**
     * The character loop of the username prompt: read characters into outbuf up
     * to and including the newline, then overwrite the newline with a NUL.
     */
    method ReadLineIntoOutbuf(input: seq<ReadResult>, start: nat) returns (r: LineRead)
      requires Valid() && start <= |input|
      requires !ReadLine(input, start, 0, outbuf.Length).Exhausted?
      requires !ReadLine(input, start, 0, outbuf.Length).Overrun?
      modifies outbuf
      ensures r == ReadLine(input, start, 0, outbuf.Length)
      ensures r.Line? ==> outbuf[..|r.chars| + 1] == r.chars + [NUL]
      ensures r.Line? ==> outbuf[|r.chars| + 1..] == old(outbuf[|r.chars| + 1..])
    {
      var capacity := outbuf.Length;
      var pos := start;
      var index := 0;
      while true
        invariant start <= pos <= |input| && index == pos - start && index <= capacity
        invariant outbuf[index..] == old(outbuf[index..])
        invariant ReadLine(input, start, 0, capacity) == Prefixed(outbuf[..index], ReadLine(input, pos, index, capacity))
        invariant !ReadLine(input, pos, index, capacity).Exhausted? && !ReadLine(input, pos, index, capacity).Overrun?
        decreases |input| - pos
      {
        var result := input[pos];
        ghost var rest := ReadLine(input, pos, index, capacity);
        pos := pos + 1;
        if result.ReadFailed? && !result.interrupted {
          return LineFailed(false);
        }
        if result.ReadFailed? {
          return LineFailed(true);
        }
        ghost var stored := outbuf[..index];
        outbuf[index] := result.c;
        index := index + 1;
        assert outbuf[..index] == stored + [result.c];
        if result.c == '\n' {
          assert rest == Line([], pos);
          break;
        }
        assert rest == Prefixed([result.c], ReadLine(input, pos, index, capacity));
        PrefixedTwice(stored, [result.c], ReadLine(input, pos, index, capacity));
      }
      var chars := outbuf[..index - 1];
      assert outbuf[..index] == chars + ['\n'];
      outbuf[index - 1] := NUL;
      assert outbuf[..index] == chars + [NUL];
      r := Line(chars, pos);
    }

    /**
     * The username prompt: read a line into outbuf, keep its string as the
     * username if it is short enough, and repeat while the username is empty.
     */
    method ReadUsername(input: seq<ReadResult>, tty: bool) returns (o: NameOutcome)
      requires Valid()
      requires !Capture(input, 0, tty, maxNameLen, outbuf.Length).Undefined?
      modifies outbuf, username
      ensures o == Capture(input, 0, tty, maxNameLen, outbuf.Length)
      ensures o.Accepted? ==> NUL in username[..] && CStr(username[..]) == o.name
    {
      var capacity := outbuf.Length;
      username[0] := NUL;
      assert username[..][0] == NUL;
      var pos := 0;
      while StrLen(username[..]) == 0
        invariant pos <= |input| && NUL in username[..]
        invariant StrLen(username[..]) == 0 ==>
                    Capture(input, 0, tty, maxNameLen, capacity) == Capture(input, pos, tty, maxNameLen, capacity)
        invariant StrLen(username[..]) != 0 ==>
                    Capture(input, 0, tty, maxNameLen, capacity) == Accepted(CStr(username[..]))
        decreases |input| - pos
      {
        var line := ReadLineIntoOutbuf(input, pos);
        if line.LineFailed? {
          return if line.interrupted then Interrupted else ReadError;
        }
        LineDecides(input, pos, tty, maxNameLen, capacity);
        pos := line.next;
        var fits := CopyName(line.chars);
        if !fits && !tty {
          return NameTooLong;
        }
      }
      o := Accepted(CStr(username[..]));
    }
  
    /**
     * The end of one pass of the username prompt, with outbuf holding the line
     * `chars` terminated: strcpy its string into username if it is short enough.
     */
    method CopyName(ghost chars: seq<char>) returns (fits: bool)
      requires Valid() && |chars| < outbuf.Length && outbuf[..|chars| + 1] == chars + [NUL]
      modifies username
      ensures fits <==> |Text(chars)| <= maxNameLen
      ensures fits ==> NUL in username[..] && CStr(username[..]) == Text(chars)
      ensures fits ==> username[|Text(chars)| + 1..] == old(username[|Text(chars)| + 1..])
      ensures !fits ==> username[..] == old(username[..])
    {
      CStrOfPrefix(outbuf[..], |chars| + 1);
      assert outbuf[..][..|chars| + 1] == chars + [NUL];
      assert CStr(outbuf[..]) == Text(chars);
      var n := StrLen(outbuf[..]);
      fits := n <= maxNameLen;
      if fits {
        ghost var name := CStr(outbuf[..]);
        forall k | 0 <= k <= n {
          username[k] := outbuf[k];
        }
        assert username[..][..n + 1] == name + [NUL];
        CStrOfTerminated(username[..], name);
      }
    }

    /**
     * One iteration of the `while (running)` loop, entered with `running` true:
     * select, then the stdin handler, then the socket handler, each only while
     * `running` still holds, closing the socket on a stop verdict.
     */
    method Iteration(s: Step) returns (stop: Option<StopReason>)
      requires Valid() && running && StepOk(s, maxMsgLen, inbuf.Length)
      modifies this`running, this`log, inbuf
      ensures var r := Iterate(s, maxMsgLen, old(inbuf[..]));
              log == old(log) + r.events && stop == r.stop && inbuf[..] == r.inbuf &&
              (stop.None? ==> running == r.running)
    {
      if s.signal == InSelect {
        running := false;
      }
      if s.selectFailed {
        log := log + [Close];
        return Some(SelectFailed);
      }
      ghost var local: seq<Event> := [];
      if running && s.stdinReady {
        var o := HandleStdin(s.status, s.line, maxMsgLen, s.sendOk);
        log := log + StdinEvents(o);
        local := StdinEvents(o);
        if o.verdict == Stop {
          log := log + [Close];
          AppendAssoc(old(log), local, [Close]);
          return Some(LocalEnd);
        }
      }
      assert log == old(log) + local;
      if s.signal == InStdinHandler {
        running := false;
      }
      stop := SocketHandlerPhase(s);
      AppendAssoc(old(log), local, SocketPhase(s, old(inbuf[..])).events);
    }

    /** The rest of an iteration: the socket handler, if it is ready and `running` still holds. */
    method SocketHandlerPhase(s: Step) returns (stop: Option<StopReason>)
      requires Valid() && TerminatorFits(s.recv, inbuf.Length)
      requires running == (s.signal == NoSignal || s.signal == InSocketHandler)
      modifies this`running, this`log, inbuf
      ensures var r := SocketPhase(s, old(inbuf[..]));
              log == old(log) + r.events && stop == r.stop && inbuf[..] == r.inbuf &&
              (stop.None? ==> running == r.running)
    {
      if running && s.socketReady {
        var o := HandleClientSocket(s.recv);
        log := log + RemoteEvents(o);
        if RemoteVerdict(o) == Stop {
          log := log + [Close];
          AppendAssoc(old(log), RemoteEvents(o), [Close]);
          return Some(if o.PeerClosed? then ConnectionLost else ServerShutdown);
        }
      }
      if s.signal == InSocketHandler {
        running := false;
      }
      stop := None;
    }

    /**
     * The `while (running)` loop over the inputs of successive iterations; it
     * ends Pending when they run out while the loop would go on.
     */
    method Run(steps: seq<Step>) returns (end: LoopEnd)
      requires Valid() && StepsOk(steps, maxMsgLen, inbuf.Length)
      modifies this`running, this`log, inbuf
      ensures var t := Loop(steps, old(running), maxMsgLen, old(inbuf[..]));
              log == old(log) + t.events && end == t.end && inbuf[..] == t.inbuf
    ensures end.Signalled? ==> !running
    ensures end.Pending? ==> running
    {
      var i := 0;
      ghost var done: seq<Event> := [];
      ghost var whole := Loop(steps, running, maxMsgLen, inbuf[..]);
      assert steps[i..] == steps;
      assert whole == Prepend(done, Loop(steps[i..], running, maxMsgLen, inbuf[..]));
      while running && i < |steps|
        invariant 0 <= i <= |steps| && inbuf.Length == |old(inbuf[..])|
        invariant StepsOk(steps[i..], maxMsgLen, inbuf.Length)
        invariant log == old(log) + done
        invariant whole == Prepend(done, Loop(steps[i..], running, maxMsgLen, inbuf[..]))
        decreases |steps| - i
      {
        var stop;
        stop, done := Advance(steps, i, old(log), done, whole);
        if stop.Some? {
          return Stopped(stop.value);
        }
        i := i + 1;
      }
      LoopFinishes(steps, i, running, maxMsgLen, inbuf[..], done, whole);
      end := if running then Pending else Signalled;
    }

    /** Iteration `i` of Run, with the bookkeeping that ties it to the rest of the run. */
    method Advance(steps: seq<Step>, i: nat, ghost start: seq<Event>, ghost done: seq<Event>, ghost whole: Trace)
      returns (stop: Option<StopReason>, ghost done': seq<Event>)
      requires Valid() && running && i < |steps| && StepsOk(steps[i..], maxMsgLen, inbuf.Length)
      requires log == start + done
      requires whole == Prepend(done, Loop(steps[i..], running, maxMsgLen, inbuf[..]))
      modifies this`running, this`log, inbuf
      ensures log == start + done'
      ensures stop.Some? ==> whole == Trace(done', Stopped(stop.value), inbuf[..])
      ensures stop.None? ==>
                StepsOk(steps[i + 1..], maxMsgLen, inbuf.Length) &&
                whole == Prepend(done', Loop(steps[i + 1..], running, maxMsgLen, inbuf[..]))
    {
      ghost var r := Iterate(steps[i], maxMsgLen, inbuf[..]);
      ghost var rest := Loop(steps[i + 1..], r.running, maxMsgLen, r.inbuf);
      LoopAdvance(steps, i, maxMsgLen, inbuf[..], done, whole);
      assert r.stop.None? ==> whole == Prepend(done + r.events, rest);
      assert r.stop.Some? ==> whole == Trace(done + r.events, Stopped(r.stop.value), r.inbuf);
      stop := Iteration(steps[i]);
      assert stop == r.stop && inbuf[..] == r.inbuf && log == start + done + r.events;
      done' := done + r.events;
      AppendAssoc(start, done, r.events);
    }

    /**
     * main from the port check on: reject a port out of range before anything
     * else, read the username, connect (the bootstrap's outcome is the input
     * `connected`), then run the loop.
     */
    method Session(port: int, tty: bool, nameInput: seq<ReadResult>, connected: bool, steps: seq<Step>)
      returns (end: SessionEnd)
      requires Valid()
      requires PortInRange(port) ==> !Capture(nameInput, 0, tty, maxNameLen, outbuf.Length).Undefined?
      requires StepsOk(steps, maxMsgLen, inbuf.Length)
      modifies this`running, this`log, inbuf, outbuf, username
      ensures !PortInRange(port) ==>
                end == PortRejected && log == old(log) && running == old(running) &&
                inbuf[..] == old(inbuf[..]) && outbuf[..] == old(outbuf[..]) && username[..] == old(username[..])
      ensures PortInRange(port) ==>
                var name := Capture(nameInput, 0, tty, maxNameLen, outbuf.Length);
                var t := Loop(steps, old(running), maxMsgLen, old(inbuf[..]));
                (name.Accepted? ==> NUL in username[..] && CStr(username[..]) == name.name) &&
                (!name.Accepted? ==>
                   end == NameFailed(name) && log == old(log) &&
                   running == old(running) && inbuf[..] == old(inbuf[..])) &&
                (name.Accepted? && !connected ==>
                   end == BootstrapFailed && log == old(log) + [Connect] &&
                   running == old(running) && inbuf[..] == old(inbuf[..])) &&
                (name.Accepted? && connected ==>
                   end == LoopEnded(t.end) && log == old(log) + [Connect] + t.events && inbuf[..] == t.inbuf &&
                   (t.end.Signalled? ==> !running) && (t.end.Pending? ==> running))
    {
      if !PortInRange(port) {
        return PortRejected;
      }
      var name := ReadUsername(nameInput, tty);
      if !name.Accepted? {
        return NameFailed(name);
      }
      log := log + [Connect];
      if !connected {
        return BootstrapFailed;
      }
      var e := Run(steps);
      end := LoopEnded(e);
    }
  }
}
