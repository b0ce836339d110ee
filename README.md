# Chat client core, modelled in Dafny

`chatclient.c` is a terminal chat client. It connects to a chat server,
sends a username, and then multiplexes two inputs in a `select` loop:
- lines typed by the user, which it sends to the server as NUL-terminated frames;
- messages from the server, which it terminates in place and displays.

`"bye"` in either direction ends the session. A SIGINT clears the `running`
flag, and the loop ends when it next checks that flag.

This project models the client's decision core. Every system call is
replaced by an abstract input value: what `recv`, `read`, `select` and
`send` return, what the line reader reports, and where a signal arrives.

- `Protocol`: C strings (`StrLen`, `CStr`) and the wire frame. A frame is the
  payload followed by one NUL (`Frame`); `Text` is what a receiver reads once it
  terminates a span.
- `LocalInput`: `handle_stdin` as a function from the line reader's status,
  buffer and send result to three things: an optional frame, a verdict
  (continue or stop), and an optional warning. The buffer has the
  `MAX_MSG_LEN + 1` cells of `outbuf`, so a sent frame never holds more.
- `RemoteInput`: `handle_client_socket` as a function from the receive result to
  its outcome, plus the effect of its in-place terminator on `inbuf`.
- `Username`: functions that specify the username prompt.
  - `ReadLine`: the character loop.
  - `Capture`: the prompt loop around it.
- `EventLoop`: one iteration of `while (running)` (`Iterate`) and a whole run
  (`Loop`) as functions of the per-iteration inputs, plus lemmas about them.
- `Client`: the class `ChatClient`. Its arrays are the global buffers `inbuf`,
  `outbuf` and `username`. Its `running` field is the signal flag. Its `log`
  records what the client does that can be seen from outside: connecting,
  sending a frame, displaying a message, writing a warning, closing the socket.
  Most methods are proved equal to a specification function above:
  - `HandleClientSocket`: the in-place terminator (`RemoteStep`, `InbufAfter`);
  - `ReadLineIntoOutbuf`, `ReadUsername`: the username prompt (`ReadLine`, `Capture`);
  - `Iteration`, `SocketHandlerPhase`, `Run`: the event loop (`Iterate`, `SocketPhase`, `Loop`).

  Two methods state their effect directly in their contracts:
  - `CopyName` (the strcpy of the username);
  - `Session` (`main` from the port check on), in terms of the functions above.

`BUFLEN`, `MAX_MSG_LEN` and `MAX_NAME_LEN` come from `util.h`, which is not part
of this model. They are the parameters `bufLen`, `maxMsgLen` and `maxNameLen` of
a `ChatClient`. The arrays have one more cell than each bound, as the
declarations at chatclient.c:13-15 have.

The source has three inputs on which its behaviour is undefined. The model
makes each one a precondition or a flagged outcome. It does not repair them:
- `recv` interrupted by a signal. `bytes_recvd` is -1 there, so the terminator write goes to `inbuf[-1]`.
- A receive that fills the whole `BUFLEN + 1` window. The terminator write then lands one past the end of `inbuf`.
- A username read that reaches end of input, or that overruns `outbuf`.

Two facts about the code that shape the model:
- A run that ends because `running` became false returns without closing the
  socket (chatclient.c:250-256), so a `Signalled` run has no `Close` event.
- `handle_stdin` has no length check of its own; the line reader's `TOO_LONG`
  (chatclient.c:35-39) is the only one.

## Model

| member | source | states |
|---|---|---|
| Protocol.StrLen | chatclient.c:26 | strlen: the result indexes a NUL of the buffer, and no earlier character is a NUL |
| Protocol.CStr | chatclient.c:41 | the string strcmp reads from a buffer has no NUL, and is the buffer's prefix just before its first NUL |
| Protocol.Text | chatclient.c:72-73 | the string read once a NUL is written right behind a received span is a NUL-free prefix of the span, cut at the span's first NUL if it has one |
| Protocol.Frame | chatclient.c:43 | the bytes sent for a payload are the payload, then one NUL, one byte longer than the payload |
| Protocol.SentBytesAreFrame | chatclient.c:43 | the `strlen(buf) + 1` bytes that send puts on the wire are exactly the frame of the buffer's string |
| Protocol.FrameRoundTrip | chatclient.c:72-73 | a NUL-free payload sent as a frame reads back as the same payload |
| Protocol.CStrOfTerminated | chatclient.c:158-160 | a buffer whose first NUL directly follows a NUL-free `s` holds the string `s` |
| Protocol.CStrOfPrefix | chatclient.c:72 | only the bytes up to the first NUL decide a buffer's string |
| LocalInput.HandleStdin | chatclient.c:15-58 | a frame is sent exactly for OK, and it is the buffer's string plus one NUL, of length strlen+1, so never more than the MAX_MSG_LEN + 1 cells of outbuf; the verdict is stop exactly on END_OF_FILE, on NO_INPUT with a non-empty buffer, and on OK with "bye"; the warning is MessageTooLong exactly on TOO_LONG, SendFailed exactly on OK whose send failed, and there is none otherwise |
| LocalInput.ByeIsSentAndStops | chatclient.c:41-47 | the line "bye" is sent as the four bytes b, y, e, NUL and stops the client, whether or not the send succeeds |
| RemoteInput.RemoteStep | chatclient.c:60-81 | a receive error warns and continues; zero bytes means the peer closed, nothing is displayed, and the loop stops; received text "bye" is a server shutdown and stops; any other text is displayed as the received bytes up to their first NUL, and the loop continues |
| RemoteInput.InbufAfter | chatclient.c:61-72 | after n > 0 bytes, inbuf holds those bytes, then a NUL at index n, and every later cell is unchanged, so its string is the received text; after an error or zero bytes, inbuf is unchanged |
| RemoteInput.TerminatorDefects | chatclient.c:61-72 | the terminator write leaves inbuf on an interrupted receive and on a receive that fills the window, and stays inside on one byte fewer |
| Username.ReadLine | chatclient.c:143-157 | a line read ends at the first newline, after which reading resumes; its characters are the input's characters before it, none of them a newline, and they fit the buffer together with the newline; the other outcomes are stated by ReadLineOutcomes |
| Username.ReadLineSkips | chatclient.c:143-156 | characters that fit and are not a newline are stored one by one, and the read goes on behind them |
| Username.ReadLineOutcomes | chatclient.c:143-157 | after a run of stored characters that are not a newline, the read ends with end of input, with a failed read (interrupted or not, as errno says), with an overrun when a further character has no room, or with the line of those characters at the newline; every input falls under one case |
| Username.LineAccepted | chatclient.c:143-161 | a line whose string has 1 to MAX_NAME_LEN characters, read within outbuf, is accepted as the username |
| Username.Capture | chatclient.c:128-171 | an accepted name has 1 to MAX_NAME_LEN characters, with no NUL and no newline; a too-long name is fatal only when the input is not a terminal; LineDecides and LineAccepted state how a complete line decides, CaptureEnds how an incomplete one ends the prompt |
| Username.CaptureEnds | chatclient.c:143-157 | a failed read ends the prompt with ReadError, or Interrupted when a signal interrupted it; the end of the input and a line that overruns outbuf give the two undefined outcomes; none of them accepts a name |
| Username.LineDecides | chatclient.c:159-170 | a line is accepted exactly when its string has 1 to MAX_NAME_LEN characters; an empty string, or a too-long one on a terminal, prompts again from the next line; a too-long one off a terminal is fatal |
| EventLoop.SocketPhase | chatclient.c:243-248 | specifies the socket handler's part of an iteration: SocketPhaseParts states its events, inbuf, `running` and stop |
| EventLoop.Iterate | chatclient.c:216-248 | specifies one iteration: SelectFailureEndsIteration states the select-failure exit, IterateParts its events, inbuf and `running`, StopVerdictEndsLoop its stop past select, IterateClosesOnStop and LocalBeforeRemote the order of its events |
| EventLoop.Loop | chatclient.c:216-250 | specifies a run of the loop; its own contract states only that inbuf keeps its length; LoopAdvance, LoopFinishes, SignalledLoopDoesNothing, LoopClosesOnce and LoopFramesFit state the rest |
| EventLoop.IterateParts | chatclient.c:228-248 | an iteration's events are those of handle_stdin's outcome when that handler runs, then those of handle_client_socket's outcome when that handler runs after a stdin handler that did not stop, then a close exactly when it stops; inbuf is as the socket handler leaves it when it runs and unchanged otherwise; an iteration that goes on leaves `running` false exactly when a signal arrived; a stop leaves no socket event |
| EventLoop.SocketPhaseParts | chatclient.c:243-248 | when the socket handler runs, the socket phase's events are those of its outcome, then a close exactly on a stop, which shows nothing; inbuf is as the handler leaves it; the stop is ConnectionLost for zero bytes and ServerShutdown for "bye"; without the handler nothing happens; `running` is then false exactly when a signal arrived |
| EventLoop.IterateClosesOnStop | chatclient.c:228-248 | an iteration closes the socket exactly when it stops, and the close is its last event |
| EventLoop.LoopClosesOnce | chatclient.c:216-250 | over a whole run the socket is closed at most once: exactly when the loop stops with failure, as its last event |
| EventLoop.IterateFramesFit | chatclient.c:216-248 | every frame an iteration sends has at most MAX_MSG_LEN + 1 bytes, the size of outbuf |
| EventLoop.LoopFramesFit | chatclient.c:216-250 | every frame sent over a whole run has at most MAX_MSG_LEN + 1 bytes |
| EventLoop.LocalBeforeRemote | chatclient.c:234-248 | a socket event is the last event of its iteration, so no stdin event follows one |
| EventLoop.SignalSkipsHandlers | chatclient.c:235-248 | a signal during select runs neither handler and changes nothing; a signal during the stdin handler runs no socket handler, so inbuf is unchanged, no socket event occurs and only the stdin handler can stop the iteration; either way `running` is false afterwards |
| EventLoop.SignalledLoopDoesNothing | chatclient.c:216 | a loop entered with `running` false does nothing and ends with success |
| EventLoop.SelectFailureEndsIteration | chatclient.c:228-232 | a select that fails other than by a signal closes the socket, and the iteration stops at once with SelectFailed, with no handler run and inbuf unchanged |
| EventLoop.StopVerdictEndsLoop | chatclient.c:235-248 | a stop verdict from the stdin handler ends the iteration as LocalEnd; one from the socket handler ends it as ConnectionLost or ServerShutdown; with neither, and no select failure, the iteration does not stop |
| EventLoop.LoopAdvance | chatclient.c:216-248 | a run entering an iteration with `running` set either stops in it, or continues with the following iterations from the state it leaves |
| EventLoop.LoopFinishes | chatclient.c:216 | a run that finds `running` false, or has no inputs left, adds nothing more |
| Client.ChatClient.constructor | chatclient.c:12-17 | the buffers have their declared sizes and are zeroed, `running` is set, and nothing has happened yet |
| Client.ChatClient.HandleClientSocket | chatclient.c:60-81 | returns the outcome RemoteStep gives for the receive, and leaves inbuf as InbufAfter says |
| Client.ChatClient.ReadLineIntoOutbuf | chatclient.c:143-158 | the character loop returns what ReadLine gives, and on a line leaves that line's characters, then a NUL, at the front of outbuf, with the cells behind them unchanged |
| Client.ChatClient.CopyName | chatclient.c:158-161 | the string in outbuf is copied into username exactly when it has at most MAX_NAME_LEN characters; after a copy the cells behind the copied string and its NUL are unchanged; a longer string leaves username unchanged |
| Client.ChatClient.ReadUsername | chatclient.c:128-171 | the prompt ends with the outcome Capture gives, and an accepted name is then the string in username |
| Client.ChatClient.Iteration | chatclient.c:216-248 | one pass of the loop body logs Iterate's events, returns its stop, leaves inbuf as Iterate says, and, if it does not stop, leaves `running` as Iterate says |
| Client.ChatClient.SocketHandlerPhase | chatclient.c:243-248 | the socket part of a pass logs SocketPhase's events and returns its stop, with the inbuf and `running` it gives |
| Client.ChatClient.Advance | chatclient.c:216-248 | one pass of the loop either ends the run Loop describes, or leaves the rest of it to the following passes |
| Client.ChatClient.Run | chatclient.c:216-250 | the loop logs the events of Loop on the inputs, ends as Loop ends, and leaves inbuf as Loop says; `running` is false after a Signalled end and true after a Pending one |
| Client.ChatClient.Session | chatclient.c:113-250 | a port outside [1024, 65535] is rejected before anything else happens: nothing is logged, `running` and every buffer are unchanged; a failed username prompt ends before connecting, with `running` and inbuf unchanged; an accepted name is the string in username; a failed bootstrap ends after connecting, with `running` and inbuf unchanged; otherwise the loop runs, and the log, inbuf and end are as Loop gives them, with `running` false after a Signalled end and true after a Pending one |

## Left out

- All real I/O and foreign calls are abstract inputs: `socket`, `connect`,
  `send`, `recv`, `read`, `select`, `isatty`, `inet_pton`, `printf`/`fprintf`.
  An iteration's inputs form a `Step`. The username prompt reads a sequence of
  `ReadResult`s. The `tty` flag stands for `isatty`.
- The prompts are not events, and neither are the messages that accompany a
  stop, whichever stream they go to: "Goodbye." (stdout), "Connection to server
  has been lost." (stderr), "Server initiated shutdown." (stdout). The stop
  reason and a remote outcome carry the same information. Warnings written
  to stderr without stopping are `Warn` events.
- Signal handling (`sigaction`, `catch_signal`, lines 19-21 and 118-125) is
  asynchronous. A `SignalPoint` stands for it: each iteration says whether a
  SIGINT arrives during select, during the stdin handler or during the socket
  handler. Signals during the username prompt count only as the EINTR read
  result.
- `get_string` and `parse_int` live in `util.h`, which is not part of this
  model. Only the line reader's status and buffer are inputs. The integer that
  `parse_int` yields is an input, and its failure is not modelled.
- Lines 83-111 are not modelled: the usage message, the argument count check, the IP address check and the call to `parse_int`.
- The bootstrap collapses into the boolean `connected` of `Session`: socket,
  connect, the greeting receive and its terminator, and sending the username
  (lines 173-209). The greeting is therefore not written into inbuf. Its
  receive asks for `MAX_MSG_LEN + 1` bytes into the `BUFLEN + 1` buffer, and the
  model does not examine whether that fits.
  A failed bootstrap logs only `Connect`. The source closes the socket when
  sending the username fails (line 207), and the model does not log that
  `Close`; the earlier failures (lines 176-195) return without closing it.
- Exit codes are not modelled. `Stopped` stands for the failure return, and
  `Signalled` for the success return after the loop.
- RemoteInput.RemoteStep: requires that the receive was not interrupted by a
  signal. On that input the source writes `inbuf[-1]`, so no outcome is defined.
- Client.ChatClient.HandleClientSocket: requires `TerminatorFits`. So does
  RemoteInput.InbufAfter. A receive of `BUFLEN + 1` bytes makes the source write
  one cell past inbuf, and an interrupted receive writes before it.
  `TerminatorDefects` exhibits both inputs.
- Username.Capture: returns `Undefined(EndOfInput)` where the source's loop
  meets end of input, because it never tests for `read` returning 0. It returns
  `Undefined(BufferOverrun)` where the line would not fit outbuf, because the
  source's index is unbounded. Client.ChatClient.ReadUsername requires that
  neither happens.
- Client.ChatClient.ReadLineIntoOutbuf: the source tests `errno == EINTR` even
  after a successful read (line 149). The model reads a stale EINTR as no
  EINTR: only a failed read can report an interruption.
- Client.ChatClient.Iteration: the stdin step passes the line reader's buffer
  as a value and does not write it into the outbuf array, because `get_string`
  is not modelled.
- Client.ChatClient.Run: runs over a finite list of iteration inputs. A run
  that would go on when they are used up ends `Pending`. The source loops until
  a stop or a signal.
- Client.ChatClient.Session: covers the port check, the username prompt and
  the loop, but not the bootstrap described above.
