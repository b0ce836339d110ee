/**
 * The username prompt at the start of main: characters are read one at a time
 * into outbuf up to and including a newline, the newline is overwritten by a NUL,
 * and the resulting string becomes the username when it is short enough. The
 * prompt repeats while the username is empty.
 *
 * These functions say what the read loop computes; the method that runs it on
 * the client's buffers is ChatClient.ReadUsername.
 */
module Username {
  import opened Protocol

  /** One `read(STDIN_FILENO, &c, 1)`: a character, or -1 with errno EINTR or not. */
  datatype ReadResult = Char(c: char) | ReadFailed(interrupted: bool)

  /** How reading one line into outbuf ends. */
  datatype LineRead =
    | Line(chars: seq<char>, next: nat) // the characters before the newline; the position after it
    | LineFailed(interrupted: bool)
    | Exhausted                         // the input ends first: read() would return 0
    | Overrun                           // the next character would be stored past the end of outbuf

  /**
   * The character loop from position `pos` of the input, with `stored`
   * characters of the line already in a buffer of `capacity` characters.
   */
  function ReadLine(input: seq<ReadResult>, pos: nat, stored: nat, capacity: nat): (r: LineRead)
    requires pos <= |input|
    decreases |input| - pos
    ensures r.Line? ==>
              r.next == pos + |r.chars| + 1 && r.next <= |input| &&
              stored + |r.chars| + 1 <= capacity &&
              input[r.next - 1] == Char('\n') &&
              forall k :: 0 <= k < |r.chars| ==> r.chars[k] != '\n' && input[pos + k] == Char(r.chars[k])
  {
    if pos == |input| then Exhausted
    else
      match input[pos]
      case ReadFailed(interrupted) => LineFailed(interrupted)
      case Char(c) =>
        if stored >= capacity then Overrun
        else if c == '\n' then Line([], pos + 1)
        else
          match ReadLine(input, pos + 1, stored + 1, capacity)
          case Line(chars, next) => Line([c] + chars, next)
          case other => other
  }

  /** The outcome of a line of which `chars` have already been stored. */
  function Prefixed(chars: seq<char>, r: LineRead): LineRead
  {
    if r.Line? then Line(chars + r.chars, r.next) else r
  }

  lemma PrefixedTwice(a: seq<char>, b: seq<char>, r: LineRead)
    ensures Prefixed(a, Prefixed(b, r)) == Prefixed(a + b, r)
  {
    if r.Line? {
      assert a + (b + r.chars) == a + b + r.chars;
    }
  }

  /** `chars` are read from position `pos` on, and none of them ends the line. */
  predicate PlainRun(input: seq<ReadResult>, pos: nat, chars: seq<char>)
  {
    pos + |chars| <= |input| &&
    forall k :: 0 <= k < |chars| ==> chars[k] != '\n' && input[pos + k] == Char(chars[k])
  }

  /** Characters that fit and do not end the line are stored, and the read goes on behind them. */
  lemma {:induction false} ReadLineSkips(input: seq<ReadResult>, pos: nat, stored: nat, capacity: nat, chars: seq<char>)
    requires PlainRun(input, pos, chars) && stored + |chars| <= capacity
    ensures ReadLine(input, pos, stored, capacity) ==
            Prefixed(chars, ReadLine(input, pos + |chars|, stored + |chars|, capacity))
    decreases |chars|
  {
    var rest := ReadLine(input, pos + |chars|, stored + |chars|, capacity);
    if chars == [] {
      assert rest.Line? ==> [] + rest.chars == rest.chars;
    } else {
      var tail := chars[1..];
      assert PlainRun(input, pos + 1, tail) by {
        forall k | 0 <= k < |tail| ensures tail[k] != '\n' && input[pos + 1 + k] == Char(tail[k]) {
          assert tail[k] == chars[k + 1];
        }
      }
      ReadLineSkips(input, pos + 1, stored + 1, capacity, tail);
      assert input[pos] == Char(chars[0]);
      PrefixedTwice([chars[0]], tail, rest);
      assert [chars[0]] + tail == chars;
    }
  }

  /**
   * What ends a line read, once the characters `chars` that do not end it have
   * been stored: the end of the input, a failed read, a character with no room
   * left for it, or the newline, which yields the line `chars`. Every input
   * falls under one case, with `chars` its longest run of stored characters.
   */
  lemma ReadLineOutcomes(input: seq<ReadResult>, pos: nat, stored: nat, capacity: nat, chars: seq<char>)
    requires PlainRun(input, pos, chars) && stored + |chars| <= capacity
    ensures var p := pos + |chars|;
            var r := ReadLine(input, pos, stored, capacity);
            (p == |input| ==> r == Exhausted) &&
            (p < |input| && input[p].ReadFailed? ==> r == LineFailed(input[p].interrupted)) &&
            (p < |input| && input[p].Char? && stored + |chars| == capacity ==> r == Overrun) &&
            (p < |input| && input[p] == Char('\n') && stored + |chars| < capacity ==> r == Line(chars, p + 1))
  {
    ReadLineSkips(input, pos, stored, capacity, chars);
    assert chars + [] == chars;
  }

  /** Inputs on which the source's behaviour is undefined. */
  datatype Defect =
    | EndOfInput    // read() returns 0; the loop keeps storing a stale character
    | BufferOverrun // the loop has no bound on its index into outbuf

  datatype NameOutcome =
    | Accepted(name: seq<char>)
    | ReadError     // read() failed: fatal
    | Interrupted   // a signal interrupted read(): fatal
    | NameTooLong   // too long while the input is not a terminal: fatal
    | Undefined(defect: Defect)

  /**
   * The prompt loop from position `pos`; `tty` says whether the input is a
   * terminal, `capacity` is the size of outbuf.
   */
  function Capture(input: seq<ReadResult>, pos: nat, tty: bool, maxNameLen: nat, capacity: nat): (o: NameOutcome)
    requires pos <= |input|
    decreases |input| - pos
    ensures o.Accepted? ==> 0 < |o.name| <= maxNameLen && NUL !in o.name && '\n' !in o.name
    ensures o.NameTooLong? ==> !tty
  {
    match ReadLine(input, pos, 0, capacity)
    case Exhausted => Undefined(EndOfInput)
    case Overrun => Undefined(BufferOverrun)
    case LineFailed(interrupted) => if interrupted then Interrupted else ReadError
    case Line(chars, next) =>
      var name := Text(chars);
      if |name| <= maxNameLen then
        if name == [] then Capture(input, next, tty, maxNameLen, capacity)
        else
          assert forall k :: 0 <= k < |name| ==> name[k] == chars[k];
          Accepted(name)
      else if tty then Capture(input, next, tty, maxNameLen, capacity)
      else NameTooLong
  }

  /**
   * One line decides: a name of 1 to maxNameLen characters is taken, an empty
   * one is asked for again, and a longer one is asked for again on a terminal
   * and is fatal otherwise.
   */
  lemma LineDecides(input: seq<ReadResult>, pos: nat, tty: bool, maxNameLen: nat, capacity: nat)
    requires pos <= |input| && ReadLine(input, pos, 0, capacity).Line?
    ensures var line := ReadLine(input, pos, 0, capacity);
            var name := Text(line.chars);
            var o := Capture(input, pos, tty, maxNameLen, capacity);
            (o == Accepted(name) <==> 0 < |name| <= maxNameLen) &&
            (name == [] || (|name| > maxNameLen && tty) ==> o == Capture(input, line.next, tty, maxNameLen, capacity)) &&
            (|name| > maxNameLen && !tty ==> o == NameTooLong)
  {
  }

  /**
   * A line that does not complete ends the prompt: a failed read is fatal, as
   * ReadError or, when a signal interrupted it, as Interrupted; the end of the
   * input and a line that overruns outbuf are the two undefined cases. None of
   * them is an accepted name.
   */
  lemma CaptureEnds(input: seq<ReadResult>, pos: nat, tty: bool, maxNameLen: nat, capacity: nat)
    requires pos <= |input|
    ensures var line := ReadLine(input, pos, 0, capacity);
            var o := Capture(input, pos, tty, maxNameLen, capacity);
            (line.LineFailed? ==> o == (if line.interrupted then Interrupted else ReadError)) &&
            (line == Exhausted ==> o == Undefined(EndOfInput)) &&
            (line == Overrun ==> o == Undefined(BufferOverrun)) &&
            (!line.Line? ==> !o.Accepted?)
  {
  }

  /** A line whose string has 1 to maxNameLen characters is accepted as the username. */
  lemma LineAccepted(input: seq<ReadResult>, pos: nat, tty: bool, maxNameLen: nat, capacity: nat, chars: seq<char>)
    requires PlainRun(input, pos, chars) && pos + |chars| < |input| && input[pos + |chars|] == Char('\n')
    requires |chars| < capacity
    requires 0 < |Text(chars)| <= maxNameLen
    ensures Capture(input, pos, tty, maxNameLen, capacity) == Accepted(Text(chars))
  {
    ReadLineOutcomes(input, pos, 0, capacity, chars);
  }
}
