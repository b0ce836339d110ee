/**
 * C strings and the wire frame of the chat protocol.
 *
 * A frame is the text of a message followed by one NUL. The client sends
 * `strlen(buf) + 1` bytes of a NUL-terminated buffer, and on receipt it writes a
 * NUL right behind the received bytes and reads the buffer as a C string.
 */
module Protocol {
  /** The C string terminator. */
  const NUL: char := '\0'

  /** The sentinel payload: sent or received, it ends the session. */
  const BYE: seq<char> := "bye"

  /** What a handler tells the event loop: keep going (EXIT_SUCCESS) or stop (EXIT_FAILURE). */
  datatype Verdict = Continue | Stop

  /** The diagnostics the client writes to its error stream without stopping. */
  datatype Warning =
    | MessageTooLong(limit: nat)
    | SendFailed(payload: seq<char>)
    | ReceiveFailed

  /** C's strlen: the index of the first NUL of a buffer that holds one. */
  function StrLen(buf: seq<char>): (n: nat)
    requires NUL in buf
    ensures n < |buf| && buf[n] == NUL
    ensures forall k :: 0 <= k < n ==> buf[k] != NUL
  {
    if buf[0] == NUL then 0
    else
      assert buf == [buf[0]] + buf[1..];
      1 + StrLen(buf[1..])
  }

  /** The C string a NUL-terminated buffer holds: everything before its first NUL. */
  function CStr(buf: seq<char>): (s: seq<char>)
    requires NUL in buf
    ensures NUL !in s
    ensures |s| < |buf| && buf[..|s| + 1] == s + [NUL]
  {
    var n := StrLen(buf);
    assert buf[..n + 1] == buf[..n] + [NUL];
    buf[..n]
  }

  /** A buffer whose first NUL follows `s` holds the C string `s`. */
  lemma CStrOfTerminated(buf: seq<char>, s: seq<char>)
    requires NUL !in s
    requires |s| < |buf| && buf[..|s| + 1] == s + [NUL]
    ensures NUL in buf && CStr(buf) == s
  {
    assert buf[|s|] == (s + [NUL])[|s|] == NUL;
  }

  /** Only the bytes up to the first NUL decide a buffer's C string. */
  lemma CStrOfPrefix(buf: seq<char>, k: nat)
    requires k <= |buf| && NUL in buf[..k]
    ensures NUL in buf && CStr(buf) == CStr(buf[..k])
  {
    var s := CStr(buf[..k]);
    assert buf[..|s| + 1] == buf[..k][..|s| + 1];
    CStrOfTerminated(buf, s);
  }

  /** The bytes sent for a payload: the payload and one NUL. */
  function Frame(payload: seq<char>): (f: seq<char>)
    ensures |f| == |payload| + 1 && f[..|payload|] == payload && f[|payload|] == NUL
  {
    payload + [NUL]
  }

  /** The text a receiver reads from a span after writing a NUL right behind it. */
  function Text(span: seq<char>): (t: seq<char>)
    ensures NUL !in t
    ensures |t| <= |span| && t == span[..|t|]
    ensures |t| < |span| ==> span[|t|] == NUL
  {
    var s := CStr(span + [NUL]);
    TerminatedSpan(span, s);
    s
  }

  /** Where the string of `span + [NUL]` stops, relative to `span` itself. */
  lemma TerminatedSpan(span: seq<char>, s: seq<char>)
    requires s == CStr(span + [NUL])
    ensures |s| <= |span| && s == span[..|s|]
    ensures |s| < |span| ==> span[|s|] == NUL
  {
    assert (span + [NUL])[..|s| + 1] == s + [NUL];
    if |s| < |span| {
      assert span[..|s| + 1] == (span + [NUL])[..|s| + 1];
    } else {
      assert span == (span + [NUL])[..|s|];
    }
  }

  /** A frame sent whole and received whole reads back as its payload. */
  lemma FrameRoundTrip(payload: seq<char>)
    requires NUL !in payload
    ensures Text(Frame(payload)) == payload
  {
  }

  /** The bytes `send(buf, strlen(buf) + 1)` puts on the wire are the frame of the buffer's string. */
  lemma SentBytesAreFrame(buf: seq<char>)
    requires NUL in buf
    ensures buf[..StrLen(buf) + 1] == Frame(CStr(buf))
    ensures |Frame(CStr(buf))| == StrLen(buf) + 1
  {
    assert |CStr(buf)| == StrLen(buf);
  }
}
