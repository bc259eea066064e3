/** The response-line tokenizer (readResponse, mpdconn.go:89-108), the greeting
    check of NewMPDconn (mpdconn.go:34-40), and the outcomes every operation of
    the engine ends in. */
module Lines {
  import opened Wire

  /** An error value handed back to the caller. */
  datatype Failure =
    | Ack(message: Bytes)          // the text after "ACK ", verbatim (errors.New(value))
    | InvalidInteger(text: Bytes)  // strconv.Atoi refused this text
    | EndOfStream                  // io.ReadFull found no byte at all (io.EOF)
    | UnexpectedEnd                // io.ReadFull found some bytes, but too few (io.ErrUnexpectedEOF)
    | Rejected(greeting: Bytes)    // the greeting line, newline included (errors.New(status))

  /** Ways the process stops inside the engine instead of returning. */
  datatype Halt =
    | ReadFailed      // log.Fatal after readResponse found no newline before the end of the stream
    | NegativeLength  // make([]byte, n) panics for a negative binary length

  datatype Status = Success | Failed(failure: Failure) | Halted(halt: Halt)

  /** bufio.Reader.ReadString('\n') on the unread bytes `s`: everything through
      the first newline, with found == true; when no newline is left, everything
      that is left, with found == false. */
  function ReadString(s: Bytes): (r: (Bytes, bool))
    ensures |r.0| <= |s| && r.0 == s[..|r.0|]
    ensures r.1 ==> |r.0| > 0
    ensures !r.1 ==> r.0 == s
  {
    match IndexOf(s, NL)
    case Some(i) => (s[..i + 1], true)
    case None => (s, false)
  }

  /** ReadString finds a newline exactly when there is one, and then stops at
      the first. */
  lemma ReadStringFinds(s: Bytes)
    ensures var (data, found) := ReadString(s);
            (found <==> NL in s)
            && (found ==> data[|data| - 1] == NL && NL !in data[..|data| - 1])
  {
    match IndexOf(s, NL)
    case Some(i) =>
      assert s[..i + 1][..i] == s[..i];
    case None =>
  }

  /** Element 0 of strings.Split(t, " ") and of strings.SplitN(t, " ", 2):
      the text before the first space, or all of `t` when it has none. */
  function FirstField(t: Bytes): (r: Bytes)
    ensures |r| <= |t| && r == t[..|r|] && SP !in r
    ensures |r| < |t| ==> t[|r|] == SP
  {
    match IndexOf(t, SP)
    case Some(i) => t[..i]
    case None => t
  }

  /** Element 1 of strings.SplitN(t, " ", 2), or "" when `t` has no space:
      everything after the first space, later spaces included. */
  function AfterFirstSpace(t: Bytes): (r: Bytes)
    ensures SP in t ==> t == FirstField(t) + [SP] + r
    ensures SP !in t ==> r == []
  {
    match IndexOf(t, SP)
    case Some(i) =>
      assert t == t[..i] + [SP] + t[i + 1..];
      t[i + 1..]
    case None => []
  }

  /** One tokenized response line: its type, its value, and the number of
      bytes of the stream it took, newline included. */
  datatype Line = Line(dtype: Bytes, value: Bytes, len: nat)

  /** readResponse: read through the next newline, drop that newline, split once
      on the first space, and drop one trailing colon from the left part. With no
      newline left in the stream the read fails (None). */
  function ReadResponse(s: Bytes): (r: Option<Line>)
    ensures r.Some? ==> 0 < r.value.len <= |s|
  {
    var (data, found) := ReadString(s);
    if !found then None
    else
      var text := TrimSuffix(data, NL);
      Some(Line(TrimSuffix(FirstField(text), COLON), AfterFirstSpace(text), |data|))
  }

  /** readResponse fails exactly when no newline is left, and otherwise takes
      the stream through its first newline. */
  lemma ReadResponseFinds(s: Bytes)
    ensures var r := ReadResponse(s);
            (r.None? <==> NL !in s)
            && (r.Some? ==> s[r.value.len - 1] == NL && NL !in s[..r.value.len - 1])
  {
    ReadStringFinds(s);
  }

  /** ReadString takes a newline-free text, its newline, and nothing after. */
  lemma ReadStringThrough(text: Bytes, rest: Bytes)
    requires NL !in text
    ensures ReadString(text + [NL] + rest) == (text + [NL], true)
  {
    var s := text + [NL] + rest;
    assert s[..|text|] == text;
    IndexOfIsFirst(s, NL, |text|);
    assert s[..|text| + 1] == text + [NL];
  }

  /** Splitting `first value` once on a space, when `first` holds none. */
  lemma SplitAtFirstSpace(first: Bytes, value: Bytes)
    requires SP !in first
    ensures FirstField(first + [SP] + value) == first
    ensures AfterFirstSpace(first + [SP] + value) == value
  {
    var text := first + [SP] + value;
    assert text[..|first|] == first;
    IndexOfIsFirst(text, SP, |first|);
    assert text[|first| + 1..] == value;
  }

  /** A line `first value\n`, whose first part holds no space and whose value
      holds no newline (but may hold spaces), is taken whole: its type is `first`
      less one trailing colon and its value is everything after the space. */
  lemma ReadSpacedLine(first: Bytes, value: Bytes, rest: Bytes)
    requires SP !in first && NL !in first && NL !in value
    ensures ReadResponse(first + [SP] + value + [NL] + rest)
         == Some(Line(TrimSuffix(first, COLON), value, |first| + |value| + 2))
  {
    var text := first + [SP] + value;
    assert NL !in text;
    ReadStringThrough(text, rest);
    TrimSuffixOnce(text, NL);
    SplitAtFirstSpace(first, value);
  }

  /** The wire form of a `key: value` line. */
  function FieldLine(key: Bytes, value: Bytes): Bytes {
    key + [COLON] + [SP] + value + [NL]
  }

  /** The tokenizer round trip: `key: value\n` reads back as (key, value) for a
      key with no space or newline and a value with no newline. */
  lemma ReadFieldLine(key: Bytes, value: Bytes, rest: Bytes)
    requires SP !in key && NL !in key && NL !in value
    ensures ReadResponse(FieldLine(key, value) + rest) == Some(Line(key, value, |key| + |value| + 3))
  {
    ReadSpacedLine(key + [COLON], value, rest);
    TrimSuffixOnce(key, COLON);
  }

  /** A line with no space reads as its text less at most one trailing colon,
      with the empty value. */
  lemma ReadBareLine(token: Bytes, rest: Bytes)
    requires SP !in token && NL !in token
    ensures ReadResponse(token + [NL] + rest) == Some(Line(TrimSuffix(token, COLON), [], |token| + 1))
  {
    ReadStringThrough(token, rest);
    TrimSuffixOnce(token, NL);
  }

  /** The greeting as NewMPDconn judges it: accepted, having taken `len` bytes,
      or rejected with the raw line. */
  datatype Greet = Accepted(len: nat) | Refused(line: Bytes)

  /** NewMPDconn reads one line, ignoring the read error, and accepts exactly
      when its text before the first space is "OK"; the newline is not trimmed. */
  function Greeting(s: Bytes): (r: Greet)
    ensures r.Refused? ==> |r.line| <= |s| && r.line == s[..|r.line|]
    ensures r.Refused? && NL in s ==> |r.line| > 0 && r.line[|r.line| - 1] == NL && NL !in r.line[..|r.line| - 1]
    ensures r.Refused? && NL !in s ==> r.line == s
  {
    var (status, _) := ReadString(s);
    if FirstField(status) == OK then Accepted(|status|) else Refused(status)
  }

  /** The greeting is accepted exactly when the stream starts with "OK" followed
      by a space or by the end of the stream, so a bare "OK\n" is refused. */
  lemma GreetingAccepted(s: Bytes)
    ensures Greeting(s).Accepted? <==> |s| >= 2 && s[..2] == OK && (|s| == 2 || s[2] == SP)
  {
    var (status, found) := ReadString(s);
    if |s| >= 2 && s[..2] == OK && (|s| == 2 || s[2] == SP) {
      if |s| == 2 {
        assert s == OK;
        assert NL !in s;
        assert SP !in status;
      } else {
        assert s[0] != NL && s[1] != NL && s[2] != NL;
        assert s[..3] == OK + [SP];
        assert status[..2] == OK;
        IndexOfIsFirst(status, SP, 2);
      }
    }
  }

  /** "OK MPD <version>\n" is accepted and takes exactly its own bytes. */
  lemma GreetingVersion(version: Bytes, rest: Bytes)
    requires NL !in version
    ensures Greeting(OK + [SP] + version + [NL] + rest) == Accepted(|version| + 4)
  {
    var text := OK + [SP] + version;
    var s := text + [NL] + rest;
    assert s[..|text|] == text;
    IndexOfIsFirst(s, NL, |text|);
    var status := s[..|text| + 1];
    assert status[..2] == OK;
    IndexOfIsFirst(status, SP, 2);
    assert OK + [SP] + version + [NL] + rest == s;
  }

  /** A bare "OK\n" greeting is refused, and the error carries "OK\n" itself. */
  lemma GreetingBareOk(rest: Bytes)
    ensures Greeting(OK + [NL] + rest) == Refused(OK + [NL])
  {
    var s := OK + [NL] + rest;
    assert s[..2] == OK;
    IndexOfIsFirst(s, NL, 2);
    assert s[..3] == OK + [NL];
  }
}
