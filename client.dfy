/** The MPDconn object: a connection whose buffered reader takes bytes from
    what the server sends and whose writes go to an output log. Each method
    is proved against the function that specifies it on the unread bytes. */
module Client {
  import opened Wire
  import opened Lines
  import opened Requests
  import opened Cover

  class MpdConn {
    /** What the buffered reader has yet to take from the connection. */
    var rest: Bytes
    /** Everything written to the connection so far. */
    var out: Bytes

    /** A connection on which the server sends `input`. */
    constructor (input: Bytes)
      ensures rest == input && out == []
    {
      rest := input;
      out := [];
    }

    /** bufio.Reader.ReadString('\n'): take bytes up to and including the first
        newline, or all that is left when there is none. */
    method ReadString() returns (data: Bytes, found: bool)
      modifies this
      ensures out == old(out)
      ensures (data, found) == Lines.ReadString(old(rest))
      ensures rest == old(rest)[|data|..]
    {
      var i := 0;
      while i < |rest| && rest[i] != NL
        invariant i <= |rest|
        invariant NL !in rest[..i]
        decreases |rest| - i
      {
        i := i + 1;
      }
      if i < |rest| {
        IndexOfIsFirst(rest, NL, i);
        data, found := rest[..i + 1], true;
      } else {
        assert rest[..i] == rest;
        data, found := rest, false;
      }
      rest := rest[|data|..];
    }

    /** readResponse (mpdconn.go:89-108): one line, split into its type and value. */
    method ReadResponse() returns (r: Option<Line>)
      modifies this
      ensures out == old(out)
      ensures r == Lines.ReadResponse(old(rest))
      ensures r.Some? ==> rest == old(rest)[r.value.len..]
      ensures r.None? ==> rest == []
    {
      var data, found := ReadString();
      if !found {
        return None;
      }
      var text := TrimSuffix(data, NL);
      r := Some(Line(TrimSuffix(FirstField(text), COLON), AfterFirstSpace(text), |data|));
    }

    /** io.ReadFull(m.buf, buf): fill `buf` from the stream, stopping early
        only when the stream runs out; `got` is how many bytes it holds. */
    method ReadFull(buf: array<byte>) returns (got: nat)
      modifies this, buf
      ensures out == old(out)
      ensures got == if |old(rest)| < buf.Length then |old(rest)| else buf.Length
      ensures buf[..got] == old(rest)[..got] && rest == old(rest)[got..]
    {
      got := 0;
      while got < buf.Length && got < |rest|
        invariant rest == old(rest) && out == old(out)
        invariant got <= buf.Length && got <= |rest|
        invariant buf[..got] == rest[..got]
        decreases buf.Length - got
      {
        buf[got] := rest[got];
        got := got + 1;
      }
      rest := rest[got..];
    }

    /** make([]byte, n) and io.ReadFull (mpdconn.go:74-76, 156-158): read a
        frame of `n` raw bytes, or all that is left when fewer remain. */
    method ReadFrame(n: nat) returns (payload: Bytes)
      modifies this
      ensures out == old(out)
      ensures |payload| == if |old(rest)| < n then |old(rest)| else n
      ensures payload == old(rest)[..|payload|] && rest == old(rest)[|payload|..]
    {
      var fbuf := new byte[n];
      var got := ReadFull(fbuf);
      payload := fbuf[..got];
    }

    /** NewMPDconn after the dial (mpdconn.go:34-40): read the greeting line,
        ignoring the read error, and keep the connection only when the text
        before its first space is "OK"; otherwise fail with the raw line. */
    static method NewMpdConn(input: Bytes) returns (m: MpdConn?, status: Status)
      ensures Greeting(input).Accepted? ==>
        m != null && fresh(m) && m.out == []
        && m.rest == input[Greeting(input).len..] && status == Success
      ensures Greeting(input).Refused? ==>
        m == null && status == Failed(Rejected(Greeting(input).line))
    {
      var c := new MpdConn(input);
      var line, _ := c.ReadString();
      if FirstField(line) != OK {
        return null, Failed(Rejected(line));
      }
      return c, Success;
    }

    /** Request (mpdconn.go:46-87): send the command with exactly one trailing
        newline, then collect response lines into a map until "OK" or "ACK".
        The map, the status and the bytes left unread are those of Collect. */
    method Request(req: Bytes) returns (resp: Response, status: Status)
      modifies this
      ensures out == old(out) + CommandLine(req)
      ensures var r := Collect(old(rest), map[]);
        resp == r.resp && status == r.status && rest == r.rest
    {
      out := out + CommandLine(req);
      resp := map[];
      ghost var goal := Collect(rest, map[]);
      while true
        invariant out == old(out) + CommandLine(req)
        invariant goal == Collect(rest, resp)
        decreases |rest|
      {
        ghost var s := rest;
        var r := ReadResponse();
        if r.None? {
          // log.Fatal ends the process
          CollectHalts(goal, s, resp);
          return resp, Halted(ReadFailed);
        }
        var line := r.value;
        var stop;
        ghost var taken;
        stop, taken := ReceiveField(line, s);
        if stop.Some? {
          CollectQuits(s, resp, line, stop.value, taken);
          return resp, stop.value;
        }
        CollectStep(s, resp, line, line.dtype, line.value, taken, rest);
        resp := resp[line.dtype := line.value];
      }
    }

    /** What Request's loop does with one line read from the front of `s`
        (mpdconn.go:63-82): "OK", "ACK" and a bad "binary" length stop it,
        a "binary" line takes its frame, and every other line is stored.
        Exactly the first `taken` bytes of `s` are consumed, and the outcome
        is Dispatch's: stop with `stop.value`, or store the line's value
        under its type. */
    method ReceiveField(line: Line, ghost s: Bytes) returns (stop: Option<Status>, ghost taken: nat)
      requires line.len <= |s| && rest == s[line.len..]
      modifies this
      ensures out == old(out)
      ensures line.len <= taken <= |s| && rest == s[taken..]
      ensures stop.Some? ==> Dispatch(line, |s| - line.len) == Stop(stop.value, taken)
      ensures stop.None? ==> Dispatch(line, |s| - line.len) == Store(line.dtype, line.value, taken)
    {
      ghost var left := |s| - line.len;
      taken := line.len;
      stop := None;
      if line.dtype == OK {
        stop := Some(Success);
      } else if line.dtype == ACK {
        stop := Some(Failed(Ack(line.value)));
      } else if line.dtype == BINARY {
        var bsize := Atoi(line.value);
        if bsize.None? {
          stop := Some(Failed(InvalidInteger(line.value)));
        } else if bsize.value < 0 {
          // make([]byte, n) panics
          stop := Some(Halted(NegativeLength));
        } else {
          var n := bsize.value;
          var payload := ReadFrame(n);
          if |payload| < n {
            DispatchShort(line, left, n, |s|);
            return Some(Failed(ShortRead(|payload|))), |s|;
          }
          DropDrop(s, line.len, n);
          taken := line.len + n;
          DispatchSkips(line, left, n, taken);
        }
      } else {
        DispatchStores(line, left);
      }
      if stop.Some? {
        DispatchStops(line, left, stop.value);
      }
    }

    /** One line of DownloadCover's inner loop other than "OK"
        (mpdconn.go:135-169), read from the front of `s`, the total standing
        at `size`, `offset` bytes counted and `written` in the file: do what
        Act says of it. Exactly the first `taken` bytes of `s` are consumed,
        the line and the payload of a "binary" line. With `quit` None the
        loop reads on with Act's new total and offset and the payload
        appended to the file; otherwise DownloadCover returns `quit.value`
        and nothing but the stream changes. */
    method ReceiveValue(line: Line, size: int, offset: nat, written: Bytes, ghost s: Bytes)
      returns (size': int, offset': nat, written': Bytes, quit: Option<Status>, ghost taken: nat)
      requires line.dtype != OK && offset == |written| && line.len <= |s| && rest == s[line.len..]
      modifies this
      ensures out == old(out) && offset' == |written'|
      ensures line.len <= taken <= |s| && rest == s[taken..]
      ensures quit.Some? ==>
        Act(line, |s| - line.len, size, offset) == Quit(quit.value, taken)
        && size' == size && offset' == offset && written' == written
      ensures quit.None? ==>
        Act(line, |s| - line.len, size, offset) == Go(size', taken, offset') && written' == written + s[line.len..taken]
    {
      ghost var left := |s| - line.len;
      size', offset', written', taken := size, offset, written, line.len;
      // the statuses DownloadCover returns after the line alone
      quit := None;
      if line.dtype == ACK {
        quit := Some(Failed(Ack(line.value)));
      } else if line.dtype == SIZE {
        var total := Atoi(line.value);
        if total.None? {
          quit := Some(Failed(InvalidInteger(line.value)));
        } else {
          ActLine(line, left, size, offset, total.value);
          size' := total.value;
        }
      } else if line.dtype == BINARY {
        var bsize := Atoi(line.value);
        if bsize.None? {
          quit := Some(Failed(InvalidInteger(line.value)));
        } else if bsize.value < 0 {
          // make([]byte, n) panics
          quit := Some(Halted(NegativeLength));
        } else {
          var n := bsize.value;
          var payload := ReceiveFrame(line, n, size, offset, left);
          if |payload| < n {
            return size', offset', written', Some(Failed(ShortRead(|payload|))), |s|;
          }
          DropDrop(s, line.len, n);
          written', offset', taken := written + payload, offset + n, line.len + n;
        }
      } else {
        ActLine(line, left, size, offset, size);
      }
      if quit.Some? {
        ActStops(line, left, size, offset, quit.value);
      }
    }

    /** The payload of a "binary: n" line, `left` bytes remaining after the
        line (mpdconn.go:150-166): all n bytes, which the loop writes and
        counts, or the fewer that are left, and DownloadCover returns the read
        error having taken them all. */
    method ReceiveFrame(line: Line, n: nat, size: int, offset: nat, ghost left: nat) returns (payload: Bytes)
      requires line.dtype == BINARY && Atoi(line.value) == Some(n) && left == |rest|
      modifies this
      ensures out == old(out)
      ensures |payload| < n ==>
        Act(line, left, size, offset) == Quit(Failed(ShortRead(|payload|)), line.len + left) && rest == []
      ensures |payload| >= n ==>
        Act(line, left, size, offset) == Go(size, line.len + n, offset + n)
        && payload == old(rest)[..n] && rest == old(rest)[n..]
    {
      payload := ReadFrame(n);
      if |payload| < n {
        ActShort(line, left, size, offset, n, line.len + left);
      } else {
        ActSkips(line, left, size, offset, n, line.len + n, offset + n);
      }
    }

    /** DownloadCover's inner loop (mpdconn.go:128-170): read lines until "OK"
        (`stop` is None: the loop breaks) or until a line makes DownloadCover
        return with status `stop.value`. */
    method ReceiveReply(name: Bytes, size: int, offset: nat, written: Bytes)
      returns (size': int, offset': nat, written': Bytes, stop: Option<Status>)
      requires offset == |written|
      modifies this
      ensures out == old(out) && offset' == |written'|
      ensures stop.None? ==>
        |rest| < |old(rest)| && Run(old(rest), name, size, offset, written, out) == Start(rest, name, size', offset', written', out)
      ensures stop.Some? ==>
        Run(old(rest), name, size, offset, written, out) == Download(stop.value, size', offset', written', out, rest)
    {
      size', offset', written' := size, offset, written;
      ghost var goal := Run(rest, name, size, offset, written, out);
      while true
        invariant out == old(out) && offset' == |written'|
        invariant |rest| <= |old(rest)|
        invariant goal == Run(rest, name, size', offset', written', out)
        decreases |rest|
      {
        ghost var s, z, o, w := rest, size', offset', written';
        var r := ReadResponse();
        if r.None? {
          // log.Fatal ends the process
          RunHaltsAt(goal, s, name, z, o, w, out);
          return size', offset', written', Some(Halted(ReadFailed));
        }
        var line := r.value;
        if line.dtype == OK {
          RunBreaksAt(goal, s, name, z, o, w, out, line, rest);
          return size', offset', written', None;
        }
        var quit;
        ghost var taken;
        size', offset', written', quit, taken := ReceiveValue(line, size', offset', written', s);
        if quit.Some? {
          RunQuits(s, name, z, o, w, out, line, quit.value, taken);
          return size', offset', written', quit;
        }
        RunGoes(s, name, z, o, w, out, line, size', taken, offset', written', rest);
      }
    }

    /** DownloadCover (mpdconn.go:110-176): while fewer than `size` bytes are
        counted, ask for the chunk at `offset` and read the reply, writing each
        "binary" payload to the file, until a line makes it return.
        `written` is what is handed to the file's buffered writer (log.Fatal
        exits without the deferred Flush, so on Halted(ReadFailed) the file
        may hold less); it, the status, the bytes left unread and everything
        sent are those of Start with total 1, offset 0 and an empty file. */
    method DownloadCover(name: Bytes) returns (written: Bytes, status: Status)
      modifies this
      ensures var d := Start(old(rest), name, 1, 0, [], old(out));
        written == d.written && status == d.status && rest == d.rest && out == d.log
    {
      var offset: nat, size: int := 0, 1;
      written := [];
      ghost var goal := Start(rest, name, size, offset, written, out);
      while offset < size
        invariant offset == |written|
        invariant goal == Start(rest, name, size, offset, written, out)
        decreases |rest|
      {
        StartRuns(rest, name, size, offset, written, out, out + AlbumArt(name, offset));
        out := out + AlbumArt(name, offset);
        var stop;
        size, offset, written, stop := ReceiveReply(name, size, offset, written);
        if stop.Some? {
          return written, stop.value;
        }
      }
      StartFacts(rest, name, size, offset, written, out);
      status := Success;
    }
  }
}
