/** The response loop of Request (mpdconn.go:46-87) as a function of the
    unread bytes, and what it does to the response streams an MPD server sends. */
module Requests {
  import opened Wire
  import opened Lines

  /** The map Request returns: response type to value. */
  type Response = map<Bytes, Bytes>

  /** What Request writes for `req`: the command less one trailing newline, then
      one newline, so a command that already ends in a newline is not doubled. */
  function CommandLine(req: Bytes): (r: Bytes)
    ensures |r| > 0 && r[|r| - 1] == NL
    ensures |req| > 0 && req[|req| - 1] == NL ==> r == req
    ensures |req| == 0 || req[|req| - 1] != NL ==> r == req + [NL]
  {
    TrimSuffix(req, NL) + [NL]
  }

  /** Writing a command line for a command line changes nothing. */
  lemma CommandLineIdempotent(req: Bytes)
    ensures CommandLine(CommandLine(req)) == CommandLine(req)
  {
  }

  /** The result of Request's loop: the map, how the loop ended, and the bytes
      it left unread. */
  datatype Reply = Reply(resp: Response, status: Status, rest: Bytes)

  /** The error io.ReadFull gives when fewer bytes are left than it needs. */
  function ShortRead(left: nat): Failure {
    if left == 0 then EndOfStream else UnexpectedEnd
  }

  /** What Request's loop does with one line, `left` bytes remaining after it:
      stop with a status, having taken `used` bytes, or store `key` := `value`
      and go on after `skip` bytes. */
  datatype Step =
    | Stop(status: Status, used: nat)
    | Store(key: Bytes, value: Bytes, skip: nat)

  /** "OK" and "ACK" end the loop; "binary: n" reads n raw bytes after its line
      (strconv.Atoi, then make and io.ReadFull); any other line is stored. A
      "binary" line is stored as well, under "binary". */
  function Dispatch(line: Line, left: nat): (r: Step)
    ensures r.Store? ==> r.skip >= line.len && r.skip - line.len <= left
    ensures r.Stop? ==> r.used >= line.len && r.used - line.len <= left
  {
    if line.dtype == OK then Stop(Success, line.len)
    else if line.dtype == ACK then Stop(Failed(Ack(line.value)), line.len)
    else if line.dtype == BINARY then
      match Atoi(line.value)
      case None => Stop(Failed(InvalidInteger(line.value)), line.len)
      case Some(n) =>
        if n < 0 then Stop(Halted(NegativeLength), line.len)
        else if left < n then Stop(Failed(ShortRead(left)), line.len + left)
        else Store(BINARY, line.value, line.len + n)
    else Store(line.dtype, line.value, line.len)
  }

  /** Request's loop on the unread bytes `s`, having collected `acc` so far:
      read a line, act on it, and go on with the bytes after it until a line
      ends the loop. With no newline left the read fails and log.Fatal stops
      the process. */
  function Collect(s: Bytes, acc: Response): (r: Reply)
    ensures SuffixOf(r.rest, s)
    ensures acc.Keys <= r.resp.Keys
    decreases |s|
  {
    match ReadResponse(s)
    case None =>
      SuffixAfter(s, |s|);
      Reply(acc, Halted(ReadFailed), [])
    case Some(line) =>
      match Dispatch(line, |s| - line.len)
      case Stop(status, used) =>
        SuffixAfter(s, used);
        Reply(acc, status, s[used..])
      case Store(key, value, skip) =>
        var r := Collect(s[skip..], acc[key := value]);
        SuffixOfSuffix(s, skip, r.rest);
        r
  }

  /** One field of a response as the server sends it: a `key: value` line, or
      a binary frame, i.e. a `binary: <length>` line and that many raw bytes. */
  datatype Field = Text(key: Bytes, value: Bytes) | Blob(payload: Bytes)

  function KeyOf(f: Field): Bytes {
    match f
    case Text(k, _) => k
    case Blob(_) => BINARY
  }

  function ValueOf(f: Field): Bytes {
    match f
    case Text(_, v) => v
    case Blob(p) => Decimal(|p|)
  }

  /** A field Request stores rather than acts on: a key with no space or
      newline that is neither "OK", "ACK" nor "binary", and a value with no
      newline. Any binary frame qualifies; its payload may hold any byte. */
  predicate Recordable(f: Field) {
    match f
    case Text(k, v) => SP !in k && NL !in k && NL !in v && k != OK && k != ACK && k != BINARY
    case Blob(_) => true
  }

  function Encode(f: Field): Bytes {
    match f
    case Text(k, v) => FieldLine(k, v)
    case Blob(p) => FieldLine(BINARY, Decimal(|p|)) + p
  }

  function EncodeAll(fs: seq<Field>): Bytes {
    if |fs| == 0 then [] else Encode(fs[0]) + EncodeAll(fs[1..])
  }

  /** The map after storing the fields `fs`, in order, on top of `acc`. */
  function Record(acc: Response, fs: seq<Field>): (r: Response)
    ensures acc.Keys <= r.Keys
    ensures |fs| > 0 ==> KeyOf(fs[|fs| - 1]) in r && r[KeyOf(fs[|fs| - 1])] == ValueOf(fs[|fs| - 1])
    decreases |fs|
  {
    if |fs| == 0 then acc else Record(acc[KeyOf(fs[0]) := ValueOf(fs[0])], fs[1..])
  }

  /** Field `i` is the last of `fs` whose key is `k`. */
  predicate LastWith(fs: seq<Field>, k: Bytes, i: int) {
    0 <= i < |fs| && KeyOf(fs[i]) == k && forall j :: i < j < |fs| ==> KeyOf(fs[j]) != k
  }

  /** Last write wins: a key is in the map exactly when it was there before or
      some field carries it, and then it holds the value of the last such field. */
  lemma {:induction false} RecordLastWriteWins(acc: Response, fs: seq<Field>, k: Bytes)
    ensures k in Record(acc, fs) <==> k in acc || exists i :: 0 <= i < |fs| && KeyOf(fs[i]) == k
    ensures forall i :: LastWith(fs, k, i) ==> k in Record(acc, fs) && Record(acc, fs)[k] == ValueOf(fs[i])
    ensures (forall i :: 0 <= i < |fs| ==> KeyOf(fs[i]) != k) && k in acc ==> Record(acc, fs)[k] == acc[k]
    decreases |fs|
  {
    if |fs| > 0 {
      var acc' := acc[KeyOf(fs[0]) := ValueOf(fs[0])];
      var tail := fs[1..];
      RecordLastWriteWins(acc', tail, k);
      assert forall i :: 0 <= i < |tail| ==> tail[i] == fs[i + 1];
      if exists i :: 0 <= i < |fs| && KeyOf(fs[i]) == k {
        var i :| 0 <= i < |fs| && KeyOf(fs[i]) == k;
        if i > 0 {
          assert KeyOf(tail[i - 1]) == k;
        }
      }
      forall i | LastWith(fs, k, i)
        ensures k in Record(acc, fs) && Record(acc, fs)[k] == ValueOf(fs[i])
      {
        if i > 0 {
          assert LastWith(tail, k, i - 1);
        } else {
          forall j | 0 <= j < |tail| ensures KeyOf(tail[j]) != k {
            assert KeyOf(fs[j + 1]) != k;
          }
        }
      }
      if (forall i :: 0 <= i < |fs| ==> KeyOf(fs[i]) != k) && k in acc {
        assert KeyOf(fs[0]) != k;
      }
    }
  }

  // What Dispatch makes of each kind of line, kept apart so that no proof
  // about Collect has to evaluate Dispatch itself.

  /** `line` alone ends Request's loop with `status`: "OK" with success,
      "ACK" with its message, and a "binary" line whose value is not a number
      or is negative. */
  predicate Ends(line: Line, status: Status) {
    || (line.dtype == OK && status == Success)
    || (line.dtype == ACK && status == Failed(Ack(line.value)))
    || (line.dtype == BINARY && Atoi(line.value).None? && status == Failed(InvalidInteger(line.value)))
    || (line.dtype == BINARY && Atoi(line.value).Some? && Atoi(line.value).value < 0
        && status == Halted(NegativeLength))
  }

  /** The lines that end the loop stop it after the line alone. */
  lemma DispatchStops(line: Line, left: nat, status: Status)
    requires Ends(line, status)
    ensures Dispatch(line, left) == Stop(status, line.len)
  {
  }

  /** Any other type but "binary" is stored as it is. */
  lemma DispatchStores(line: Line, left: nat)
    requires line.dtype != OK && line.dtype != ACK && line.dtype != BINARY
    ensures Dispatch(line, left) == Store(line.dtype, line.value, line.len)
  {
  }

  /** A binary line whose n payload bytes are all there is stored, and the
      payload skipped. */
  lemma DispatchSkips(line: Line, left: nat, n: nat, skip: nat)
    requires line.dtype == BINARY && Atoi(line.value) == Some(n) && n <= left && skip == line.len + n
    ensures Dispatch(line, left) == Store(BINARY, line.value, skip)
  {
  }

  /** A binary line with fewer than n bytes after it stops the loop, having
      taken all there is. */
  lemma DispatchShort(line: Line, left: nat, n: nat, used: nat)
    requires line.dtype == BINARY && Atoi(line.value) == Some(n) && left < n && used == line.len + left
    ensures Dispatch(line, left) == Stop(Failed(ShortRead(left)), used)
  {
  }

  /** Collect on a line it stores: it goes on after the line and any payload. */
  lemma CollectStep(s: Bytes, acc: Response, line: Line, key: Bytes, value: Bytes, skip: nat, mid: Bytes)
    requires ReadResponse(s) == Some(line)
    requires Dispatch(line, |s| - line.len) == Store(key, value, skip)
    requires skip <= |s| && mid == s[skip..]
    ensures Collect(s, acc) == Collect(mid, acc[key := value])
  {
  }

  /** Collect on a line that ends the loop, having taken `used` bytes. */
  lemma CollectQuits(s: Bytes, acc: Response, line: Line, status: Status, used: nat)
    requires ReadResponse(s) == Some(line)
    requires Dispatch(line, |s| - line.len) == Stop(status, used)
    ensures used <= |s| && Collect(s, acc) == Reply(acc, status, s[used..])
  {
  }

  // How each kind of line reads and what Dispatch makes of it, apart from Collect.

  lemma TextLine(key: Bytes, value: Bytes, tail: Bytes)
    requires Recordable(Text(key, value))
    ensures var s, line := FieldLine(key, value) + tail, Line(key, value, |key| + |value| + 3);
            ReadResponse(s) == Some(line) && |s| - line.len == |tail|
            && Dispatch(line, |tail|) == Store(key, value, line.len) && s[line.len..] == tail
  {
    ReadFieldLine(key, value, tail);
    DispatchStores(Line(key, value, |key| + |value| + 3), |tail|);
    assert (FieldLine(key, value) + tail)[|key| + |value| + 3..] == tail;
  }

  lemma FrameLine(v: Bytes, n: nat, rest: Bytes, s: Bytes, line: Line, skip: nat, mid: Bytes)
    requires Atoi(v) == Some(n) && n <= |rest|
    requires s == FieldLine(BINARY, v) + rest && line == Line(BINARY, v, |v| + 9)
    requires skip == |v| + 9 + n && mid == rest[n..]
    ensures ReadResponse(s) == Some(line) && skip <= |s|
    ensures Dispatch(line, |s| - line.len) == Store(BINARY, v, skip) && s[skip..] == mid
  {
    AtoiPlain(v);
    ReadFieldLine(BINARY, v, rest);
    AfterPrefix(FieldLine(BINARY, v), rest, s, n, skip);
    DispatchSkips(line, |s| - line.len, n, skip);
  }

  lemma EndLine(s: Bytes, line: Line, tail: Bytes, status: Status)
    requires ReadResponse(s) == Some(line) && s[line.len..] == tail
    requires Ends(line, status)
    ensures |s| - line.len == |tail| && Dispatch(line, |tail|) == Stop(status, line.len)
  {
    DispatchStops(line, |tail|, status);
  }

  lemma ShortLine(n: nat, payload: Bytes, s: Bytes, line: Line)
    requires |payload| < n && s == FieldLine(BINARY, Decimal(n)) + payload
    requires line == Line(BINARY, Decimal(n), |Decimal(n)| + 9)
    ensures ReadResponse(s) == Some(line) && |s| - line.len == |payload|
    ensures Dispatch(line, |s| - line.len) == Stop(Failed(ShortRead(|payload|)), |s|)
  {
    AtoiDecimal(n);
    ReadFieldLine(BINARY, Decimal(n), payload);
    var left := |s| - line.len;
    assert left == |payload|;
    DispatchShort(line, left, n, |s|);
  }

  /** A `key: value` line is consumed whole and stored. */
  lemma CollectText(key: Bytes, value: Bytes, tail: Bytes, acc: Response)
    requires Recordable(Text(key, value))
    ensures Collect(FieldLine(key, value) + tail, acc) == Collect(tail, acc[key := value])
  {
    var line := Line(key, value, |key| + |value| + 3);
    TextLine(key, value, tail);
    CollectStep(FieldLine(key, value) + tail, acc, line, key, value, line.len, tail);
  }

  /** A "binary: n" line followed by at least n bytes is consumed together
      with exactly n of them, which are never scanned for newlines, and
      "binary" is stored. */
  lemma CollectFrame(v: Bytes, n: nat, rest: Bytes, acc: Response)
    requires Atoi(v) == Some(n) && n <= |rest|
    ensures Collect(FieldLine(BINARY, v) + rest, acc) == Collect(rest[n..], acc[BINARY := v])
  {
    var s, line := FieldLine(BINARY, v) + rest, Line(BINARY, v, |v| + 9);
    var skip, mid := |v| + 9 + n, rest[n..];
    FrameLine(v, n, rest, s, line, skip, mid);
    CollectStep(s, acc, line, BINARY, v, skip, mid);
  }

  /** Every field Request stores is consumed whole and stored under its key:
      a `key: value` line, or a binary frame. */
  lemma CollectField(f: Field, tail: Bytes, acc: Response)
    requires Recordable(f)
    ensures Collect(Encode(f) + tail, acc) == Collect(tail, acc[KeyOf(f) := ValueOf(f)])
  {
    match f
    case Text(k, v) =>
      CollectText(k, v, tail, acc);
    case Blob(p) =>
      var v := Decimal(|p|);
      assert Encode(f) + tail == FieldLine(BINARY, v) + (p + tail);
      assert (p + tail)[|p|..] == tail;
      AtoiDecimal(|p|);
      CollectFrame(v, |p|, p + tail, acc);
  }

  /** Every field before the terminal line is consumed and stored, in order. */
  lemma {:induction false} CollectFields(fs: seq<Field>, tail: Bytes, acc: Response)
    requires forall i :: 0 <= i < |fs| ==> Recordable(fs[i])
    ensures Collect(EncodeAll(fs) + tail, acc) == Collect(tail, Record(acc, fs))
  {
    if |fs| > 0 {
      var f, acc' := fs[0], acc[KeyOf(fs[0]) := ValueOf(fs[0])];
      var rest := EncodeAll(fs[1..]) + tail;
      assert EncodeAll(fs) + tail == Encode(f) + rest;
      CollectField(f, rest, acc);
      CollectFields(fs[1..], tail, acc');
    } else {
      assert EncodeAll(fs) + tail == tail;
    }
  }

  /** The line that ends a successful response. */
  const OK_LINE: Bytes := OK + [NL]

  /** The line that ends a failed response, carrying the server's message. */
  function AckLine(message: Bytes): Bytes {
    ACK + [SP] + message + [NL]
  }

  /** A line that ends the request, followed by `tail`. */
  lemma CollectEnds(s: Bytes, acc: Response, line: Line, tail: Bytes, status: Status)
    requires ReadResponse(s) == Some(line) && s[line.len..] == tail
    requires Ends(line, status)
    ensures Collect(s, acc) == Reply(acc, status, tail)
  {
    EndLine(s, line, tail, status);
    CollectQuits(s, acc, line, status, line.len);
  }

  /** An "OK" line ends the request with the map as it stands, and nothing
      after it is read. */
  lemma OkLineEnds(tail: Bytes, acc: Response)
    ensures Collect(OK_LINE + tail, acc) == Reply(acc, Success, tail)
  {
    ReadBareLine(OK, tail);
    assert (OK_LINE + tail)[3..] == tail;
    CollectEnds(OK_LINE + tail, acc, Line(OK, [], 3), tail, Success);
  }

  /** An "ACK message" line ends the request with the message, verbatim, as the error. */
  lemma AckLineEnds(message: Bytes, tail: Bytes, acc: Response)
    requires NL !in message
    ensures Collect(AckLine(message) + tail, acc) == Reply(acc, Failed(Ack(message)), tail)
  {
    ReadSpacedLine(ACK, message, tail);
    assert (AckLine(message) + tail)[|message| + 5..] == tail;
    CollectEnds(AckLine(message) + tail, acc, Line(ACK, message, |message| + 5), tail, Failed(Ack(message)));
  }

  /** A "binary" line whose length text Atoi refuses ends the request with that error. */
  lemma BadLengthEnds(text: Bytes, tail: Bytes, acc: Response)
    requires NL !in text && Atoi(text) == None
    ensures Collect(FieldLine(BINARY, text) + tail, acc) == Reply(acc, Failed(InvalidInteger(text)), tail)
  {
    ReadFieldLine(BINARY, text, tail);
    assert (FieldLine(BINARY, text) + tail)[|text| + 9..] == tail;
    CollectEnds(FieldLine(BINARY, text) + tail, acc, Line(BINARY, text, |text| + 9), tail, Failed(InvalidInteger(text)));
  }

  /** A "binary: -n" line stops the process, as make panics on a negative length. */
  lemma NegativeLengthHalts(n: nat, tail: Bytes, acc: Response)
    requires n > 0
    ensures Collect(FieldLine(BINARY, [MINUS] + Decimal(n)) + tail, acc) == Reply(acc, Halted(NegativeLength), tail)
  {
    var text := [MINUS] + Decimal(n);
    AtoiNegative(n);
    ReadFieldLine(BINARY, text, tail);
    assert (FieldLine(BINARY, text) + tail)[|text| + 9..] == tail;
    CollectEnds(FieldLine(BINARY, text) + tail, acc, Line(BINARY, text, |text| + 9), tail, Halted(NegativeLength));
  }

  /** A "binary: n" line with fewer than n bytes after it ends the request with
      a read error, the map as it stands, and the stream used up. */
  lemma ShortFrameEnds(n: nat, payload: Bytes, acc: Response)
    requires |payload| < n
    ensures Collect(FieldLine(BINARY, Decimal(n)) + payload, acc) == Reply(acc, Failed(ShortRead(|payload|)), [])
  {
    var s, line := FieldLine(BINARY, Decimal(n)) + payload, Line(BINARY, Decimal(n), |Decimal(n)| + 9);
    ShortLine(n, payload, s, line);
    CollectQuits(s, acc, line, Failed(ShortRead(|payload|)), |s|);
    assert s[|s|..] == [];
  }

  /** A response ending in "OK" yields the recorded map and no error, and
      leaves exactly the bytes after the "OK" line unread. */
  lemma RequestOk(fs: seq<Field>, tail: Bytes)
    requires forall i :: 0 <= i < |fs| ==> Recordable(fs[i])
    ensures Collect(EncodeAll(fs) + OK_LINE + tail, map[]) == Reply(Record(map[], fs), Success, tail)
  {
    Regroup(EncodeAll(fs), OK_LINE, tail);
    CollectFields(fs, OK_LINE + tail, map[]);
    OkLineEnds(tail, Record(map[], fs));
  }

  /** A response ending in "ACK message" yields the map so far and an error
      whose text is exactly the message, spaces and all. */
  lemma RequestAck(fs: seq<Field>, message: Bytes, tail: Bytes)
    requires forall i :: 0 <= i < |fs| ==> Recordable(fs[i])
    requires NL !in message
    ensures Collect(EncodeAll(fs) + AckLine(message) + tail, map[])
         == Reply(Record(map[], fs), Failed(Ack(message)), tail)
  {
    Regroup(EncodeAll(fs), AckLine(message), tail);
    CollectFields(fs, AckLine(message) + tail, map[]);
    AckLineEnds(message, tail, Record(map[], fs));
  }

  /** A binary length that strconv.Atoi refuses ends the request with that error. */
  lemma RequestBadLength(fs: seq<Field>, text: Bytes, tail: Bytes)
    requires forall i :: 0 <= i < |fs| ==> Recordable(fs[i])
    requires NL !in text && Atoi(text) == None
    ensures Collect(EncodeAll(fs) + FieldLine(BINARY, text) + tail, map[])
         == Reply(Record(map[], fs), Failed(InvalidInteger(text)), tail)
  {
    Regroup(EncodeAll(fs), FieldLine(BINARY, text), tail);
    CollectFields(fs, FieldLine(BINARY, text) + tail, map[]);
    BadLengthEnds(text, tail, Record(map[], fs));
  }

  /** A stream that ends before the n bytes a binary line announces is an error,
      never a shorter frame. */
  lemma RequestShortFrame(fs: seq<Field>, n: nat, payload: Bytes)
    requires forall i :: 0 <= i < |fs| ==> Recordable(fs[i])
    requires |payload| < n
    ensures Collect(EncodeAll(fs) + FieldLine(BINARY, Decimal(n)) + payload, map[])
         == Reply(Record(map[], fs), Failed(if |payload| == 0 then EndOfStream else UnexpectedEnd), [])
  {
    Regroup(EncodeAll(fs), FieldLine(BINARY, Decimal(n)), payload);
    CollectFields(fs, FieldLine(BINARY, Decimal(n)) + payload, map[]);
    ShortFrameEnds(n, payload, Record(map[], fs));
  }

  /** Request's loop stops when the stream has no newline left: `r` is what
      the whole loop comes to, `s` what is left to read, `acc` the map so far. */
  lemma CollectHalts(r: Reply, s: Bytes, acc: Response)
    requires r == Collect(s, acc) && ReadResponse(s).None?
    ensures r == Reply(acc, Halted(ReadFailed), [])
  {
  }
}
