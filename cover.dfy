/** DownloadCover (mpdconn.go:110-176) as a function of the unread bytes: one
    line-by-line machine for its two loops, the outer one asking for the chunk
    at `offset` while `offset < size`, the inner one reading the reply. */
module Cover {
  import opened Wire
  import opened Lines
  import opened Requests

  /** The command DownloadCover sends for the chunk at `offset`:
      albumart "<name>" <offset>, the name inserted verbatim by %s. */
  function AlbumArt(name: Bytes, offset: nat): (r: Bytes)
    ensures |r| > 8 && r[..8] == ALBUMART && r[|r| - 1] == NL
  {
    ALBUMART + [SP, QUOTE] + name + [QUOTE, SP] + Decimal(offset) + [NL]
  }

  /** The offset is the last field of the command, and reads back as itself. */
  lemma {:induction false} AlbumArtOffset(name: Bytes, offset: nat)
    ensures var r := AlbumArt(name, offset);
            var d := Decimal(offset);
            r[|r| - |d| - 2] == SP && Atoi(r[|r| - |d| - 1..|r| - 1]) == Some(offset)
  {
    var d := Decimal(offset);
    var r := AlbumArt(name, offset);
    assert r[|r| - |d| - 1..|r| - 1] == d;
    AtoiDecimal(offset);
  }

  /** The commands sent for the offsets `asked`, in order. */
  function Sent(name: Bytes, asked: seq<nat>): Bytes {
    if |asked| == 0 then [] else AlbumArt(name, asked[0]) + Sent(name, asked[1..])
  }

  /** What the inner loop does with one line, `left` bytes remaining after it. */
  datatype Action =
    | Break                            // "OK": leave the inner loop
    | Quit(status: Status, used: nat)  // return (or stop), having taken `used` bytes
    | Go(size: int, skip: nat, offset: nat)  // go on after `skip` bytes, writing those past the line to the file, with total `size` and `offset` bytes written

  /** The inner loop's decision on one line (mpdconn.go:135-169), the total
      standing at `size` and `offset` bytes written: "size: z" sets the total,
      "binary: n" writes the n bytes after the line and adds n to `offset`,
      and any other type is ignored. */
  function Act(line: Line, left: nat, size: int, offset: nat): (r: Action)
    ensures r.Quit? ==> line.len <= r.used <= line.len + left && r.status != Success
    ensures r.Go? ==> line.len <= r.skip <= line.len + left && r.offset == offset + (r.skip - line.len)
  {
    if line.dtype == OK then Break
    else if line.dtype == ACK then Quit(Failed(Ack(line.value)), line.len)
    else if line.dtype != SIZE && line.dtype != BINARY then Go(size, line.len, offset)
    else
      // both "size" and "binary" parse their value with strconv.Atoi first
      match Atoi(line.value)
      case None => Quit(Failed(InvalidInteger(line.value)), line.len)
      case Some(n) =>
        if line.dtype == SIZE then Go(n, line.len, offset)
        else if n < 0 then Quit(Halted(NegativeLength), line.len)
        else if left < n then Quit(Failed(ShortRead(left)), line.len + left)
        else Go(size, line.len + n, offset + n)
  }


  /** The result of DownloadCover: its status, the final total and offset,
      the bytes written to the file, everything sent on the connection, and
      the bytes left unread. */
  datatype Download = Download(status: Status, size: int, offset: nat, written: Bytes, log: Bytes, rest: Bytes)

  /** The head of DownloadCover's outer loop (mpdconn.go:123-126) with `s`
      unread, the total standing at `size`, `offset` bytes counted, `w`
      written to the file and `log` sent: it returns once `offset >= size`,
      and otherwise sends the command for `offset` and enters the inner loop. */
  function Start(s: Bytes, name: Bytes, size: int, offset: nat, w: Bytes, log: Bytes): (r: Download)
    ensures SuffixOf(r.rest, s)
    decreases |s|, 1
  {
    if offset >= size then Download(Success, size, offset, w, log, s)
    else Run(s, name, size, offset, w, log + AlbumArt(name, offset))
  }

  /** DownloadCover's inner loop (mpdconn.go:128-170) on the unread bytes `s`:
      read a line, act on it, and go on after it (and after the payload of a
      "binary" line, which is written to the file) until a line makes it
      return; "OK" takes it back to the head of the outer loop. With no
      newline left the read fails and log.Fatal stops the process. */
  function Run(s: Bytes, name: Bytes, size: int, offset: nat, w: Bytes, log: Bytes): (r: Download)
    ensures SuffixOf(r.rest, s)
    decreases |s|, 0
  {
    match ReadResponse(s)
    case None =>
      SuffixAfter(s, |s|);
      Download(Halted(ReadFailed), size, offset, w, log, [])
    case Some(line) =>
      match Act(line, |s| - line.len, size, offset)
      case Break =>
        var r := Start(s[line.len..], name, size, offset, w, log);
        SuffixOfSuffix(s, line.len, r.rest);
        r
      case Quit(status, used) =>
        SuffixAfter(s, used);
        Download(status, size, offset, w, log, s[used..])
      case Go(z, skip, o) =>
        var r := Run(s[skip..], name, z, o, w + s[line.len..skip], log);
        SuffixOfSuffix(s, skip, r.rest);
        r
  }

  // What Act makes of each kind of line, kept apart so that no proof about
  // Run has to evaluate Act itself.

  /** "ACK", a "size" or "binary" line whose value is not a number, and a
      negative "binary" length make DownloadCover return after the line alone. */
  lemma {:induction false} ActStops(line: Line, left: nat, size: int, offset: nat, status: Status)
    requires || (line.dtype == ACK && status == Failed(Ack(line.value)))
             || ((line.dtype == SIZE || line.dtype == BINARY) && Atoi(line.value).None?
                 && status == Failed(InvalidInteger(line.value)))
             || (line.dtype == BINARY && Atoi(line.value).Some? && Atoi(line.value).value < 0
                 && status == Halted(NegativeLength))
    ensures Act(line, left, size, offset) == Quit(status, line.len)
  {
  }

  /** "OK" leaves the inner loop. */
  lemma {:induction false} ActBreaks(line: Line, left: nat, size: int, offset: nat)
    requires line.dtype == OK
    ensures Act(line, left, size, offset) == Break
  {
  }

  /** A line of a type the loop ignores leaves the total as it is (`z` is
      `size`); a "size" line sets it to `z`. */
  lemma {:induction false} ActLine(line: Line, left: nat, size: int, offset: nat, z: int)
    requires || (line.dtype != OK && line.dtype != ACK && line.dtype != SIZE && line.dtype != BINARY && z == size)
             || (line.dtype == SIZE && Atoi(line.value) == Some(z))
    ensures Act(line, left, size, offset) == Go(z, line.len, offset)
  {
  }

  /** A "binary: n" line whose n payload bytes are all there has them written
      and counted. */
  lemma {:induction false} ActSkips(line: Line, left: nat, size: int, offset: nat, n: nat, skip: nat, o: nat)
    requires line.dtype == BINARY && Atoi(line.value) == Some(n) && n <= left
    requires skip == line.len + n && o == offset + n
    ensures Act(line, left, size, offset) == Go(size, skip, o)
  {
  }

  /** A "binary: n" line with fewer than n bytes after it makes DownloadCover
      return the read error, having taken all there is. */
  lemma {:induction false} ActShort(line: Line, left: nat, size: int, offset: nat, n: nat, used: nat)
    requires line.dtype == BINARY && Atoi(line.value) == Some(n) && left < n && used == line.len + left
    ensures Act(line, left, size, offset) == Quit(Failed(ShortRead(left)), used)
  {
  }

  // Run on a stream whose next line and Act's verdict on it are known.

  lemma {:induction false} RunQuits(s: Bytes, name: Bytes, size: int, offset: nat, w: Bytes, log: Bytes, line: Line, status: Status, used: nat)
    requires ReadResponse(s) == Some(line)
    requires Act(line, |s| - line.len, size, offset) == Quit(status, used)
    ensures used <= |s| && Run(s, name, size, offset, w, log) == Download(status, size, offset, w, log, s[used..])
  {
  }

  lemma {:induction false} RunBreaks(s: Bytes, name: Bytes, size: int, offset: nat, w: Bytes, log: Bytes, line: Line, mid: Bytes)
    requires ReadResponse(s) == Some(line)
    requires Act(line, |s| - line.len, size, offset) == Break
    requires mid == s[line.len..]
    ensures Run(s, name, size, offset, w, log) == Start(mid, name, size, offset, w, log)
  {
  }

  lemma {:induction false} RunGoes(s: Bytes, name: Bytes, size: int, offset: nat, w: Bytes, log: Bytes, line: Line,
                z: int, skip: nat, o: nat, w': Bytes, mid: Bytes)
    requires ReadResponse(s) == Some(line)
    requires Act(line, |s| - line.len, size, offset) == Go(z, skip, o)
    requires skip <= |s| && w' == w + s[line.len..skip] && mid == s[skip..]
    ensures Run(s, name, size, offset, w, log) == Run(mid, name, z, o, w', log)
  {
  }

  /** Below the total, the head of the outer loop sends the command for the
      current offset and enters the inner loop. */
  lemma {:induction false} StartRuns(s: Bytes, name: Bytes, size: int, offset: nat, w: Bytes, log: Bytes, log': Bytes)
    requires offset < size && log' == log + AlbumArt(name, offset)
    ensures Start(s, name, size, offset, w, log) == Run(s, name, size, offset, w, log')
  {
  }

  // One step of DownloadCover's inner loop: `r` is what the whole download
  // comes to, `s` is what is left to read.

  /** The loop stops when the stream has no newline left. */
  lemma {:induction false} RunHaltsAt(r: Download, s: Bytes, name: Bytes, size: int, offset: nat, w: Bytes, log: Bytes)
    requires r == Run(s, name, size, offset, w, log) && ReadResponse(s).None?
    ensures r == Download(Halted(ReadFailed), size, offset, w, log, [])
  {
  }

  /** "OK" goes back to the head of the outer loop. */
  lemma {:induction false} RunBreaksAt(r: Download, s: Bytes, name: Bytes, size: int, offset: nat, w: Bytes, log: Bytes,
                    line: Line, mid: Bytes)
    requires r == Run(s, name, size, offset, w, log) && ReadResponse(s) == Some(line) && mid == s[line.len..]
    requires line.dtype == OK
    ensures r == Start(mid, name, size, offset, w, log)
  {
    ActBreaks(line, |s| - line.len, size, offset);
  }

  // What the loops promise on every stream.

  /** The inner loop: the bytes counted in `offset` grow exactly with the
      file, the file and the log only grow, and a success means `offset` has
      reached the total. */
  lemma {:induction false} RunFacts(s: Bytes, name: Bytes, size: int, offset: nat, w: Bytes, log: Bytes)
    ensures var r := Run(s, name, size, offset, w, log);
            r.offset + |w| == offset + |r.written| && w <= r.written && log <= r.log
            && (r.status == Success ==> r.offset >= r.size)
    decreases |s|, 0
  {
    var line := ReadResponse(s);
    if line.Some? {
      var a := Act(line.value, |s| - line.value.len, size, offset);
      if a.Break? {
        RunBreaks(s, name, size, offset, w, log, line.value, s[line.value.len..]);
        StartFacts(s[line.value.len..], name, size, offset, w, log);
      } else if a.Quit? {
        RunQuits(s, name, size, offset, w, log, line.value, a.status, a.used);
      } else {
        var chunk, mid := s[line.value.len..a.skip], s[a.skip..];
        RunGoes(s, name, size, offset, w, log, line.value, a.size, a.skip, a.offset, w + chunk, mid);
        RunFacts(mid, name, a.size, a.offset, w + chunk, log);
      }
    }
  }

  /** The head of the outer loop: below the total, the next thing sent is the
      command for the current offset; at or above it, nothing is sent or read
      and the download has succeeded. */
  lemma {:induction false} StartFacts(s: Bytes, name: Bytes, size: int, offset: nat, w: Bytes, log: Bytes)
    ensures var r := Start(s, name, size, offset, w, log);
            r.offset + |w| == offset + |r.written| && w <= r.written && log <= r.log
            && (r.status == Success ==> r.offset >= r.size)
            && (offset < size ==> log + AlbumArt(name, offset) <= r.log)
            && (offset >= size ==> r == Download(Success, size, offset, w, log, s))
    decreases |s|, 1
  {
    if offset < size {
      RunFacts(s, name, size, offset, w, log + AlbumArt(name, offset));
    }
  }

  /** DownloadCover starts with total 1, offset 0 and an empty file: the first
      thing it sends is the command for offset 0, the file holds exactly the
      bytes counted, and a successful download has written at least as many
      bytes as the last total it heard. */
  lemma {:induction false} DownloadStarts(s: Bytes, name: Bytes, log: Bytes)
    ensures var r := Start(s, name, 1, 0, [], log);
            log + AlbumArt(name, 0) <= r.log && r.offset == |r.written|
            && (r.status == Success ==> |r.written| >= r.size)
  {
    StartFacts(s, name, 1, 0, [], log);
  }

  /** One line of a reply to "albumart", as the server sends it: a line the
      client ignores, the total size of the picture, or a chunk of it. */
  datatype Item = Info(key: Bytes, value: Bytes) | Total(total: nat) | Chunk(payload: Bytes)

  /** An Info line's type is none the inner loop acts on. */
  predicate Plain(it: Item) {
    match it
    case Info(k, v) => SP !in k && NL !in k && NL !in v && k != OK && k != ACK && k != SIZE && k != BINARY
    case Total(_) => true
    case Chunk(_) => true
  }

  predicate AllPlain(items: seq<Item>) {
    forall i :: 0 <= i < |items| ==> Plain(items[i])
  }

  function EncodeItem(it: Item): Bytes {
    match it
    case Info(k, v) => FieldLine(k, v)
    case Total(n) => FieldLine(SIZE, Decimal(n))
    case Chunk(p) => FieldLine(BINARY, Decimal(|p|)) + p
  }

  function EncodeItems(items: seq<Item>): Bytes {
    if |items| == 0 then [] else EncodeItem(items[0]) + EncodeItems(items[1..])
  }

  /** The bytes an item has the client write to the file. */
  function Written(it: Item): Bytes {
    match it
    case Chunk(p) => p
    case _ => []
  }

  /** The total after an item, `size` before it. */
  function Resize(it: Item, size: int): int {
    match it
    case Total(n) => n
    case _ => size
  }

  /** The chunks of `items`, in arrival order, joined. */
  function Payloads(items: seq<Item>): Bytes {
    if |items| == 0 then [] else Written(items[0]) + Payloads(items[1..])
  }

  /** The total after `items`: the last "size" line, or `size` if there is none. */
  function LastTotal(items: seq<Item>, size: int): int {
    if |items| == 0 then size else LastTotal(items[1..], Resize(items[0], size))
  }

  // How each kind of item reads and what Act makes of it, apart from Run.

  lemma {:induction false} InfoLine(key: Bytes, value: Bytes, tail: Bytes, size: int, offset: nat)
    requires Plain(Info(key, value))
    ensures var s, line := FieldLine(key, value) + tail, Line(key, value, |key| + |value| + 3);
            ReadResponse(s) == Some(line) && |s| - line.len == |tail|
            && Act(line, |tail|, size, offset) == Go(size, line.len, offset)
            && s[line.len..line.len] == [] && s[line.len..] == tail
  {
    ReadFieldLine(key, value, tail);
    ActLine(Line(key, value, |key| + |value| + 3), |tail|, size, offset, size);
    assert (FieldLine(key, value) + tail)[|key| + |value| + 3..] == tail;
  }

  lemma {:induction false} TotalLine(n: nat, tail: Bytes, size: int, offset: nat)
    ensures var s, line := FieldLine(SIZE, Decimal(n)) + tail, Line(SIZE, Decimal(n), |Decimal(n)| + 7);
            ReadResponse(s) == Some(line) && |s| - line.len == |tail|
            && Act(line, |tail|, size, offset) == Go(n, line.len, offset)
            && s[line.len..line.len] == [] && s[line.len..] == tail
  {
    AtoiDecimal(n);
    ReadFieldLine(SIZE, Decimal(n), tail);
    ActLine(Line(SIZE, Decimal(n), |Decimal(n)| + 7), |tail|, size, offset, n);
    assert (FieldLine(SIZE, Decimal(n)) + tail)[|Decimal(n)| + 7..] == tail;
  }

  lemma {:induction false} ChunkLine(p: Bytes, tail: Bytes, size: int, offset: nat, s: Bytes, line: Line, skip: nat, o: nat)
    requires s == FieldLine(BINARY, Decimal(|p|)) + (p + tail) && line == Line(BINARY, Decimal(|p|), |Decimal(|p|)| + 9)
    requires skip == line.len + |p| && o == offset + |p|
    ensures ReadResponse(s) == Some(line) && skip <= |s|
    ensures Act(line, |s| - line.len, size, offset) == Go(size, skip, o)
    ensures s[line.len..skip] == p && s[skip..] == tail
  {
    AtoiDecimal(|p|);
    ReadFieldLine(BINARY, Decimal(|p|), p + tail);
    AfterPrefix(FieldLine(BINARY, Decimal(|p|)), p + tail, s, |p|, skip);
    ActSkips(line, |s| - line.len, size, offset, |p|, skip, o);
  }

  // Run over one item of each kind.

  lemma {:induction false} RunInfoItem(it: Item, tail: Bytes, name: Bytes, size: int, offset: nat, w: Bytes, log: Bytes, o: nat)
    requires it.Info? && Plain(it) && o == offset + |Written(it)|
    ensures Run(EncodeItem(it) + tail, name, size, offset, w, log)
         == Run(tail, name, Resize(it, size), o, w + Written(it), log)
  {
    var s, line := EncodeItem(it) + tail, Line(it.key, it.value, |it.key| + |it.value| + 3);
    assert Resize(it, size) == size && w + Written(it) == w && o == offset;
    InfoLine(it.key, it.value, tail, size, offset);
    RunGoes(s, name, size, offset, w, log, line, size, line.len, offset, w, tail);
  }

  lemma {:induction false} RunTotalItem(it: Item, tail: Bytes, name: Bytes, size: int, offset: nat, w: Bytes, log: Bytes, o: nat)
    requires it.Total? && o == offset + |Written(it)|
    ensures Run(EncodeItem(it) + tail, name, size, offset, w, log)
         == Run(tail, name, Resize(it, size), o, w + Written(it), log)
  {
    var n := it.total;
    var s, line := EncodeItem(it) + tail, Line(SIZE, Decimal(n), |Decimal(n)| + 7);
    assert Resize(it, size) == n && w + Written(it) == w && o == offset;
    TotalLine(n, tail, size, offset);
    RunGoes(s, name, size, offset, w, log, line, n, line.len, offset, w, tail);
  }

  lemma {:induction false} RunChunkItem(it: Item, tail: Bytes, name: Bytes, size: int, offset: nat, w: Bytes, log: Bytes, o: nat)
    requires it.Chunk? && o == offset + |Written(it)|
    ensures Run(EncodeItem(it) + tail, name, size, offset, w, log)
         == Run(tail, name, Resize(it, size), o, w + Written(it), log)
  {
    var p := it.payload;
    var s, line := EncodeItem(it) + tail, Line(BINARY, Decimal(|p|), |Decimal(|p|)| + 9);
    var skip := line.len + |p|;
    Regroup(FieldLine(BINARY, Decimal(|p|)), p, tail);
    assert Resize(it, size) == size && Written(it) == p;
    ChunkLine(p, tail, size, offset, s, line, skip, o);
    RunGoes(s, name, size, offset, w, log, line, size, skip, o, w + p, tail);
  }

  /** Every item is consumed whole; a chunk is written to the file and
      counted, a total recorded, anything else ignored. */
  lemma {:induction false} RunItem(it: Item, tail: Bytes, name: Bytes, size: int, offset: nat, w: Bytes, log: Bytes, o: nat)
    requires Plain(it) && o == offset + |Written(it)|
    ensures Run(EncodeItem(it) + tail, name, size, offset, w, log)
         == Run(tail, name, Resize(it, size), o, w + Written(it), log)
  {
    if it.Info? {
      RunInfoItem(it, tail, name, size, offset, w, log, o);
    } else if it.Total? {
      RunTotalItem(it, tail, name, size, offset, w, log, o);
    } else {
      RunChunkItem(it, tail, name, size, offset, w, log, o);
    }
  }

  lemma {:induction false} AllPlainSplit(items: seq<Item>)
    requires AllPlain(items) && |items| > 0
    ensures Plain(items[0]) && AllPlain(items[1..])
  {
    assert forall i :: 0 <= i < |items[1..]| ==> items[1..][i] == items[i + 1];
  }

  /** A run of items is its first item followed by the others. */
  lemma {:induction false} ItemsSplit(items: seq<Item>, tail: Bytes)
    requires |items| > 0
    ensures EncodeItems(items) + tail == EncodeItem(items[0]) + (EncodeItems(items[1..]) + tail)
    ensures Payloads(items) == Written(items[0]) + Payloads(items[1..])
  {
    Regroup(EncodeItem(items[0]), EncodeItems(items[1..]), tail);
  }

  /** The inner loop consumes a run of items in order: it writes their chunks
      to the file, joined in arrival order, counts them in `offset`, and ends
      up with the last total announced. */
  lemma {:induction false} RunItems(items: seq<Item>, tail: Bytes, name: Bytes, size: int, offset: nat, w: Bytes, log: Bytes, o: nat)
    requires AllPlain(items) && o == offset + |Payloads(items)|
    ensures Run(EncodeItems(items) + tail, name, size, offset, w, log)
         == Run(tail, name, LastTotal(items, size), o, w + Payloads(items), log)
    decreases |items|
  {
    if |items| > 0 {
      var it := items[0];
      var size', offset', w' := Resize(it, size), offset + |Written(it)|, w + Written(it);
      ItemsSplit(items, tail);
      AllPlainSplit(items);
      RunItem(it, EncodeItems(items[1..]) + tail, name, size, offset, w, log, offset');
      RunItems(items[1..], tail, name, size', offset', w', log, o);
      Regroup(w, Written(it), Payloads(items[1..]));
    } else {
      assert EncodeItems(items) + tail == tail;
      assert LastTotal(items, size) == size && o == offset;
      assert w + Payloads(items) == w;
    }
  }

  /** A whole reply, items then "OK", takes the inner loop back to the head of
      the outer loop, having written the chunks in arrival order, counted
      them in `offset` and taken exactly the reply. */
  lemma {:induction false} RunReply(items: seq<Item>, tail: Bytes, name: Bytes, size: int, offset: nat, w: Bytes, log: Bytes, o: nat)
    requires AllPlain(items) && o == offset + |Payloads(items)|
    ensures Run(EncodeItems(items) + OK_LINE + tail, name, size, offset, w, log)
         == Start(tail, name, LastTotal(items, size), o, w + Payloads(items), log)
  {
    var z, w' := LastTotal(items, size), w + Payloads(items);
    Regroup(EncodeItems(items), OK_LINE, tail);
    RunItems(items, OK_LINE + tail, name, size, offset, w, log, o);
    ReadBareLine(OK, tail);
    assert (OK_LINE + tail)[3..] == tail;
    ActBreaks(Line(OK, [], 3), |tail|, z, o);
    RunBreaks(OK_LINE + tail, name, z, o, w', log, Line(OK, [], 3), tail);
  }

  /** An "ACK message" line makes DownloadCover return the message, verbatim,
      as its error. */
  lemma {:induction false} RunAckLine(message: Bytes, tail: Bytes, name: Bytes, size: int, offset: nat, w: Bytes, log: Bytes)
    requires NL !in message
    ensures Run(AckLine(message) + tail, name, size, offset, w, log)
         == Download(Failed(Ack(message)), size, offset, w, log, tail)
  {
    var line := Line(ACK, message, |message| + 5);
    ReadSpacedLine(ACK, message, tail);
    assert (AckLine(message) + tail)[line.len..] == tail;
    ActStops(line, |tail|, size, offset, Failed(Ack(message)));
    RunQuits(AckLine(message) + tail, name, size, offset, w, log, line, Failed(Ack(message)), line.len);
  }

  /** A reply cut short by "ACK message" after some items makes DownloadCover
      return the message as its error, with the chunks before it written. */
  lemma {:induction false} RunAck(items: seq<Item>, message: Bytes, tail: Bytes, name: Bytes, size: int, offset: nat, w: Bytes, log: Bytes, o: nat)
    requires AllPlain(items) && NL !in message && o == offset + |Payloads(items)|
    ensures Run(EncodeItems(items) + AckLine(message) + tail, name, size, offset, w, log)
         == Download(Failed(Ack(message)), LastTotal(items, size), o, w + Payloads(items), log, tail)
  {
    Regroup(EncodeItems(items), AckLine(message), tail);
    RunItems(items, AckLine(message) + tail, name, size, offset, w, log, o);
    RunAckLine(message, tail, name, LastTotal(items, size), o, w + Payloads(items), log);
  }

  /** A "size" line whose value strconv.Atoi refuses makes DownloadCover return that error. */
  lemma {:induction false} RunBadTotal(text: Bytes, tail: Bytes, name: Bytes, size: int, offset: nat, w: Bytes, log: Bytes)
    requires NL !in text && Atoi(text) == None
    ensures Run(FieldLine(SIZE, text) + tail, name, size, offset, w, log)
         == Download(Failed(InvalidInteger(text)), size, offset, w, log, tail)
  {
    var line := Line(SIZE, text, |text| + 7);
    ReadFieldLine(SIZE, text, tail);
    assert (FieldLine(SIZE, text) + tail)[line.len..] == tail;
    ActStops(line, |tail|, size, offset, Failed(InvalidInteger(text)));
    RunQuits(FieldLine(SIZE, text) + tail, name, size, offset, w, log, line, Failed(InvalidInteger(text)), line.len);
  }

  /** A stream that ends before the n bytes a "binary" line announces is an
      error, and nothing of the short payload reaches the file. */
  lemma {:induction false} RunShortChunk(n: nat, payload: Bytes, name: Bytes, size: int, offset: nat, w: Bytes, log: Bytes)
    requires |payload| < n
    ensures Run(FieldLine(BINARY, Decimal(n)) + payload, name, size, offset, w, log)
         == Download(Failed(if |payload| == 0 then EndOfStream else UnexpectedEnd), size, offset, w, log, [])
  {
    var s, line := FieldLine(BINARY, Decimal(n)) + payload, Line(BINARY, Decimal(n), |Decimal(n)| + 9);
    ShortLine(n, payload, s, line);
    AtoiDecimal(n);
    ActShort(line, |s| - line.len, size, offset, n, |s|);
    RunQuits(s, name, size, offset, w, log, line, Failed(ShortRead(|payload|)), |s|);
    assert s[|s|..] == [];
  }

  /** A stream with no newline left stops the process. */
  lemma {:induction false} RunHalts(s: Bytes, name: Bytes, size: int, offset: nat, w: Bytes, log: Bytes)
    requires NL !in s
    ensures Run(s, name, size, offset, w, log) == Download(Halted(ReadFailed), size, offset, w, log, [])
  {
  }

  /** The server's replies to successive "albumart" commands, each items then "OK". */
  function Replies(rs: seq<seq<Item>>): Bytes {
    if |rs| == 0 then [] else EncodeItems(rs[0]) + OK_LINE + Replies(rs[1..])
  }

  predicate AllPlainReplies(rs: seq<seq<Item>>) {
    forall i :: 0 <= i < |rs| ==> AllPlain(rs[i])
  }

  /** The chunks of all replies, in arrival order, joined. */
  function AllPayloads(rs: seq<seq<Item>>): Bytes {
    if |rs| == 0 then [] else Payloads(rs[0]) + AllPayloads(rs[1..])
  }

  /** The total after all replies. */
  function FinalTotal(rs: seq<seq<Item>>, size: int): int {
    if |rs| == 0 then size else FinalTotal(rs[1..], LastTotal(rs[0], size))
  }

  /** The offsets asked for with the replies `rs`, the first `offset`, each
      next one the offset its predecessor's chunks bring it to. */
  function Offsets(rs: seq<seq<Item>>, offset: nat): seq<nat> {
    if |rs| == 0 then [] else [offset] + Offsets(rs[1..], offset + |Payloads(rs[0])|)
  }

  /** The replies are exactly the rounds DownloadCover runs: every reply but
      the last leaves `offset` below the total, and the last reaches it. */
  predicate Completes(rs: seq<seq<Item>>, size: int, offset: nat)
    decreases |rs|
  {
    if |rs| == 0 then offset >= size
    else offset < size && Completes(rs[1..], LastTotal(rs[0], size), offset + |Payloads(rs[0])|)
  }

  /** The replies, one after the other, split as the outer loop meets them. */
  lemma {:induction false} RepliesSplit(rs: seq<seq<Item>>, tail: Bytes)
    requires |rs| > 0
    ensures Replies(rs) + tail == EncodeItems(rs[0]) + OK_LINE + (Replies(rs[1..]) + tail)
  {
    Regroup(EncodeItems(rs[0]) + OK_LINE, Replies(rs[1..]), tail);
  }

  /** The commands for a round and the rounds after it. */
  lemma {:induction false} SentFirst(log: Bytes, name: Bytes, offset: nat, more: seq<nat>)
    ensures log + Sent(name, [offset] + more) == (log + AlbumArt(name, offset)) + Sent(name, more)
  {
    assert ([offset] + more)[1..] == more;
    Regroup(log, AlbumArt(name, offset), Sent(name, more));
  }

  /** What the rounds after the first add up to, seen from before it. */
  lemma {:induction false} RoundsAdd(rs: seq<seq<Item>>, size: int, offset: nat, z: int, o1: nat, o: nat)
    requires |rs| > 0 && z == LastTotal(rs[0], size) && o1 == offset + |Payloads(rs[0])|
    requires o == offset + |AllPayloads(rs)|
    requires AllPlainReplies(rs) && Completes(rs, size, offset)
    ensures offset < size && Completes(rs[1..], z, o1)
    ensures AllPlain(rs[0]) && AllPlainReplies(rs[1..])
    ensures FinalTotal(rs, size) == FinalTotal(rs[1..], z)
    ensures o == o1 + |AllPayloads(rs[1..])|
  {
    assert forall i :: 0 <= i < |rs[1..]| ==> rs[1..][i] == rs[i + 1];
  }

  /** The file and the commands after the first round and the rounds after it. */
  lemma {:induction false} RoundsWrite(rs: seq<seq<Item>>, name: Bytes, offset: nat, w: Bytes, log: Bytes, o1: nat)
    requires |rs| > 0 && o1 == offset + |Payloads(rs[0])|
    ensures w + AllPayloads(rs) == (w + Payloads(rs[0])) + AllPayloads(rs[1..])
    ensures log + Sent(name, Offsets(rs, offset)) == (log + AlbumArt(name, offset)) + Sent(name, Offsets(rs[1..], o1))
  {
    Regroup(w, Payloads(rs[0]), AllPayloads(rs[1..]));
    SentFirst(log, name, offset, Offsets(rs[1..], o1));
  }

  /** A download whose rounds all end on "OK": it succeeds, sends one command
      per round at the offset reached so far, writes every chunk in arrival
      order, and takes exactly the replies from the stream. */
  lemma {:induction false} RunReplies(rs: seq<seq<Item>>, tail: Bytes, name: Bytes, size: int, offset: nat, w: Bytes, log: Bytes, o: nat)
    requires AllPlainReplies(rs) && Completes(rs, size, offset)
    requires o == offset + |AllPayloads(rs)|
    ensures Start(Replies(rs) + tail, name, size, offset, w, log)
         == Download(Success, FinalTotal(rs, size), o, w + AllPayloads(rs), log + Sent(name, Offsets(rs, offset)), tail)
    decreases |rs|
  {
    if |rs| == 0 {
      assert Replies(rs) + tail == tail;
      assert w + AllPayloads(rs) == w && log + Sent(name, Offsets(rs, offset)) == log;
    } else {
      var z := LastTotal(rs[0], size);
      var o1: nat := offset + |Payloads(rs[0])|;
      var w1, log1 := w + Payloads(rs[0]), log + AlbumArt(name, offset);
      var rest := Replies(rs[1..]) + tail;
      RoundsAdd(rs, size, offset, z, o1, o);
      RoundsWrite(rs, name, offset, w, log, o1);
      RepliesSplit(rs, tail);
      StartRuns(Replies(rs) + tail, name, size, offset, w, log, log1);
      RunReply(rs[0], rest, name, size, offset, w, log1, o1);
      RunReplies(rs[1..], tail, name, z, o1, w1, log1, o);
    }
  }

  /** Two replies, one after the other. */
  lemma {:induction false} TwoReplies(a: seq<Item>, b: seq<Item>, size: int, offset: nat, o1: nat, o: nat)
    requires o1 == offset + |Payloads(a)| && o == o1 + |Payloads(b)|
    ensures AllPayloads([a, b]) == Payloads(a) + Payloads(b)
    ensures FinalTotal([a, b], size) == LastTotal(b, LastTotal(a, size))
    ensures Offsets([a, b], offset) == [offset, o1]
    ensures Completes([a, b], size, offset)
        <==> offset < size && o1 < LastTotal(a, size) && o >= LastTotal(b, LastTotal(a, size))
  {
    var rs, z := [a, b], LastTotal(a, size);
    assert rs[1..] == [b] && rs[1..][1..] == [];
    assert AllPayloads(rs[1..]) == Payloads(b) + [];
    assert FinalTotal(rs[1..], z) == FinalTotal([], LastTotal(b, z));
    assert Offsets(rs[1..], o1) == [o1] + Offsets([], o);
    assert Completes(rs[1..], z, o1) == (o1 < z && Completes([], LastTotal(b, z), o));
  }

  lemma {:induction false} SentTwo(name: Bytes, x: nat, y: nat)
    ensures Sent(name, [x, y]) == AlbumArt(name, x) + AlbumArt(name, y)
  {
    assert [x, y][1..] == [y] && [y][1..] == [];
    assert Sent(name, [y]) == AlbumArt(name, y) + [];
  }

  lemma {:induction false} FirstRound(p: Bytes)
    ensures Payloads([Total(10), Chunk(p)]) == p && LastTotal([Total(10), Chunk(p)], 1) == 10
  {
    var items := [Total(10), Chunk(p)];
    assert items[1..] == [Chunk(p)] && items[1..][1..] == [];
    assert Payloads(items[1..]) == p + [];
    assert LastTotal(items[1..], 10) == LastTotal([], 10);
  }

  lemma {:induction false} LastRound(q: Bytes)
    ensures Payloads([Chunk(q)]) == q && LastTotal([Chunk(q)], 10) == 10
  {
    assert [Chunk(q)][1..] == [];
    assert Payloads([Chunk(q)]) == q + [];
  }

  /** The replies of the two rounds below, taken apart. */
  lemma {:induction false} TenBytesRounds(p: Bytes, q: Bytes, name: Bytes)
    requires |p| == 6 && |q| == 4
    ensures var rs := [[Total(10), Chunk(p)], [Chunk(q)]];
            && AllPlainReplies(rs) && Completes(rs, 1, 0)
            && AllPayloads(rs) == p + q && FinalTotal(rs, 1) == 10
            && Sent(name, Offsets(rs, 0)) == AlbumArt(name, 0) + AlbumArt(name, 6)
  {
    var first, second := [Total(10), Chunk(p)], [Chunk(q)];
    FirstRound(p);
    LastRound(q);
    TwoReplies(first, second, 1, 0, 6, 10);
    SentTwo(name, 0, 6);
    assert AllPlainReplies([first, second]) by {
      assert Plain(Total(10)) && Plain(Chunk(p)) && Plain(Chunk(q));
    }
  }

  /** A 10-byte picture sent as "size: 10" with a 6-byte chunk, then a
      4-byte chunk: DownloadCover asks for offsets 0 and 6, no more, and the
      file holds the two chunks in order. */
  lemma {:induction false} TenBytesInTwoRounds(p: Bytes, q: Bytes, name: Bytes, tail: Bytes)
    requires |p| == 6 && |q| == 4
    ensures Start(Replies([[Total(10), Chunk(p)], [Chunk(q)]]) + tail, name, 1, 0, [], [])
         == Download(Success, 10, 10, p + q, AlbumArt(name, 0) + AlbumArt(name, 6), tail)
  {
    var rs := [[Total(10), Chunk(p)], [Chunk(q)]];
    TenBytesRounds(p, q, name);
    RunReplies(rs, tail, name, 1, 0, [], [], 10);
    assert [] + AllPayloads(rs) == p + q;
    assert [] + Sent(name, Offsets(rs, 0)) == AlbumArt(name, 0) + AlbumArt(name, 6);
  }
}
