# mpdconn: the protocol engine of a Music Player Daemon client

This project models `mpdconn.go`, a small client for the Music Player Daemon
(MPD) text protocol, and proves properties of the model in Dafny. The
connection is a byte stream: the bytes the server sends, which the buffered
reader takes from the front, and a log of everything the client writes.

- `wire.dfy` (module `Wire`) holds bytes, the protocol tokens ("OK", "ACK",
  "binary", "size", "albumart") and the parts of Go's standard library the
  engine relies on: `strings.Index` on one byte, `strings.TrimSuffix`, and
  `strconv.Atoi` with its inverse, the `%d` verb.
- `lines.dfy` (module `Lines`) models the line tokenizer `readResponse` and
  the greeting check of `NewMPDconn`, both as pure functions of the unread
  bytes. It also defines the outcomes the engine ends in: success, an error
  value handed back, or a stop of the process (`log.Fatal`, or the panic of
  `make` on a negative length).
- `requests.dfy` (module `Requests`) models the response loop of `Request` as
  the function `Collect` of the unread bytes and the map so far. It then
  proves what the loop does with the responses a server sends: fields stored
  with the last write winning, binary frames taken by length, and each
  terminal or error line.
- `cover.dfy` (module `Cover`) models the two loops of `DownloadCover` as the
  mutually recursive functions `Start` (the head of the outer loop) and `Run`
  (the inner loop). It proves the chunked-transfer behaviour over whole
  streams of replies.
- `client.dfy` (module `Client`) is the `MPDconn` object, the class
  `MpdConn`. It has two fields: `rest`, the bytes the reader has yet to take,
  and `out`, the write log. Its methods `Request` and `DownloadCover` run the
  source's loops imperatively. Each method is proved to end in exactly the
  state and result that `Collect` or `Start` gives.

Where the code and its written description disagree, the model follows the
code:
- A `binary: n` line is stored in `Request`'s map under "binary", with its
  length text as the value (mpdconn.go:82 runs after the switch).
- The greeting is split on single spaces only.
- The greeting's newline is not trimmed, so a bare "OK\n" greeting is
  refused.

## Model

| member | source | states |
|---|---|---|
| Wire.IndexOf | mpdconn.go:91-97 | the position found holds the byte and no earlier position does; None exactly when the byte is absent |
| Wire.TrimSuffix | mpdconn.go:96-104 | one trailing copy of the byte is dropped when present, and nothing changes otherwise |
| Wire.TrimSuffixOnce | mpdconn.go:104 | only one copy is stripped: `t + [b]` trims back to `t` |
| Wire.Decimal | mpdconn.go:126 | the %d text of a count is non-empty, all digits, with no leading zero |
| Wire.AtoiDecimal | mpdconn.go:151 | strconv.Atoi reads the %d text of every count back as that count; the text holds no space or newline |
| Wire.Atoi | mpdconn.go:69-72 | a number is read only from a non-empty text, and a negative one only from a text that starts with a minus sign |
| Wire.AtoiPlain | mpdconn.go:69-72 | a text strconv.Atoi accepts holds no space and no newline, so it is always a whole value field of a line |
| Wire.AtoiNegative | mpdconn.go:69-74 | a minus sign and digits parse as the negative number |
| Wire.AtoiRejects | mpdconn.go:69-72 | text with a byte that is neither a digit nor a leading sign is a syntax error |
| Lines.ReadString | mpdconn.go:91 | ReadString('\n') returns a prefix of the unread bytes, all of them when it finds no newline |
| Lines.ReadStringFinds | mpdconn.go:91 | a newline is found exactly when one is left, and the data stops at the first newline |
| Lines.ReadStringThrough | mpdconn.go:91 | on a newline-free text and its newline, ReadString returns exactly that line |
| Lines.FirstField | mpdconn.go:36 | element 0 of the split is a prefix of the text holding no space, and a space follows it unless it is the whole text |
| Lines.AfterFirstSpace | mpdconn.go:97-103 | with a space in the text, the text is the first field, one space and the value; with none, the value is empty |
| Lines.ReadResponse | mpdconn.go:89-108 | a line read takes at least one byte and no more than are left |
| Lines.ReadResponseFinds | mpdconn.go:91-94 | readResponse fails exactly when no newline is left; otherwise it takes the stream through its first newline and no further |
| Lines.SplitAtFirstSpace | mpdconn.go:97-103 | SplitN(text, " ", 2) splits at the first space only: the value keeps every later space |
| Lines.ReadSpacedLine | mpdconn.go:96-106 | `first value\n` tokenizes to (first less one trailing colon, value), whole, spaces in the value included |
| Lines.ReadFieldLine | mpdconn.go:96-106 | round trip: `key: value\n` reads back as (key, value) |
| Lines.ReadBareLine | mpdconn.go:99-104 | a line with no space yields the empty value and its text less at most one trailing colon |
| Lines.Greeting | mpdconn.go:34-40 | a refused greeting carries the raw line, its newline included, or everything left when there is no newline |
| Lines.GreetingAccepted | mpdconn.go:34-38 | the greeting is accepted if and only if the stream starts with "OK" followed by a space or by the end of the stream |
| Lines.GreetingVersion | mpdconn.go:34-42 | "OK MPD version\n" is accepted and takes exactly its own bytes |
| Lines.GreetingBareOk | mpdconn.go:36-39 | a bare "OK\n" greeting is refused with "OK\n" as the error text |
| Requests.CommandLine | mpdconn.go:48-49 | the command sent ends in exactly one newline: unchanged if it already had one, one added otherwise |
| Requests.CommandLineIdempotent | mpdconn.go:48 | sending a command line as a command does not double its newline |
| Requests.Dispatch | mpdconn.go:63-82 | a stored line and a stop take the line and at most the bytes left after it |
| Requests.Collect | mpdconn.go:57-84 | the response loop never puts bytes back, so what it leaves unread is a suffix of the stream, and it never removes a key from the map |
| Requests.Record | mpdconn.go:82 | storing fields keeps every key already in the map, and the last field's key ends up holding the last field's value |
| Requests.RecordLastWriteWins | mpdconn.go:82 | a key is in the map if and only if it was there or some field carries it, and it then holds the value of the last such field |
| Requests.CollectText | mpdconn.go:82 | a `key: value` line is consumed whole and stored |
| Requests.CollectFrame | mpdconn.go:68-82 | `binary: n` is consumed with exactly n raw bytes, which are never scanned for newlines, and "binary" is stored with its length text |
| Requests.CollectField | mpdconn.go:68-82 | every field the loop stores is consumed whole and stored under its key |
| Requests.CollectFields | mpdconn.go:57-84 | a run of fields is consumed in order and recorded in the map |
| Requests.OkLineEnds | mpdconn.go:64-65 | "OK" ends the loop with the map as it stands and the bytes after the line unread |
| Requests.AckLineEnds | mpdconn.go:66-67 | "ACK message" ends the loop with the message, verbatim, as the error |
| Requests.BadLengthEnds | mpdconn.go:69-72 | a binary length Atoi refuses ends the loop with that error |
| Requests.NegativeLengthHalts | mpdconn.go:74 | a negative binary length stops the process |
| Requests.ShortFrameEnds | mpdconn.go:76-79 | fewer bytes than announced end the loop with io.EOF or io.ErrUnexpectedEOF, the stream used up |
| Requests.RequestOk | mpdconn.go:57-84 | a response of fields and "OK" yields the recorded map, no error, and exactly the bytes after "OK" left unread |
| Requests.RequestAck | mpdconn.go:57-84 | fields then "ACK message" yield the map so far and the message as the error |
| Requests.RequestBadLength | mpdconn.go:57-84 | fields then a binary line with an unreadable length yield the map so far and the Atoi error |
| Requests.RequestShortFrame | mpdconn.go:57-84 | fields then a binary frame cut short yield the map so far and a read error, never a shorter frame |
| Cover.AlbumArt | mpdconn.go:126 | the command starts with "albumart" and ends in a newline |
| Cover.AlbumArtOffset | mpdconn.go:126 | the command's last field is the offset, and it reads back as that offset |
| Cover.Start | mpdconn.go:123-126 | from the head of the outer loop the download never puts bytes back: it leaves a suffix of the stream unread |
| Cover.Run | mpdconn.go:128-170 | the inner loop likewise leaves a suffix of the stream unread |
| Cover.Act | mpdconn.go:135-169 | a returned line is never a success; on going on, the offset grows by exactly the bytes taken after the line |
| Cover.RunFacts | mpdconn.go:128-170 | through the inner loop the offset grows exactly with the file, the file and the command log only grow, and success means the offset has reached the total |
| Cover.StartFacts | mpdconn.go:123-126 | below the total the next thing sent is the command for the current offset; at or above it the download succeeds without reading or sending |
| Cover.DownloadStarts | mpdconn.go:112-126 | the first command is for offset 0; the offset equals the bytes written; a success has written at least the last total announced |
| Cover.RunInfoItem | mpdconn.go:139-169 | a line of another type is consumed and ignored |
| Cover.RunTotalItem | mpdconn.go:144-148 | "size: n" is consumed and sets the total to n |
| Cover.RunChunkItem | mpdconn.go:150-168 | "binary: n" and its n bytes are consumed, the bytes appended to the file and n added to the offset |
| Cover.RunItem | mpdconn.go:139-169 | every item is consumed whole: a chunk written and counted, a total recorded, anything else ignored |
| Cover.RunItems | mpdconn.go:128-170 | a run of items writes its chunks in arrival order, counts them in the offset and ends with the last total announced |
| Cover.RunReply | mpdconn.go:135-136 | a whole reply, items then "OK", takes the inner loop back to the head of the outer loop having taken exactly the reply |
| Cover.RunAckLine | mpdconn.go:141-142 | "ACK message" makes DownloadCover return the message as its error |
| Cover.RunAck | mpdconn.go:128-170 | a reply cut short by "ACK message" returns the message, with the chunks before it written |
| Cover.RunBadTotal | mpdconn.go:144-148 | a "size" value Atoi refuses makes DownloadCover return that error |
| Cover.RunShortChunk | mpdconn.go:156-161 | a stream ending before the announced chunk is complete is a read error, and none of the partial chunk reaches the file |
| Cover.RunHalts | mpdconn.go:130-133 | a stream with no newline left stops the process |
| Cover.RunReplies | mpdconn.go:123-172 | replies that all end in "OK" and reach the total: success, one command per round at the offset reached so far, every chunk written in arrival order, exactly the replies taken |
| Cover.TenBytesInTwoRounds | mpdconn.go:112-172 | "size: 10" with chunks of 6 and then 4 bytes: commands for offsets 0 and 6 only, and the file holds both chunks in order |
| Client.MpdConn.ReadString | mpdconn.go:91 | the method takes from the stream exactly what Lines.ReadString returns |
| Client.MpdConn.ReadResponse | mpdconn.go:89-108 | the method returns Lines.ReadResponse of the stream and takes exactly the line |
| Client.MpdConn.ReadFull | mpdconn.go:76 | io.ReadFull fills the buffer from the stream, stopping early only when the stream runs out |
| Client.MpdConn.ReadFrame | mpdconn.go:74-76 | a frame of n bytes, or all that is left when fewer remain, is taken from the front of the stream |
| Client.MpdConn.NewMpdConn | mpdconn.go:34-42 | the connection is kept exactly when Greeting accepts, with the greeting taken; otherwise the error carries the raw line |
| Client.MpdConn.Request | mpdconn.go:46-87 | writes exactly CommandLine(req); the map, status and unread bytes are those of Collect |
| Client.MpdConn.ReceiveField | mpdconn.go:63-82 | one line of the response loop: exactly the line and, for a binary line, its frame are taken from the stream, and the outcome is Dispatch's, a stop with its status or a store of the value under the line's type |
| Client.MpdConn.ReceiveFrame | mpdconn.go:156-161 | the payload of "binary: n": all n bytes when they are there, which Act writes and counts; otherwise all that is left, and Act's read error |
| Client.MpdConn.ReceiveValue | mpdconn.go:135-169 | one line of the inner loop other than "OK": exactly the line and, for a binary line, its payload are taken; the loop goes on with Act's new total and offset and the payload appended to the file, or DownloadCover returns Act's status with total, offset and file unchanged |
| Client.MpdConn.ReceiveReply | mpdconn.go:128-170 | the inner loop ends where Run does: at the head of the outer loop or at DownloadCover's result |
| Client.MpdConn.DownloadCover | mpdconn.go:110-176 | the bytes handed to the file's writer, the status, the unread bytes and the commands sent are those of Start with total 1, offset 0 and an empty file |

## Left out

- net.Dial and the TCP connection (mpdconn.go:25-32) are not modelled. The connection is given as the bytes the server sends, and the model keeps a log of the client's writes.
- os.Create, the bufio.Writer and the deferred Flush and Close (mpdconn.go:114-121) are not modelled. The file is the sequence of bytes handed to the writer, starting empty.
- Client.MpdConn.DownloadCover: an error from w.Write (mpdconn.go:163-166) is not modelled, so every payload is handed to the buffered writer. On Halted(ReadFailed), log.Fatal (mpdconn.go:131-133) exits without running the deferred w.Flush (mpdconn.go:121), so `written` is what was handed to the bufio.Writer and the file may lack its unflushed tail. The panic of make (mpdconn.go:156) does run the deferred calls.
- Client.MpdConn.Request: an error from m.conn.Write (mpdconn.go:49-53) is not modelled, and the write always succeeds.
- The write errors of fmt.Fprintf (mpdconn.go:126) are ignored, as the code ignores them.
- log.Fatal (mpdconn.go:60, 132) and the panic of make on a negative length (mpdconn.go:74, 156) are modelled as a Halted status, not as the end of the process. On a failed read, the stream is left empty.
- Wire.Atoi: strconv.Atoi's range errors are not modelled, since integers are unbounded here. Only its syntax errors are.
- The %s in the albumart command inserts the name verbatim. A name holding a quote or a newline is sent as is, and the model does not say what a server makes of it.
- Errors are modelled as values, such as the ACK message or the refused text. Go's error types and message wording are not modelled.
