# netp1 connection protocol engine, in Dafny

This project models the connection handling shared by the two servers of netp1, the line
echo server and the HTTP request reader, and proves what each of them does with the bytes a
peer sends.

- **Sockets** (`sockets.dfy`) models the connected socket as a class. It holds a script of
  read results and a script of write results.
  - A read result is some bytes, an EINTR failure or another failure.
  - An exhausted read script, or a zero-length chunk, is the zero-length read by which the
    peer closes the connection.
  - A write result is a positive number of bytes accepted, an EINTR failure or another
    failure.
  - `Delivered` is the concatenation of the bytes a read script hands over before the stream
    stops. Every property below is stated over it, so none depends on how the bytes were cut
    into chunks.
- **Lines** (`lines.dfy`) gives the specification of CRLF lines.
  - `Find` is `line.find(LINE_TERMINATOR)`.
  - `PeelLine` splits a buffer after its first terminator.
  - `SplitLines` and `Pending` split a whole stream into complete lines and an unfinished tail.
- **LineReader** (`line_reader.dfy`) is the incremental line reader, written once. It is the
  same code in both servers.
  - Bytes read past a line boundary are carried in `leftovers` to the next call.
  - A line already complete in them is split off without reading.
  - Otherwise the socket is read in chunks of at most `ChunkSize` (10) bytes. Each search
    runs over the whole accumulated line.
- **EchoServer** (`echo_server.dfy`) is `processConnection` of the echo server.
  - It gets the next line and writes it back through the partial-write loop.
  - It then trims trailing CR/LF characters and compares the result with `CLOSE`.
  - `EchoOf` is the echo of a byte stream: its complete lines up to and including the first
    CLOSE line.
- **RequestLine** (`request_line.dfy`) is the pure request-line classifier.
  - `Extract` is one `istringstream >>` into a string.
  - `ParseRequest` is the three extractions and the failure check.
  - `StartsWithHttp` is `version.compare(0, 5, "HTTP/") == 0`.
  - `Classify` is the final decision. It is proved against the character-by-character word
    splitter `Words`.
- **WebServer** (`web_server.dfy`) is `readRequest`.
  - It collects header lines up to the first blank line, then classifies the first of them.
  - Its result is proved equal to `Response` of the delivered byte stream.
- **Seqs** (`seqs.dfy`) holds small facts about sequence concatenation, used as proof steps.

Line terminators are `"\r\n"` of length 2, as the comment at webServer.cpp:51 describes them.
Characters stand for bytes.

## Model

| member | source | states |
|---|---|---|
| `Sockets.Socket.Read` | echoServer.cpp:84-93 | Returns at most `maxLen` bytes, and they are the next bytes of the delivered stream. An EINTR failure delivers nothing and leaves the rest of the stream as it was. A zero-length read means the stream is over and was closed by the peer. Any other failure means the stream is over and was broken by an error. |
| `Sockets.Socket.Write` | echoServer.cpp:108-114 | Accepts between 1 and `|data|` bytes and appends exactly that prefix of `data` to what the peer has been sent. An EINTR failure or another failure sends nothing. Only the other failure increments the failure count. |
| `Lines.Find` | echoServer.cpp:78 | None exactly when the buffer holds no CR LF. Otherwise the index of the first CR LF: a terminator starts there and none starts earlier. |
| `Lines.PeelLine` | echoServer.cpp:78-80 | None exactly when there is no terminator. Otherwise the buffer is the line followed by the rest, and the line ends with the terminator and holds no earlier one. |
| `Lines.SplitLines` | echoServer.cpp:74-102 | Every element of the split is a complete line: it ends with CR LF and holds no earlier CR LF. |
| `Lines.SplitLinesConserves` | echoServer.cpp:95-99 | A stream equals its complete lines followed by its unfinished tail, and the tail holds no terminator. No byte is lost, duplicated or reordered. |
| `Lines.PeelLineOfLine` | echoServer.cpp:96-98 | Peeling a complete line followed by anything gives back exactly that line and that remainder. |
| `Lines.SplitLinesAfter` | echoServer.cpp:74-102 | Complete lines placed in front of a stream are exactly the first lines it splits into. |
| `Lines.SplitLinesExtend` | echoServer.cpp:74-102 | Lines of `a + b` are the lines of `a`, then the lines that the tail of `a` completes with `b`. Bytes that arrive later never revise a line already split off. |
| `Lines.CrossChunkTerminator` | echoServer.cpp:95-96 | A CR that ends one chunk and an LF that starts the next form the first terminator of the accumulated line, at the CR's index. |
| `LineReader.NextLine` | echoServer.cpp:75-102 | A terminator in `leftovers` means a line is returned with no read. A returned line and the new carry are `PeelLine` of the old leftovers followed by the bytes read. Those bytes are the next bytes of the stream, and reading stops with the chunk that completes the line. Without a line, the whole stream was read and holds no further terminator. The partial line is dropped, and the result says whether the peer closed or a read failed. |
| `LineReader.ReadLine` | echoServer.cpp:83-101 | The read loop on its own, for a partial line without a terminator. Same guarantees as `NextLine`; proved with loop invariants over the bytes read so far. |
| `EchoServer.TrimCrLf` | echoServer.cpp:122-125 | The result is a prefix of the line that is empty or does not end in CR or LF. Every character removed is CR or LF. |
| `EchoServer.TrimTrailing` | echoServer.cpp:122-125 | The `remove_suffix` loop computes exactly `TrimCrLf` of the line. |
| `EchoServer.IsCloseIff` | echoServer.cpp:122-126 | A line is the CLOSE command exactly when it is `CLOSE` followed only by CR and LF characters. The match is case-sensitive. |
| `EchoServer.EchoedLines` | echoServer.cpp:74-131 | The echoed lines are a prefix of the received lines. None but the last is a CLOSE line, and either all lines are echoed or the last echoed one is CLOSE. |
| `EchoServer.SendLine` | echoServer.cpp:105-117 | On success, exactly the bytes of the line, in order, follow what was sent before. On a failure other than EINTR, a proper prefix of the line went out and it is reported. Reads are untouched. |
| `EchoServer.EchoStep` | echoServer.cpp:104-129 | A stream starting with a complete line echoes that line. If the line is CLOSE it then stops, marked closed. Otherwise it goes on with the echo of the rest. |
| `EchoServer.EchoOfLines` | echoServer.cpp:74-131 | The echoed text of a stream is the concatenation of its complete lines up to and including the first CLOSE line. The echo is marked closed exactly when one of those lines is CLOSE. |
| `EchoServer.EchoOfOpen` | echoServer.cpp:85-88 | A stream with no terminator echoes nothing and is not closed: the partial line at a zero-length read is never written back. |
| `EchoServer.EchoRound` | echoServer.cpp:75-130 | One pass of the loop, over the stream `leftovers` followed by the unread bytes. It consumes the first line and echoes it, continuing if the line is not CLOSE and stopping with CloseCommand if it is. On a write failure the peer got only part of the line, which is a prefix of the echo. With no complete line it stops, having sent nothing, because the peer closed or a read failed, whichever ended the stream. |
| `EchoServer.ProcessConnection` | echoServer.cpp:71-133 | Everything read is a prefix of the delivered stream. The peer is sent exactly the echo of that stream, or a proper prefix of it when a write fails, and the session ends with a write failure exactly when one occurred. A CLOSE ending means the stream holds a CLOSE line and its whole echo was read. A close or read-error ending means the stream holds no CLOSE line and was read to its end; the two are told apart by how the stream ended. |
| `RequestLine.SkipSpace` | webServer.cpp:62 | The index after the run of C-locale whitespace at `i`. |
| `RequestLine.WordEnd` | webServer.cpp:62 | The index after the run of non-whitespace at `i`. |
| `RequestLine.Extract` | webServer.cpp:62-64 | Fails exactly when only whitespace is left. Otherwise it yields the maximal run of non-whitespace after the skipped whitespace, and the position after it. |
| `RequestLine.StartsWithHttp` | webServer.cpp:68 | True exactly when the version has at least 5 characters and its first five are `HTTP/`. |
| `RequestLine.Classify` | webServer.cpp:59-77 | The status is 200 or 400. On 400 the filename is unchanged. |
| `RequestLine.Words` | webServer.cpp:60-64 | A string that starts with a non-whitespace character has at least one word. |
| `RequestLine.WordsAtWord` | webServer.cpp:62-64 | At a non-whitespace character, the words of the rest are the maximal run there followed by the words after it. |
| `RequestLine.ExtractWords` | webServer.cpp:62-64 | One extraction fails exactly when no word is left. Otherwise it takes the first word of what is left. |
| `RequestLine.ParseWords` | webServer.cpp:60-66 | The three extractions succeed exactly when the line has at least three words, and they yield the first three words. |
| `RequestLine.ClassifyIff` | webServer.cpp:59-77 | The result is 200 with the second word as filename exactly when there is a first line and it is a valid GET. A valid GET has at least three words, the first is `GET`, and the third has at least 5 characters and starts with `HTTP/`. Otherwise the result is 400 with the filename unchanged. |
| `RequestLine.LaterWordsIgnored` | webServer.cpp:59-69 | Two request lines that agree on their first three words are classified alike, whatever follows the third word and whatever header lines follow. |
| `WebServer.BeforeBlank` | webServer.cpp:52-54 | None exactly when no line is blank. Otherwise the lines strictly before the first blank line, in order, none of them blank. |
| `WebServer.HeaderStep` | webServer.cpp:52-54 | A blank first line ends the header with no line stored. Any other first line is stored in front of the header of the rest. |
| `WebServer.HeaderOfLines` | webServer.cpp:21-55 | The header collected from a stream is its complete lines before the first blank one. |
| `WebServer.ResponseIff` | webServer.cpp:15-84 | 200 with the first header line's second word as filename exactly when the stream holds a blank line and the first line before it is a valid GET. Otherwise 400 with the filename unchanged. |
| `WebServer.BlankFirstLine` | webServer.cpp:52-59 | A request whose first line is blank is answered 400 and the filename is left alone. |
| `WebServer.NoBlankLine` | webServer.cpp:32-39 | A connection that ends before a blank line is answered 400 with the filename unchanged, however valid its request line. |
| `WebServer.ReadRequest` | webServer.cpp:15-84 | Returns exactly `Response` of the delivered stream: the status, and the filename as it is afterwards. It reads only a prefix of that stream and writes nothing. |

## Left out

- `main` of both servers (echoServer.cpp:136-194, webServer.cpp:93-151) is left out. It is socket creation, `bind` with its port-retry loop, `listen` and `accept`, all operating-system setup.
- The real `read`/`write` system calls and `errno` are replaced by the scripts of the `Socket` class. The scripts are finite, and an exhausted read script behaves as a peer that closed.
- `Sockets.Socket.Write`: a `write` that returns 0 is not modelled. Every accepted count is at least 1. In the source such a result would make the write loop spin forever.
- Logging (`INFO`, `ERROR`, `WARNING`) has no effect on the protocol and is left out. `logging.h`, which also defines `LINE_TERMINATOR` and `termLen`, is not part of this model.
- webServer.h holds only includes and unused macros.
- The commented-out echo loop and pseudocode at echoServer.cpp:27-68 are dead code.
- `processConnection` of the web server (webServer.cpp:86-90) only calls `readRequest` and drops its result.
- Locale-dependent whitespace of `istringstream`: only the "C" locale set (space, tab, LF, VT, FF, CR) is modelled.
- Bytes are modelled as characters. No encoding is involved.
- `EchoServer.ProcessConnection`: on a write failure the contract says the peer got a proper prefix of the echo, not exactly how much of the failing line went out. The amount depends on the write script.
- `EchoServer.SendLine`: on a write failure the contract says only that a proper prefix of the line was sent.
- `WebServer.ReadRequest`: the contract bounds the bytes read by the delivered stream. It does not say how many bytes past the blank line were read and then dropped, since that depends on the chunking.
