/** The web server's request reader: it collects the header lines of a request up to the
    blank line that ends the header, then classifies the request by its first line. */
module WebServer {
  import opened Sockets
  import opened Lines
  import opened Seqs
  import opened LineReader
  import opened RequestLine

  /** The line that ends the header: empty, or exactly the terminator. (Lines produced by the
      reader always end with the terminator, so only the second form occurs.) */
  predicate IsBlank(line: string)
  {
    line == [] || line == Terminator
  }

  /** The header lines before the first blank line of a list of lines, or None when none of
      them is blank. */
  function BeforeBlank(ls: seq<string>): (r: Option<seq<string>>)
    ensures r.None? <==> forall k :: 0 <= k < |ls| ==> !IsBlank(ls[k])
    ensures r.Some? ==>
              |r.value| < |ls| && r.value == ls[..|r.value|] && IsBlank(ls[|r.value|]) &&
              forall k :: 0 <= k < |r.value| ==> !IsBlank(ls[k])
  {
    if ls == [] then None
    else if IsBlank(ls[0]) then Some([])
    else match BeforeBlank(ls[1..])
      case None => None
      case Some(h) => Some([ls[0]] + h)
  }

  /** `ls` in front of the header lines `h`, if there are any. */
  function Prepend(ls: seq<string>, h: Option<seq<string>>): Option<seq<string>>
  {
    match h
    case None => None
    case Some(lines) => Some(ls + lines)
  }

  /** The header of a byte stream: its complete lines before the first blank one, or None when
      the stream holds no complete blank line. */
  function HeaderOf(s: string): Option<seq<string>>
    decreases |s|
  {
    match PeelLine(s)
    case None => None
    case Some((line, rest)) => if IsBlank(line) then Some([]) else Prepend([line], HeaderOf(rest))
  }

  /** What readRequest returns for the stream `s` (the status, and the filename as it is
      afterwards): the classification of the header, or 400 with the filename untouched when
      the connection ends before the blank line, even if a valid request line came before. */
  function Response(s: string, filename: string): (int, string)
  {
    match HeaderOf(s)
    case None => (BadRequest, filename)
    case Some(lines) => Classify(lines, filename)
  }

  lemma HeaderStep(line: string, rest: string)
    requires IsLine(line)
    ensures HeaderOf(line + rest) == if IsBlank(line) then Some([]) else Prepend([line], HeaderOf(rest))
  {
    PeelLineOfLine(line, rest);
  }

  lemma PrependNothing(h: Option<seq<string>>)
    ensures Prepend([], h) == h
  {
    if h.Some? {
      AppendEmpty(h.value);
    }
  }

  lemma PrependPrepend(ls: seq<string>, line: string, h: Option<seq<string>>)
    ensures Prepend(ls, Prepend([line], h)) == Prepend(ls + [line], h)
  {
    if h.Some? {
      AppendAssoc(ls, [line], h.value);
    }
  }

  /** The stream-level header agrees with the line-level one: the lines of the stream before
      its first blank line. */
  lemma {:induction false} HeaderOfLines(s: string)
    decreases |s|
    ensures HeaderOf(s) == BeforeBlank(SplitLines(s))
  {
    match PeelLine(s)
    case None =>
    case Some((line, rest)) =>
      HeaderOfLines(rest);
      var ls := SplitLines(rest);
      var all := [line] + ls;
      assert SplitLines(s) == all;
      assert all[0] == line && all[1..] == ls;
  }

  /** The whole decision over a stream: 200 with the second word of the first header line as
      the filename when the stream holds a blank line and the first line before it is a valid
      GET, and otherwise 400 with the filename untouched. */
  lemma ResponseIff(s: string, filename: string)
    ensures var header := BeforeBlank(SplitLines(s));
            Response(s, filename) ==
            if header.Some? && header.value != [] && ValidGet(header.value[0])
            then (Ok, Words(header.value[0])[1])
            else (BadRequest, filename)
  {
    HeaderOfLines(s);
    if HeaderOf(s).Some? {
      ClassifyIff(HeaderOf(s).value, filename);
    }
  }

  /** A request whose first line is blank has no request line and is answered 400. */
  lemma BlankFirstLine(rest: string, filename: string)
    ensures Response(Terminator + rest, filename) == (BadRequest, filename)
  {
    assert TermAt(Terminator, 0);
    HeaderStep(Terminator, rest);
  }

  /** A connection that ends before a blank line is answered 400, however valid its request
      line is. */
  lemma NoBlankLine(s: string, filename: string)
    requires forall k :: 0 <= k < |SplitLines(s)| ==> !IsBlank(SplitLines(s)[k])
    ensures Response(s, filename) == (BadRequest, filename)
  {
    HeaderOfLines(s);
  }

  /** readRequest: reads header lines until the blank line, then classifies the request.
      `filename` is the caller's string before the call and `name` the same string after it;
      `consumed` is every byte read. Bytes read past the blank line are dropped. */
  method ReadRequest(sock: Socket, filename: string) returns (code: int, name: string, ghost consumed: string)
    modifies sock
    ensures sock.sent == old(sock.sent) && sock.writeScript == old(sock.writeScript)
    ensures sock.writeFailures == old(sock.writeFailures)
    ensures sock.received == old(sock.received) + consumed
    ensures consumed <= Delivered(old(sock.incoming))
    ensures (code, name) == Response(Delivered(old(sock.incoming)), filename)
  {
    code := BadRequest;
    name := filename;
    var lines: seq<string> := [];
    var leftovers: string := [];
    ghost var r0 := sock.received;
    ghost var stream := Delivered(sock.incoming);
    consumed := [];
    AppendEmpty(r0);
    AppendEmpty(stream);
    PrependNothing(HeaderOf(stream));
    while true
      invariant sock.sent == old(sock.sent) && sock.writeScript == old(sock.writeScript)
      invariant sock.writeFailures == old(sock.writeFailures)
      invariant sock.received == r0 + consumed
      invariant stream == consumed + Delivered(sock.incoming)
      invariant HeaderOf(stream) == Prepend(lines, HeaderOf(leftovers + Delivered(sock.incoming)))
      decreases Weight(sock.incoming) + |leftovers|
    {
      var r, carry, got := NextLine(sock, leftovers);
      AppendAssoc(r0, consumed, got);
      AppendAssoc(consumed, got, Delivered(sock.incoming));
      consumed := consumed + got;
      if !r.Line? {
        // The connection ended before the blank line: the default status is returned.
        assert HeaderOf(leftovers + got) == None;
        PrefixOfAppend(consumed, []);
        AppendEmpty(consumed);
        return;
      }
      var line := r.text;
      ghost var rest := carry + Delivered(sock.incoming);
      AppendAssoc(leftovers, got, Delivered(sock.incoming));
      AppendAssoc(line, carry, Delivered(sock.incoming));
      HeaderStep(line, rest);
      PrefixOfAppend(consumed, Delivered(sock.incoming));
      if line == [] || line == Terminator {
        AppendEmpty(lines);
        break;
      }
      PrependPrepend(lines, line, HeaderOf(rest));
      lines := lines + [line];
      leftovers := carry;
    }
    if lines != [] {
      match ParseRequest(lines[0])
      case Some(Request(httpMethod, path, version)) =>
        if httpMethod == "GET" && StartsWithHttp(version) {
          name := path;
          code := Ok;
        }
      case None =>
    }
  }
}
