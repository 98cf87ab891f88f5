/** The line echo server's connection handler: every complete line the peer sends is written
    back to it unchanged, until the peer closes the connection, a read or a write fails, or
    the peer sends a line that reads "CLOSE" once its trailing CR and LF characters are
    removed. */
module EchoServer {
  import opened Sockets
  import opened Lines
  import opened LineReader
  import opened Seqs

  /** Which of the handler's return statements ended the connection. */
  datatype Ending = ClientClosed | ReadFailure | WriteFailure | CloseCommand

  predicate IsCrLf(c: char)
  {
    c == '\r' || c == '\n'
  }

  /** The longest prefix of `s` that does not end in CR or LF. */
  function TrimCrLf(s: string): (t: string)
    ensures t <= s
    ensures t == [] || !IsCrLf(t[|t| - 1])
    ensures forall i :: |t| <= i < |s| ==> IsCrLf(s[i])
  {
    if s != [] && IsCrLf(s[|s| - 1]) then TrimCrLf(s[..|s| - 1]) else s
  }

  /** The command that ends the session (compared case-sensitively). */
  predicate IsClose(line: string)
  {
    TrimCrLf(line) == "CLOSE"
  }

  predicate HasCloseLine(ls: seq<string>)
  {
    exists i :: 0 <= i < |ls| && IsClose(ls[i])
  }

  /** The lines the server echoes when the peer sends the lines `ls`: all of them, up to and
      including the first CLOSE line. */
  function EchoedLines(ls: seq<string>): (e: seq<string>)
    ensures e <= ls
    ensures forall i :: 0 <= i < |e| - 1 ==> !IsClose(e[i])
    ensures e == ls || (e != [] && IsClose(e[|e| - 1]))
  {
    if ls == [] then []
    else if IsClose(ls[0]) then [ls[0]]
    else [ls[0]] + EchoedLines(ls[1..])
  }

  /** A line is the CLOSE command exactly when it is "CLOSE" followed by nothing but CR and LF
      characters, in any number and order. */
  lemma {:induction false} IsCloseIff(line: string)
    decreases |line|
    ensures IsClose(line) <==> "CLOSE" <= line && forall i :: 5 <= i < |line| ==> IsCrLf(line[i])
  {
    if "CLOSE" <= line && forall i :: 5 <= i < |line| ==> IsCrLf(line[i]) {
      if |line| > 5 {
        var shorter := line[..|line| - 1];
        assert "CLOSE" <= shorter;
        assert forall i :: 5 <= i < |shorter| ==> IsCrLf(shorter[i]) by {
          forall i | 5 <= i < |shorter| ensures IsCrLf(shorter[i]) {
            assert shorter[i] == line[i];
          }
        }
        IsCloseIff(shorter);
      } else {
        assert line == "CLOSE";
      }
    }
  }

  /** The trim loop over a string_view of the line: drops trailing CR and LF characters one
      at a time. */
  method TrimTrailing(line: string) returns (trimmed: string)
    ensures trimmed == TrimCrLf(line)
  {
    trimmed := line;
    while trimmed != [] && IsCrLf(trimmed[|trimmed| - 1])
      invariant TrimCrLf(trimmed) == TrimCrLf(line)
    {
      trimmed := trimmed[..|trimmed| - 1];
    }
  }

  /** The partial-write loop: offers the unsent rest of `line` to the socket until every byte
      is accepted, retrying after EINTR and giving up on any other failure. */
  method SendLine(sock: Socket, line: string) returns (ok: bool)
    modifies sock
    ensures sock.incoming == old(sock.incoming) && sock.received == old(sock.received)
    ensures ok <==> sock.writeFailures == old(sock.writeFailures)
    ensures !ok ==> sock.writeFailures == old(sock.writeFailures) + 1
    // Success: exactly the bytes of the line, in order, follow what was sent before.
    ensures ok ==> sock.sent == old(sock.sent) + line
    // Failure: only part of the line got out.
    ensures !ok ==> old(sock.sent) <= sock.sent <= old(sock.sent) + line &&
                    |sock.sent| < |old(sock.sent)| + |line|
  {
    var offset := 0;
    var remaining := |line|;
    while remaining > 0
      invariant 0 <= offset && 0 <= remaining && offset + remaining == |line|
      invariant sock.sent == old(sock.sent) + line[..offset]
      invariant sock.incoming == old(sock.incoming) && sock.received == old(sock.received)
      invariant sock.writeFailures == old(sock.writeFailures)
      decreases |sock.writeScript| + remaining
    {
      var written := sock.Write(line[offset..]);
      if !written.Wrote? {
        if written.WriteInterrupted? {
          continue;
        }
        ok := false;
        PrefixOfAppend(line[..offset], line[offset..]);
        assert line[..offset] + line[offset..] == line;
        PrefixUnderAppend(old(sock.sent), line[..offset], line);
        return;
      }
      assert line[..offset] + line[offset..][..written.count] == line[..offset + written.count];
      AppendAssoc(old(sock.sent), line[..offset], line[offset..][..written.count]);
      offset := offset + written.count;
      remaining := remaining - written.count;
    }
    ok := true;
    assert line[..offset] == line;
  }

  /** What the server does with a byte stream: the bytes it echoes back, and whether it stops
      because the stream holds a CLOSE line. */
  datatype Echo = Echo(text: string, closed: bool)

  /** The echo of the stream `s`: its complete lines, in order, up to and including the first
      CLOSE line. The unfinished tail is never echoed. */
  function EchoOf(s: string): Echo
    decreases |s|
  {
    match PeelLine(s)
    case None => Echo([], false)
    case Some((line, rest)) => if IsClose(line) then Echo(line, true) else Behind(line, EchoOf(rest))
  }

  /** `e` with `text` echoed in front of it. */
  function Behind(text: string, e: Echo): Echo
  {
    Echo(text + e.text, e.closed)
  }

  /** The stream `s` echoes as its first line followed by the echo of the rest, unless that
      line is the CLOSE line, which is echoed and ends the session. */
  lemma EchoStep(line: string, rest: string)
    requires IsLine(line)
    ensures EchoOf(line + rest) == if IsClose(line) then Echo(line, true) else Behind(line, EchoOf(rest))
  {
    PeelLineOfLine(line, rest);
  }

  /** The stream-level echo agrees with the line-level one: the server echoes the complete
      lines of the stream up to and including the first CLOSE line, and it sees a CLOSE
      command exactly when one of those lines is one. */
  lemma {:induction false} EchoOfLines(s: string)
    decreases |s|
    ensures EchoOf(s).text == Concat(EchoedLines(SplitLines(s)))
    ensures EchoOf(s).closed == HasCloseLine(SplitLines(s))
  {
    match PeelLine(s)
    case None =>
    case Some((line, rest)) =>
      EchoOfLines(rest);
      var ls := SplitLines(rest);
      var all := [line] + ls;
      assert SplitLines(s) == all;
      assert all[0] == line && all[1..] == ls;
      if IsClose(line) {
        assert EchoedLines(all) == [line];
        assert [line][1..] == [];
        AppendEmpty(line);
        assert HasCloseLine(all) by { assert IsClose(all[0]); }
      } else {
        var e := EchoedLines(ls);
        assert EchoedLines(all) == [line] + e;
        assert ([line] + e)[0] == line && ([line] + e)[1..] == e;
        if HasCloseLine(ls) {
          var i :| 0 <= i < |ls| && IsClose(ls[i]);
          assert all[i + 1] == ls[i];
        }
        if HasCloseLine(all) {
          var i :| 0 <= i < |all| && IsClose(all[i]);
          assert i > 0;
          assert ls[i - 1] == all[i];
        }
      }
  }

  /** A stream with no terminator echoes nothing. */
  lemma EchoOfOpen(s: string)
    requires !HasTerm(s)
    ensures EchoOf(s) == Echo([], false)
  {
  }

  /** What one pass of the handler's loop decided: go on with the next line, or end the
      session for the given reason. */
  datatype Round = Continue | Stop(ending: Ending)

  /** One pass of processConnection's loop: obtains the next line, echoes it, and ends the
      session if it is the CLOSE line. The pass starts from the stream `pending` (the carried
      bytes, then the bytes still to be delivered) and deals with its first line; `line` is
      that line and `got` the bytes read for it. */
  method EchoRound(sock: Socket, leftovers: string)
    returns (next: Round, carry: string, line: string, ghost got: string)
    modifies sock
    ensures sock.received == old(sock.received) + got
    ensures next == Stop(WriteFailure) <==> sock.writeFailures != old(sock.writeFailures)
    ensures next.Continue? || next == Stop(CloseCommand) || next == Stop(WriteFailure) ==>
              leftovers + got == line + carry &&
              Delivered(old(sock.incoming)) == got + Delivered(sock.incoming)
    ensures next.Continue? ==>
              EndOf(sock.incoming) == EndOf(old(sock.incoming)) &&
              Weight(sock.incoming) + |carry| < Weight(old(sock.incoming)) + |leftovers| &&
              EchoOf(leftovers + Delivered(old(sock.incoming))) ==
                Behind(line, EchoOf(carry + Delivered(sock.incoming))) &&
              sock.sent == old(sock.sent) + line
    ensures next == Stop(CloseCommand) ==>
              EchoOf(leftovers + Delivered(old(sock.incoming))) == Echo(line, true) &&
              sock.sent == old(sock.sent) + line
    ensures next == Stop(WriteFailure) ==>
              var echo := EchoOf(leftovers + Delivered(old(sock.incoming))).text;
              old(sock.sent) <= sock.sent <= old(sock.sent) + echo &&
              |sock.sent| < |old(sock.sent)| + |line| && line <= echo
    ensures next == Stop(ClientClosed) || next == Stop(ReadFailure) ==>
              EchoOf(leftovers + Delivered(old(sock.incoming))) == Echo([], false) &&
              got == Delivered(old(sock.incoming)) && sock.sent == old(sock.sent) &&
              (next == Stop(ClientClosed) <==> EndOf(old(sock.incoming)) == ClosedByPeer)
    ensures next == Continue || next == Stop(CloseCommand) || next == Stop(WriteFailure) ||
            next == Stop(ClientClosed) || next == Stop(ReadFailure)
  {
    var r;
    r, carry, got := NextLine(sock, leftovers);
    if !r.Line? {
      EchoOfOpen(leftovers + got);
      next := Stop(if r.PeerClosed? then ClientClosed else ReadFailure);
      line := [];
      return;
    }
    line := r.text;
    ghost var rest := carry + Delivered(sock.incoming);
    AppendAssoc(leftovers, got, Delivered(sock.incoming));
    AppendAssoc(line, carry, Delivered(sock.incoming));
    EchoStep(line, rest);
    var ok := SendLine(sock, line);
    if !ok {
      next := Stop(WriteFailure);
      PrefixOfAppend(line, EchoOf(rest).text);
      PrefixUnderAppend(old(sock.sent), line, EchoOf(line + rest).text);
      return;
    }
    var trimmed := TrimTrailing(line);
    if trimmed == "CLOSE" {
      next := Stop(CloseCommand);
      return;
    }
    next := Continue;
  }

  /** Bookkeeping of a pass that consumed `line`: the bytes read so far end with the echoed
      lines, then `line`, then the new carry; the echo of the whole stream is the lines echoed
      so far, then `line`, then the echo of what follows it. */
  lemma EchoAdvance<T>(r0: seq<T>, consumed: seq<T>, got: seq<T>, tail: seq<T>, stream: seq<T>,
                       echoed: seq<T>, leftovers: seq<T>, line: seq<T>, carry: seq<T>, s0: seq<T>,
                       echoStream: seq<T>, echoPending: seq<T>, echoRest: seq<T>)
    requires stream == consumed + (got + tail)
    requires consumed == echoed + leftovers
    requires leftovers + got == line + carry
    requires echoStream == echoed + echoPending && echoPending == line + echoRest
    ensures (r0 + consumed) + got == r0 + (consumed + got)
    ensures stream == (consumed + got) + tail
    ensures consumed + got == (echoed + line) + carry
    ensures echoStream == (echoed + line) + echoRest
    ensures (s0 + echoed) + line == s0 + (echoed + line)
  {
    AppendAssoc(echoed, leftovers, got);
    AppendAssoc(echoed, line, carry);
    AppendAssoc(echoed, line, echoRest);
  }

  /** Bookkeeping of a pass whose write failed: what was sent stops inside the echo. */
  lemma EchoCut<T>(r0: seq<T>, consumed: seq<T>, got: seq<T>, tail: seq<T>, stream: seq<T>,
                   s0: seq<T>, echoed: seq<T>, sent: seq<T>, line: seq<T>,
                   echoStream: seq<T>, echoPending: seq<T>)
    requires stream == consumed + (got + tail)
    requires echoStream == echoed + echoPending
    requires s0 + echoed <= sent <= (s0 + echoed) + echoPending && |sent| < |s0 + echoed| + |line|
    requires line <= echoPending
    ensures (r0 + consumed) + got == r0 + (consumed + got)
    ensures consumed + got <= stream
    ensures s0 <= sent <= s0 + echoStream && |sent| < |s0 + echoStream|
  {
    AppendAssoc(consumed, got, tail);
    AppendAssoc(s0, echoed, echoPending);
  }

  /** Bookkeeping of a pass that found no further line: everything was read and nothing more
      is echoed. */
  lemma EchoEnd<T>(r0: seq<T>, consumed: seq<T>, got: seq<T>, stream: seq<T>,
                   s0: seq<T>, echoed: seq<T>, echoStream: seq<T>)
    requires stream == consumed + (got + [])
    requires echoStream == echoed + []
    ensures (r0 + consumed) + got == r0 + (consumed + got)
    ensures consumed + got == stream
    ensures s0 + echoed == s0 + echoStream
  {
  }

  /** processConnection: echoes lines until the session ends. What the peer is sent is
      determined by the concatenation of the bytes it delivers, whatever their chunking: the
      echo of that stream, or a proper prefix of it when a write fails. `consumed` is every
      byte read. */
  method ProcessConnection(sock: Socket) returns (ending: Ending, ghost consumed: string)
    modifies sock
    ensures sock.received == old(sock.received) + consumed
    ensures consumed <= Delivered(old(sock.incoming))
    ensures var echo := EchoOf(Delivered(old(sock.incoming)));
            if ending == WriteFailure
            then old(sock.sent) <= sock.sent <= old(sock.sent) + echo.text &&
                 |sock.sent| < |old(sock.sent)| + |echo.text|
            else sock.sent == old(sock.sent) + echo.text
    ensures ending == WriteFailure <==> sock.writeFailures != old(sock.writeFailures)
    ensures ending == CloseCommand ==>
              EchoOf(Delivered(old(sock.incoming))).closed && EchoOf(Delivered(old(sock.incoming))).text <= consumed
    ensures ending == ClientClosed || ending == ReadFailure ==>
              !EchoOf(Delivered(old(sock.incoming))).closed && consumed == Delivered(old(sock.incoming)) &&
              (ending == ClientClosed <==> EndOf(old(sock.incoming)) == ClosedByPeer)
  {
    ghost var r0 := sock.received;
    ghost var s0 := sock.sent;
    ghost var stream := Delivered(sock.incoming);
    ghost var echoed: string := [];
    consumed := [];
    var leftovers: string := [];
    AppendEmpty(r0);
    AppendEmpty(s0);
    AppendEmpty(stream);
    AppendEmpty(leftovers);
    AppendEmpty(EchoOf(stream).text);
    while true
      invariant sock.received == r0 + consumed
      invariant stream == consumed + Delivered(sock.incoming)
      invariant consumed == echoed + leftovers
      invariant EndOf(sock.incoming) == EndOf(old(sock.incoming))
      invariant EchoOf(stream) == Behind(echoed, EchoOf(leftovers + Delivered(sock.incoming)))
      invariant sock.sent == s0 + echoed
      invariant sock.writeFailures == old(sock.writeFailures)
      decreases Weight(sock.incoming) + |leftovers|
    {
      ghost var pending := leftovers + Delivered(sock.incoming);
      var next, carry, line, got := EchoRound(sock, leftovers);
      ghost var tail := Delivered(sock.incoming);
      match next
      case Continue =>
        EchoAdvance(r0, consumed, got, tail, stream, echoed, leftovers, line, carry, s0,
                    EchoOf(stream).text, EchoOf(pending).text, EchoOf(carry + tail).text);
        consumed := consumed + got;
        echoed := echoed + line;
        leftovers := carry;
      case Stop(CloseCommand) =>
        AppendEmpty(line);
        EchoAdvance(r0, consumed, got, tail, stream, echoed, leftovers, line, carry, s0,
                    EchoOf(stream).text, EchoOf(pending).text, []);
        PrefixOfAppend(consumed + got, tail);
        PrefixOfAppend(echoed + line, carry);
        return CloseCommand, consumed + got;
      case Stop(WriteFailure) =>
        EchoCut(r0, consumed, got, tail, stream, s0, echoed, sock.sent, line,
                EchoOf(stream).text, EchoOf(pending).text);
        return WriteFailure, consumed + got;
      case Stop(e) =>
        AppendEmpty(got);
        EchoEnd(r0, consumed, got, stream, s0, echoed, EchoOf(stream).text);
        return e, consumed + got;
    }
  }
}
