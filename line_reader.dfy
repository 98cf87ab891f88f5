/** The incremental CRLF line reader that both servers run at the top of their connection
    loops: bytes read past a line boundary are carried over to the next call, a line already
    complete in the carried bytes is split off without reading, and otherwise the socket is
    read in chunks of at most ChunkSize bytes until the accumulated bytes hold a terminator. */
module LineReader {
  import opened Sockets
  import opened Lines
  import opened Seqs

  /** CHUNK_SIZE: the most bytes a single read asks for. Any positive value gives the same
      lines, because what the reader returns depends only on the bytes delivered. */
  const ChunkSize: nat := 10

  /** What one call produces: a complete line, or the end of the connection because the peer
      closed it (zero-length read) or a read failed with an error other than EINTR. */
  datatype LineResult = Line(text: string) | PeerClosed | ReadError

  /** Produces the next line of the connection. `leftovers` are the bytes carried from the
      previous call; `carry` are the bytes to carry into the next one. */
  method NextLine(sock: Socket, leftovers: string) returns (r: LineResult, carry: string, ghost got: string)
    modifies sock
    ensures sock.sent == old(sock.sent) && sock.writeScript == old(sock.writeScript)
    ensures sock.writeFailures == old(sock.writeFailures)
    ensures sock.received == old(sock.received) + got
    // A line already complete in the carried bytes is split off with no read at all.
    ensures HasTerm(leftovers) ==> sock.incoming == old(sock.incoming) && got == [] && r.Line?
    // The line is everything up to and including the first terminator of the carried bytes
    // followed by the bytes read now; what follows it is carried. No byte is lost, duplicated
    // or reordered, and the bytes read are the next bytes of the stream.
    ensures r.Line? ==>
              PeelLine(leftovers + got) == Some((r.text, carry)) &&
              Delivered(old(sock.incoming)) == got + Delivered(sock.incoming) &&
              EndOf(sock.incoming) == EndOf(old(sock.incoming)) &&
              Weight(sock.incoming) + |carry| < Weight(old(sock.incoming)) + |leftovers|
    // Reading stops with the chunk that completes the line.
    ensures r.Line? && !HasTerm(leftovers) ==>
              exists n :: |leftovers| <= n < |leftovers + got| && |leftovers + got| - n <= ChunkSize &&
                          OpenPrefix(leftovers + got, n)
    // Without a line the connection is over: the whole stream has been read, it holds no
    // further terminator, and the partial line is dropped.
    ensures !r.Line? ==>
              !HasTerm(leftovers + got) && got == Delivered(old(sock.incoming)) &&
              (r.PeerClosed? <==> EndOf(old(sock.incoming)) == ClosedByPeer)
  {
    var line := leftovers;
    var pos := Find(line);
    if pos.Some? {
      carry := line[pos.value + 2..];
      line := line[..pos.value + 2];
      r := Line(line);
      got := [];
      assert leftovers + got == leftovers;
      return;
    }
    r, carry, got := ReadLine(sock, line);
  }

  /** The read loop: appends chunks to `partial`, which holds no terminator, until the whole
      accumulated line holds one, so that a terminator split across two chunks is found too. */
  method ReadLine(sock: Socket, partial: string) returns (r: LineResult, carry: string, ghost got: string)
    requires !HasTerm(partial)
    modifies sock
    ensures sock.sent == old(sock.sent) && sock.writeScript == old(sock.writeScript)
    ensures sock.writeFailures == old(sock.writeFailures)
    ensures sock.received == old(sock.received) + got
    ensures r.Line? ==>
              PeelLine(partial + got) == Some((r.text, carry)) &&
              Delivered(old(sock.incoming)) == got + Delivered(sock.incoming) &&
              EndOf(sock.incoming) == EndOf(old(sock.incoming)) &&
              Weight(sock.incoming) + |carry| < Weight(old(sock.incoming)) + |partial|
    ensures r.Line? ==>
              exists n :: |partial| <= n < |partial + got| && |partial + got| - n <= ChunkSize &&
                          OpenPrefix(partial + got, n)
    ensures !r.Line? ==>
              !HasTerm(partial + got) && got == Delivered(old(sock.incoming)) &&
              (r.PeerClosed? <==> EndOf(old(sock.incoming)) == ClosedByPeer)
  {
    ghost var start := sock.received;
    got := [];
    var line := partial;
    carry := [];
    while true
      invariant sock.sent == old(sock.sent) && sock.writeScript == old(sock.writeScript)
      invariant sock.writeFailures == old(sock.writeFailures)
      invariant sock.received == start + got
      invariant line == partial + got
      invariant !HasTerm(line)
      invariant Delivered(old(sock.incoming)) == got + Delivered(sock.incoming)
      invariant EndOf(sock.incoming) == EndOf(old(sock.incoming))
      invariant Weight(sock.incoming) + |got| <= Weight(old(sock.incoming))
      decreases Weight(sock.incoming)
    {
      var res := sock.Read(ChunkSize);
      if res == Bytes([]) {
        AppendEmpty(start + got);
        r := PeerClosed;
        return;
      }
      if !res.Bytes? {
        if res.ReadInterrupted? {
          continue;
        }
        r := ReadError;
        return;
      }
      ghost var previous := line;
      AppendAssoc(partial, got, res.data);
      AppendAssoc(start, got, res.data);
      AppendAssoc(got, res.data, Delivered(sock.incoming));
      line := line + res.data;
      got := got + res.data;
      var pos := Find(line);
      if pos.Some? {
        ghost var full := line;
        carry := line[pos.value + 2..];
        line := line[..pos.value + 2];
        r := Line(line);
        assert partial + got == full;
        assert PeelLine(full) == Some((line, carry));
        assert (partial + got)[..|previous|] == previous;
        assert OpenPrefix(partial + got, |previous|);
        return;
      }
    }
  }
}
