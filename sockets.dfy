/** The connected socket as the protocol engine sees it.

    The operating system's read(2) and write(2) on the connection are replaced by two finite
    scripts: the results successive read calls return and the results successive write calls
    return. A script of reads that runs out behaves as a peer that closed the connection
    (every further read returns zero bytes); a script of writes that runs out behaves as a
    socket that accepts every byte offered. */
module Sockets {

  /** One result of read(2): some bytes (`Bytes([])` is the zero-length read by which the
      peer signals an orderly close), a failure with errno == EINTR, or any other failure. */
  datatype ReadResult = Bytes(data: string) | ReadInterrupted | ReadFailed

  /** Why the stream of bytes coming from the peer stops. */
  datatype StreamEnd = ClosedByPeer | BrokenByError

  type Pos = n: int | n > 0 witness 1

  /** One result of write(2): a positive number of bytes accepted (the socket never accepts
      more than it is offered), a failure with errno == EINTR, or any other failure. */
  datatype WriteResult = Wrote(count: Pos) | WriteInterrupted | WriteFailed

  /** The bytes a script of reads delivers before the stream stops: interrupted reads
      deliver nothing, a zero-length read or a failure ends the stream. */
  function Delivered(rs: seq<ReadResult>): string
  {
    if rs == [] then []
    else match rs[0]
      case Bytes(d) => if d == [] then [] else d + Delivered(rs[1..])
      case ReadInterrupted => Delivered(rs[1..])
      case ReadFailed => []
  }

  /** How a script of reads ends: with a failure, or otherwise with a zero-length read. */
  function EndOf(rs: seq<ReadResult>): StreamEnd
  {
    if rs == [] then ClosedByPeer
    else match rs[0]
      case Bytes(d) => if d == [] then ClosedByPeer else EndOf(rs[1..])
      case ReadInterrupted => EndOf(rs[1..])
      case ReadFailed => BrokenByError
  }

  /** A measure that every read from a non-empty script decreases by at least one, and by at
      least the number of bytes it returns. */
  function Weight(rs: seq<ReadResult>): nat
  {
    if rs == [] then 0
    else (if rs[0].Bytes? then |rs[0].data| + 1 else 1) + Weight(rs[1..])
  }

  class Socket {
    /** Results of the read calls still to come. */
    var incoming: seq<ReadResult>
    /** Results of the write calls still to come. */
    var writeScript: seq<WriteResult>
    /** Every byte the peer has been sent, in order. */
    var sent: string
    /** Every byte the read calls have returned, in order. */
    ghost var received: string
    /** How many write calls have failed with an error other than EINTR. */
    ghost var writeFailures: nat

    constructor (script: seq<ReadResult>, writes: seq<WriteResult>)
      ensures incoming == script && writeScript == writes
      ensures sent == [] && received == [] && writeFailures == 0
    {
      incoming := script;
      writeScript := writes;
      sent := [];
      received := [];
      writeFailures := 0;
    }

    /** read(fd, buffer, maxLen): at most `maxLen` bytes; bytes of a scripted chunk that do
        not fit stay at the head of the script for the next call. */
    method Read(maxLen: nat) returns (r: ReadResult)
      requires maxLen > 0
      modifies this
      ensures writeScript == old(writeScript) && sent == old(sent) && writeFailures == old(writeFailures)
      ensures r.Bytes? ==> |r.data| <= maxLen
      ensures received == old(received) + (if r.Bytes? then r.data else [])
      ensures (r.Bytes? && r.data != []) || r.ReadInterrupted? ==>
                Delivered(old(incoming)) == (if r.Bytes? then r.data else []) + Delivered(incoming) &&
                EndOf(incoming) == EndOf(old(incoming)) &&
                Weight(incoming) < Weight(old(incoming)) &&
                Weight(incoming) + (if r.Bytes? then |r.data| else 0) <= Weight(old(incoming))
      ensures r == Bytes([]) ==> Delivered(old(incoming)) == [] && EndOf(old(incoming)) == ClosedByPeer
      ensures r.ReadFailed? ==> Delivered(old(incoming)) == [] && EndOf(old(incoming)) == BrokenByError
    {
      if incoming == [] {
        r := Bytes([]);
      } else {
        var head := incoming[0];
        if head.Bytes? && |head.data| > maxLen {
          var d := head.data;
          r := Bytes(d[..maxLen]);
          incoming := [Bytes(d[maxLen..])] + incoming[1..];
          assert incoming[1..] == old(incoming)[1..];
          assert d == d[..maxLen] + d[maxLen..];
        } else {
          r := head;
          incoming := incoming[1..];
        }
      }
      if r.Bytes? {
        received := received + r.data;
      }
    }

    /** write(fd, data, |data|) on a non-empty buffer: accepts a non-empty prefix of `data`,
        or fails. */
    method Write(data: string) returns (w: WriteResult)
      requires |data| > 0
      modifies this
      ensures incoming == old(incoming) && received == old(received)
      ensures old(writeScript) == [] ==> w == Wrote(|data|) && writeScript == []
      ensures old(writeScript) != [] ==>
                writeScript == old(writeScript)[1..] &&
                (w.Wrote? <==> old(writeScript)[0].Wrote?) &&
                (w.WriteFailed? <==> old(writeScript)[0].WriteFailed?)
      ensures w.Wrote? ==> w.count <= |data| && sent == old(sent) + data[..w.count]
      ensures !w.Wrote? ==> sent == old(sent)
      ensures writeFailures == old(writeFailures) + (if w.WriteFailed? then 1 else 0)
    {
      if writeScript == [] {
        w := Wrote(|data|);
      } else {
        w := writeScript[0];
        if w.Wrote? && w.count > |data| {
          w := Wrote(|data|);
        }
        writeScript := writeScript[1..];
      }
      if w.Wrote? {
        sent := sent + data[..w.count];
      }
      if w.WriteFailed? {
        writeFailures := writeFailures + 1;
      }
    }
  }
}
