/** CRLF-terminated lines: where the first terminator of a buffer is, how a line is peeled
    off the front of a buffer, and how a whole byte stream divides into complete lines and an
    unfinished tail. These are the specification the incremental line reader is proved
    against. */
module Lines {
  import opened Seqs

  datatype Option<T> = None | Some(value: T)

  /** LINE_TERMINATOR, of length termLen == 2. */
  const Terminator: string := "\r\n"

  /** A terminator starts at index `i` of `s`. */
  predicate TermAt(s: string, i: int)
  {
    0 <= i && i + 1 < |s| && s[i] == '\r' && s[i + 1] == '\n'
  }

  predicate HasTerm(s: string)
  {
    exists i :: 0 <= i < |s| && TermAt(s, i)
  }

  /** The first `n` bytes of `s` hold no terminator. */
  predicate OpenPrefix(s: string, n: int)
  {
    0 <= n <= |s| && !HasTerm(s[..n])
  }

  /** A complete line: it ends with the terminator and holds no earlier terminator. */
  predicate IsLine(l: string)
  {
    |l| >= 2 && TermAt(l, |l| - 2) && forall j :: 0 <= j < |l| - 2 ==> !TermAt(l, j)
  }

  predicate AllLines(ls: seq<string>)
  {
    forall i :: 0 <= i < |ls| ==> IsLine(ls[i])
  }

  function FindFrom(s: string, k: nat): (r: Option<nat>)
    decreases |s| - k
    ensures r.Some? ==> k <= r.value && TermAt(s, r.value)
    ensures r.Some? ==> forall j :: k <= j < r.value ==> !TermAt(s, j)
    ensures r.None? ==> forall j :: k <= j ==> !TermAt(s, j)
  {
    if k + 1 >= |s| then None
    else if TermAt(s, k) then Some(k)
    else FindFrom(s, k + 1)
  }

  /** s.find(LINE_TERMINATOR): the index of the first terminator, or None for npos. */
  function Find(s: string): (r: Option<nat>)
    ensures r.None? <==> !HasTerm(s)
    ensures r.Some? ==> TermAt(s, r.value) && forall j :: 0 <= j < r.value ==> !TermAt(s, j)
  {
    FindFrom(s, 0)
  }

  /** Splits `s` after its first terminator into the line and what follows it. */
  function PeelLine(s: string): (r: Option<(string, string)>)
    ensures r.None? <==> !HasTerm(s)
    ensures r.Some? ==> IsLine(r.value.0) && r.value.0 + r.value.1 == s
  {
    match Find(s)
    case None => None
    case Some(i) =>
      var line := s[..i + 2];
      assert forall j :: 0 <= j < i ==> TermAt(line, j) == TermAt(s, j);
      Some((line, s[i + 2..]))
  }

  /** The complete lines of a byte stream, in order. */
  function SplitLines(s: string): (ls: seq<string>)
    decreases |s|
    ensures AllLines(ls)
  {
    match PeelLine(s)
    case None => []
    case Some((line, rest)) => [line] + SplitLines(rest)
  }

  /** The bytes of a stream after its last complete line. */
  function Pending(s: string): string
    decreases |s|
  {
    match PeelLine(s)
    case None => s
    case Some((_, rest)) => Pending(rest)
  }

  function Concat(ls: seq<string>): string
  {
    if ls == [] then [] else ls[0] + Concat(ls[1..])
  }

  /** No byte is lost, duplicated or reordered: a stream is its complete lines followed by
      its unfinished tail, and the tail holds no terminator. */
  lemma {:induction false} SplitLinesConserves(s: string)
    decreases |s|
    ensures Concat(SplitLines(s)) + Pending(s) == s
    ensures !HasTerm(Pending(s))
  {
    match PeelLine(s)
    case None =>
    case Some((line, rest)) =>
      SplitLinesConserves(rest);
      var ls := SplitLines(rest);
      assert SplitLines(s) == [line] + ls;
      assert Concat([line] + ls) == line + Concat(ls) by {
        assert ([line] + ls)[0] == line;
        assert ([line] + ls)[1..] == ls;
      }
      AppendAssoc(line, Concat(ls), Pending(rest));
  }

  /** Peeling a line off a complete line followed by anything gives both back. */
  lemma PeelLineOfLine(line: string, rest: string)
    requires IsLine(line)
    ensures PeelLine(line + rest) == Some((line, rest))
  {
    var s := line + rest;
    assert TermAt(s, |line| - 2);
    assert forall j :: 0 <= j < |line| - 2 ==> TermAt(s, j) == TermAt(line, j);
    var i := Find(s).value;
    assert i == |line| - 2;
    assert s[..i + 2] == line;
    assert s[i + 2..] == rest;
  }

  /** Splitting a stream that starts with a complete line yields that line first. */
  lemma SplitLinesCons(line: string, rest: string)
    requires IsLine(line)
    ensures SplitLines(line + rest) == [line] + SplitLines(rest)
    ensures Pending(line + rest) == Pending(rest)
  {
    PeelLineOfLine(line, rest);
  }

  /** Complete lines in front of a stream are exactly the first lines it splits into. */
  lemma {:induction false} SplitLinesAfter(ls: seq<string>, x: string)
    requires AllLines(ls)
    ensures SplitLines(Concat(ls) + x) == ls + SplitLines(x)
  {
    if ls == [] {
      assert Concat(ls) + x == x;
    } else {
      var l, rest := ls[0], ls[1..];
      var tail := Concat(rest) + x;
      assert Concat(ls) + x == l + tail;
      assert SplitLines(l + tail) == [l] + SplitLines(tail) by { SplitLinesCons(l, tail); }
      assert SplitLines(tail) == rest + SplitLines(x) by { SplitLinesAfter(rest, x); }
      ConsAppend(ls, SplitLines(x));
    }
  }

  /** Complete lines in front of a stream leave the unfinished tail unchanged. */
  lemma {:induction false} PendingAfter(ls: seq<string>, x: string)
    requires AllLines(ls)
    ensures Pending(Concat(ls) + x) == Pending(x)
  {
    if ls == [] {
      assert Concat(ls) + x == x;
    } else {
      var tail := Concat(ls[1..]) + x;
      assert Concat(ls) + x == ls[0] + tail;
      SplitLinesCons(ls[0], tail);
      PendingAfter(ls[1..], x);
    }
  }

  /** Chunk-boundary independence of the line structure: the lines of `a + b` are the
      lines of `a`, then the lines that the unfinished tail of `a` completes with `b`.
      Nothing already split off is revised by bytes that arrive later. */
  lemma SplitLinesExtend(a: string, b: string)
    ensures SplitLines(a + b) == SplitLines(a) + SplitLines(Pending(a) + b)
    ensures Pending(a + b) == Pending(Pending(a) + b)
  {
    SplitLinesConserves(a);
    assert a + b == Concat(SplitLines(a)) + (Pending(a) + b);
    SplitLinesAfter(SplitLines(a), Pending(a) + b);
    PendingAfter(SplitLines(a), Pending(a) + b);
  }

  /** A terminator whose CR ends one chunk and whose LF starts the next is found, because the
      search runs over everything accumulated so far. */
  lemma CrossChunkTerminator(a: string, b: string)
    requires !HasTerm(a) && |a| > 0 && a[|a| - 1] == '\r'
    requires |b| > 0 && b[0] == '\n'
    ensures Find(a + b) == Some(|a| - 1)
  {
    var s := a + b;
    assert TermAt(s, |a| - 1);
    assert forall j :: 0 <= j < |a| - 1 ==> TermAt(s, j) == TermAt(a, j);
  }
}
