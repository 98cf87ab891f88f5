/** The web server's request-line classifier: the first header line is read as three words
    the way an input string stream's `>>` reads them, and the request is accepted only as a
    GET whose version starts with "HTTP/". */
module RequestLine {
  import opened Lines
  import opened Seqs

  /** The status readRequest starts from and keeps unless the request is a valid GET. */
  const BadRequest: int := 400
  /** The status of a valid GET. */
  const Ok: int := 200

  /** Whitespace as `>>` sees it in the "C" locale: space, horizontal tab, line feed,
      vertical tab, form feed and carriage return. */
  predicate IsSpace(c: char)
  {
    c == ' ' || c == '\t' || c == '\n' || c == '\U{000B}' || c == '\U{000C}' || c == '\r'
  }

  /** Where the whitespace starting at index `i` of `s` ends. */
  function SkipSpace(s: string, i: nat): (j: nat)
    requires i <= |s|
    decreases |s| - i
    ensures i <= j <= |s|
    ensures forall k :: i <= k < j ==> IsSpace(s[k])
    ensures j < |s| ==> !IsSpace(s[j])
  {
    if i < |s| && IsSpace(s[i]) then SkipSpace(s, i + 1) else i
  }

  /** Where the word starting at index `i` of `s` ends: at the next whitespace or at the end. */
  function WordEnd(s: string, i: nat): (j: nat)
    requires i <= |s|
    decreases |s| - i
    ensures i <= j <= |s|
    ensures forall k :: i <= k < j ==> !IsSpace(s[k])
    ensures j < |s| ==> IsSpace(s[j])
  {
    if i < |s| && !IsSpace(s[i]) then WordEnd(s, i + 1) else i
  }

  /** One `stream >> word` on a string stream positioned at index `i`: leading whitespace is
      skipped and the longest run of non-whitespace characters is taken. When only whitespace
      is left the extraction fails, and so does every later one, since nothing is left either.
      On success the result is the word and the position just after it. */
  function Extract(s: string, i: nat): (r: Option<(string, nat)>)
    requires i <= |s|
    ensures r.None? <==> SkipSpace(s, i) == |s|
    ensures r.Some? ==>
              var (word, j) := r.value;
              i < j <= |s| && 0 < |word| <= j - i && word == s[j - |word|..j] &&
              (forall k :: i <= k < j - |word| ==> IsSpace(s[k])) &&
              (forall k :: j - |word| <= k < j ==> !IsSpace(s[k])) &&
              (j < |s| ==> IsSpace(s[j]))
  {
    var start := SkipSpace(s, i);
    if start == |s| then None
    else
      var end := WordEnd(s, start);
      Some((s[start..end], end))
  }

  /** The three words of a request line. */
  datatype Request = Request(httpMethod: string, path: string, version: string)

  /** `iss >> method; iss >> path; iss >> version;` followed by `!iss.fail()`: the three
      extractions in order, None as soon as one of them fails. Whatever follows the third word
      is never looked at. */
  function ParseRequest(line: string): (r: Option<Request>)
  {
    match Extract(line, 0)
    case None => None
    case Some((httpMethod, i)) =>
      match Extract(line, i)
      case None => None
      case Some((path, j)) =>
        match Extract(line, j)
        case None => None
        case Some((version, _)) => Some(Request(httpMethod, path, version))
  }

  /** `version.compare(0, 5, "HTTP/") == 0`: the first (at most) five characters of the
      version, compared with "HTTP/"; a shorter version compares unequal. */
  function StartsWithHttp(version: string): (b: bool)
    ensures b <==> |version| >= 5 && version[..5] == "HTTP/"
  {
    var n := if |version| < 5 then |version| else 5;
    version[..n] == "HTTP/"
  }

  /** The decision at the end of readRequest over the collected header lines: the status,
      and the filename as it is afterwards. Only the first line is looked at. */
  function Classify(lines: seq<string>, filename: string): (r: (int, string))
    ensures r.0 == Ok || r.0 == BadRequest
    ensures r.0 == BadRequest ==> r.1 == filename
  {
    if lines == [] then (BadRequest, filename)
    else match ParseRequest(lines[0])
      case Some(Request(httpMethod, path, version)) =>
        if httpMethod == "GET" && StartsWithHttp(version) then (Ok, path) else (BadRequest, filename)
      case None => (BadRequest, filename)
  }

  /** The whitespace-separated words of `s`, in order, defined character by character: a
      leading whitespace character is dropped, and a leading non-whitespace character either
      starts a word of its own, when whitespace or the end follows it, or joins the word the
      rest begins with. */
  function Words(s: string): (ws: seq<string>)
    decreases |s|
    ensures s != [] && !IsSpace(s[0]) ==> ws != []
  {
    if s == [] then []
    else if IsSpace(s[0]) then Words(s[1..])
    else
      var rest := Words(s[1..]);
      if |s| > 1 && !IsSpace(s[1]) then [[s[0]] + rest[0]] + rest[1..] else [[s[0]]] + rest
  }

  /** At a word, the words of the rest of a string are that word followed by the words after it. */
  lemma {:induction false} WordsAtWord(s: string, i: nat)
    requires i < |s| && !IsSpace(s[i])
    decreases |s| - i
    ensures Words(s[i..]) == [s[i..WordEnd(s, i)]] + Words(s[WordEnd(s, i)..])
  {
    var t := s[i..];
    assert t[0] == s[i] && t[1..] == s[i + 1..];
    var e := WordEnd(s, i);
    if i + 1 < |s| && !IsSpace(s[i + 1]) {
      assert t[1] == s[i + 1];
      WordsAtWord(s, i + 1);
      var rest := Words(s[i + 1..]);
      assert rest[0] == s[i + 1..e] && rest[1..] == Words(s[e..]);
      assert [s[i]] + s[i + 1..e] == s[i..e];
    } else {
      assert e == i + 1;
      assert s[i..e] == [s[i]];
    }
  }

  /** One extraction takes exactly the first word of what is left of the stream, and fails
      exactly when no word is left. */
  lemma {:induction false} ExtractWords(s: string, i: nat)
    requires i <= |s|
    decreases |s| - i
    ensures Extract(s, i).None? <==> Words(s[i..]) == []
    ensures Extract(s, i).Some? ==>
              Words(s[i..]) == [Extract(s, i).value.0] + Words(s[Extract(s, i).value.1..])
  {
    if i == |s| {
    } else if IsSpace(s[i]) {
      assert s[i..][1..] == s[i + 1..];
      ExtractWords(s, i + 1);
    } else {
      WordsAtWord(s, i);
    }
  }

  /** The three extractions succeed exactly when the line has at least three words, and then
      they yield the first three. */
  lemma ParseWords(line: string)
    ensures var ws := Words(line);
            ParseRequest(line) == if |ws| >= 3 then Some(Request(ws[0], ws[1], ws[2])) else None
  {
    var ws := Words(line);
    assert line[0..] == line;
    ExtractWords(line, 0);
    match Extract(line, 0)
    case None =>
    case Some((m, i)) =>
      ExtractWords(line, i);
      var ws1 := Words(line[i..]);
      assert ws == [m] + ws1;
      match Extract(line, i)
      case None =>
        assert |ws| == 1;
      case Some((p, j)) =>
        ExtractWords(line, j);
        var ws2 := Words(line[j..]);
        assert ws1 == [p] + ws2;
        match Extract(line, j)
        case None =>
          assert |ws| == 2;
        case Some((v, k)) =>
          assert ws2 == [v] + Words(line[k..]);
          assert ws[0] == m && ws[1] == ws1[0] == p && ws[2] == ws1[1] == ws2[0] == v;
  }

  /** A request line readRequest accepts: at least three words, the first "GET" and the third
      at least five characters long and starting with "HTTP/". */
  predicate ValidGet(line: string)
  {
    var ws := Words(line);
    |ws| >= 3 && ws[0] == "GET" && |ws[2]| >= 5 && ws[2][..5] == "HTTP/"
  }

  /** readRequest answers 200 exactly when there is a first header line and it is a valid GET;
      the filename becomes its second word then and is otherwise left as it was. */
  lemma ClassifyIff(lines: seq<string>, filename: string)
    ensures Classify(lines, filename) ==
            if lines != [] && ValidGet(lines[0]) then (Ok, Words(lines[0])[1]) else (BadRequest, filename)
  {
    if lines != [] {
      ParseWords(lines[0]);
    }
  }

  /** Words after the third, and header lines after the first, make no difference. */
  lemma LaterWordsIgnored(a: string, b: string, moreA: seq<string>, moreB: seq<string>, filename: string)
    requires |Words(a)| >= 3 && |Words(b)| >= 3 && Words(a)[..3] == Words(b)[..3]
    ensures Classify([a] + moreA, filename) == Classify([b] + moreB, filename)
  {
    ClassifyIff([a] + moreA, filename);
    ClassifyIff([b] + moreB, filename);
    assert ([a] + moreA)[0] == a && ([b] + moreB)[0] == b;
    assert Words(a)[..3][0] == Words(a)[0] && Words(a)[..3][1] == Words(a)[1] && Words(a)[..3][2] == Words(a)[2];
  }
}
