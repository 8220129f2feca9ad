/**
 The HTTP head of the handshake (src/request.rs). The stream is a string, one
 character for each byte, and the head is ASCII; what follows the head is left in it for the frame reader.
 */
module Request {
  import opened Basics
  import opened Text

  const CRLF: string := "\r\n"
  const HTTP_REQUEST_DELIMITER: string := "\r\n\r\n"

  /** `read_line`: up to and including the first newline, or all there is. */
  function ReadLine(s: string): (r: (string, string))
    ensures |r.0| + |r.1| == |s| && (s != "" ==> r.0 != "")
    decreases |s|
  {
    if s == "" then ("", "")
    else if s[0] == '\n' then ("\n", s[1..])
    else
      var (line, rest) := ReadLine(s[1..]);
      ([s[0]] + line, rest)
  }

  predicate EndsWith(s: string, p: string) { |p| <= |s| && s[|s| - |p|..] == p }

  /** The reading loop: lines are appended until the buffer ends with an empty line or the stream ends. */
  function ReadHead(buffer: string, input: string): (string, string)
    decreases |input|
  {
    var (line, rest) := ReadLine(input);
    var b := buffer + line;
    if line == "" || EndsWith(b, HTTP_REQUEST_DELIMITER) then (b, rest) else ReadHead(b, rest)
  }

  /** The text before and after the first occurrence of p. */
  function SplitOnce(s: string, p: string): Option<(string, string)>
    decreases |s|
  {
    if p <= s then Some(("", s[|p|..]))
    else if s == "" then None
    else
      match SplitOnce(s[1..], p)
      case None => None
      case Some((a, b)) => Some(([s[0]] + a, b))
  }

  /** A line without its newline, and without the carriage return before it. */
  function StripEol(line: string): string {
    if line != "" && line[|line| - 1] == '\n' then
      var l := line[..|line| - 1];
      if l != "" && l[|l| - 1] == '\r' then l[..|l| - 1] else l
    else line
  }

  /** `lines`. */
  function Lines(s: string): seq<string>
    decreases |s|
  {
    if s == "" then [] else var (line, rest) := ReadLine(s); [StripEol(line)] + Lines(rest)
  }

  function TakeWord(s: string): (r: (string, string))
    ensures |r.0| + |r.1| == |s| && (s != "" && !IsSpace(s[0]) ==> r.0 != "")
    decreases |s|
  {
    if s == "" || IsSpace(s[0]) then ("", s)
    else
      var (w, rest) := TakeWord(s[1..]);
      ([s[0]] + w, rest)
  }

  lemma {:induction false} TrimStartShorter(s: string)
    ensures var t := TrimStart(s); |t| <= |s| && (t != "" ==> !IsSpace(t[0]))
    decreases |s|
  {
    if s != "" && IsSpace(s[0]) { TrimStartShorter(s[1..]); }
  }

  /** `split_whitespace`. */
  function Words(s: string): seq<string>
    decreases |s|
  {
    TrimStartShorter(s);
    var t := TrimStart(s);
    if t == "" then [] else var (w, rest) := TakeWord(t); [w] + Words(rest)
  }

  function LowerChar(c: char): char { if 'A' <= c <= 'Z' then c + ('a' - 'A') else c }

  function Lower(s: string): string { seq(|s|, i requires 0 <= i < |s| => LowerChar(s[i])) }

  type Headers = map<string, string>

  function InsertHeader(m: Headers, line: string): Headers {
    match SplitOnce(line, ": ")
    case Some((key, value)) => m[Lower(key) := Trim(value)]
    case None => m
  }

  function InsertHeaders(m: Headers, lines: seq<string>): Headers
    decreases |lines|
  {
    if lines == [] then m else InsertHeaders(InsertHeader(m, lines[0]), lines[1..])
  }

  datatype HttpRequest = HttpRequest(verb: string, uri: string, version: string, headers: Headers, body: string) {
    function GetHeaderValue(key: string): Option<string> {
      if key in headers then Some(headers[key]) else None
    }
  }

  /** The part of `parse_http_request` after the reading loop. */
  function ParseHead(buffer: string): Result<HttpRequest> {
    match SplitOnce(buffer, HTTP_REQUEST_DELIMITER)
    case None => Err(HttpParseError)
    case Some((head, body)) =>
      var lines := Lines(head);
      if lines == [] then Err(InvalidHTTPRequestLine)
      else
        var words := Words(lines[0]);
        if |words| == 0 then Err(MissingHTTPMethod)
        else if |words| == 1 then Err(MissingHTTPUri)
        else if |words| == 2 then Err(MissingHTTPVersion)
        else Ok(HttpRequest(words[0], words[1], words[2], InsertHeaders(map[], lines[1..]), body))
  }

  /** `parse_http_request`, and what it leaves in the stream. */
  function ParseHttp(input: string): Result<(HttpRequest, string)> {
    var (buffer, rest) := ReadHead("", input);
    var req :- ParseHead(buffer);
    Ok((req, rest))
  }

  method ParseHttpRequest(input: string) returns (r: Result<HttpRequest>, rest: string)
    ensures match ParseHttp(input)
            case Ok((req, tail)) => r == Ok(req) && rest == tail
            case Err(e) => r == Err(e)
  {
    var buffer := "";
    rest := input;
    while true
      invariant ReadHead(buffer, rest) == ReadHead("", input)
      decreases |rest|
    {
      var (line, tail) := ReadLine(rest);
      buffer, rest := buffer + line, tail;
      if |line| == 0 || EndsWith(buffer, HTTP_REQUEST_DELIMITER) {
        break;
      }
    }
    assert (buffer, rest) == ReadHead("", input);
    var parts := SplitOnce(buffer, HTTP_REQUEST_DELIMITER);
    if parts.None? {
      return Err(HttpParseError), rest;
    }
    var (head, body) := parts.value;
    var lines := Lines(head);
    if lines == [] {
      return Err(InvalidHTTPRequestLine), rest;
    }
    var words := Words(lines[0]);
    if |words| == 0 {
      return Err(MissingHTTPMethod), rest;
    }
    if |words| == 1 {
      return Err(MissingHTTPUri), rest;
    }
    if |words| == 2 {
      return Err(MissingHTTPVersion), rest;
    }
    var headers: Headers := map[];
    for i := 1 to |lines|
      invariant InsertHeaders(headers, lines[i..]) == InsertHeaders(map[], lines[1..])
    {
      var header := SplitOnce(lines[i], ": ");
      if header.Some? {
        headers := headers[Lower(header.value.0) := Trim(header.value.1)];
      }
    }
    r := Ok(HttpRequest(words[0], words[1], words[2], headers, body));
  }

  // ---------------------------------------------------------------- where the head ends

  /** An empty line ends at j + 4. */
  predicate At(s: string, j: nat) {
    j + 4 <= |s| && s[j] == '\r' && s[j + 1] == '\n' && s[j + 2] == '\r' && s[j + 3] == '\n'
  }

  ghost predicate First(s: string, i: nat) { At(s, i) && forall j: nat | j < i :: !At(s, j) }

  lemma {:induction false} ReadLineShape(s: string)
    ensures var (line, rest) := ReadLine(s);
      && s == line + rest
      && (forall i :: 0 <= i < |line| - 1 ==> line[i] != '\n')
      && (rest != "" ==> line != "" && line[|line| - 1] == '\n')
    decreases |s|
  {
    if s != "" && s[0] != '\n' {
      ReadLineShape(s[1..]);
      var (line, rest) := ReadLine(s[1..]);
      assert s == [s[0]] + s[1..];
    }
  }

  lemma EndsAt(s: string)
    ensures EndsWith(s, HTTP_REQUEST_DELIMITER) <==> |s| >= 4 && At(s, |s| - 4)
  {
    if |s| >= 4 {
      var t := s[|s| - 4..];
      assert t == [s[|s| - 4], s[|s| - 3], s[|s| - 2], s[|s| - 1]];
    }
  }

  /** Reading on from a buffer that holds no empty line yet. */
  lemma {:induction false} ReadHeadStops(buffer: string, input: string)
    requires buffer == "" || buffer[|buffer| - 1] == '\n'
    requires forall j: nat :: !At(buffer, j)
    ensures var (b, rest) := ReadHead(buffer, input);
      && b + rest == buffer + input
      && (if |b| >= 4 && At(b, |b| - 4) then First(b, |b| - 4) else rest == "" && forall j: nat :: !At(b, j))
    decreases |input|
  {
    hide At, EndsWith, ReadLine;
    ReadLineShape(input);
    var (line, rest) := ReadLine(input);
    var b := buffer + line;
    LineAdds(buffer, line);
    EndsAt(b);
    assert b + rest == buffer + input;
    if line != "" && !EndsWith(b, HTTP_REQUEST_DELIMITER) {
      if rest == "" {
        ReadHeadAtEnd(b);
      } else {
        ReadHeadStops(b, rest);
      }
    }
  }

  lemma ReadHeadAtEnd(b: string)
    ensures ReadHead(b, "") == (b, "")
  {
    assert b + "" == b;
  }

  /** A new line can complete an empty line only at its end. */
  lemma LineAdds(buffer: string, line: string)
    requires forall j: nat :: !At(buffer, j)
    requires forall i :: 0 <= i < |line| - 1 ==> line[i] != '\n'
    ensures forall j: nat :: At(buffer + line, j) ==> j + 4 == |buffer + line|
  {
    var b := buffer + line;
    forall j: nat | At(b, j) ensures j + 4 == |b| {
      if j + 4 <= |buffer| {
        assert At(buffer, j);
      } else {
        assert b[j + 3] == line[j + 3 - |buffer|];
      }
    }
  }

  lemma AtPrefix(b: string, rest: string)
    ensures forall j: nat :: At(b, j) <==> At(b + rest, j) && j + 4 <= |b|
  {
  }

  /**
   Head boundary, for any stream: exactly the bytes through the first empty line are consumed, and
   if there is none all of them are.
   */
  lemma HeadBoundary(input: string)
    ensures forall i: nat | First(input, i) :: ReadHead("", input) == (input[..i + 4], input[i + 4..])
    ensures (forall i: nat :: !At(input, i)) ==> ReadHead("", input) == (input, "")
  {
    hide ReadHead, At;
    assert forall j: nat :: !At("", j) by { NoneAtEmpty(); }
    ReadHeadStops("", input);
    var (b, rest) := ReadHead("", input);
    assert "" + input == input;
    AtPrefix(b, rest);
    if |b| >= 4 && At(b, |b| - 4) {
      assert First(input, |b| - 4);
      assert input[..|b|] == b && input[|b|..] == rest;
    } else {
      assert b + rest == b;
    }
  }

  lemma NoneAtEmpty()
    ensures forall j: nat :: !At("", j)
  {
  }

  // ---------------------------------------------------------------- a printed head

  /** Lines, each ended by CR LF, and an empty line. */
  function Block(lines: seq<string>): string
    decreases |lines|
  {
    if lines == [] then CRLF else lines[0] + CRLF + Block(lines[1..])
  }

  predicate IsLine(s: string) { s != "" && '\r' !in s && '\n' !in s }

  lemma {:induction false} BlockEnds(lines: seq<string>, rest: string)
    requires lines != [] && forall l | l in lines :: IsLine(l)
    ensures |Block(lines)| >= 4 && First(Block(lines) + rest, |Block(lines)| - 4)
    ensures Block(lines)[0] != '\r' && Block(lines)[|Block(lines)| - 4..] == HTTP_REQUEST_DELIMITER
    decreases |lines|
  {
    var l, more := lines[0], lines[1..];
    var tail := Block(more) + rest;
    var s := Block(lines) + rest;
    assert s == l + CRLF + tail;
    assert IsLine(l);
    if more == [] {
      assert Block(lines) == l + HTTP_REQUEST_DELIMITER;
    } else {
      BlockEnds(more, rest);
      assert Block(lines)[|Block(lines)| - 4..] == Block(more)[|Block(more)| - 4..];
    }
    var e := |Block(lines)| - 4;
    assert At(s, e) by {
      if more != [] { assert At(tail, |Block(more)| - 4); }
    }
    forall j: nat | j < e ensures !At(s, j) {
      if j < |l| {
        assert s[j] == l[j];
      } else if more != [] {
        NotEarlier(l, tail, |Block(more)| - 4, j);
      }
    }
  }

  lemma NotEarlier(l: string, tail: string, e: nat, j: nat)
    requires First(tail, e) && tail[0] != '\r' && |l| <= j < |l| + 2 + e
    ensures !At(l + CRLF + tail, j)
  {
    var s := l + CRLF + tail;
    if j == |l| {
      assert s[j + 2] == tail[0];
    } else if j == |l| + 1 {
      assert s[j] == '\n';
    } else {
      assert At(s, j) ==> At(tail, j - |l| - 2);
    }
  }

  lemma {:induction false} SplitOnceAt(s: string, p: string, i: nat)
    requires p != "" && i + |p| <= |s| && p <= s[i..] && forall j: nat | j < i :: !(p <= s[j..])
    ensures SplitOnce(s, p) == Some((s[..i], s[i + |p|..]))
    decreases i
  {
    assert s[0..] == s;
    if i > 0 {
      assert s[1..][i - 1..] == s[i..];
      forall j: nat | j < i - 1 ensures !(p <= s[1..][j..]) {
        assert s[1..][j..] == s[j + 1..];
      }
      SplitOnceAt(s[1..], p, i - 1);
      assert s[1..][i - 1 + |p|..] == s[i + |p|..];
      assert [s[0]] + s[1..][..i - 1] == s[..i];
    }
  }

  lemma DelimiterAt(s: string, j: nat)
    requires j <= |s|
    ensures HTTP_REQUEST_DELIMITER <= s[j..] <==> At(s, j)
  {
    if At(s, j) {
      assert s[j..][..4] == [s[j], s[j + 1], s[j + 2], s[j + 3]];
    }
  }

  lemma {:induction false} ReadLineOf(l: string, rest: string)
    requires '\n' !in l
    ensures ReadLine(l + "\n" + rest) == (l + "\n", rest)
    ensures ReadLine(l) == (l, "")
    decreases |l|
  {
    var s := l + "\n" + rest;
    if l == "" {
      assert s == "\n" + rest && s[1..] == rest;
    } else {
      ReadLineOf(l[1..], rest);
      assert s[1..] == l[1..] + "\n" + rest;
      assert [l[0]] + l[1..] == l;
      assert [l[0]] + (l[1..] + "\n") == l + "\n";
    }
  }

  /** A line ends at a line feed, which is no part of it, nor is a carriage return before it; the last may just end. */
  lemma LinesMeaning(l: string, rest: string)
    requires '\n' !in l
    ensures Lines(l + "\r\n" + rest) == [l] + Lines(rest)
    ensures (l == "" || l[|l| - 1] != '\r') ==> Lines(l + "\n" + rest) == [l] + Lines(rest)
    ensures Lines(l) == if l == "" then [] else [l]
  {
    hide ReadLine;
    ReadLineOf(l, rest);
    ReadLineOf(l + "\r", rest);
    ReadLineOf("", "");
    assert l + "\r" + "\n" == l + "\r\n" && (l + "\r\n")[..|l| + 1] == l + "\r" && (l + "\r")[..|l|] == l;
    assert (l + "\n")[..|l|] == l;
    assert Lines("") == [];
  }

  /** Words are separated by any space, and none is empty. */
  lemma WordsMeaning(before: string, w: string, rest: string)
    requires AllSpace(before) && w != "" && (forall i :: 0 <= i < |w| ==> !IsSpace(w[i]))
    requires rest == "" || IsSpace(rest[0])
    ensures Words(before + (w + rest)) == [w] + Words(rest) && Words(before) == []
  {
    hide IsSpace, Words;
    WordsFirst(w, rest);
    TrimStartPadded(before, w + rest);
    TrimStartSpace(before);
    WordsOfTrimmed(before + (w + rest));
    WordsOfTrimmed(w + rest);
    WordsOfTrimmed(before);
  }

  lemma WordsOfTrimmed(s: string)
    ensures Words(s) == if TrimStart(s) == "" then [] else Words(TrimStart(s))
  {
    hide IsSpace;
    TrimStartShorter(s);
    if TrimStart(s) != "" { TrimStartKeeps(TrimStart(s)); }
  }

  lemma StripCrlf(l: string)
    ensures StripEol(l + CRLF) == l
    ensures '\n' !in l ==> StripEol(l) == l
  {
    var s := l + CRLF;
    assert s[..|s| - 1] == l + "\r";
    assert (l + "\r")[..|l|] == l;
  }

  /** A block without its last line end and its empty line. */
  function HeadText(lines: seq<string>): string
    requires lines != []
    decreases |lines|
  {
    if |lines| == 1 then lines[0] else lines[0] + CRLF + HeadText(lines[1..])
  }

  lemma {:induction false} BlockHead(lines: seq<string>)
    requires lines != []
    ensures Block(lines) == HeadText(lines) + HTTP_REQUEST_DELIMITER
    decreases |lines|
  {
    if |lines| == 1 {
      assert Block(lines[1..]) == CRLF;
      assert CRLF + CRLF == HTTP_REQUEST_DELIMITER;
      assert lines[0] + CRLF + CRLF == lines[0] + (CRLF + CRLF);
    } else {
      BlockHead(lines[1..]);
    }
  }

  lemma {:induction false} LinesOfHead(lines: seq<string>)
    requires lines != [] && forall l | l in lines :: IsLine(l)
    ensures HeadText(lines) != "" && Lines(HeadText(lines)) == lines
    decreases |lines|
  {
    hide ReadLine, StripEol;
    var l := lines[0];
    assert IsLine(l);
    StripCrlf(l);
    if |lines| == 1 {
      ReadLineOf(l, "");
      assert lines == [l];
    } else {
      var tail := HeadText(lines[1..]);
      LinesOfHead(lines[1..]);
      ReadLineOf(l + "\r", tail);
      assert l + "\r" + "\n" == l + CRLF;
    }
  }

  lemma BlockParts(lines: seq<string>, rest: string)
    requires lines != [] && forall l | l in lines :: IsLine(l)
    ensures var (b, r) := ReadHead("", Block(lines) + rest);
      r == rest && SplitOnce(b, HTTP_REQUEST_DELIMITER).Some?
      && var (head, body) := SplitOnce(b, HTTP_REQUEST_DELIMITER).value; Lines(head) == lines && body == ""
  {
    hide Lines, ReadHead;
    var b := Block(lines);
    BlockEnds(lines, rest);
    BlockEnds(lines, "");
    HeadBoundary(b + rest);
    assert (b + rest)[..|b|] == b && (b + rest)[|b|..] == rest;
    LinesOfHead(lines);
    BlockHead(lines);
    assert b[..|b| - 4] == HeadText(lines);
    assert b + "" == b;
    forall j: nat | j < |b| - 4 ensures !(HTTP_REQUEST_DELIMITER <= b[j..]) { DelimiterAt(b, j); }
    DelimiterAt(b, |b| - 4);
    SplitOnceAt(b, HTTP_REQUEST_DELIMITER, |b| - 4);
  }

  /** A printed head is consumed exactly, and parses to its lines. */
  lemma ParseBlock(lines: seq<string>, rest: string)
    requires lines != [] && forall l | l in lines :: IsLine(l)
    requires |Words(lines[0])| >= 3
    ensures ParseHttp(Block(lines) + rest) ==
            Ok((HttpRequest(Words(lines[0])[0], Words(lines[0])[1], Words(lines[0])[2],
                            InsertHeaders(map[], lines[1..]), ""), rest))
  {
    hide Words, InsertHeaders, Lines, ReadHead;
    BlockParts(lines, rest);
  }

  /** What is wrong with a head whose first line has fewer than three words. */
  lemma ShortFirstLine(lines: seq<string>, rest: string)
    requires lines != [] && forall l | l in lines :: IsLine(l)
    ensures var n := |Words(lines[0])|;
      && (n == 0 ==> ParseHttp(Block(lines) + rest) == Err(MissingHTTPMethod))
      && (n == 1 ==> ParseHttp(Block(lines) + rest) == Err(MissingHTTPUri))
      && (n == 2 ==> ParseHttp(Block(lines) + rest) == Err(MissingHTTPVersion))
  {
    hide Words, InsertHeaders, Lines, ReadHead;
    BlockParts(lines, rest);
  }

  /** Without an empty line there is no head, and with nothing before it there is no first line. */
  lemma NoHead(input: string)
    ensures (forall j: nat :: !At(input, j)) ==> ParseHttp(input) == Err(HttpParseError)
    ensures ParseHttp(HTTP_REQUEST_DELIMITER + input) == Err(InvalidHTTPRequestLine)
  {
    hide ReadHead;
    if forall j: nat :: !At(input, j) {
      HeadBoundary(input);
      forall j: nat | j <= |input| ensures !(HTTP_REQUEST_DELIMITER <= input[j..]) { DelimiterAt(input, j); }
      SplitNowhere(input, HTTP_REQUEST_DELIMITER);
    }
    var s := HTTP_REQUEST_DELIMITER + input;
    assert At(s, 0);
    assert First(s, 0);
    HeadBoundary(s);
    assert s[..4] == HTTP_REQUEST_DELIMITER;
  }

  // ---------------------------------------------------------------- printed headers

  lemma HeaderLineSplits(key: string, value: string)
    requires ':' !in key
    ensures SplitOnce(key + ": " + value, ": ") == Some((key, value))
  {
    var s := key + ": " + value;
    var i := |key|;
    assert s[i..] == ": " + value;
    forall j: nat | j < i ensures !(": " <= s[j..]) {
      assert s[j..][0] == key[j];
    }
    SplitOnceAt(s, ": ", i);
    assert s[..i] == key && s[i + 2..] == value;
  }

  lemma HeaderInserted(m: Headers, key: string, value: string)
    requires ':' !in key && Trimmed(value)
    ensures InsertHeader(m, key + ": " + value) == m[Lower(key) := value]
  {
    HeaderLineSplits(key, value);
    TrimTrimmed(value);
  }

  /** Space around a value is no part of it. */
  lemma PaddedHeader(m: Headers, key: string, before: string, value: string, after: string)
    requires ':' !in key && AllSpace(before) && AllSpace(after) && Trimmed(value)
    ensures InsertHeader(m, key + ": " + (before + value + after)) == m[Lower(key) := value]
  {
    HeaderLineSplits(key, before + value + after);
    TrimPadded(before, value, after);
  }

  lemma {:induction false} SplitNowhere(s: string, p: string)
    requires p != "" && forall j: nat | j <= |s| :: !(p <= s[j..])
    ensures SplitOnce(s, p) == None
    decreases |s|
  {
    assert s[0..] == s;
    if s != "" {
      forall j: nat | j <= |s| - 1 ensures !(p <= s[1..][j..]) { assert s[1..][j..] == s[j + 1..]; }
      SplitNowhere(s[1..], p);
    }
  }

  /** A line without ": " is no header. */
  lemma NoHeader(m: Headers, line: string)
    requires forall j: nat | j <= |line| :: !(": " <= line[j..])
    ensures InsertHeader(m, line) == m
  {
    SplitNowhere(line, ": ");
  }

  /** Header names are compared without regard to the case of ASCII letters. */
  lemma LowerMeaning(s: string)
    ensures |Lower(s)| == |s|
    ensures forall i :: 0 <= i < |s| ==>
      && !('A' <= Lower(s)[i] <= 'Z')
      && (s[i] == Lower(s)[i] || ('A' <= s[i] <= 'Z' && Lower(s)[i] as int == s[i] as int + 32))
  {
  }

  lemma {:induction false} InsertConcat(m: Headers, a: seq<string>, b: seq<string>)
    ensures InsertHeaders(m, a + b) == InsertHeaders(InsertHeaders(m, a), b)
    decreases |a|
  {
    hide InsertHeader;
    if a == [] {
      assert a + b == b;
    } else {
      InsertConcat(InsertHeader(m, a[0]), a[1..], b);
      assert (a + b)[1..] == a[1..] + b;
    }
  }

  /** Words separated by single spaces. */
  lemma {:induction false} TakeWordOf(w: string, rest: string)
    requires forall i :: 0 <= i < |w| ==> !IsSpace(w[i])
    requires rest == "" || IsSpace(rest[0])
    ensures TakeWord(w + rest) == (w, rest)
    decreases |w|
  {
    hide IsSpace;
    if w == "" {
      assert w + rest == rest;
    } else {
      assert (w + rest)[1..] == w[1..] + rest;
      TakeWordOf(w[1..], rest);
      assert [w[0]] + w[1..] == w;
    }
  }

  lemma WordsFirst(w: string, rest: string)
    requires w != "" && forall i :: 0 <= i < |w| ==> !IsSpace(w[i])
    requires rest == "" || IsSpace(rest[0])
    ensures Words(w + rest) == [w] + Words(rest) && Words(" " + (w + rest)) == [w] + Words(rest)
  {
    TakeWordOf(w, rest);
    var s := w + rest;
    assert s[0] == w[0];
    assert TrimStart(s) == s;
    assert (" " + s)[1..] == s;
    assert TrimStart(" " + s) == TrimStart(s);
  }
}
