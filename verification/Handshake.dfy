/** The opening handshake between two endpoints of this library (src/handshake.rs, src/request.rs). */
module Handshake {
  import opened Basics
  import opened Text
  import opened Wire
  import Writers
  import Deflate
  import Reader
  import ReadStreams
  import Sender
  import opened Negotiation
  import opened Request

  const HOST: string := "host"
  const SEC_WEBSOCKET_KEY: string := "sec-websocket-key"
  const SEC_WEBSOCKET_EXTENSIONS: string := "sec-websocket-extensions"
  const SEC_WEBSOCKET_ACCEPT: string := "sec-websocket-accept"

  /** The accept value for a key: SHA-1 and base64, not modelled. */
  type Accept = string -> string

  type Header = (string, string)

  function HeaderLine(h: Header): string { h.0 + ": " + h.1 }

  function HeaderLines(hs: seq<Header>): seq<string> {
    seq(|hs|, i requires 0 <= i < |hs| => HeaderLine(hs[i]))
  }

  /** The header that `add_extension_headers` adds when compression is on. */
  function ExtensionHeader(e: Option<Extensions>): seq<Header> {
    if Enabled(e) then [("Sec-WebSocket-Extensions", HeaderValue(e.value))] else []
  }

  function RequestHeaders(host: string, key: string): seq<Header> {
    [("Host", host), ("Connection", "Upgrade"), ("Upgrade", "websocket"), ("Sec-WebSocket-Key", key),
     ("Sec-WebSocket-Version", "13")]
  }

  function ResponseHeaders(accept: string): seq<Header> {
    [("Connection", "Upgrade"), ("Upgrade", "websocket"), ("Sec-WebSocket-Accept", accept)]
  }

  /** Lines, each ended by CR LF. */
  function LineText(lines: seq<string>): string
    decreases |lines|
  {
    if lines == [] then "" else lines[0] + CRLF + LineText(lines[1..])
  }

  /** `construct_http_request`, for a URL already taken apart. */
  function RequestText(path: string, host: string, key: string, e: Option<Extensions>): string {
    LineText(["GET " + path + " HTTP/1.1"] + HeaderLines(RequestHeaders(host, key))) + ExtensionText(e)
  }

  function ResponseText(accept: string, e: Option<Extensions>): string {
    LineText(["HTTP/1.1 101 Switching Protocols"] + HeaderLines(ResponseHeaders(accept))) + ExtensionText(e)
  }

  /** `parse_handshake_server`: the agreed extensions, the response, and what is left to read. */
  function ServerHandshake(server: Option<Extensions>, accept: Accept, input: string)
    : Result<(Option<Extensions>, string, string)>
  {
    var (req, rest) :- ParseHttp(input);
    if req.verb != "GET" then Err(InvalidHTTPHandshake)
    else if req.GetHeaderValue(HOST).None? then Err(NoHostHeaderPresent)
    else
      match req.GetHeaderValue(SEC_WEBSOCKET_KEY)
      case None => Err(NoSecWebsocketKey)
      case Some(key) =>
        var offered := ParsedExtensions(OrEmpty(req.GetHeaderValue(SEC_WEBSOCKET_EXTENSIONS)));
        var agreed := MergeExtensions(server, offered);
        Ok((agreed, ResponseText(accept(key), agreed), rest))
  }

  function OrEmpty(s: Option<string>): string { if s.Some? then s.value else "" }

  predicate Contains(s: string, p: string) { exists i :: 0 <= i <= |s| && p <= s[i..] }

  /** `parse_handshake_client`. */
  function ClientHandshake(key: string, accept: Accept, input: string): Result<(Option<Extensions>, string)> {
    var (req, rest) :- ParseHttp(input);
    if !Contains(OrEmpty(req.GetHeaderValue(SEC_WEBSOCKET_ACCEPT)), accept(key)) then Err(InvalidAcceptKey)
    else Ok((ParsedExtensions(OrEmpty(req.GetHeaderValue(SEC_WEBSOCKET_EXTENSIONS))), rest))
  }

  /** What an endpoint leaves behind its head: an extra line end if it has extensions but no compression. */
  function Stray(e: Option<Extensions>): string {
    if e.Some? && !e.value.permessageDeflate then CRLF else ""
  }

  // ---------------------------------------------------------------- the methods

  datatype WebSocketConfig = WebSocketConfig(maxFrameSize: Option<nat>, maxMessageSize: Option<nat>,
                                             extensions: Option<Extensions>)

  /** `unwrap_or_default` on a size is 0. */
  function LimitsOf(c: WebSocketConfig): Limits {
    Limits(if c.maxFrameSize.Some? then c.maxFrameSize.value else 0,
           if c.maxMessageSize.Some? then c.maxMessageSize.value else 0,
           Enabled(c.extensions))
  }

  function OrDefault(e: Option<Extensions>): Extensions { if e.Some? then e.value else NO_EXTENSIONS }

  /** A stream of bytes, each written as the character of that number. */
  predicate ByteText(s: string) { forall i :: 0 <= i < |s| ==> s[i] as int < 256 }

  function ToBytes(s: string): seq<byte>
    requires ByteText(s)
  {
    seq(|s|, i requires 0 <= i < |s| => s[i] as int)
  }

  lemma RestIsByteText(input: string)
    requires ByteText(input) && ParseHttp(input).Ok?
    ensures ByteText(ParseHttp(input).value.1)
  {
    hide At, ReadHead, ParseHead;
    NoneAtEmpty();
    ReadHeadStops("", input);
    var (b, rest) := ReadHead("", input);
    forall i | 0 <= i < |rest| ensures rest[i] as int < 256 {
      assert rest[i] == (b + rest)[|b| + i] == ("" + input)[|b| + i];
    }
  }

  method ParseHandshakeServer(server: Option<Extensions>, accept: Accept, input: string)
    returns (r: Result<Option<Extensions>>, response: string, rest: string)
    ensures match ServerHandshake(server, accept, input)
            case Ok((agreed, text, tail)) => r == Ok(agreed) && response == text && rest == tail
            case Err(e) => r == Err(e)
  {
    response := "";
    var parsed;
    parsed, rest := ParseHttpRequest(input);
    if parsed.Err? {
      return Err(parsed.error), response, rest;
    }
    var req := parsed.value;
    if req.verb != "GET" {
      return Err(InvalidHTTPHandshake), response, rest;
    }
    if req.GetHeaderValue(HOST).None? {
      return Err(NoHostHeaderPresent), response, rest;
    }
    var key := req.GetHeaderValue(SEC_WEBSOCKET_KEY);
    if key.None? {
      return Err(NoSecWebsocketKey), response, rest;
    }
    var offered := ParseExtensions(OrEmpty(req.GetHeaderValue(SEC_WEBSOCKET_EXTENSIONS)));
    var agreed := MergeExtensions(server, offered);
    response := LineText(["HTTP/1.1 101 Switching Protocols"] + HeaderLines(ResponseHeaders(accept(key.value))));
    response := AddExtensionHeaders(response, agreed);
    r := Ok(agreed);
  }

  method ParseHandshakeClient(key: string, accept: Accept, input: string)
    returns (r: Result<Option<Extensions>>, rest: string)
    ensures match ClientHandshake(key, accept, input)
            case Ok((seen, tail)) => r == Ok(seen) && rest == tail
            case Err(e) => r == Err(e)
  {
    var parsed;
    parsed, rest := ParseHttpRequest(input);
    if parsed.Err? {
      return Err(parsed.error), rest;
    }
    var req := parsed.value;
    if !Contains(OrEmpty(req.GetHeaderValue(SEC_WEBSOCKET_ACCEPT)), accept(key)) {
      return Err(InvalidAcceptKey), rest;
    }
    var seen := ParseExtensions(OrEmpty(req.GetHeaderValue(SEC_WEBSOCKET_EXTENSIONS)));
    r := Ok(seen);
  }

  /** What the two tasks of a connection start from, for the negotiated extensions e. */
  ghost predicate Wired(c: WebSocketConfig, e: Option<Extensions>, kind: Writers.WriterKind, parse: Deflate.Parse,
                        library: Deflate.Library, rng: nat -> Mask, around: ReadStreams.Surroundings, rest: string,
                        stream: ReadStreams.ReadStream, writer: Sender.WSWriter)
    reads stream, stream.decoder, writer.encoder, writer.writer
  {
    && stream.config == writer.config == LimitsOf(c.(extensions := e))
    && stream.writer == writer.writer && stream.around == around && stream.turns == 0
    && writer.writer.kind == kind && writer.writer.rng == rng
    && writer.writer.writeHalf == [] && writer.writer.written == 0
    && ByteText(rest) && stream.bufReader == ToBytes(rest) && stream.readTx == []
    && stream.State() == Reader.RState(None, WiredInflater(OrDefault(e), parse))
    && writer.encoder.State() == WiredDeflater(OrDefault(e), parse) && writer.encoder.library == library
  }

  /** The objects of a connection are its own. */
  twostate predicate IsNew(new stream: ReadStreams.ReadStream, new writer: Sender.WSWriter) {
    && fresh(stream) && fresh(stream.decoder)
    && fresh(writer) && fresh(writer.encoder) && fresh(writer.writer)
  }

  /** The end of both handshakes: decoder, encoder, writer, reader. */
  method SecondStageHandshake(c: WebSocketConfig, e: Option<Extensions>, kind: Writers.WriterKind, parse: Deflate.Parse,
                              library: Deflate.Library, rng: nat -> Mask,
                              around: ReadStreams.Surroundings, rest: string)
    returns (stream: ReadStreams.ReadStream, writer: Sender.WSWriter)
    requires ZlibWindows(OrDefault(e)) && ByteText(rest)
    ensures IsNew(stream, writer) && Wired(c, e, kind, parse, library, rng, around, rest, stream, writer)
  {
    var config := c.(extensions := e);
    var extensions := OrDefault(config.extensions);
    var decoder := new Deflate.Decoder(parse, OrFalse(extensions.clientNoContextTakeover),
                                       extensions.clientMaxWindowBits);
    var encoder := new Deflate.Encoder(parse, library, OrFalse(extensions.serverNoContextTakeover),
                                       extensions.serverMaxWindowBits);
    var shared := new Writers.Writer(kind, rng);
    stream := new ReadStreams.ReadStream(ToBytes(rest), shared, LimitsOf(config), decoder, around);
    writer := new Sender.WSWriter(shared, LimitsOf(config), encoder);
  }

  method AcceptAsyncWithConfig(c: WebSocketConfig, accept: Accept, parse: Deflate.Parse,
                               library: Deflate.Library, rng: nat -> Mask,
                               around: ReadStreams.Surroundings, input: string)
    returns (r: Result<(ReadStreams.ReadStream, Sender.WSWriter)>, response: string)
    requires ByteText(input)
    requires var h := ServerHandshake(c.extensions, accept, input); h.Ok? ==> ZlibWindows(OrDefault(h.value.0))
    ensures match ServerHandshake(c.extensions, accept, input)
            case Ok((agreed, text, rest)) =>
              && r.Ok? && response == text && IsNew(r.value.0, r.value.1)
              && Wired(c, agreed, Writers.Server, parse, library, rng, around, rest, r.value.0, r.value.1)
            case Err(e) => r == Err(e)
  {
    var agreed, rest;
    agreed, response, rest := ParseHandshakeServer(c.extensions, accept, input);
    if agreed.Err? {
      return Err(agreed.error), response;
    }
    RestIsByteText(input);
    var stream, writer := SecondStageHandshake(c, agreed.value, Writers.Server, parse, library, rng, around, rest);
    r := Ok((stream, writer));
  }

  method ConnectAsyncWithConfig(c: WebSocketConfig, key: string, accept: Accept, parse: Deflate.Parse,
                                library: Deflate.Library, rng: nat -> Mask,
                                around: ReadStreams.Surroundings, input: string)
    returns (r: Result<(ReadStreams.ReadStream, Sender.WSWriter)>)
    requires ByteText(input)
    requires var h := ClientHandshake(key, accept, input); h.Ok? ==> ZlibWindows(OrDefault(h.value.0))
    ensures match ClientHandshake(key, accept, input)
            case Ok((seen, rest)) =>
              && r.Ok? && IsNew(r.value.0, r.value.1)
              && Wired(c, seen, Writers.Client, parse, library, rng, around, rest, r.value.0, r.value.1)
            case Err(e) => r == Err(e)
  {
    var seen, rest := ParseHandshakeClient(key, accept, input);
    if seen.Err? {
      return Err(seen.error);
    }
    RestIsByteText(input);
    var stream, writer := SecondStageHandshake(c, seen.value, Writers.Client, parse, library, rng, around, rest);
    r := Ok((stream, writer));
  }

  // ---------------------------------------------------------------- both ends together

  predicate IsToken(s: string) { s != "" && forall i :: 0 <= i < |s| ==> !IsSpace(s[i]) }

  predicate IsHeaderValue(s: string) { Trimmed(s) && '\r' !in s && '\n' !in s }

  predicate IsHeader(h: Header) { ':' !in h.0 && '\r' !in h.0 && '\n' !in h.0 && IsHeaderValue(h.1) }

  lemma {:induction false} BlockText(a: seq<string>, b: seq<string>)
    ensures Block(a + b) == LineText(a) + Block(b)
    decreases |a|
  {
    if a == [] {
      assert a + b == b;
    } else {
      assert (a + b)[1..] == a[1..] + b;
      BlockText(a[1..], b);
    }
  }

  /** The text of a message of the handshake is a block of lines, and possibly a stray line end. */
  lemma ExtensionBlock(first: string, hs: seq<Header>, e: Option<Extensions>)
    ensures LineText([first] + HeaderLines(hs)) + ExtensionText(e)
            == Block([first] + HeaderLines(hs + ExtensionHeader(e))) + Stray(e)
  {
    hide HeaderValue, LineText;
    var lines, ext := [first] + HeaderLines(hs), HeaderLines(ExtensionHeader(e));
    BlockText(lines, ext);
    assert lines + ext == [first] + HeaderLines(hs + ExtensionHeader(e));
    assert ExtensionText(e) == Block(ext) + Stray(e) by { ExtensionTextBlock(e); }
  }

  lemma ExtensionTextBlock(e: Option<Extensions>)
    ensures ExtensionText(e) == Block(HeaderLines(ExtensionHeader(e))) + Stray(e)
  {
    hide HeaderValue;
    if Enabled(e) {
      var l := HeaderLine(ExtensionHeader(e)[0]);
      assert HeaderLines(ExtensionHeader(e)) == [l];
      assert [l][1..] == [];
      assert "Sec-WebSocket-Extensions: " + HeaderValue(e.value)
             == "Sec-WebSocket-Extensions" + ": " + HeaderValue(e.value);
      assert Block([l]) == l + CRLF + CRLF;
      assert CRLF + CRLF == "\r\n\r\n";
      assert l + CRLF + CRLF == l + (CRLF + CRLF);
    } else {
      assert HeaderLines(ExtensionHeader(e)) == [];
    }
  }

  predicate CleanPiece(p: string) { p != "" && '\r' !in p && '\n' !in p && !IsSpace(p[|p| - 1]) }

  lemma {:induction false} JoinClean(ps: seq<string>)
    requires |ps| >= 1 && forall p | p in ps :: CleanPiece(p)
    ensures CleanPiece(ps[0]) && CleanPiece(Join(ps, ';')) && Join(ps, ';')[0] == ps[0][0]
    decreases |ps|
  {
    hide IsSpace;
    assert CleanPiece(ps[0]);
    if |ps| > 1 {
      JoinClean(ps[1..]);
      var s, t := Join(ps, ';'), Join(ps[1..], ';');
      assert s[|s| - 1] == t[|t| - 1];
    }
  }

  lemma FlagPieceClean(name: string, flag: Option<bool>)
    requires IsName(name)
    ensures forall p | p in FlagPiece(name, flag) :: CleanPiece(p)
  {
    NameClean(name);
    assert NameChar(name[|name| - 1]);
  }

  lemma BitsPieceClean(name: string, bits: Option<byte>)
    requires IsName(name)
    ensures forall p | p in BitsPiece(name, bits) :: CleanPiece(p)
  {
    hide ShowU8, IsSpace, IsName;
    if bits.Some? {
      SettingClean(name, bits.value);
      var s := name + "=" + ShowU8(bits.value);
      assert (" " + s)[|" " + s| - 1] == s[|s| - 1];
    }
  }

  lemma DeflatePieceClean()
    ensures CleanPiece(PERMESSAGE_DEFLATE) && !IsSpace(PERMESSAGE_DEFLATE[0])
  {
    hide IsSpace;
    DeflateName();
    NameClean(PERMESSAGE_DEFLATE);
  }

  lemma PiecesClean(e: Extensions)
    ensures forall p | p in Pieces(e) :: CleanPiece(p)
  {
    hide IsName, FlagPiece, BitsPiece, CleanPiece;
    ClientFlagName();
    ServerFlagName();
    ClientBitsName();
    ServerBitsName();
    DeflatePieceClean();
    FlagPieceClean(CLIENT_NO_CONTEXT_TAKEOVER, e.clientNoContextTakeover);
    FlagPieceClean(SERVER_NO_CONTEXT_TAKEOVER, e.serverNoContextTakeover);
    BitsPieceClean(CLIENT_MAX_WINDOW_BITS, e.clientMaxWindowBits);
    BitsPieceClean(SERVER_MAX_WINDOW_BITS, e.serverMaxWindowBits);
  }

  lemma HeaderValueClean(e: Extensions)
    ensures IsHeaderValue(HeaderValue(e))
  {
    hide IsSpace, FlagPiece, BitsPiece, Join;
    PiecesClean(e);
    DeflatePieceClean();
    JoinClean(Pieces(e));
  }

  // ---------------------------------------------------------------- looking headers up

  function InsertPairs(m: Headers, hs: seq<Header>): Headers
    decreases |hs|
  {
    if hs == [] then m else InsertPairs(m[Lower(hs[0].0) := hs[0].1], hs[1..])
  }

  lemma {:induction false} InsertLines(m: Headers, hs: seq<Header>)
    requires forall h | h in hs :: IsHeader(h)
    ensures InsertHeaders(m, HeaderLines(hs)) == InsertPairs(m, hs)
    decreases |hs|
  {
    hide InsertHeader, Lower, Trimmed;
    if hs != [] {
      var h := hs[0];
      assert IsHeader(h);
      HeaderInserted(m, h.0, h.1);
      InsertLines(m[Lower(h.0) := h.1], hs[1..]);
      assert HeaderLines(hs)[1..] == HeaderLines(hs[1..]);
    }
  }

  /** Headers with other names leave a key alone. */
  lemma {:induction false} OtherHeaders(m: Headers, hs: seq<Header>, key: string)
    requires forall h | h in hs :: |h.0| != |key|
    ensures var r := InsertPairs(m, hs); (key in r <==> key in m) && (key in m ==> r[key] == m[key])
    decreases |hs|
  {
    if hs != [] {
      assert |Lower(hs[0].0)| == |hs[0].0|;
      OtherHeaders(m[Lower(hs[0].0) := hs[0].1], hs[1..], key);
    }
  }

  lemma {:induction false} HeaderFound(m: Headers, hs: seq<Header>, i: nat, key: string)
    requires i < |hs| && Lower(hs[i].0) == key
    requires forall j :: i < j < |hs| ==> |hs[j].0| != |key|
    ensures var r := InsertPairs(m, hs); key in r && r[key] == hs[i].1
    decreases |hs|
  {
    var m' := m[Lower(hs[0].0) := hs[0].1];
    if i == 0 {
      OtherHeaders(m', hs[1..], key);
    } else {
      HeaderFound(m', hs[1..], i - 1, key);
    }
  }

  lemma LowerHost() ensures Lower("Host") == HOST {}

  lemma LowerKey() ensures Lower("Sec-WebSocket-Key") == SEC_WEBSOCKET_KEY {}

  lemma LowerAccept() ensures Lower("Sec-WebSocket-Accept") == SEC_WEBSOCKET_ACCEPT {}

  lemma LowerExtensions() ensures Lower("Sec-WebSocket-Extensions") == SEC_WEBSOCKET_EXTENSIONS {}

  lemma HeaderNames()
    ensures forall n | n in {"Host", "Connection", "Upgrade", "Sec-WebSocket-Key", "Sec-WebSocket-Version",
                             "Sec-WebSocket-Accept", "Sec-WebSocket-Extensions"} ::
      ':' !in n && '\r' !in n && '\n' !in n
  {
  }

  lemma HeaderIsLine(h: Header)
    requires IsHeader(h)
    ensures IsLine(HeaderLine(h))
  {
    hide Trimmed;
  }

  lemma ExtensionHeaderIsHeader(e: Option<Extensions>)
    ensures forall h | h in ExtensionHeader(e) :: IsHeader(h)
  {
    hide HeaderValue, Trimmed;
    HeaderNames();
    if Enabled(e) { HeaderValueClean(e.value); }
  }

  /** A printed head, whatever follows it, parses to its headers and leaves what follows. */
  lemma HeadParses(first: string, hs: seq<Header>, e: Option<Extensions>, rest: string)
    requires IsLine(first) && |Words(first)| >= 3 && forall h | h in hs :: IsHeader(h)
    ensures ParseHttp(LineText([first] + HeaderLines(hs)) + ExtensionText(e) + rest) ==
            Ok((HttpRequest(Words(first)[0], Words(first)[1], Words(first)[2],
                            InsertPairs(map[], hs + ExtensionHeader(e)), ""), Stray(e) + rest))
  {
    hide LineText, ExtensionText, Words, ParseHttp, IsLine, IsHeader, Block, ExtensionHeader, Stray,
      HeaderLine, InsertHeaders, InsertPairs;
    ExtensionBlock(first, hs, e);
    ExtensionHeaderIsHeader(e);
    var all := hs + ExtensionHeader(e);
    var lines := [first] + HeaderLines(all);
    assert Block(lines) + Stray(e) + rest == Block(lines) + (Stray(e) + rest);
    forall l | l in lines ensures IsLine(l) {
      if l != first {
        var i :| 0 <= i < |all| && l == HeaderLine(all[i]);
        HeaderIsLine(all[i]);
      }
    }
    assert lines[0] == first && lines[1..] == HeaderLines(all);
    ParseBlock(lines, Stray(e) + rest);
    InsertLines(map[], all);
  }

  lemma ThreeWords(a: string, b: string, c: string, tail: string)
    requires IsToken(a) && IsToken(b) && IsToken(c) && (tail == "" || IsSpace(tail[0]))
    ensures Words(a + " " + b + " " + c + tail) == [a, b, c] + Words(tail)
  {
    hide TakeWord, TrimStart, Words;
    var t2 := " " + (c + tail);
    var t1 := " " + (b + t2);
    assert a + " " + b + " " + c + tail == a + t1;
    WordsFirst(a, t1);
    WordsFirst(b, t2);
    WordsFirst(c, tail);
  }

  lemma RequestLine(path: string)
    requires IsToken(path)
    ensures var l := "GET " + path + " HTTP/1.1";
      && IsLine(l) && |Words(l)| >= 3 && Words(l)[0] == "GET" && Words(l)[1] == path
  {
    hide TakeWord, TrimStart, Words;
    var l := "GET " + path + " HTTP/1.1";
    Tokens();
    assert l == "GET" + " " + path + " " + "HTTP/1.1" + "";
    ThreeWords("GET", path, "HTTP/1.1", "");
    TokenHasNoEnds(path);
    TokenHasNoEnds("HTTP/1.1");
  }

  lemma Tokens()
    ensures IsToken("GET") && IsToken("HTTP/1.1") && IsToken("101") && IsToken("Switching")
  {
  }

  lemma TokenHasNoEnds(s: string)
    requires IsToken(s)
    ensures '\r' !in s && '\n' !in s
  {
  }

  lemma StatusLine()
    ensures var l := "HTTP/1.1 101 Switching Protocols"; IsLine(l) && |Words(l)| >= 3
  {
    hide TakeWord, TrimStart, Words, IsToken;
    Tokens();
    var l := "HTTP/1.1 101 Switching Protocols";
    SplitStatus();
    ThreeWords("HTTP/1.1", "101", "Switching", " Protocols");
    TokenHasNoEnds("HTTP/1.1");
    TokenHasNoEnds("101");
    TokenHasNoEnds("Switching");
    PlainTail();
  }

  lemma SplitStatus()
    ensures "HTTP/1.1 101 Switching Protocols" == "HTTP/1.1" + " " + "101" + " " + "Switching" + " Protocols"
  {
  }

  lemma PlainTail()
    ensures '\r' !in " Protocols" && '\n' !in " Protocols"
  {
  }

  /** What a server finds in the request of a client of this library. */
  lemma RequestParses(path: string, host: string, key: string, e: Option<Extensions>, rest: string)
    requires IsToken(path) && IsHeaderValue(host) && IsHeaderValue(key)
    ensures var r := ParseHttp(RequestText(path, host, key, e) + rest);
      && r.Ok? && r.value.1 == Stray(e) + rest && r.value.0.verb == "GET"
      && r.value.0.GetHeaderValue(HOST) == Some(host)
      && r.value.0.GetHeaderValue(SEC_WEBSOCKET_KEY) == Some(key)
      && OrEmpty(r.value.0.GetHeaderValue(SEC_WEBSOCKET_EXTENSIONS)) == PrintedValue(e)
  {
    hide LineText, ExtensionText, Words, ParseHttp, IsLine, HeaderValue, Stray, InsertPairs, Lower, IsHeaderValue;
    RequestLine(path);
    PlainHeaders(host, key);
    HeadParses("GET " + path + " HTTP/1.1", RequestHeaders(host, key), e, rest);
    var hs := RequestHeaders(host, key) + ExtensionHeader(e);
    NameLengths();
    LowerHost();
    LowerKey();
    LowerExtensions();
    HeaderFound(map[], hs, 0, HOST);
    HeaderFound(map[], hs, 3, SEC_WEBSOCKET_KEY);
    if Enabled(e) {
      HeaderFound(map[], hs, 5, SEC_WEBSOCKET_EXTENSIONS);
    } else {
      OtherHeaders(map[], hs, SEC_WEBSOCKET_EXTENSIONS);
    }
  }

  lemma PlainHeaders(host: string, key: string)
    requires IsHeaderValue(host) && IsHeaderValue(key)
    ensures forall h | h in RequestHeaders(host, key) + ResponseHeaders(key) :: IsHeader(h)
  {
    HeaderNames();
    hide IsSpace;
    assert IsHeaderValue("Upgrade") && IsHeaderValue("websocket") && IsHeaderValue("13") by { PlainValues(); }
    hide IsHeaderValue;
  }

  lemma PlainValues()
    ensures IsHeaderValue("Upgrade") && IsHeaderValue("websocket") && IsHeaderValue("13")
  {
  }

  lemma NameLengths()
    ensures |HOST| == 4 && |SEC_WEBSOCKET_KEY| == 17 && |SEC_WEBSOCKET_EXTENSIONS| == 24 && |SEC_WEBSOCKET_ACCEPT| == 20
  {
  }

  /** What a client finds in the response of a server of this library. */
  lemma ResponseParses(accept: string, e: Option<Extensions>, rest: string)
    requires IsHeaderValue(accept)
    ensures var r := ParseHttp(ResponseText(accept, e) + rest);
      && r.Ok? && r.value.1 == Stray(e) + rest
      && r.value.0.GetHeaderValue(SEC_WEBSOCKET_ACCEPT) == Some(accept)
      && OrEmpty(r.value.0.GetHeaderValue(SEC_WEBSOCKET_EXTENSIONS)) == PrintedValue(e)
  {
    hide LineText, ExtensionText, Words, ParseHttp, IsLine, HeaderValue, Stray, InsertPairs, Lower, IsHeaderValue;
    StatusLine();
    PlainHeaders(accept, accept);
    HeadParses("HTTP/1.1 101 Switching Protocols", ResponseHeaders(accept), e, rest);
    var hs := ResponseHeaders(accept) + ExtensionHeader(e);
    NameLengths();
    LowerAccept();
    LowerExtensions();
    HeaderFound(map[], hs, 2, SEC_WEBSOCKET_ACCEPT);
    if Enabled(e) {
      HeaderFound(map[], hs, 3, SEC_WEBSOCKET_EXTENSIONS);
    } else {
      OtherHeaders(map[], hs, SEC_WEBSOCKET_EXTENSIONS);
    }
  }

  /**
   The handshake, from text to text: the server agrees to the merge of the two configurations, the
   client accepts and reads back exactly that, and each frame reader begins right after the head,
   but for a stray line end if the peer's extensions are given with compression off.
   */
  lemma HandshakeAgreement(server: Option<Extensions>, client: Option<Extensions>,
                           path: string, host: string, key: string, accept: Accept, toServer: string, toClient: string)
    requires IsToken(path) && IsHeaderValue(host) && IsHeaderValue(key) && IsHeaderValue(accept(key))
    ensures var agreed := MergeExtensions(server, ParsedExtensions(PrintedValue(client)));
      var response := ResponseText(accept(key), agreed);
      && ServerHandshake(server, accept, RequestText(path, host, key, client) + toServer)
         == Ok((agreed, response, Stray(client) + toServer))
      && ClientHandshake(key, accept, response + toClient)
         == Ok((if Enabled(agreed) then agreed else None, Stray(agreed) + toClient))
  {
    hide RequestText, ResponseText, ParseHttp, PrintedValue, ParsedExtensions, MergeExtensions, Stray, IsHeaderValue;
    RequestParses(path, host, key, client, toServer);
    var agreed := MergeExtensions(server, ParsedExtensions(PrintedValue(client)));
    ResponseParses(accept(key), agreed, toClient);
    var a := accept(key);
    assert Contains(a, a) by { assert a <= a[0..]; }
    NegotiationAgreement(server, client);
  }

  /** The stray line end is read as a frame header and ends the connection at once. */
  lemma StrayStops(lim: Limits, st: Reader.RState, e: Option<Extensions>, rest: string)
    requires Stray(e) != "" && ByteText(rest)
    ensures ByteText(Stray(e) + rest)
    ensures Reader.Poll(lim, st, ToBytes(Stray(e) + rest)).trace == Reader.Fail(InvalidOpcode)
  {
    var input := ToBytes(CRLF + rest);
    assert input[..2] == [13, 10];
    assert ParseHeader(lim, 13, 10) == Err(InvalidOpcode);
    assert Reader.FrameParser(lim)(input) == ParseFrame(lim, input) == Err(InvalidOpcode);
  }
}
