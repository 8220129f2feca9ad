/**
 The checks of both handshakes, for heads that any peer may send, and the texts this library sends
 itself (src/handshake.rs, src/request.rs).
 */
module HandshakeChecks {
  import opened Basics
  import opened Text
  import Wire
  import opened Reader
  import opened Grammar
  import opened Negotiation
  import opened Request
  import opened Handshake
  import Frames
  import Deflate

  // ---------------------------------------------------------------- any head

  /** A head of a first line and headers. */
  function Head(first: string, hs: seq<Header>): string { LineText([first] + HeaderLines(hs)) + "\r\n" }

  /** The value of the last header of that name, in whatever case it is written. */
  function Value(hs: seq<Header>, name: string): Option<string>
    decreases |hs|
  {
    if hs == [] then None
    else
      var n := |hs| - 1;
      if Lower(hs[n].0) == name then Some(hs[n].1) else Value(hs[..n], name)
  }

  lemma {:induction false} InsertSnoc(m: Headers, hs: seq<Header>, h: Header)
    ensures InsertPairs(m, hs + [h]) == InsertPairs(m, hs)[Lower(h.0) := h.1]
    decreases |hs|
  {
    hide Lower;
    if hs == [] {
      assert hs + [h] == [h] && [h][1..] == [];
    } else {
      assert (hs + [h])[1..] == hs[1..] + [h];
      InsertSnoc(m[Lower(hs[0].0) := hs[0].1], hs[1..], h);
    }
  }

  lemma {:induction false} LastValue(hs: seq<Header>, name: string)
    ensures var m := InsertPairs(map[], hs); Value(hs, name) == if name in m then Some(m[name]) else None
    decreases |hs|
  {
    hide Lower;
    if hs != [] {
      var n := |hs| - 1;
      LastValue(hs[..n], name);
      InsertSnoc(map[], hs[..n], hs[n]);
      assert hs == hs[..n] + [hs[n]];
    }
  }

  /** What is found in a head, whatever its headers are. */
  lemma AnyHead(first: string, hs: seq<Header>, rest: string)
    requires IsLine(first) && |Words(first)| >= 3 && forall h | h in hs :: IsHeader(h)
    ensures var r := ParseHttp(Head(first, hs) + rest);
      && r.Ok? && r.value.1 == rest && r.value.0.verb == Words(first)[0]
      && forall name :: r.value.0.GetHeaderValue(name) == Value(hs, name)
  {
    hide LineText, Words, ParseHttp, IsLine, IsHeader, InsertPairs, Value, HeaderLines;
    HeadParses(first, hs, None, rest);
    assert hs + ExtensionHeader(None) == hs;
    assert Stray(None) + rest == rest;
    forall name ensures ParseHttp(Head(first, hs) + rest).value.0.GetHeaderValue(name) == Value(hs, name) {
      LastValue(hs, name);
    }
  }

  lemma ContainsMeaning(s: string, p: string)
    ensures Contains(s, p) <==> exists a: string, b: string :: s == a + p + b
  {
    if Contains(s, p) {
      var i :| 0 <= i <= |s| && p <= s[i..];
      assert s == s[..i] + p + s[i + |p|..];
    }
    forall a: string, b: string | s == a + p + b ensures Contains(s, p) {
      assert s[|a|..] == p + b && p <= s[|a|..];
    }
  }

  /**
   The client's check: whatever the status line and the headers, it goes on exactly if the accept
   value it expects occurs in the last Sec-WebSocket-Accept header, or in "" if there is none.
   */
  lemma ClientCheck(first: string, hs: seq<Header>, key: string, accept: Accept, rest: string)
    requires IsLine(first) && |Words(first)| >= 3 && forall h | h in hs :: IsHeader(h)
    ensures var said := Value(hs, "sec-websocket-accept");
      var offer := Value(hs, "sec-websocket-extensions");
      ClientHandshake(key, accept, Head(first, hs) + rest) ==
        if exists a: string, b: string :: (if said.Some? then said.value else "") == a + accept(key) + b
        then Ok((ParsedExtensions(if offer.Some? then offer.value else ""), rest))
        else Err(InvalidAcceptKey)
  {
    hide Words, ParseHttp, IsLine, IsHeader, Value, Head, ParsedExtensions, Contains;
    AnyHead(first, hs, rest);
    ContainsMeaning(OrEmpty(Value(hs, SEC_WEBSOCKET_ACCEPT)), accept(key));
  }

  /** A response of this library with another accept value, or the same without its accept header. */
  lemma WrongAccept(other: string, e: Option<Extensions>, key: string, accept: Accept, rest: string)
    requires IsHeaderValue(other)
    ensures ClientHandshake(key, accept, ResponseText(other, e) + rest).Ok? <==>
            exists a: string, b: string :: other == a + accept(key) + b
    ensures ClientHandshake(key, accept, ResponseText(other, e) + rest).Err? ==>
            ClientHandshake(key, accept, ResponseText(other, e) + rest) == Err(InvalidAcceptKey)
    ensures accept(key) != "" ==>
            ClientHandshake(key, accept, Head("HTTP/1.1 101 Switching Protocols", SansAccept()) + rest) ==
            Err(InvalidAcceptKey)
  {
    hide Words, ParseHttp, IsLine, IsHeader, Head, ParsedExtensions, Contains, ResponseText, IsHeaderValue;
    ResponseParses(other, e, rest);
    ContainsMeaning(other, accept(key));
    if accept(key) != "" {
      StatusLine();
      SansAcceptHeaders();
      ClientCheck("HTTP/1.1 101 Switching Protocols", SansAccept(), key, accept, rest);
    }
  }

  function SansAccept(): seq<Header> { [("Connection", "Upgrade"), ("Upgrade", "websocket")] }

  lemma SansAcceptHeaders()
    ensures forall h | h in SansAccept() :: IsHeader(h)
    ensures Value(SansAccept(), "sec-websocket-accept") == None
  {
    HeaderNames();
    PlainValues();
    hide IsHeaderValue;
    var hs := SansAccept();
    assert |Lower(hs[1].0)| == 7 && |Lower(hs[0].0)| == 10;
    assert hs[..1] == [hs[0]] && hs[..1][..0] == [];
  }

  /**
   The server's checks, in this order: the method, the Host header, the key. Otherwise it agrees to
   the merge of its configuration with what the last Sec-WebSocket-Extensions header says.
   */
  lemma ServerCheck(server: Option<Extensions>, verb: string, path: string, version: string, hs: seq<Header>,
                    accept: Accept, rest: string)
    requires IsToken(verb) && IsToken(path) && IsToken(version) && forall h | h in hs :: IsHeader(h)
    ensures var host, key := Value(hs, "host"), Value(hs, "sec-websocket-key");
      var offer := Value(hs, "sec-websocket-extensions");
      var agreed := MergeExtensions(server, ParsedExtensions(if offer.Some? then offer.value else ""));
      ServerHandshake(server, accept, Head(verb + " " + path + " " + version, hs) + rest) ==
        if verb != "GET" then Err(InvalidHTTPHandshake)
        else if host.None? then Err(NoHostHeaderPresent)
        else if key.None? then Err(NoSecWebsocketKey)
        else Ok((agreed, ResponseText(accept(key.value), agreed), rest))
  {
    hide Words, ParseHttp, IsLine, IsHeader, Value, Head, ParsedExtensions, MergeExtensions, ResponseText, IsToken;
    var first := verb + " " + path + " " + version;
    FirstLine(verb, path, version);
    AnyHead(first, hs, rest);
  }

  lemma FirstLine(verb: string, path: string, version: string)
    requires IsToken(verb) && IsToken(path) && IsToken(version)
    ensures var l := verb + " " + path + " " + version; IsLine(l) && |Words(l)| >= 3 && Words(l)[0] == verb
  {
    hide Words, IsToken;
    var l := verb + " " + path + " " + version;
    ThreeWords(verb, path, version, "");
    assert l + "" == l;
    TokenHasNoEnds(verb);
    TokenHasNoEnds(path);
    TokenHasNoEnds(version);
    assert verb != "" by { TokenNotEmpty(verb); }
  }

  lemma TokenNotEmpty(s: string)
    requires IsToken(s)
    ensures s != ""
  {
  }

  // ---------------------------------------------------------------- the texts this library sends

  /** The request, line by line. */
  lemma RequestLines(path: string, host: string, key: string, e: Option<Extensions>)
    ensures RequestText(path, host, key, e) ==
            ("GET " + path + " HTTP/1.1" + "\r\n")
            + ("Host" + ": " + host + "\r\n")
            + ("Connection" + ": " + "Upgrade" + "\r\n")
            + ("Upgrade" + ": " + "websocket" + "\r\n")
            + ("Sec-WebSocket-Key" + ": " + key + "\r\n")
            + ("Sec-WebSocket-Version" + ": " + "13" + "\r\n")
            + ExtensionText(e)
  {
    hide ExtensionText, LineText;
    var l, first := HeaderLines(RequestHeaders(host, key)), "GET " + path + " HTTP/1.1";
    assert [first] + l == [first, l[0], l[1]] + [l[2], l[3], l[4]];
    ThreeLines(first, l[0], l[1]);
    ThreeLines(l[2], l[3], l[4]);
    LinesConcat([first, l[0], l[1]], [l[2], l[3], l[4]]);
    Regroup(first + CRLF, l[0] + CRLF, l[1] + CRLF, l[2] + CRLF, l[3] + CRLF, l[4] + CRLF);
  }

  /** The response, line by line. */
  lemma ResponseLines(accept: string, e: Option<Extensions>)
    ensures ResponseText(accept, e) ==
            ("HTTP/1.1 101 Switching Protocols" + "\r\n")
            + ("Connection" + ": " + "Upgrade" + "\r\n")
            + ("Upgrade" + ": " + "websocket" + "\r\n")
            + ("Sec-WebSocket-Accept" + ": " + accept + "\r\n")
            + ExtensionText(e)
  {
    hide ExtensionText, LineText;
    var l, first := HeaderLines(ResponseHeaders(accept)), "HTTP/1.1 101 Switching Protocols";
    assert [first] + l == [first, l[0], l[1]] + [l[2]];
    ThreeLines(first, l[0], l[1]);
    OneLine(l[2]);
    LinesConcat([first, l[0], l[1]], [l[2]]);
  }

  lemma OneLine(a: string)
    ensures LineText([a]) == a + "\r\n"
  {
    assert [a][1..] == [] && a + CRLF + "" == a + CRLF;
  }

  lemma {:induction false} LinesConcat(a: seq<string>, b: seq<string>)
    ensures LineText(a + b) == LineText(a) + LineText(b)
    decreases |a|
  {
    if a == [] {
      assert a + b == b;
    } else {
      LinesConcat(a[1..], b);
      assert (a + b)[1..] == a[1..] + b;
    }
  }

  lemma ThreeLines(a: string, b: string, c: string)
    ensures LineText([a, b, c]) == (a + "\r\n") + (b + "\r\n") + (c + "\r\n")
  {
    hide LineText;
    OneLine(a);
    OneLine(b);
    OneLine(c);
    LinesConcat([a], [b]);
    LinesConcat([a] + [b], [c]);
    assert [a] + [b] + [c] == [a, b, c];
  }

  lemma Regroup(a: string, b: string, c: string, d: string, e: string, f: string)
    ensures a + b + c + (d + e + f) == a + b + c + d + e + f
  {
  }

  // ---------------------------------------------------------------- the configuration at work

  /** A size limit that is configured, or 0. */
  function OrZero(n: Option<nat>): nat { if n.Some? then n.value else 0 }

  /**
   What the configured sizes do: a data frame is refused with MaxFrameSize exactly if it is larger than
   `max_frame_size`; a message in several frames with MaxMessageSize if it is larger than
   `max_message_size`; and RSV1 exactly if compression is not on.
   */
  lemma ConfiguredLimits(c: WebSocketConfig, mask: Option<Wire.Mask>, f: Frames.Frame, rest: seq<byte>,
                         d: Deflate.Inflater, g: seq<Frames.Frame>)
    requires f.opcode.IsData() && |f.payload| < Wire.U64
    ensures var lim := LimitsOf(c);
      && (Wire.ParseFrame(lim, Wire.EncodeFrame(mask, f, false) + rest) == Err(MaxFrameSize)
          <==> |f.payload| > OrZero(c.maxFrameSize))
      && (Wire.ParseFrame(lim, Wire.EncodeFrame(mask, f, true) + rest) == Err(RSVNotZero)
          <==> !(c.extensions.Some? && c.extensions.value.permessageDeflate))
      && (IsWhole(g) && Frames.AllRsv1Clean(g) && |g| >= 2 && |Payload(g)| > OrZero(c.maxMessageSize) ==>
            Run(lim, RState(None, d), g) == Fail(MaxMessageSize))
  {
    hide Wire.ParseFrame, Wire.EncodeFrame, Run, IsWhole, Payload;
    Wire.FrameRoundTrip(LimitsOf(c), mask, f, false, rest);
    Wire.FrameRoundTrip(LimitsOf(c), mask, f, true, rest);
    if IsWhole(g) && Frames.AllRsv1Clean(g) && |g| >= 2 { RunWhole(LimitsOf(c), d, g); }
  }
}
