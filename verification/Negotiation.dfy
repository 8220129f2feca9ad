/** Negotiation of permessage-deflate (src/extensions.rs) and the wiring of its result (src/handshake.rs). */
module Negotiation {
  import opened Basics
  import opened Text
  import opened Deflate

  const PERMESSAGE_DEFLATE: string := "permessage-deflate"
  const CLIENT_NO_CONTEXT_TAKEOVER: string := "client_no_context_takeover"
  const SERVER_NO_CONTEXT_TAKEOVER: string := "server_no_context_takeover"
  const CLIENT_MAX_WINDOW_BITS: string := "client_max_window_bits"
  const SERVER_MAX_WINDOW_BITS: string := "server_max_window_bits"

  datatype Extensions = Extensions(
    permessageDeflate: bool,
    clientNoContextTakeover: Option<bool>,
    serverNoContextTakeover: Option<bool>,
    clientMaxWindowBits: Option<byte>,
    serverMaxWindowBits: Option<byte>)

  const NO_EXTENSIONS := Extensions(false, None, None, None, None)

  /** `... .split('=').last()` and `parse`, or 15 if there is no value. */
  function WindowBits(piece: string): Option<byte> {
    if '=' !in piece then Some(15)
    else var values := Split(Trim(piece), '='); ParseU8(values[|values| - 1])
  }

  datatype Parameter = Deflate | ClientNoContext | ServerNoContext | ClientBits | ServerBits | Unknown

  /** Which parameter a trimmed piece is, in the order of the tests. */
  function Which(t: string): Parameter {
    if t == PERMESSAGE_DEFLATE then Deflate
    else if CLIENT_NO_CONTEXT_TAKEOVER <= t then ClientNoContext
    else if SERVER_NO_CONTEXT_TAKEOVER <= t then ServerNoContext
    else if CLIENT_MAX_WINDOW_BITS <= t then ClientBits
    else if SERVER_MAX_WINDOW_BITS <= t then ServerBits
    else Unknown
  }

  /** One turn of the loop of `parse_extensions`. */
  function ApplyPiece(e: Extensions, piece: string): Extensions {
    match Which(Trim(piece))
    case Deflate => e.(permessageDeflate := true)
    case ClientNoContext => e.(clientNoContextTakeover := Some(true))
    case ServerNoContext => e.(serverNoContextTakeover := Some(true))
    case ClientBits => e.(clientMaxWindowBits := WindowBits(piece))
    case ServerBits => e.(serverMaxWindowBits := WindowBits(piece))
    case Unknown => e
  }

  function ApplyPieces(e: Extensions, pieces: seq<string>): Extensions
    decreases |pieces|
  {
    if pieces == [] then e else ApplyPieces(ApplyPiece(e, pieces[0]), pieces[1..])
  }

  /** What a header value says. */
  function ParsedExtensions(value: string): Option<Extensions> {
    var e := ApplyPieces(NO_EXTENSIONS, Split(value, ';'));
    if e.permessageDeflate then Some(e) else None
  }

  method ParseExtensions(value: string) returns (r: Option<Extensions>)
    ensures r == ParsedExtensions(value)
  {
    var pieces := Split(value, ';');
    var extensions := NO_EXTENSIONS;
    for i := 0 to |pieces|
      invariant ApplyPieces(extensions, pieces[i..]) == ApplyPieces(NO_EXTENSIONS, pieces)
    {
      var extensionStr := pieces[i];
      var trimmed := Trim(extensionStr);
      if trimmed == PERMESSAGE_DEFLATE {
        extensions := extensions.(permessageDeflate := true);
      } else if CLIENT_NO_CONTEXT_TAKEOVER <= trimmed {
        extensions := extensions.(clientNoContextTakeover := Some(true));
      } else if SERVER_NO_CONTEXT_TAKEOVER <= trimmed {
        extensions := extensions.(serverNoContextTakeover := Some(true));
      } else if CLIENT_MAX_WINDOW_BITS <= trimmed {
        extensions := extensions.(clientMaxWindowBits := WindowBits(extensionStr));
      } else if SERVER_MAX_WINDOW_BITS <= trimmed {
        extensions := extensions.(serverMaxWindowBits := WindowBits(extensionStr));
      }
    }
    if !extensions.permessageDeflate {
      return None;
    }
    return Some(extensions);
  }

  function MinBits(a: Option<byte>, b: Option<byte>): Option<byte> {
    match (a, b)
    case (Some(x), Some(y)) => Some(if x <= y then x else y)
    case (Some(x), None) => Some(x)
    case (None, _) => b
  }

  /** `Option::and`. */
  function And(a: Option<bool>, b: Option<bool>): Option<bool> { if a.Some? then b else None }

  function MergeExtensions(server: Option<Extensions>, client: Option<Extensions>): Option<Extensions> {
    if server.None? || client.None? then None
    else
      var s, c := server.value, client.value;
      Some(Extensions(
        c.permessageDeflate && s.permessageDeflate,
        And(s.clientNoContextTakeover, c.clientNoContextTakeover),
        And(s.serverNoContextTakeover, c.serverNoContextTakeover),
        MinBits(s.clientMaxWindowBits, c.clientMaxWindowBits),
        MinBits(s.serverMaxWindowBits, c.serverMaxWindowBits)))
  }

  // ---------------------------------------------------------------- printing

  function FlagPiece(name: string, flag: Option<bool>): seq<string> {
    if flag == Some(true) then [" " + name] else []
  }

  function BitsPiece(name: string, bits: Option<byte>): seq<string> {
    if bits.Some? then [" " + (name + "=" + ShowU8(bits.value))] else []
  }

  /** The parts of the header value, which are separated by semicolons. */
  function Pieces(e: Extensions): seq<string> {
    [PERMESSAGE_DEFLATE]
    + FlagPiece(CLIENT_NO_CONTEXT_TAKEOVER, e.clientNoContextTakeover)
    + FlagPiece(SERVER_NO_CONTEXT_TAKEOVER, e.serverNoContextTakeover)
    + BitsPiece(CLIENT_MAX_WINDOW_BITS, e.clientMaxWindowBits)
    + BitsPiece(SERVER_MAX_WINDOW_BITS, e.serverMaxWindowBits)
  }

  function HeaderValue(e: Extensions): string { Join(Pieces(e), ';') }

  method AddExtensionHeaders(request: string, extensions: Option<Extensions>) returns (r: string)
    ensures r == request + ExtensionText(extensions)
  {
    if extensions.None? {
      return request + "\r\n";
    }
    var e := extensions.value;
    r := request;
    if e.permessageDeflate {
      ghost var pieces := [PERMESSAGE_DEFLATE];
      var value := PushFlag(PERMESSAGE_DEFLATE, pieces, CLIENT_NO_CONTEXT_TAKEOVER, e.clientNoContextTakeover);
      pieces := pieces + FlagPiece(CLIENT_NO_CONTEXT_TAKEOVER, e.clientNoContextTakeover);
      value := PushFlag(value, pieces, SERVER_NO_CONTEXT_TAKEOVER, e.serverNoContextTakeover);
      pieces := pieces + FlagPiece(SERVER_NO_CONTEXT_TAKEOVER, e.serverNoContextTakeover);
      value := PushBits(value, pieces, CLIENT_MAX_WINDOW_BITS, e.clientMaxWindowBits);
      pieces := pieces + BitsPiece(CLIENT_MAX_WINDOW_BITS, e.clientMaxWindowBits);
      value := PushBits(value, pieces, SERVER_MAX_WINDOW_BITS, e.serverMaxWindowBits);
      r := r + ("Sec-WebSocket-Extensions: " + value);
    }
    r := r + "\r\n\r\n";
  }

  /** Appends "; name" if the flag is set. */
  method PushFlag(value: string, ghost pieces: seq<string>, name: string, flag: Option<bool>) returns (r: string)
    requires |pieces| >= 1 && value == Join(pieces, ';')
    ensures r == Join(pieces + FlagPiece(name, flag), ';')
  {
    r := value;
    if flag == Some(true) {
      JoinSnoc(pieces, " " + name);
      r := r + ("; " + name);
      assert ";" + (" " + name) == "; " + name;
    } else {
      assert pieces + [] == pieces;
    }
  }

  /** Appends "; name=bits" if there is a bound. */
  method PushBits(value: string, ghost pieces: seq<string>, name: string, bits: Option<byte>) returns (r: string)
    requires |pieces| >= 1 && value == Join(pieces, ';')
    ensures r == Join(pieces + BitsPiece(name, bits), ';')
  {
    r := value;
    if bits.Some? {
      var setting := name + "=" + ShowU8(bits.value);
      JoinSnoc(pieces, " " + setting);
      r := r + ("; " + setting);
      assert ";" + (" " + setting) == "; " + setting;
    } else {
      assert pieces + [] == pieces;
    }
  }

  /** What `add_extension_headers` appends to a request or a response. */
  function ExtensionText(extensions: Option<Extensions>): string {
    if extensions.None? then "\r\n"
    else
      (if extensions.value.permessageDeflate then "Sec-WebSocket-Extensions: " + HeaderValue(extensions.value) else "")
      + "\r\n\r\n"
  }

  lemma {:induction false} JoinSnoc(ps: seq<string>, p: string)
    requires |ps| >= 1
    ensures Join(ps + [p], ';') == Join(ps, ';') + ";" + p
    decreases |ps|
  {
    if |ps| == 1 {
      assert (ps + [p])[1..] == [p];
    } else {
      JoinSnoc(ps[1..], p);
      assert (ps + [p])[1..] == ps[1..] + [p];
    }
  }

  // ---------------------------------------------------------------- round trip

  lemma {:induction false} ApplyConcat(e: Extensions, a: seq<string>, b: seq<string>)
    ensures ApplyPieces(e, a + b) == ApplyPieces(ApplyPieces(e, a), b)
    decreases |a|
  {
    hide ApplyPiece;
    if a == [] {
      assert a + b == b;
    } else {
      ApplyConcat(ApplyPiece(e, a[0]), a[1..], b);
      assert (a + b)[1..] == a[1..] + b;
    }
  }

  lemma ApplyOne(e: Extensions, p: string)
    ensures ApplyPieces(e, [p]) == ApplyPiece(e, p)
  {
    hide ApplyPiece;
    assert [p][1..] == [];
  }

  predicate NameChar(c: char) { 'a' <= c <= 'z' || c == '_' || c == '-' }

  predicate IsName(s: string) { s != "" && forall i :: 0 <= i < |s| ==> NameChar(s[i]) }

  lemma DeflateName() ensures IsName(PERMESSAGE_DEFLATE) && Which(PERMESSAGE_DEFLATE) == Deflate {}

  lemma ClientFlagName() ensures IsName(CLIENT_NO_CONTEXT_TAKEOVER) {}

  lemma ServerFlagName() ensures IsName(SERVER_NO_CONTEXT_TAKEOVER) {}

  lemma ClientBitsName() ensures IsName(CLIENT_MAX_WINDOW_BITS) {}

  lemma ServerBitsName() ensures IsName(SERVER_MAX_WINDOW_BITS) {}

  lemma WhichFlags()
    ensures Which(CLIENT_NO_CONTEXT_TAKEOVER) == ClientNoContext
    ensures Which(SERVER_NO_CONTEXT_TAKEOVER) == ServerNoContext
  {
    assert CLIENT_NO_CONTEXT_TAKEOVER[0] == 'c' && SERVER_NO_CONTEXT_TAKEOVER[0] == 's';
  }

  lemma WhichClientBits(value: string)
    ensures Which(CLIENT_MAX_WINDOW_BITS + value) == ClientBits
  {
    var t := CLIENT_MAX_WINDOW_BITS + value;
    assert t[0] == 'c' && t[7] == 'm';
    assert CLIENT_NO_CONTEXT_TAKEOVER[7] == 'n' && SERVER_NO_CONTEXT_TAKEOVER[0] == 's' && PERMESSAGE_DEFLATE[0] == 'p';
  }

  lemma WhichServerBits(value: string)
    ensures Which(SERVER_MAX_WINDOW_BITS + value) == ServerBits
  {
    var t := SERVER_MAX_WINDOW_BITS + value;
    assert t[0] == 's' && t[7] == 'm';
    assert SERVER_NO_CONTEXT_TAKEOVER[7] == 'n' && CLIENT_NO_CONTEXT_TAKEOVER[0] == 'c' && PERMESSAGE_DEFLATE[0] == 'p';
    assert CLIENT_MAX_WINDOW_BITS[0] == 'c';
  }

  lemma NameClean(n: string)
    requires IsName(n)
    ensures Trimmed(n) && Trim(n) == n && Trim(" " + n) == n
    ensures ';' !in " " + n && '=' !in n && '\r' !in n && '\n' !in n
  {
    assert NameChar(n[0]) && NameChar(n[|n| - 1]);
    TrimTrimmed(n);
  }

  /** A printed setting: clean, and its value comes back. */
  lemma SettingClean(name: string, bits: byte)
    requires IsName(name)
    ensures var s := name + "=" + ShowU8(bits);
      && Trimmed(s) && ';' !in " " + s && '\r' !in s && '\n' !in s
      && Trim(" " + s) == s && WindowBits(" " + s) == Some(bits)
  {
    hide IsSpace, ShowU8, ParseU8, TrimStart, TrimEnd;
    var v := ShowU8(bits);
    var s := name + "=" + v;
    ShowU8Clean(bits);
    ShowU8Parses(bits);
    NameClean(name);
    TrimTrimmed(s);
    SplitFirst(name, '=', v);
    SplitFree(v, '=');
    assert '=' in " " + s by { assert (" " + s)[1 + |name|] == '='; }
  }

  /** What is lost in print: a flag that is set to false. */
  function Normal(e: Extensions): Extensions {
    e.(clientNoContextTakeover := if e.clientNoContextTakeover == Some(true) then Some(true) else None,
       serverNoContextTakeover := if e.serverNoContextTakeover == Some(true) then Some(true) else None)
  }

  lemma FlagApplied(e: Extensions, name: string, flag: Option<bool>)
    requires IsName(name) && Which(name) in {ClientNoContext, ServerNoContext}
    ensures ApplyPieces(e, FlagPiece(name, flag)) ==
            if flag != Some(true) then e
            else if Which(name).ClientNoContext? then e.(clientNoContextTakeover := Some(true))
            else e.(serverNoContextTakeover := Some(true))
    ensures forall p | p in FlagPiece(name, flag) :: ';' !in p
  {
    hide Which, Trim, WindowBits, IsName;
    NameClean(name);
    ApplyOne(e, " " + name);
  }

  lemma BitsApplied(e: Extensions, name: string, bits: Option<byte>)
    requires IsName(name) && forall v :: Which(name + v) == Which(name)
    requires Which(name) in {ClientBits, ServerBits}
    ensures ApplyPieces(e, BitsPiece(name, bits)) ==
            if bits.None? then e
            else if Which(name).ClientBits? then e.(clientMaxWindowBits := bits)
            else e.(serverMaxWindowBits := bits)
    ensures forall p | p in BitsPiece(name, bits) :: ';' !in p
  {
    hide Which, Trim, WindowBits, IsName, ShowU8, Trimmed;
    if bits.Some? {
      SettingClean(name, bits.value);
      ApplyOne(e, " " + (name + "=" + ShowU8(bits.value)));
      assert name + ("=" + ShowU8(bits.value)) == name + "=" + ShowU8(bits.value);
    }
  }

  /** Printing and parsing: every parameter comes back, for any window value; only false flags are dropped. */
  lemma HeaderRoundTrip(e: Extensions)
    requires e.permessageDeflate
    ensures ParsedExtensions(HeaderValue(e)) == Some(Normal(e))
  {
    hide Which, Trim, WindowBits, IsName, FlagPiece, BitsPiece, ApplyPiece;
    ClientFlagName();
    ServerFlagName();
    ClientBitsName();
    ServerBitsName();
    WhichFlags();
    forall v ensures Which(CLIENT_MAX_WINDOW_BITS + v) == ClientBits { WhichClientBits(v); }
    forall v ensures Which(SERVER_MAX_WINDOW_BITS + v) == ServerBits { WhichServerBits(v); }
    assert CLIENT_MAX_WINDOW_BITS + "" == CLIENT_MAX_WINDOW_BITS
           && SERVER_MAX_WINDOW_BITS + "" == SERVER_MAX_WINDOW_BITS;
    var p1 := FlagPiece(CLIENT_NO_CONTEXT_TAKEOVER, e.clientNoContextTakeover);
    var p2 := FlagPiece(SERVER_NO_CONTEXT_TAKEOVER, e.serverNoContextTakeover);
    var p3 := BitsPiece(CLIENT_MAX_WINDOW_BITS, e.clientMaxWindowBits);
    var p4 := BitsPiece(SERVER_MAX_WINDOW_BITS, e.serverMaxWindowBits);
    var e0 := NO_EXTENSIONS.(permessageDeflate := true);
    DeflateApplied();
    var e1 := ApplyPieces(e0, p1);
    var e2 := ApplyPieces(e1, p2);
    var e3 := ApplyPieces(e2, p3);
    FlagApplied(e0, CLIENT_NO_CONTEXT_TAKEOVER, e.clientNoContextTakeover);
    FlagApplied(e1, SERVER_NO_CONTEXT_TAKEOVER, e.serverNoContextTakeover);
    BitsApplied(e2, CLIENT_MAX_WINDOW_BITS, e.clientMaxWindowBits);
    BitsApplied(e3, SERVER_MAX_WINDOW_BITS, e.serverMaxWindowBits);
    ApplyConcat(NO_EXTENSIONS, [PERMESSAGE_DEFLATE], p1);
    ApplyConcat(NO_EXTENSIONS, [PERMESSAGE_DEFLATE] + p1, p2);
    ApplyConcat(NO_EXTENSIONS, [PERMESSAGE_DEFLATE] + p1 + p2, p3);
    ApplyConcat(NO_EXTENSIONS, [PERMESSAGE_DEFLATE] + p1 + p2 + p3, p4);
    SplitJoin(Pieces(e), ';');
  }

  lemma DeflateApplied()
    ensures ApplyPieces(NO_EXTENSIONS, [PERMESSAGE_DEFLATE]) == NO_EXTENSIONS.(permessageDeflate := true)
    ensures ';' !in PERMESSAGE_DEFLATE
  {
    hide Which, IsName, Trim;
    DeflateName();
    NameClean(PERMESSAGE_DEFLATE);
    ApplyOne(NO_EXTENSIONS, PERMESSAGE_DEFLATE);
    assert ';' !in (" " + PERMESSAGE_DEFLATE)[1..];
  }

  // ---------------------------------------------------------------- what a header value says

  /** The piece, without the space around it, begins with the name. */
  predicate Mentions(piece: string, name: string) { name <= Trim(piece) }

  /** What a piece says of a window: 15 without a value, otherwise the number after the last '=', if it is one. */
  ghost predicate Says(piece: string, bits: Option<byte>) {
    if '=' !in piece then bits == Some(15)
    else
      forall a, v: string | Trim(piece) == a + "=" + v && '=' !in v ::
        forall n: byte :: bits == Some(n) <==> Numeral(v, n)
  }

  /** The last piece that mentions the name decides. */
  ghost predicate WindowSaid(ps: seq<string>, name: string, bits: Option<byte>) {
    && ((forall p | p in ps :: !Mentions(p, name)) ==> bits == None)
    && (forall i | 0 <= i < |ps| && Mentions(ps[i], name) && (forall j | i < j < |ps| :: !Mentions(ps[j], name)) ::
          Says(ps[i], bits))
  }

  /** A flag is set by any piece that mentions it. */
  ghost predicate FlagSaid(ps: seq<string>, name: string, flag: Option<bool>) {
    flag == if exists p :: p in ps && Mentions(p, name) then Some(true) else None
  }

  ghost predicate AllSaid(ps: seq<string>, e: Extensions) {
    && (e.permessageDeflate <==> exists p :: p in ps && Trim(p) == PERMESSAGE_DEFLATE)
    && FlagSaid(ps, CLIENT_NO_CONTEXT_TAKEOVER, e.clientNoContextTakeover)
    && FlagSaid(ps, SERVER_NO_CONTEXT_TAKEOVER, e.serverNoContextTakeover)
    && WindowSaid(ps, CLIENT_MAX_WINDOW_BITS, e.clientMaxWindowBits)
    && WindowSaid(ps, SERVER_MAX_WINDOW_BITS, e.serverMaxWindowBits)
  }

  /** No parameter's name begins another's, so the order of the tests does not matter. */
  lemma WhichMeaning(t: string)
    ensures Which(t).Deflate? <==> t == PERMESSAGE_DEFLATE
    ensures Which(t).ClientNoContext? <==> CLIENT_NO_CONTEXT_TAKEOVER <= t
    ensures Which(t).ServerNoContext? <==> SERVER_NO_CONTEXT_TAKEOVER <= t
    ensures Which(t).ClientBits? <==> CLIENT_MAX_WINDOW_BITS <= t
    ensures Which(t).ServerBits? <==> SERVER_MAX_WINDOW_BITS <= t
  {
    assert PERMESSAGE_DEFLATE[0] == 'p';
    assert CLIENT_NO_CONTEXT_TAKEOVER[0] == 'c' && CLIENT_NO_CONTEXT_TAKEOVER[7] == 'n';
    assert SERVER_NO_CONTEXT_TAKEOVER[0] == 's' && SERVER_NO_CONTEXT_TAKEOVER[7] == 'n';
    assert CLIENT_MAX_WINDOW_BITS[0] == 'c' && CLIENT_MAX_WINDOW_BITS[7] == 'm';
    assert SERVER_MAX_WINDOW_BITS[0] == 's' && SERVER_MAX_WINDOW_BITS[7] == 'm';
  }

  lemma WindowBitsSays(piece: string)
    ensures Says(piece, WindowBits(piece))
  {
    hide ParseU8, Numeral, Trim;
    if '=' in piece {
      forall a, v: string | Trim(piece) == a + "=" + v && '=' !in v
        ensures forall n: byte :: WindowBits(piece) == Some(n) <==> Numeral(v, n)
      {
        SplitConcat(a, '=', v);
        SplitFree(v, '=');
        assert Split(Trim(piece), '=') == Split(a, '=') + [v];
        ParseU8Meaning(v);
      }
    }
  }

  lemma FlagSnoc(ps: seq<string>, p: string, name: string, flag: Option<bool>)
    requires FlagSaid(ps, name, flag)
    ensures FlagSaid(ps + [p], name, if Mentions(p, name) then Some(true) else flag)
  {
    hide Mentions;
    assert p in ps + [p];
    forall q | q in ps ensures q in ps + [p] { }
  }

  lemma WindowSnoc(ps: seq<string>, p: string, name: string, bits: Option<byte>, said: Option<byte>)
    requires WindowSaid(ps, name, bits) && Says(p, said)
    ensures WindowSaid(ps + [p], name, if Mentions(p, name) then said else bits)
  {
    hide Mentions, Says;
    var qs, r := ps + [p], if Mentions(p, name) then said else bits;
    if forall q | q in qs :: !Mentions(q, name) {
      forall q | q in ps ensures !Mentions(q, name) { assert q in qs; }
      assert p in qs;
    }
    forall i | 0 <= i < |qs| && Mentions(qs[i], name) && (forall j | i < j < |qs| :: !Mentions(qs[j], name))
      ensures Says(qs[i], r)
    {
      if i < |ps| {
        assert qs[|ps|] == p;
        forall j | i < j < |ps| ensures !Mentions(ps[j], name) { assert qs[j] == ps[j]; }
      }
    }
  }

  lemma {:induction false} PiecesSaid(ps: seq<string>)
    ensures AllSaid(ps, ApplyPieces(NO_EXTENSIONS, ps))
    decreases |ps|
  {
    if ps != [] {
      var n := |ps| - 1;
      var init, p := ps[..n], ps[n];
      assert ps == init + [p];
      PiecesSaid(init);
      ApplyConcat(NO_EXTENSIONS, init, [p]);
      ApplyOne(ApplyPieces(NO_EXTENSIONS, init), p);
      PieceSaid(init, p, ApplyPieces(NO_EXTENSIONS, init));
    }
  }

  lemma PieceSaid(ps: seq<string>, p: string, e: Extensions)
    requires AllSaid(ps, e)
    ensures AllSaid(ps + [p], ApplyPiece(e, p))
  {
    WhichMeaning(Trim(p));
    WindowBitsSays(p);
    FlagSnoc(ps, p, CLIENT_NO_CONTEXT_TAKEOVER, e.clientNoContextTakeover);
    FlagSnoc(ps, p, SERVER_NO_CONTEXT_TAKEOVER, e.serverNoContextTakeover);
    WindowSnoc(ps, p, CLIENT_MAX_WINDOW_BITS, e.clientMaxWindowBits, WindowBits(p));
    WindowSnoc(ps, p, SERVER_MAX_WINDOW_BITS, e.serverMaxWindowBits, WindowBits(p));
    DeflateSnoc(ps, p);
    hide Which, Trim, FlagSaid, WindowSaid, WindowBits, Says;
  }

  lemma DeflateSnoc(ps: seq<string>, p: string)
    ensures (exists q :: q in ps + [p] && Trim(q) == PERMESSAGE_DEFLATE) <==>
            (exists q :: q in ps && Trim(q) == PERMESSAGE_DEFLATE) || Trim(p) == PERMESSAGE_DEFLATE
  {
    hide Trim;
    assert p in ps + [p];
    forall q | q in ps ensures q in ps + [p] { }
  }

  /**
   What any header value says, whoever wrote it: nothing without "permessage-deflate" among its
   pieces; otherwise each flag is set if some piece begins with its name, and each window is what the
   last piece of that name says. Other pieces say nothing.
   */
  lemma ParsedMeaning(value: string, ps: seq<string>)
    requires |ps| >= 1 && value == Join(ps, ';') && forall p | p in ps :: ';' !in p
    ensures var r := ParsedExtensions(value);
      && (r.Some? <==> exists p :: p in ps && Trim(p) == PERMESSAGE_DEFLATE)
      && (r.Some? ==> r.value.permessageDeflate && AllSaid(ps, r.value))
  {
    hide AllSaid, Trim;
    SplitJoin(ps, ';');
    PiecesSaid(ps);
    DeflateSaid(ps, ApplyPieces(NO_EXTENSIONS, ps));
  }

  lemma DeflateSaid(ps: seq<string>, e: Extensions)
    requires AllSaid(ps, e)
    ensures e.permessageDeflate <==> exists p :: p in ps && Trim(p) == PERMESSAGE_DEFLATE
  {
  }

  /** The offer that common browsers make: no flags, and a client window without a value, which is 15. */
  lemma BrowserOffer()
    ensures ParsedExtensions("permessage-deflate" + ("; " + "client_max_window_bits")) ==
            Some(Extensions(true, None, None, Some(15), None))
  {
    hide Which, Trim, IsName;
    var p, q := PERMESSAGE_DEFLATE, " " + CLIENT_MAX_WINDOW_BITS;
    OfferPieces();
    DeflateApplied();
    ClientBitsName();
    NameClean(CLIENT_MAX_WINDOW_BITS);
    WhichClientBits("");
    assert CLIENT_MAX_WINDOW_BITS + "" == CLIENT_MAX_WINDOW_BITS;
    SplitJoin([p, q], ';');
    ApplyConcat(NO_EXTENSIONS, [p], [q]);
    assert [p] + [q] == [p, q];
    ApplyOne(NO_EXTENSIONS.(permessageDeflate := true), q);
    assert '=' !in q;
  }

  lemma Semicolon(a: string, b: string)
    ensures a + ";" + (" " + b) == a + ("; " + b)
  {
    assert ";" + (" " + b) == "; " + b;
  }

  lemma JoinFlag(ps: seq<string>, name: string, flag: Option<bool>)
    requires |ps| >= 1
    ensures Join(ps + FlagPiece(name, flag), ';') == Join(ps, ';') + if flag == Some(true) then "; " + name else ""
  {
    hide Join;
    if flag == Some(true) {
      JoinSnoc(ps, " " + name);
      Semicolon(Join(ps, ';'), name);
    } else {
      assert ps + [] == ps && Join(ps, ';') + "" == Join(ps, ';');
    }
  }

  lemma JoinBits(ps: seq<string>, name: string, bits: Option<byte>)
    requires |ps| >= 1
    ensures Join(ps + BitsPiece(name, bits), ';') ==
            Join(ps, ';') + if bits.Some? then "; " + (name + "=" + ShowU8(bits.value)) else ""
  {
    hide ShowU8, Join;
    if bits.Some? {
      var setting := name + "=" + ShowU8(bits.value);
      JoinSnoc(ps, " " + setting);
      Semicolon(Join(ps, ';'), setting);
    } else {
      assert ps + [] == ps && Join(ps, ';') + "" == Join(ps, ';');
    }
  }

  /** The text of a header value, letter by letter. */
  lemma HeaderText(e: Extensions)
    ensures HeaderValue(e) ==
            "permessage-deflate"
            + (if e.clientNoContextTakeover == Some(true) then "; " + "client_no_context_takeover" else "")
            + (if e.serverNoContextTakeover == Some(true) then "; " + "server_no_context_takeover" else "")
            + (if e.clientMaxWindowBits.Some?
               then "; " + ("client_max_window_bits" + "=" + ShowU8(e.clientMaxWindowBits.value)) else "")
            + (if e.serverMaxWindowBits.Some?
               then "; " + ("server_max_window_bits" + "=" + ShowU8(e.serverMaxWindowBits.value)) else "")
  {
    hide FlagPiece, BitsPiece, ShowU8;
    var p1 := FlagPiece(CLIENT_NO_CONTEXT_TAKEOVER, e.clientNoContextTakeover);
    var p2 := FlagPiece(SERVER_NO_CONTEXT_TAKEOVER, e.serverNoContextTakeover);
    var p3 := BitsPiece(CLIENT_MAX_WINDOW_BITS, e.clientMaxWindowBits);
    var ps := [PERMESSAGE_DEFLATE];
    JoinFlag(ps, CLIENT_NO_CONTEXT_TAKEOVER, e.clientNoContextTakeover);
    JoinFlag(ps + p1, SERVER_NO_CONTEXT_TAKEOVER, e.serverNoContextTakeover);
    JoinBits(ps + p1 + p2, CLIENT_MAX_WINDOW_BITS, e.clientMaxWindowBits);
    JoinBits(ps + p1 + p2 + p3, SERVER_MAX_WINDOW_BITS, e.serverMaxWindowBits);
  }

  lemma OfferPieces()
    ensures "permessage-deflate" + ("; " + "client_max_window_bits")
            == Join([PERMESSAGE_DEFLATE, " " + CLIENT_MAX_WINDOW_BITS], ';')
    ensures ';' !in " " + CLIENT_MAX_WINDOW_BITS && '=' !in " " + CLIENT_MAX_WINDOW_BITS
  {
    hide Join;
    ClientBitsName();
    NameClean(CLIENT_MAX_WINDOW_BITS);
    JoinTwo(PERMESSAGE_DEFLATE, " " + CLIENT_MAX_WINDOW_BITS);
    Semicolon(PERMESSAGE_DEFLATE, CLIENT_MAX_WINDOW_BITS);
  }

  lemma JoinTwo(a: string, b: string)
    ensures Join([a, b], ';') == a + ";" + b
  {
    assert [a, b][1..] == [b];
  }

  // ---------------------------------------------------------------- both ends

  /** The value of the extension header that a configuration puts on the wire; "" if there is none. */
  function PrintedValue(e: Option<Extensions>): string {
    if e.Some? && e.value.permessageDeflate then HeaderValue(e.value) else ""
  }

  predicate Enabled(e: Option<Extensions>) { e.Some? && e.value.permessageDeflate }

  lemma NothingPrinted()
    ensures ParsedExtensions("") == None
  {
    hide Which, Trim, WindowBits;
    assert Split("", ';') == [""];
    ApplyOne(NO_EXTENSIONS, "");
    NoName();
  }

  lemma NoName()
    ensures Which(Trim("")) == Unknown
  {
    assert Trim("") == "";
  }

  /** A bound on a window, if given, is respected. */
  predicate Within(bits: Option<byte>, bound: Option<byte>) {
    bound.Some? ==> bits.Some? && bits.value <= bound.value
  }

  /** The window is one of the bounds given, and there is none only if neither side gave one. */
  predicate Tightest(bits: Option<byte>, server: Option<byte>, client: Option<byte>) {
    if bits.None? then server.None? && client.None? else bits == server || bits == client
  }

  /** A flag is on if the client asks for it and the server mentions it, whatever the server's value. */
  predicate FlagAgreed(flag: Option<bool>, server: Option<bool>, client: Option<bool>) {
    flag == if server.Some? && client == Some(true) then Some(true) else None
  }

  /**
   Negotiation agreement: from any server configuration and any client configuration, what the
   client reads back from the response is what the server works with; compression is on exactly if
   both sides configured it; every bound of either side is respected, and only as far as needed; and
   merging the result with the server's configuration again changes nothing.
   */
  lemma NegotiationAgreement(server: Option<Extensions>, client: Option<Extensions>)
    ensures var offered := ParsedExtensions(PrintedValue(client));
      var agreed := MergeExtensions(server, offered);
      var seen := ParsedExtensions(PrintedValue(agreed));
      && (if Enabled(agreed) then seen == agreed else seen == None)
      && (Enabled(agreed) <==> Enabled(server) && Enabled(client))
      && (Enabled(agreed) ==>
            && Within(agreed.value.clientMaxWindowBits, server.value.clientMaxWindowBits)
            && Within(agreed.value.serverMaxWindowBits, server.value.serverMaxWindowBits)
            && Within(agreed.value.clientMaxWindowBits, client.value.clientMaxWindowBits)
            && Within(agreed.value.serverMaxWindowBits, client.value.serverMaxWindowBits)
            && Tightest(agreed.value.clientMaxWindowBits, server.value.clientMaxWindowBits,
                        client.value.clientMaxWindowBits)
            && Tightest(agreed.value.serverMaxWindowBits, server.value.serverMaxWindowBits,
                        client.value.serverMaxWindowBits)
            && FlagAgreed(agreed.value.clientNoContextTakeover, server.value.clientNoContextTakeover,
                          client.value.clientNoContextTakeover)
            && FlagAgreed(agreed.value.serverNoContextTakeover, server.value.serverNoContextTakeover,
                          client.value.serverNoContextTakeover))
      && MergeExtensions(server, agreed) == agreed
  {
    hide HeaderValue, ParsedExtensions;
    NothingPrinted();
    var offered := ParsedExtensions(PrintedValue(client));
    if Enabled(client) { HeaderRoundTrip(client.value); }
    var agreed := MergeExtensions(server, offered);
    if Enabled(agreed) { HeaderRoundTrip(agreed.value); }
  }

  // ---------------------------------------------------------------- wiring

  function OrFalse(flag: Option<bool>): bool { flag.Some? && flag.value }

  function OrFifteen(bits: Option<byte>): nat { if bits.Some? then bits.value else 15 }

  /** The decoder of either end (src/handshake.rs:61-69 and 204-212) uses the client's parameters. */
  function WiredInflater(e: Extensions, parse: Parse): Inflater {
    Inflater(parse, OrFalse(e.clientNoContextTakeover), OrFifteen(e.clientMaxWindowBits), [])
  }

  /** The encoder of either end (src/handshake.rs:71-77 and 214-220) uses the server's. */
  function WiredDeflater(e: Extensions, parse: Parse): Deflater {
    Deflater(parse, OrFalse(e.serverNoContextTakeover), OrFifteen(e.serverMaxWindowBits), [])
  }

  predicate ZlibWindows(e: Extensions) { ZlibBits(e.clientMaxWindowBits) && ZlibBits(e.serverMaxWindowBits) }

  /** The condition the wiring asks for. */
  predicate Sound(e: Extensions) {
    && (OrFalse(e.clientNoContextTakeover) ==> OrFalse(e.serverNoContextTakeover))
    && OrFifteen(e.serverMaxWindowBits) <= OrFifteen(e.clientMaxWindowBits)
  }

  /**
   In every expressive format, every run of messages round-trips, in either direction, exactly under
   that condition: both ends decompress with the client's parameters and compress with the
   server's, so a client that asks only for its own context not to be kept gets a connection that
   loses messages.
   */
  lemma WiringSoundness(e: Extensions, parse: Parse)
    requires ZlibWindows(e) && Expressive(parse)
    ensures Sound(e) <==>
            forall ms, ss | ValidRun(true, WiredDeflater(e, parse), ms, ss) ::
              RoundTrips(WiredInflater(e, parse), ms, ss)
  {
    hide ValidRun, RoundTrips, Expressive;
    var er, eb := OrFalse(e.serverNoContextTakeover), OrFifteen(e.serverMaxWindowBits);
    var dr, db := OrFalse(e.clientNoContextTakeover), OrFifteen(e.clientMaxWindowBits);
    ContextAgreement(parse, er, eb, dr, db);
    assert WiredDeflater(e, parse) == Deflater(parse, er, eb, []);
    assert WiredInflater(e, parse) == Inflater(parse, dr, db, []);
  }

  /** What is not agreed: no reset, and the largest window. */
  lemma Defaults(e: Extensions, parse: Parse)
    ensures WiredInflater(e.(clientNoContextTakeover := None), parse)
            == WiredInflater(e.(clientNoContextTakeover := Some(false)), parse)
    ensures WiredDeflater(e.(serverNoContextTakeover := None), parse)
            == WiredDeflater(e.(serverNoContextTakeover := Some(false)), parse)
    ensures WiredInflater(e.(clientMaxWindowBits := None), parse)
            == WiredInflater(e.(clientMaxWindowBits := Some(15)), parse)
    ensures WiredDeflater(e.(serverMaxWindowBits := None), parse)
            == WiredDeflater(e.(serverMaxWindowBits := Some(15)), parse)
    ensures e.clientNoContextTakeover == Some(true) ==> WiredInflater(e, parse).reset
    ensures e.serverNoContextTakeover == Some(true) ==> WiredDeflater(e, parse).reset
    ensures !WiredInflater(e.(clientNoContextTakeover := None), parse).reset
    ensures !WiredDeflater(e.(serverNoContextTakeover := None), parse).reset
  {
  }

  /** Under the condition, a fresh connection starts in step, which is what delivery asks for. */
  lemma SoundStartsInSync(e: Extensions, parse: Parse)
    requires Sound(e)
    ensures InSync(WiredDeflater(e, parse), WiredInflater(e, parse))
  {
  }

  /**
   In terms of the two configurations: the flags each side must have set for the result to be sound.
   */
  lemma SoundFromConfigurations(server: Option<Extensions>, client: Option<Extensions>)
    requires Enabled(server) && Enabled(client)
    ensures var s, c := server.value, client.value;
      var agreed := MergeExtensions(server, ParsedExtensions(PrintedValue(client)));
      agreed.Some? &&
      (Sound(agreed.value) <==>
        && (s.clientNoContextTakeover.Some? && c.clientNoContextTakeover == Some(true)
            ==> s.serverNoContextTakeover.Some? && c.serverNoContextTakeover == Some(true))
        && OrFifteen(MinBits(s.serverMaxWindowBits, c.serverMaxWindowBits))
           <= OrFifteen(MinBits(s.clientMaxWindowBits, c.clientMaxWindowBits)))
  {
    hide HeaderValue, ParsedExtensions;
    HeaderRoundTrip(client.value);
  }
}
