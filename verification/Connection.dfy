/** A whole connection: handshake, wiring and traffic in both directions, from text and bytes to messages. */
module Connection {
  import opened Basics
  import Frames
  import Wire
  import Writers
  import Deflate
  import opened Reader
  import Grammar
  import opened Delivery
  import opened Negotiation
  import opened Handshake

  /** Bytes as the characters of the handshake's stream. */
  function FromBytes(b: seq<byte>): string { seq(|b|, i requires 0 <= i < |b| => b[i] as char) }

  lemma BytesAndBack(b: seq<byte>)
    ensures ByteText(FromBytes(b)) && ToBytes(FromBytes(b)) == b
  {
  }

  /** The limits of an endpoint once the extensions are negotiated. */
  function Negotiated(c: WebSocketConfig, e: Option<Extensions>): Wire.Limits { LimitsOf(c.(extensions := e)) }

  /** What one user sends, what is in between, and how it is masked. */
  datatype Traffic = Traffic(outs: seq<Outgoing>, frames: seq<Frames.Frame>, kind: Writers.WriterKind,
                             rng: nat -> Wire.Mask)

  /** The traffic is accepted by its sender's writer and suits its receiver's limits. */
  ghost predicate Carried(sc: WebSocketConfig, rc: WebSocketConfig, e: Option<Extensions>, parse: Deflate.Parse,
                          t: Traffic) {
    && Accepted(Negotiated(sc, e), WiredDeflater(OrDefault(e), parse), t.outs)
    && Negotiated(rc, e).maxFrame < Wire.U64
    && (forall o | o in t.outs :: Fits(Negotiated(sc, e), Negotiated(rc, e), o))
    && Interleaves(Negotiated(rc, e), t.frames, Flatten(Groups(t.outs)))
  }

  function TrafficBytes(t: Traffic): seq<byte> { Writers.WireBytes(t.kind, t.rng, 0, t.frames) }

  /** One direction, over a stream that ends after the traffic. */
  lemma Direction(sc: WebSocketConfig, rc: WebSocketConfig, e: Option<Extensions>, parse: Deflate.Parse, t: Traffic)
    requires Carried(sc, rc, e, parse, t) && (Enabled(e) ==> Sound(e.value))
    ensures Poll(Negotiated(rc, e), RState(None, WiredInflater(OrDefault(e), parse)), TrafficBytes(t)).trace ==
            Trace(Messages(t.outs), Grammar.AutoReplies(t.frames), Failed(IOError))
  {
    hide Poll, Accepted, Fits, Interleaves, Writers.WireBytes, Groups, Grammar.AutoReplies, Deflate.InSync;
    var d0 := WiredInflater(OrDefault(e), parse);
    if Enabled(e) { SoundStartsInSync(e.value, parse); }
    var d := EndToEnd(Negotiated(sc, e), Negotiated(rc, e), WiredDeflater(OrDefault(e), parse), d0,
                      t.outs, t.kind, t.rng, 0, t.frames, []);
    assert TrafficBytes(t) + [] == TrafficBytes(t);
    AtEnd(Negotiated(rc, e), RState(None, d));
    var done := Trace(Messages(t.outs), Grammar.AutoReplies(t.frames), Open(RState(None, d)));
    assert done.delivered + [] == done.delivered && done.replies + [] == done.replies;
  }

  /**
   From the first byte of the handshake to the last message: two endpoints of this library that
   offer extensions only with compression on, and whose agreed parameters are sound, deliver to
   each other exactly what each user sends, whatever the masks, the compressor's choices and the
   interleaved Pings and Pongs; without compression no condition on the parameters is left.
   */
  lemma ConnectionDelivers(sc: WebSocketConfig, cc: WebSocketConfig, path: string, host: string, key: string,
                           accept: Accept, parse: Deflate.Parse, toServer: Traffic, toClient: Traffic)
    requires IsToken(path) && IsHeaderValue(host) && IsHeaderValue(key) && IsHeaderValue(accept(key))
    requires var agreed := MergeExtensions(sc.extensions, ParsedExtensions(PrintedValue(cc.extensions)));
      && Stray(cc.extensions) == "" && Stray(agreed) == ""
      && (Enabled(agreed) ==> Sound(agreed.value))
      && Carried(cc, sc, agreed, parse, toServer) && Carried(sc, cc, agreed, parse, toClient)
    ensures var request := RequestText(path, host, key, cc.extensions) + FromBytes(TrafficBytes(toServer));
      var server := ServerHandshake(sc.extensions, accept, request);
      && server.Ok?
      && var (agreed, response, rest) := server.value;
      && ByteText(rest)
      && Poll(Negotiated(sc, agreed), RState(None, WiredInflater(OrDefault(agreed), parse)), ToBytes(rest)).trace
         == Trace(Messages(toServer.outs), Grammar.AutoReplies(toServer.frames), Failed(IOError))
      && var client := ClientHandshake(key, accept, response + FromBytes(TrafficBytes(toClient)));
      && client.Ok?
      && var (seen, rest') := client.value;
      && seen == agreed
      && ByteText(rest')
      && Poll(Negotiated(cc, seen), RState(None, WiredInflater(OrDefault(seen), parse)), ToBytes(rest')).trace
         == Trace(Messages(toClient.outs), Grammar.AutoReplies(toClient.frames), Failed(IOError))
  {
    hide ByteText, RequestText, ResponseText, ServerHandshake, ClientHandshake, Poll, Carried, TrafficBytes, FromBytes,
      ToBytes, ParsedExtensions, PrintedValue, MergeExtensions, Messages, Grammar.AutoReplies, WiredInflater,
      Negotiated;
    var agreed := MergeExtensions(sc.extensions, ParsedExtensions(PrintedValue(cc.extensions)));
    var b1, b2 := TrafficBytes(toServer), TrafficBytes(toClient);
    HandshakeAgreement(sc.extensions, cc.extensions, path, host, key, accept, FromBytes(b1), FromBytes(b2));
    assert "" + FromBytes(b1) == FromBytes(b1) && "" + FromBytes(b2) == FromBytes(b2);
    BytesAndBack(b1);
    BytesAndBack(b2);
    Direction(cc, sc, agreed, parse, toServer);
    Direction(sc, cc, agreed, parse, toClient);
  }
}
