/**
 `send_large_data_fragmented` (src/split.rs): what the peer makes of a send in which, with
 compression, every fragment carries RSV1.
 */
module LargeSends {
  import opened Basics
  import opened Frames
  import opened Wire
  import opened Writers
  import opened Deflate
  import opened Reader
  import opened Grammar
  import opened Sender
  import opened Delivery

  /** The data has been delivered as one Text message. */
  predicate DeliveredAsText(t: Trace, data: seq<byte>) {
    |t.delivered| == 1 && t.delivered[0].TextMessage? && t.delivered[0].AsBinary() == data
  }

  /** The limits a caller can see: those of `send_large_data_fragmented`, and the peer's. */
  predicate LargeFits(slim: Limits, rlim: Limits, data: seq<byte>, fragmentSize: nat) {
    && 1 <= fragmentSize <= slim.maxFrame && fragmentSize <= rlim.maxFrame < U64
    && |data| <= slim.maxMessage && |data| <= rlim.maxMessage
    && slim.deflate == rlim.deflate
  }

  // ---------------------------------------------------------------- uncompressed, or in one fragment

  /** A large send with data that is uncompressed or in one fragment is read as the one message it is. */
  lemma LargeSendRead(rlim: Limits, d: Inflater, data: seq<byte>, s: Sent, fragmentSize: nat)
    requires fragmentSize >= 1 && data != [] && s.wire != []
    requires !s.compressed || |s.wire| <= fragmentSize
    requires |s.wire| > fragmentSize ==> |s.wire| <= rlim.maxMessage
    ensures Run(rlim, RState(None, d), LargeFrames(s, fragmentSize)) ==
            match Receive(d, s)
            case Err(e) => Fail(e)
            case Ok((m, d')) => Transmit(RState(None, d'), OpCode.Text, m)
  {
    hide Run, FramesOf, OnWire, Chunks, IsWhole, Payload, Receive, Transmit, AllRsv1Clean, LargeFrames;
    LargeSendAgrees(data, s, fragmentSize);
    FragmentationShape(OpCode.Text, s, fragmentSize);
    var fs := FramesOf(OpCode.Text, Chunks(s.wire, fragmentSize), s.compressed);
    OnWireLength(fs);
    if |fs| >= 2 { SeveralFrames(|fs|, fragmentSize, |s.wire|); }
    RunWhole(rlim, d, OnWire(fs));
    assert s == Sent(s.compressed, s.wire);
  }

  /** Without compression: nothing for no data, otherwise the Text message or the UTF-8 error. */
  lemma LargeSendPlain(rlim: Limits, d: Inflater, data: seq<byte>, fragmentSize: nat)
    requires fragmentSize >= 1 && |data| <= rlim.maxMessage
    ensures Run(rlim, RState(None, d), LargeFrames(Sent(false, data), fragmentSize)) ==
            if data == [] then Trace([], [], Open(RState(None, d)))
            else if ValidUtf8(data) then Trace([TextMessage(data)], [], Open(RState(None, d)))
            else Fail(FromUtf8Error)
  {
    hide Run, ValidUtf8, LargeFrames;
    if data == [] {
      RunEmpty(rlim, RState(None, d));
      assert LargeFrames(Sent(false, data), fragmentSize) == [] by { NoFragments(fragmentSize); }
    } else {
      LargeSendRead(rlim, d, data, Sent(false, data), fragmentSize);
    }
  }

  lemma NoFragments(fragmentSize: nat)
    requires fragmentSize >= 1
    ensures LargeFrames(Sent(false, []), fragmentSize) == []
  {
  }

  // ---------------------------------------------------------------- compressed, in several fragments

  function LastFragment(wire: seq<byte>, m: nat): (last: seq<byte>)
    requires m >= 1
    ensures |last| <= m && (|wire| > m ==> |last| < |wire|) && (wire != [] ==> last != [])
    decreases |wire|
  {
    if |wire| <= m then wire else LastFragment(wire[m..], m)
  }

  /** What comes before the last fragment. */
  function FirstFragments(wire: seq<byte>, m: nat): (init: seq<byte>)
    requires m >= 1
    ensures init + LastFragment(wire, m) == wire
    decreases |wire|
  {
    if |wire| <= m then [] else wire[..m] + FirstFragments(wire[m..], m)
  }

  lemma {:induction false} ChunksBeforeLast(wire: seq<byte>, m: nat)
    requires m >= 1 && wire != []
    ensures var cs := Chunks(wire, m); var n := |cs| - 1;
      && n >= 0 && cs[n] == LastFragment(wire, m) && Flatten(cs[..n]) == FirstFragments(wire, m)
      && (n >= 1 <==> |wire| > m) && (n >= 2 <==> |FirstFragments(wire, m)| > m)
    decreases |wire|
  {
    hide Flatten;
    var cs := Chunks(wire, m);
    if |wire| <= m {
      assert cs[..0] == [];
      FlattenCons(wire, []);
    } else {
      var head, more := wire[..m], Chunks(wire[m..], m);
      var n := |more| - 1;
      ChunksBeforeLast(wire[m..], m);
      assert cs == [head] + more;
      assert cs[..n + 1] == [head] + more[..n];
      FlattenCons(head, more[..n]);
    }
  }

  /**
   The last fragment carries RSV1, so the peer decompresses it by itself, puts the result behind the
   other fragments as they came, and decompresses the whole.
   */
  function Rejoined(lim: Limits, d: Inflater, init: seq<byte>, last: seq<byte>): Trace {
    match Inflate(d, last)
    case Err(e) => Fail(e)
    case Ok((x, d1)) =>
      if |init + x| > lim.maxMessage then Fail(MaxMessageSize)
      else
        match Inflate(d1, init + x)
        case Err(e) => Fail(e)
        case Ok((m, d2)) => Transmit(RState(None, d2), OpCode.Text, m)
  }

  lemma RejoiningStep(lim: Limits, d: Inflater, p: FragmentedMessage, f: Frame)
    requires f.opcode.Continue? && f.fin && f.compressed && p.compressed && p.opcode.Text?
    ensures Step(lim, RState(Some(p), d), f) == Rejoined(lim, d, p.fragments, f.payload)
  {
    hide Inflate, Transmit;
  }

  /** What becomes of a compressed large send in several fragments: in every format, for every stream. */
  lemma LargeSendSeveral(lim: Limits, d: Inflater, s: Sent, m: nat)
    requires s.compressed && m >= 1 && |s.wire| > m
    ensures var init, last := FirstFragments(s.wire, m), LastFragment(s.wire, m);
      Run(lim, RState(None, d), LargeFrames(s, m)) ==
        if |init| > m && |init| > lim.maxMessage then Fail(MaxMessageSize) else Rejoined(lim, d, init, last)
  {
    hide Run, Step, Rejoined, Chunks, LastFragment, FirstFragments, Payload, Flatten;
    ChunksBeforeLast(s.wire, m);
    var fs, cs := LargeFrames(s, m), Chunks(s.wire, m);
    var n, st := |cs| - 1, RState(None, d);
    var t, f := fs[..n], fs[n];
    assert fs == t + [f];
    assert IsPart(t);
    PayloadOfFrames(t, cs[..n]);
    RunPart(lim, d, t);
    RunSnoc(lim, st, t, f);
    var u := PartTrace(lim, d, t);
    if u.status.Open? {
      var p := u.status.st.pending.value;
      assert u.status.st == RState(Some(p), d);
      RejoiningStep(lim, d, p, f);
      NoReplies(lim, d, p.fragments, f.payload);
      var v := Rejoined(lim, d, p.fragments, f.payload);
      assert [] + v.delivered == v.delivered && [] + v.replies == v.replies;
    }
  }

  lemma NoReplies(lim: Limits, d: Inflater, init: seq<byte>, last: seq<byte>)
    ensures Rejoined(lim, d, init, last).replies == []
  {
    hide Inflate;
  }

  /** The rejoined bytes happen to be a stream of the data. */
  predicate Rejoins(lim: Limits, d: Inflater, init: seq<byte>, last: seq<byte>, data: seq<byte>) {
    && Inflate(d, last).Ok?
    && var (x, d1) := Inflate(d, last).value;
    && |init + x| <= lim.maxMessage
    && Inflate(d1, init + x).Ok? && Inflate(d1, init + x).value.0 == data
  }

  lemma RejoinedDelivers(lim: Limits, d: Inflater, init: seq<byte>, last: seq<byte>, data: seq<byte>)
    ensures DeliveredAsText(Rejoined(lim, d, init, last), data) <==>
            ValidUtf8(data) && Rejoins(lim, d, init, last, data)
    ensures Rejoins(lim, d, init, last, data) ==> |init| <= lim.maxMessage
  {
    hide Inflate, ValidUtf8;
  }

  // ---------------------------------------------------------------- when a large send is delivered

  /** Every fragment of a large send passes the peer's checks, so its bytes are run as its frames. */
  lemma LargeSendBytes(slim: Limits, rlim: Limits, e: Deflater, d: Inflater, data: seq<byte>, s: Sent,
                       fragmentSize: nat, kind: WriterKind, rng: nat -> Mask, k: nat)
    requires LargeFits(slim, rlim, data, fragmentSize) && Prepares(slim.deflate, e, data, s)
    ensures var fs, st := LargeFrames(s, fragmentSize), RState(None, d);
      Poll(rlim, st, WireBytes(kind, rng, k, fs)).trace.delivered == Run(rlim, st, fs).delivered
  {
    hide Run, Poll, WireBytes, Turn, FrameParser, Deflates;
    var fs, st := LargeFrames(s, fragmentSize), RState(None, d);
    ChunksSizes(s.wire, fragmentSize);
    forall i | 0 <= i < |fs| ensures Legal(rlim, fs[i]) { assert |fs[i].payload| <= fragmentSize; }
    PollFrames(rlim, st, kind, rng, k, fs, []);
    assert WireBytes(kind, rng, k, fs) + [] == WireBytes(kind, rng, k, fs);
    var t := Run(rlim, st, fs);
    if t.status.Open? {
      AtEnd(rlim, t.status.st);
      assert t.delivered + [] == t.delivered;
    }
  }

  /**
   When a large send is delivered, exactly, for every format, stream, mask and pair of contexts in
   step: there is data, it is UTF-8, and it is not compressed, or in one fragment, or in several that
   happen to be rejoined to a stream of the same data.
   */
  lemma LargeSendDelivered(slim: Limits, rlim: Limits, e: Deflater, d: Inflater, data: seq<byte>, s: Sent,
                           fragmentSize: nat, kind: WriterKind, rng: nat -> Mask, k: nat)
    requires LargeFits(slim, rlim, data, fragmentSize)
    requires Prepares(slim.deflate, e, data, s) && Agree(slim.deflate, e, d)
    ensures DeliveredAsText(Poll(rlim, RState(None, d),
                                 WireBytes(kind, rng, k, LargeFrames(s, fragmentSize))).trace, data)
            <==>
            && data != [] && ValidUtf8(data)
            && (s.compressed && |s.wire| > fragmentSize ==>
                  Rejoins(rlim, d, FirstFragments(s.wire, fragmentSize), LastFragment(s.wire, fragmentSize), data))
  {
    hide Run, Poll, WireBytes, LargeFrames, Deflates, ValidUtf8, Rejoins, Rejoined, Inflate, InSync,
      FirstFragments, LastFragment;
    LargeSendBytes(slim, rlim, e, d, data, s, fragmentSize, kind, rng, k);
    if !s.compressed {
      LargeSendPlain(rlim, d, data, fragmentSize);
    } else if |s.wire| > fragmentSize {
      var init, last := FirstFragments(s.wire, fragmentSize), LastFragment(s.wire, fragmentSize);
      LargeSendSeveral(rlim, d, s, fragmentSize);
      RejoinedDelivers(rlim, d, init, last, data);
    } else {
      PreparedReceived(slim.deflate, e, d, data, s);
      LargeSendRead(rlim, d, data, s, fragmentSize);
    }
  }

  /**
   A compressed stream of several fragments, the last of which the format refuses, is lost, although
   the same stream cut alike by `send_message` is delivered.
   */
  lemma LargeSendLost(slim: Limits, rlim: Limits, e: Deflater, d: Inflater, data: Utf8, s: Sent, fragmentSize: nat)
    returns (d': Inflater)
    requires LargeFits(slim, rlim, data, fragmentSize) && |s.wire| <= rlim.maxMessage
    requires Prepares(slim.deflate, e, data, s) && Agree(slim.deflate, e, d)
    requires s.compressed && |s.wire| > fragmentSize && Inflate(d, LastFragment(s.wire, fragmentSize)).Err?
    ensures Run(rlim, RState(None, d), LargeFrames(s, fragmentSize)) == Fail(IOError)
    ensures Run(rlim, RState(None, d), OnWire(MessageFrames(OpCode.Text, data, s, fragmentSize))) ==
            Trace([TextMessage(data)], [], Open(RState(None, d')))
  {
    hide Run, Prepares, Agree, Meaning, LargeFrames, MessageFrames, LastFragment;
    LargeSendSeveral(rlim, d, s, fragmentSize);
    var o := Outgoing(TextMessage(data), s, fragmentSize);
    d' := DeliverOne(slim, rlim, e, d, o);
    GroupShape(slim, rlim, e, d, o);
    RunWhole(rlim, d, Group(o));
  }

  // ---------------------------------------------------------------- without knowing the format

  /** A parser that knows one stream only. */
  function OnlyStream(stream: seq<byte>, ts: seq<Token>): Parse {
    (b: seq<byte>) => if b == stream then Some(ts) else None
  }

  lemma DeflatesStream(e: Deflater, data: seq<byte>, wire: seq<byte>, ts: seq<Token>)
    requires wire != [] && e.parse == OnlyStream(wire + TRAILER, ts)
    requires Expand(Pow2(e.bits), e.history, ts) == Some(data)
    ensures Deflates(e, data, wire)
  {
  }

  lemma UnknownStream(d: Inflater, wire: seq<byte>, stream: seq<byte>, ts: seq<Token>)
    requires d.parse == OnlyStream(stream, ts) && wire + TRAILER != stream
    ensures Inflate(d, wire) == Err(IOError)
  {
  }

  /** For any data and fragment size there is a format with a stream of it whose last fragment it refuses. */
  lemma RefusingFormat(e: Deflater, d: Inflater, data: seq<byte>, m: nat) returns (parse: Parse, s: Sent)
    requires |data| > 1 && m >= 1
    ensures Prepares(true, e.(parse := parse), data, s) && |s.wire| > m
    ensures Inflate(d.(parse := parse), LastFragment(s.wire, m)).Err?
  {
    hide Expand, Literals, Inflate, Deflates, Pow2, LastFragment;
    var ts := Literals(data);
    var wire: seq<byte> := seq(m + 1, _ => 1);
    parse, s := OnlyStream(wire + TRAILER, ts), Sent(true, wire);
    ExpandLiterals(Pow2(e.bits), e.history, data);
    DeflatesStream(e.(parse := parse), data, wire, ts);
    var last := LastFragment(wire, m);
    assert |last + TRAILER| != |wire + TRAILER|;
    UnknownStream(d.(parse := parse), last, wire + TRAILER, ts);
  }

  /**
   What a caller can count on without knowing the format or the compressor: the data is delivered by
   all of them, if and only if there is data, it is UTF-8, and it is not compressed.
   */
  lemma LargeSendGuaranteed(slim: Limits, rlim: Limits, e: Deflater, d: Inflater, data: seq<byte>, fragmentSize: nat,
                            kind: WriterKind, rng: nat -> Mask, k: nat)
    requires LargeFits(slim, rlim, data, fragmentSize) && Agree(slim.deflate, e, d)
    ensures (forall parse: Parse, s | Prepares(slim.deflate, e.(parse := parse), data, s) ::
               DeliveredAsText(Poll(rlim, RState(None, d.(parse := parse)),
                                    WireBytes(kind, rng, k, LargeFrames(s, fragmentSize))).trace, data))
            <==> data != [] && ValidUtf8(data) && !Compresses(slim.deflate, data)
  {
    hide Poll, WireBytes, LargeFrames, Deflates, ValidUtf8, LastFragment, FirstFragments, Inflate;
    forall parse: Parse, s | Prepares(slim.deflate, e.(parse := parse), data, s)
      ensures DeliveredAsText(Poll(rlim, RState(None, d.(parse := parse)),
                                   WireBytes(kind, rng, k, LargeFrames(s, fragmentSize))).trace, data)
              <==>
              && data != [] && ValidUtf8(data)
              && (s.compressed && |s.wire| > fragmentSize ==>
                    Rejoins(rlim, d.(parse := parse), FirstFragments(s.wire, fragmentSize),
                            LastFragment(s.wire, fragmentSize), data))
    {
      LargeSendDelivered(slim, rlim, e.(parse := parse), d.(parse := parse), data, s, fragmentSize, kind, rng, k);
    }
    if Compresses(slim.deflate, data) {
      var parse, s := RefusingFormat(e, d, data, fragmentSize);
      assert !Rejoins(rlim, d.(parse := parse), FirstFragments(s.wire, fragmentSize),
                      LastFragment(s.wire, fragmentSize), data);
    } else {
      assert Prepares(slim.deflate, e.(parse := e.parse), data, Sent(false, data));
    }
  }
}
