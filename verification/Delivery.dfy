/**
 End to end: what a sender's frames, cut, masked, compressed and interleaved with control frames,
 become at the peer's `poll_messages`.
 */
module Delivery {
  import opened Basics
  import opened Frames
  import opened Wire
  import opened Writers
  import opened Deflate
  import opened Reader
  import opened Grammar
  import opened Sender

  // ---------------------------------------------------------------- from bytes to frames

  lemma FirstFrame(lim: Limits, kind: WriterKind, rng: nat -> Mask, k: nat, fs: seq<Frame>, rest: seq<byte>)
    requires fs != [] && Legal(lim, fs[0]) && lim.maxFrame < U64
    ensures FrameParser(lim)(WireBytes(kind, rng, k, fs) + rest) ==
            Ok(Parsed(fs[0], MaskOf(kind, rng, k), WireBytes(kind, rng, k + 1, fs[1..]) + rest))
  {
    hide ParseFrame, EncodeFrame, FrameParser;
    var f, tail := fs[0], WireBytes(kind, rng, k + 1, fs[1..]);
    var e := EncodeFrame(MaskOf(kind, rng, k), f, f.compressed);
    FrameRoundTrip(lim, MaskOf(kind, rng, k), f, f.compressed, tail + rest);
    WireBytesOne(kind, rng, k, f, f.compressed);
    WireBytesConcat(kind, rng, k, [f], fs[1..]);
    assert [f] + fs[1..] == fs;
    assert e + tail + rest == e + (tail + rest);
    ParserUnfolds(lim, e + (tail + rest));
  }

  /** Reading the bytes of legal frames is running the frames; what follows a stop stays unread. */
  lemma {:induction false} PollFrames(lim: Limits, st: RState, kind: WriterKind, rng: nat -> Mask, k: nat,
                                      fs: seq<Frame>, rest: seq<byte>)
    requires lim.maxFrame < U64 && forall f | f in fs :: Legal(lim, f)
    ensures var t := Run(lim, st, fs); var n := Handled(Turn(lim), st, fs);
      Poll(lim, st, WireBytes(kind, rng, k, fs) + rest) ==
        if t.status.Open? then
          var r := Poll(lim, t.status.st, rest);
          PollResult(Then(t, r.trace), r.rest)
        else PollResult(t, WireBytes(kind, rng, k + n, fs[n..]) + rest)
    decreases |fs|
  {
    hide Turn, FrameParser, Legal, WireBytes;
    var t := Run(lim, st, fs);
    if fs == [] {
      WireBytesNone(kind, rng, k);
      assert [] + rest == rest;
      ThenNothing(Poll(lim, st, rest).trace, st);
    } else {
      FirstFrame(lim, kind, rng, k, fs, rest);
      var u := Turn(lim)(st, fs[0]);
      if u.status.Open? {
        PollFrames(lim, u.status.st, kind, rng, k + 1, fs[1..], rest);
        var v := Run(lim, u.status.st, fs[1..]);
        if v.status.Open? { ThenAssociative(u, v, Poll(lim, v.status.st, rest).trace); }
      }
    }
  }

  /** Framing undoes writing: the bytes of legal frames are framed as those frames, then what follows. */
  lemma {:induction false} FramingOfWire(lim: Limits, kind: WriterKind, rng: nat -> Mask, k: nat,
                                         fs: seq<Frame>, rest: seq<byte>)
    requires lim.maxFrame < U64 && forall f | f in fs :: Legal(lim, f)
    ensures var stream := FramingOf(lim, rest);
      FramingOf(lim, WireBytes(kind, rng, k, fs) + rest) == Framing(fs + stream.frames, stream.error)
    decreases |fs|
  {
    hide FrameParser, Legal, WireBytes;
    if fs == [] {
      WireBytesNone(kind, rng, k);
      assert [] + rest == rest && [] + FramingOf(lim, rest).frames == FramingOf(lim, rest).frames;
    } else {
      FirstFrame(lim, kind, rng, k, fs, rest);
      FramingOfWire(lim, kind, rng, k + 1, fs[1..], rest);
      assert [fs[0]] + (fs[1..] + FramingOf(lim, rest).frames) == fs + FramingOf(lim, rest).frames;
    }
  }

  /** The first frame that breaks a rule ends the framing, with the error of the first check it fails. */
  lemma FramingStops(lim: Limits, kind: WriterKind, rng: nat -> Mask, k: nat, fs: seq<Frame>, g: Frame, rest: seq<byte>)
    requires lim.maxFrame < U64 && (forall f | f in fs :: Legal(lim, f)) && !Legal(lim, g) && |g.payload| < U64
    ensures FramingOf(lim, WireBytes(kind, rng, k, fs + [g]) + rest) ==
            Framing(fs, Objection(lim, g, g.compressed).value)
  {
    hide ParseFrame, EncodeFrame, FrameParser, WireBytes;
    var w1, w2 := WireBytes(kind, rng, k, fs), WireBytes(kind, rng, k + |fs|, [g]);
    WireBytesConcat(kind, rng, k, fs, [g]);
    assert w1 + w2 + rest == w1 + (w2 + rest);
    FramingOfWire(lim, kind, rng, k, fs, w2 + rest);
    WireBytesOne(kind, rng, k + |fs|, g, g.compressed);
    assert g.(compressed := g.compressed) == g;
    FrameRoundTrip(lim, MaskOf(kind, rng, k + |fs|), g, g.compressed, rest);
    ParserUnfolds(lim, w2 + rest);
    assert fs + [] == fs;
  }

  /** At the end of the stream. */
  lemma AtEnd(lim: Limits, st: RState)
    ensures Poll(lim, st, []).trace == Fail(IOError)
  {
    ParserUnfolds(lim, []);
  }

  // ---------------------------------------------------------------- from messages to frames

  /** A message on its way: what the compressor made of it, and the size it is cut into. */
  datatype Outgoing = Outgoing(message: Message, sent: Sent, cut: Positive)

  type Positive = n: nat | n >= 1 witness 1

  /**
   A run of sends the writer accepts: each message is within the limit, cut by the frame limit or a
   smaller fragment size, and prepared in the encoder state its predecessors left.
   */
  ghost predicate Accepted(lim: Limits, e: Deflater, outs: seq<Outgoing>)
    decreases |outs|
  {
    outs == [] ||
    var o := outs[0]; var bytes := o.message.AsBinary();
    && o.cut <= lim.maxFrame && |bytes| <= lim.maxMessage
    && Prepares(lim.deflate, e, bytes, o.sent)
    && Accepted(lim, AfterSend(lim.deflate, e, bytes), outs[1..])
  }

  /** The encoder after the run. */
  function AfterSends(lim: Limits, e: Deflater, outs: seq<Outgoing>): Deflater
    decreases |outs|
  {
    if outs == [] then e else AfterSends(lim, AfterSend(lim.deflate, e, outs[0].message.AsBinary()), outs[1..])
  }

  function Group(o: Outgoing): seq<Frame> {
    OnWire(MessageFrames(o.message.Kind(), o.message.AsBinary(), o.sent, o.cut))
  }

  function Groups(outs: seq<Outgoing>): seq<seq<Frame>> {
    seq(|outs|, i requires 0 <= i < |outs| => Group(outs[i]))
  }

  function Messages(outs: seq<Outgoing>): seq<Message> {
    seq(|outs|, i requires 0 <= i < |outs| => outs[i].message)
  }

  /** The message suits the reader's limits: only messages of several frames face the message limit. */
  predicate Fits(slim: Limits, rlim: Limits, o: Outgoing) {
    && slim.deflate == rlim.deflate && rlim.maxFrame < U64
    && o.cut <= slim.maxFrame
    && (|o.sent.wire| > rlim.maxFrame ==> o.cut <= rlim.maxFrame)
    && (|o.sent.wire| > o.cut ==> |o.sent.wire| <= rlim.maxMessage)
  }

  /** Compression is off, or the two contexts are in step. */
  ghost predicate Agree(on: bool, e: Deflater, d: Inflater) { on ==> InSync(e, d) }

  lemma PreparedReceived(on: bool, e: Deflater, d: Inflater, m: seq<byte>, s: Sent)
    requires Agree(on, e, d) && Prepares(on, e, m, s)
    ensures Receive(d, s).Ok? && Receive(d, s).value.0 == m
    ensures Agree(on, AfterSend(on, e, m), Receive(d, s).value.1)
    ensures s.compressed ==> on
    ensures m != [] ==> s.wire != []
    ensures m == [] ==> s == Sent(false, [])
  {
    hide InSync, AfterDeflate, Inflate;
    if on { ReceivePrepared(on, e, d, m, s); }
  }

  /** The frames of one message: one whole message of the grammar, each frame within the limits. */
  lemma GroupShape(slim: Limits, rlim: Limits, e: Deflater, d: Inflater, o: Outgoing)
    requires Fits(slim, rlim, o) && Prepares(slim.deflate, e, o.message.AsBinary(), o.sent)
    requires Agree(slim.deflate, e, d)
    ensures var g := Group(o);
      && IsWhole(g) && AllRsv1Clean(g) && (forall f | f in g :: Legal(rlim, f))
      && Payload(g) == o.sent.wire && g[0].compressed == o.sent.compressed && g[0].opcode == o.message.Kind()
      && (|g| >= 2 ==> |Payload(g)| <= rlim.maxMessage)
  {
    hide Prepares, Agree, FramesOf, Payload, IsWhole, AllRsv1Clean, OnWire, Legal, Chunks;
    PreparedReceived(slim.deflate, e, d, o.message.AsBinary(), o.sent);
    var bytes, g := o.message.AsBinary(), Group(o);
    if bytes == [] {
      EmptyGroup(rlim, o.message.Kind());
    } else {
      FragmentationShape(o.message.Kind(), o.sent, o.cut);
      OnWireLength(FramesOf(o.message.Kind(), Chunks(o.sent.wire, o.cut), o.sent.compressed));
      if |g| >= 2 { SeveralFrames(|g|, o.cut, |o.sent.wire|); }
      forall i | 0 <= i < |g| ensures |g[i].payload| <= rlim.maxFrame { PayloadPart(g, i); }
      FragmentsLegal(rlim, g);
    }
  }

  lemma OnWireLength(fs: seq<Frame>)
    ensures |OnWire(fs)| == |fs| && forall i :: 0 <= i < |fs| ==> 
              OnWire(fs)[i].payload == fs[i].payload && OnWire(fs)[i].opcode == fs[i].opcode
  {
  }

  lemma SeveralFrames(n: nat, m: nat, size: nat)
    requires n >= 2 && (n - 1) * m < size
    ensures m < size
  {
    assert (n - 1) * m >= m;
  }

  lemma {:induction false} PayloadPart(fs: seq<Frame>, i: nat)
    requires i < |fs|
    ensures |fs[i].payload| <= |Payload(fs)|
    decreases |fs|
  {
    if i > 0 { PayloadPart(fs[1..], i - 1); }
  }

  lemma EmptyGroup(rlim: Limits, opcode: OpCode)
    requires opcode.IsData()
    ensures var g := OnWire([Frame(true, opcode, [], false)]);
      && IsWhole(g) && AllRsv1Clean(g) && (forall f | f in g :: Legal(rlim, f)) && |g| == 1
      && Payload(g) == [] && !g[0].compressed && g[0].opcode == opcode
  {
    OnWireOne(Frame(true, opcode, [], false));
    PayloadOne(Frame(true, opcode, [], false));
  }

  lemma FragmentsLegal(rlim: Limits, g: seq<Frame>)
    requires IsWhole(g) && AllRsv1Clean(g) && (g[0].compressed ==> rlim.deflate)
    requires forall i :: 0 <= i < |g| ==> |g[i].payload| <= rlim.maxFrame
    ensures forall f | f in g :: Legal(rlim, f)
  {
    forall i | 0 <= i < |g| ensures Legal(rlim, g[i]) {
      assert Rsv1Clean(g[i]);
    }
  }

  lemma DeliverOne(slim: Limits, rlim: Limits, e: Deflater, d: Inflater, o: Outgoing) returns (d': Inflater)
    requires Fits(slim, rlim, o) && Prepares(slim.deflate, e, o.message.AsBinary(), o.sent)
    requires Agree(slim.deflate, e, d)
    ensures Group(o) != []
    ensures Meaning(rlim, d, Group(o)) == Trace([o.message], [], Open(RState(None, d')))
    ensures Agree(slim.deflate, AfterSend(slim.deflate, e, o.message.AsBinary()), d')
  {
    hide Prepares, Agree, Group, Receive, AfterSend;
    GroupShape(slim, rlim, e, d, o);
    PreparedReceived(slim.deflate, e, d, o.message.AsBinary(), o.sent);
    d' := Receive(d, o.sent).value.1;
    assert FromFrame(o.message.Kind(), o.message.AsBinary()) == Ok(o.message);
    assert o.sent == Sent(o.sent.compressed, o.sent.wire);
  }

  lemma {:induction false} DeliverAll(slim: Limits, rlim: Limits, e: Deflater, d: Inflater, outs: seq<Outgoing>)
    returns (d': Inflater)
    requires Accepted(slim, e, outs) && Agree(slim.deflate, e, d)
    requires forall o | o in outs :: Fits(slim, rlim, o)
    ensures forall g | g in Groups(outs) ::
      |g| >= 1 && IsWhole(g) && AllRsv1Clean(g) && forall f | f in g :: Legal(rlim, f)
    ensures MeaningAll(rlim, d, Groups(outs)) == Trace(Messages(outs), [], Open(RState(None, d')))
    ensures Agree(slim.deflate, AfterSends(slim, e, outs), d')
    decreases |outs|
  {
    hide Prepares, Agree, Group, AfterSend, Legal, Meaning, IsWhole, AllRsv1Clean, Fits;
    if outs == [] {
      d' := d;
    } else {
      var o, bytes := outs[0], outs[0].message.AsBinary();
      GroupShape(slim, rlim, e, d, o);
      var d1 := DeliverOne(slim, rlim, e, d, o);
      d' := DeliverAll(slim, rlim, AfterSend(slim.deflate, e, bytes), d1, outs[1..]);
      GroupsCons(outs);
      MeaningCons(rlim, d, Group(o), Groups(outs[1..]));
    }
  }

  lemma GroupsCons(outs: seq<Outgoing>)
    requires outs != []
    ensures Groups(outs) == [Group(outs[0])] + Groups(outs[1..])
    ensures Messages(outs) == [outs[0].message] + Messages(outs[1..])
  {
    hide Group;
  }

  lemma MeaningCons(lim: Limits, d: Inflater, g: seq<Frame>, gs: seq<seq<Frame>>)
    requires |g| >= 1 && forall h | h in gs :: |h| >= 1
    ensures var t := Meaning(lim, d, g);
      MeaningAll(lim, d, [g] + gs) ==
        if t.status.Open? then Then(t, MeaningAll(lim, t.status.st.inflater, gs)) else t
  {
    hide Meaning;
    assert ([g] + gs)[1..] == gs;
  }

  /** Where a message is cut does not matter: same delivery, same decoder afterwards, one decompression. */
  lemma CutsAgree(lim: Limits, d: Inflater, opcode: OpCode, s: Sent, m1: Positive, m2: Positive)
    requires opcode.IsData() && s.wire != [] && |s.wire| <= lim.maxMessage
    ensures var whole := match Receive(d, s)
                         case Err(e) => Fail(e)
                         case Ok((data, d')) => Transmit(RState(None, d'), opcode, data);
      && Run(lim, RState(None, d), OnWire(FramesOf(opcode, Chunks(s.wire, m1), s.compressed))) == whole
      && Run(lim, RState(None, d), OnWire(FramesOf(opcode, Chunks(s.wire, m2), s.compressed))) == whole
  {
    hide Run, FramesOf, OnWire, Chunks, IsWhole, Payload, Receive, Transmit, AllRsv1Clean;
    FragmentationShape(opcode, s, m1);
    FragmentationShape(opcode, s, m2);
    var g1 := OnWire(FramesOf(opcode, Chunks(s.wire, m1), s.compressed));
    var g2 := OnWire(FramesOf(opcode, Chunks(s.wire, m2), s.compressed));
    OnWireLength(FramesOf(opcode, Chunks(s.wire, m1), s.compressed));
    OnWireLength(FramesOf(opcode, Chunks(s.wire, m2), s.compressed));
    RunWhole(lim, d, g1);
    RunWhole(lim, d, g2);
    assert s == Sent(s.compressed, s.wire);
  }

  // ---------------------------------------------------------------- the writer object

  /** The messages `write_message` does not refuse. */
  function WithinLimit(ms: seq<Message>, max: nat): seq<Message>
    decreases |ms|
  {
    if ms == [] then [] else IfWithin(ms[0], max) + WithinLimit(ms[1..], max)
  }

  function IfWithin(m: Message, max: nat): seq<Message> { if |m.AsBinary()| <= max then [m] else [] }

  lemma {:induction false} WithinLimitSnoc(ms: seq<Message>, m: Message, max: nat)
    ensures WithinLimit(ms + [m], max) == WithinLimit(ms, max) + IfWithin(m, max)
    decreases |ms|
  {
    hide IfWithin;
    if ms == [] {
      assert ms + [m] == [m] && [m][1..] == [];
      assert WithinLimit([], max) == [];
      assert [] + IfWithin(m, max) == IfWithin(m, max) == IfWithin(m, max) + [];
    } else {
      WithinLimitSnoc(ms[1..], m, max);
      assert (ms + [m])[1..] == ms[1..] + [m];
    }
  }

  lemma {:induction false} AcceptedSnoc(lim: Limits, e: Deflater, outs: seq<Outgoing>, o: Outgoing)
    requires Accepted(lim, e, outs) && Accepted(lim, AfterSends(lim, e, outs), [o])
    ensures Accepted(lim, e, outs + [o])
    ensures AfterSends(lim, e, outs + [o]) == AfterSend(lim.deflate, AfterSends(lim, e, outs), o.message.AsBinary())
    decreases |outs|
  {
    hide Prepares, AfterSend;
    if outs == [] {
      assert outs + [o] == [o] && [o][1..] == [];
    } else {
      AcceptedSnoc(lim, AfterSend(lim.deflate, e, outs[0].message.AsBinary()), outs[1..], o);
      assert (outs + [o])[1..] == outs[1..] + [o];
    }
  }

  lemma GroupsSnoc(outs: seq<Outgoing>, o: Outgoing)
    ensures Flatten(Groups(outs + [o])) == Flatten(Groups(outs)) + Group(o)
    ensures Messages(outs + [o]) == Messages(outs) + [o.message]
  {
    hide Group;
    assert Groups(outs + [o]) == Groups(outs) + [Group(o)];
    FlattenOne(Groups(outs), Group(o));
  }

  /**
   A user that sends one message after the other: the refused ones leave no trace, and the others
   are an accepted run, whose frames, in order, are what is on the wire.
   */
  method SendMessages(w: WSWriter, messages: seq<Message>) returns (ghost outs: seq<Outgoing>)
    requires w.encoder.Lawful() && w.config.maxFrame >= 1
    modifies w.encoder, w.writer
    ensures Accepted(w.config, old(w.encoder.State()), outs)
    ensures w.encoder.State() == AfterSends(w.config, old(w.encoder.State()), outs)
    ensures Messages(outs) == WithinLimit(messages, w.config.maxMessage)
    ensures w.writer.writeHalf == old(w.writer.writeHalf)
      + WireBytes(w.writer.kind, w.writer.rng, old(w.writer.written), Flatten(Groups(outs)))
  {
    hide Prepares, AfterSend, WireBytes, MessageFrames, OnWire, Group, Groups, Messages, Accepted, AfterSends, Flatten;
    outs := [];
    ghost var frames: seq<Frame> := [];
    NothingSent(w.config, w.encoder.State(), w.writer.kind, w.writer.rng, w.writer.written);
    for i := 0 to |messages|
      invariant Accepted(w.config, old(w.encoder.State()), outs)
      invariant w.encoder.State() == AfterSends(w.config, old(w.encoder.State()), outs)
      invariant Messages(outs) == WithinLimit(messages[..i], w.config.maxMessage)
      invariant frames == Flatten(Groups(outs)) && w.writer.written == old(w.writer.written) + |frames|
      invariant w.writer.writeHalf == old(w.writer.writeHalf)
        + WireBytes(w.writer.kind, w.writer.rng, old(w.writer.written), frames)
    {
      var m := messages[i];
      var r;
      ghost var s;
      r, s := w.WriteMessage(m);
      assert messages[..i + 1] == messages[..i] + [m];
      WithinLimitSnoc(messages[..i], m, w.config.maxMessage);
      if r.Ok? {
        ghost var o := Outgoing(m, s, w.config.maxFrame);
        OneMoreSent(w.config, old(w.encoder.State()), outs, o, w.writer.kind, w.writer.rng, old(w.writer.written));
        outs, frames := outs + [o], frames + Group(o);
      }
    }
    assert messages[..|messages|] == messages;
  }

  lemma NothingSent(lim: Limits, e: Deflater, kind: WriterKind, rng: nat -> Mask, k: nat)
    ensures Flatten(Groups([])) == [] && Messages([]) == [] && WireBytes(kind, rng, k, []) == []
    ensures Accepted(lim, e, []) && AfterSends(lim, e, []) == e
  {
  }

  lemma OneMoreSent(lim: Limits, e: Deflater, outs: seq<Outgoing>, o: Outgoing,
                    kind: WriterKind, rng: nat -> Mask, k: nat)
    requires Accepted(lim, e, outs)
    requires o.cut <= lim.maxFrame && |o.message.AsBinary()| <= lim.maxMessage
    requires Prepares(lim.deflate, AfterSends(lim, e, outs), o.message.AsBinary(), o.sent)
    ensures Accepted(lim, e, outs + [o])
    ensures AfterSends(lim, e, outs + [o]) == AfterSend(lim.deflate, AfterSends(lim, e, outs), o.message.AsBinary())
    ensures Messages(outs + [o]) == Messages(outs) + [o.message]
    ensures var fs := Flatten(Groups(outs));
      var g := OnWire(MessageFrames(o.message.Kind(), o.message.AsBinary(), o.sent, o.cut));
      && g == Group(o) && Flatten(Groups(outs + [o])) == fs + g
      && WireBytes(kind, rng, k, fs + g) == WireBytes(kind, rng, k, fs) + WireBytes(kind, rng, k + |fs|, g)
  {
    hide Prepares, AfterSend, WireBytes, MessageFrames, OnWire, Groups, Messages, Accepted, AfterSends, Flatten;
    AcceptedOne(lim, AfterSends(lim, e, outs), o);
    AcceptedSnoc(lim, e, outs, o);
    GroupsSnoc(outs, o);
    WireBytesConcat(kind, rng, k, Flatten(Groups(outs)), Group(o));
  }

  lemma AcceptedOne(lim: Limits, e: Deflater, o: Outgoing)
    requires o.cut <= lim.maxFrame && |o.message.AsBinary()| <= lim.maxMessage
    requires Prepares(lim.deflate, e, o.message.AsBinary(), o.sent)
    ensures Accepted(lim, e, [o])
  {
    assert [o][1..] == [];
  }

  // ---------------------------------------------------------------- interleaving

  /** A control frame as a Writer sends it, which the reader's limits let through. */
  predicate PlainControl(rlim: Limits, f: Frame) { f.opcode.IsControl() && !f.compressed && Legal(rlim, f) }

  /** fs is the frames `data` with Pings and Pongs put in anywhere. */
  predicate Interleaves(rlim: Limits, fs: seq<Frame>, data: seq<Frame>) {
    Quiet(fs) == data && forall f | f in fs && PingOrPong(f) :: PlainControl(rlim, f)
  }

  lemma {:induction false} QuietMember(fs: seq<Frame>, f: Frame)
    requires f in fs && !PingOrPong(f)
    ensures f in Quiet(fs)
    decreases |fs|
  {
    if fs[0] != f { QuietMember(fs[1..], f); }
  }

  lemma {:induction false} FlattenMember(gs: seq<seq<Frame>>, f: Frame) returns (g: seq<Frame>)
    requires f in Flatten(gs)
    ensures g in gs && f in g
    decreases |gs|
  {
    if f in gs[0] { g := gs[0]; } else { g := FlattenMember(gs[1..], f); }
  }

  lemma InterleavedLegal(rlim: Limits, gs: seq<seq<Frame>>, fs: seq<Frame>)
    requires forall g | g in gs :: AllRsv1Clean(g) && forall f | f in g :: Legal(rlim, f)
    requires forall f | f in Quiet(fs) :: f in Flatten(gs)
    requires forall f | f in fs && PingOrPong(f) :: PlainControl(rlim, f)
    ensures forall f | f in fs :: Legal(rlim, f) && ControlClean(f)
  {
    forall f | f in fs ensures Legal(rlim, f) && ControlClean(f) {
      if !PingOrPong(f) {
        QuietMember(fs, f);
        var g := FlattenMember(gs, f);
        assert Rsv1Clean(f);
      }
    }
  }

  /**
   End-to-end delivery: whatever the masks, whatever Pings and Pongs the other task puts between
   the frames, and whatever the compressor chooses, the peer delivers exactly the messages sent, in
   order, answers exactly the Pings, and goes on in a state that is in step with the sender's.
   */
  lemma EndToEnd(slim: Limits, rlim: Limits, e: Deflater, d: Inflater, outs: seq<Outgoing>,
                 kind: WriterKind, rng: nat -> Mask, k: nat, fs: seq<Frame>, rest: seq<byte>)
    returns (d': Inflater)
    requires Accepted(slim, e, outs) && Agree(slim.deflate, e, d)
    requires rlim.maxFrame < U64 && forall o | o in outs :: Fits(slim, rlim, o)
    requires Interleaves(rlim, fs, Flatten(Groups(outs)))
    ensures Agree(slim.deflate, AfterSends(slim, e, outs), d')
    ensures var after := Poll(rlim, RState(None, d'), rest);
      Poll(rlim, RState(None, d), WireBytes(kind, rng, k, fs) + rest) ==
        PollResult(Then(Trace(Messages(outs), AutoReplies(fs), Open(RState(None, d'))), after.trace), after.rest)
  {
    hide Agree, Legal, Run, Poll, WireBytes, IsWhole, Accepted;
    var gs := Groups(outs);
    d' := DeliverAll(slim, rlim, e, d, outs);
    InterleavedLegal(rlim, gs, fs);
    ControlTransparency(rlim, RState(None, d), fs);
    RunWholes(rlim, d, gs, []);
    assert Flatten(gs) + [] == Flatten(gs);
    RunEmpty(rlim, RState(None, d'));
    var t := Trace(Messages(outs), [], Open(RState(None, d')));
    ThenNothing(t, RState(None, d'));
    assert fs[..|fs|] == fs;
    PollFrames(rlim, RState(None, d), kind, rng, k, fs, rest);
  }

  lemma DataFramesOnly(slim: Limits, rlim: Limits, e: Deflater, d: Inflater, outs: seq<Outgoing>)
    requires Accepted(slim, e, outs) && Agree(slim.deflate, e, d)
    requires forall o | o in outs :: Fits(slim, rlim, o)
    ensures forall f | f in Flatten(Groups(outs)) :: !f.opcode.IsControl() && Legal(rlim, f) && Rsv1Clean(f)
  {
    hide Agree, Accepted, Fits, Legal, Meaning, MeaningAll;
    var d' := DeliverAll(slim, rlim, e, d, outs);
    forall f | f in Flatten(Groups(outs)) ensures !f.opcode.IsControl() && Legal(rlim, f) && Rsv1Clean(f) {
      var g := FlattenMember(Groups(outs), f);
      assert IsWhole(g) && AllRsv1Clean(g);
    }
  }

  /** Nothing need come between: what `SendMessages` puts on the wire is such a sequence. */
  lemma NothingBetween(slim: Limits, rlim: Limits, e: Deflater, d: Inflater, outs: seq<Outgoing>)
    requires Accepted(slim, e, outs) && Agree(slim.deflate, e, d)
    requires forall o | o in outs :: Fits(slim, rlim, o)
    ensures Interleaves(rlim, Flatten(Groups(outs)), Flatten(Groups(outs)))
    ensures AutoReplies(Flatten(Groups(outs))) == []
  {
    hide Agree, Accepted, Fits, Legal, Quiet, AutoReplies, Flatten, Groups;
    DataFramesOnly(slim, rlim, e, d, outs);
    QuietAlready(Flatten(Groups(outs)));
  }

  lemma {:induction false} QuietAlready(fs: seq<Frame>)
    requires forall f | f in fs :: !f.opcode.IsControl()
    ensures Quiet(fs) == fs && AutoReplies(fs) == []
    decreases |fs|
  {
    if fs != [] { QuietAlready(fs[1..]); }
  }

  /**
   On the objects: what a writer's user sends, the peer's `poll_messages` delivers, leaving out only
   what the writer refused.
   */
  method Transfer(w: WSWriter, messages: seq<Message>, ghost rlim: Limits, ghost d: Inflater)
    returns (ghost outs: seq<Outgoing>)
    requires w.encoder.Lawful() && w.config.maxFrame >= 1
    requires Agree(w.config.deflate, w.encoder.State(), d)
    modifies w.encoder, w.writer
    ensures Messages(outs) == WithinLimit(messages, w.config.maxMessage)
    ensures (forall o | o in outs :: Fits(w.config, rlim, o)) && rlim.maxFrame < U64 ==>
      |old(w.writer.writeHalf)| <= |w.writer.writeHalf|
      && Poll(rlim, RState(None, d), w.writer.writeHalf[|old(w.writer.writeHalf)|..]).trace
         == Trace(WithinLimit(messages, w.config.maxMessage), [], Failed(IOError))
  {
    hide Poll, Accepted, Fits, Agree, WireBytes, Groups, Messages, WithinLimit, AfterSends, Interleaves;
    ghost var e, before, k := w.encoder.State(), w.writer.writeHalf, w.writer.written;
    outs := SendMessages(w, messages);
    if (forall o | o in outs :: Fits(w.config, rlim, o)) && rlim.maxFrame < U64 {
      DeliveredAlone(w.config, rlim, e, d, outs, w.writer.kind, w.writer.rng, k);
      ghost var sent := WireBytes(w.writer.kind, w.writer.rng, k, Flatten(Groups(outs)));
      assert (before + sent)[|before|..] == sent;
    }
  }

  /** A run of sends with nothing between its frames, over a stream that ends there. */
  lemma DeliveredAlone(slim: Limits, rlim: Limits, e: Deflater, d: Inflater, outs: seq<Outgoing>,
                       kind: WriterKind, rng: nat -> Mask, k: nat)
    requires Accepted(slim, e, outs) && Agree(slim.deflate, e, d)
    requires rlim.maxFrame < U64 && forall o | o in outs :: Fits(slim, rlim, o)
    ensures Poll(rlim, RState(None, d), WireBytes(kind, rng, k, Flatten(Groups(outs)))).trace ==
            Trace(Messages(outs), [], Failed(IOError))
  {
    hide Poll, Accepted, Fits, Agree, WireBytes, Groups, Messages, Interleaves, AutoReplies;
    var fs := Flatten(Groups(outs));
    NothingBetween(slim, rlim, e, d, outs);
    var d' := EndToEnd(slim, rlim, e, d, outs, kind, rng, k, fs, []);
    AtEnd(rlim, RState(None, d'));
    assert WireBytes(kind, rng, k, fs) + [] == WireBytes(kind, rng, k, fs);
    assert Messages(outs) + [] == Messages(outs);
  }

  // ---------------------------------------------------------------- a Close in the middle

  /** A prefix of the frames of a run: whole messages, then a proper part of the next. */
  lemma {:induction false} CutPoint(gs: seq<seq<Frame>>, p: seq<Frame>) returns (n: nat, j: nat)
    requires forall g | g in gs :: |g| >= 1
    requires p <= Flatten(gs)
    ensures n <= |gs| && (if n == |gs| then j == 0 else j < |gs[n]|)
    ensures p == Flatten(gs[..n]) + (if n == |gs| then [] else gs[n][..j])
    decreases |gs|
  {
    if gs == [] {
      n, j := 0, 0;
    } else if |p| < |gs[0]| {
      n, j := 0, |p|;
      assert p == Flatten(gs)[..|p|] == gs[0][..|p|];
    } else {
      var g := gs[0];
      assert p == Flatten(gs)[..|p|] && p[..|g|] == g;
      assert p[|g|..] <= Flatten(gs[1..]);
      n, j := CutPoint(gs[1..], p[|g|..]);
      n := n + 1;
      assert gs[..n] == [g] + gs[1..][..n - 1];
      assert p == g + p[|g|..];
    }
  }

  lemma {:induction false} PayloadPrefix(g: seq<Frame>, j: nat)
    requires j <= |g|
    ensures |Payload(g[..j])| <= |Payload(g)|
  {
    PayloadConcat(g[..j], g[j..]);
    assert g == g[..j] + g[j..];
  }

  /** Part of a message whose whole would be delivered is held back without an error. */
  lemma PartHeld(rlim: Limits, d: Inflater, g: seq<Frame>, j: nat)
    requires IsWhole(g) && AllRsv1Clean(g) && j < |g| && (|g| >= 2 ==> |Payload(g)| <= rlim.maxMessage)
    ensures var t := Run(rlim, RState(None, d), g[..j]); t.delivered == [] && t.replies == [] && t.status.Open?
  {
    hide Run;
    if j == 0 {
      RunEmpty(rlim, RState(None, d));
      assert g[..0] == [];
    } else {
      assert IsPart(g[..j]);
      RunPart(rlim, d, g[..j]);
      PayloadPrefix(g, j);
    }
  }

  lemma {:induction false} AcceptedSplit(lim: Limits, e: Deflater, outs: seq<Outgoing>, n: nat)
    requires Accepted(lim, e, outs) && n <= |outs|
    ensures Accepted(lim, e, outs[..n]) && Accepted(lim, AfterSends(lim, e, outs[..n]), outs[n..])
    decreases n
  {
    if n == 0 {
      assert outs[..0] == [] && outs[0..] == outs;
    } else {
      AcceptedSplit(lim, AfterSend(lim.deflate, e, outs[0].message.AsBinary()), outs[1..], n - 1);
      assert outs[..n][1..] == outs[1..][..n - 1] && outs[1..][n - 1..] == outs[n..];
    }
  }

  /** Part of the frames of a run: the messages whose last frame is there are delivered, the next is held back. */
  lemma PrefixRead(slim: Limits, rlim: Limits, e: Deflater, d: Inflater, outs: seq<Outgoing>, p: seq<Frame>)
    returns (n: nat, j: nat)
    requires Accepted(slim, e, outs) && Agree(slim.deflate, e, d)
    requires forall o | o in outs :: Fits(slim, rlim, o)
    requires p <= Flatten(Groups(outs))
    ensures n <= |outs| && (if n == |outs| then j == 0 else j < |Group(outs[n])|)
    ensures p == Flatten(Groups(outs[..n])) + (if n == |outs| then [] else Group(outs[n])[..j])
    ensures var t := Run(rlim, RState(None, d), p);
      t.delivered == Messages(outs[..n]) && t.replies == [] && t.status.Open?
  {
    hide Agree, Run, IsWhole, Accepted, Fits, Group, MeaningAll, AfterSends, Flatten, Messages;
    var gs := Groups(outs);
    var all := DeliverAll(slim, rlim, e, d, outs);
    n, j := CutPoint(gs, p);
    assert gs[..n] == Groups(outs[..n]);
    AcceptedSplit(slim, e, outs, n);
    var d' := DeliverAll(slim, rlim, e, d, outs[..n]);
    var st, tail := RState(None, d'), if n == |outs| then [] else gs[n][..j];
    RunWholes(rlim, d, gs[..n], tail);
    if n < |outs| {
      NextFits(slim, rlim, AfterSends(slim, e, outs[..n]), d', outs, n);
      PartHeld(rlim, d', gs[n], j);
    } else {
      RunEmpty(rlim, st);
    }
    var held := Run(rlim, st, tail);
    assert Then(MeaningAll(rlim, d, gs[..n]), held) == Trace(Messages(outs[..n]), [], held.status);
  }

  /**
   A Close at any frame boundary cuts a clean prefix: the peer delivers exactly the messages whose
   last frame came before it, writes exactly one Close, as the last thing, and reads nothing more.
   */
  lemma CloseCutsCleanly(slim: Limits, rlim: Limits, e: Deflater, d: Inflater, outs: seq<Outgoing>,
                         kind: WriterKind, rng: nat -> Mask, k: nat, before: seq<Frame>, close: Frame, rest: seq<byte>)
    returns (n: nat, j: nat)
    requires Accepted(slim, e, outs) && Agree(slim.deflate, e, d)
    requires rlim.maxFrame < U64 && forall o | o in outs :: Fits(slim, rlim, o)
    requires Quiet(before) <= Flatten(Groups(outs)) && Interleaves(rlim, before, Quiet(before))
    requires close.opcode.Close? && PlainControl(rlim, close)
    ensures n <= |outs| && (if n == |outs| then j == 0 else j < |Group(outs[n])|)
    ensures Quiet(before) == Flatten(Groups(outs[..n])) + (if n == |outs| then [] else Group(outs[n])[..j])
    ensures Poll(rlim, RState(None, d), WireBytes(kind, rng, k, before + [close]) + rest) ==
            PollResult(Trace(Messages(outs[..n]), AutoReplies(before) + [CLOSE_FRAME], Closed), rest)
    ensures forall f | f in AutoReplies(before) :: f.opcode.Pong?
  {
    hide Agree, Legal, Run, Poll, WireBytes, IsWhole, Accepted, Fits, PlainControl, Group, Quiet, AutoReplies, Flatten,
      Messages;
    var all := DeliverAll(slim, rlim, e, d, outs);
    n, j := PrefixRead(slim, rlim, e, d, outs, Quiet(before));
    CloseAfter(rlim, RState(None, d), kind, rng, k, before, close, rest, Groups(outs));
  }

  lemma NextFits(slim: Limits, rlim: Limits, e: Deflater, d: Inflater, outs: seq<Outgoing>, n: nat)
    requires n < |outs| && Accepted(slim, e, outs[n..]) && Agree(slim.deflate, e, d) && Fits(slim, rlim, outs[n])
    ensures var g := Group(outs[n]); IsWhole(g) && AllRsv1Clean(g) && (|g| >= 2 ==> |Payload(g)| <= rlim.maxMessage)
  {
    GroupShape(slim, rlim, e, d, outs[n..][0]);
  }

  /** Frames that leave the reader open, then a Close: the loop ends there. */
  lemma CloseAfter(rlim: Limits, st: RState, kind: WriterKind, rng: nat -> Mask, k: nat,
                   before: seq<Frame>, close: Frame, rest: seq<byte>, gs: seq<seq<Frame>>)
    requires rlim.maxFrame < U64
    requires forall g | g in gs :: AllRsv1Clean(g) && forall f | f in g :: Legal(rlim, f)
    requires Quiet(before) <= Flatten(gs) && Interleaves(rlim, before, Quiet(before))
    requires close.opcode.Close? && PlainControl(rlim, close)
    requires Run(rlim, st, Quiet(before)).status.Open?
    ensures Poll(rlim, st, WireBytes(kind, rng, k, before + [close]) + rest) ==
            PollResult(Trace(Run(rlim, st, Quiet(before)).delivered, AutoReplies(before) + [CLOSE_FRAME], Closed), rest)
    ensures forall f | f in AutoReplies(before) :: f.opcode.Pong?
  {
    hide Poll, Run, WireBytes, Turn, Legal, AllRsv1Clean, Flatten, Handled, AutoReplies, Short, Quiet;
    forall f | f in Quiet(before) ensures f in Flatten(gs) { }
    InterleavedLegal(rlim, gs, before);
    ControlTransparency(rlim, st, before);
    var fs := before + [close];
    RunToClose(rlim, st, before, close);
    ControlTransparency(rlim, st, fs);
    PollFrames(rlim, st, kind, rng, k, fs, rest);
    assert fs[..|fs|] == fs && before[..|before|] == before && fs[|fs|..] == [];
    AutoRepliesSnoc(before, close);
    WireBytesNone(kind, rng, k + |fs|);
    assert [] + rest == rest;
    NoCloseSoFar(rlim, st, before);
  }

  lemma {:induction false} NoCloseSoFar(lim: Limits, st: RState, fs: seq<Frame>)
    requires Run(lim, st, fs).status.Open? && forall f | f in fs :: ControlClean(f)
    ensures forall f | f in AutoReplies(fs) :: f.opcode.Pong?
    decreases |fs|
  {
    hide Turn;
    if fs != [] {
      ControlTurn(lim, st, fs[0]);
      NoCloseSoFar(lim, Turn(lim)(st, fs[0]).status.st, fs[1..]);
    }
  }
}
