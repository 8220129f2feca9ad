/** The reader task of a connection (src/read.rs), proved against the functions of module Reader. */
module ReadStreams {
  import opened Basics
  import opened Frames
  import opened Wire
  import opened Writers
  import Deflate
  import opened Reader

  /** What can be seen of a reader from outside: its channel, and the bytes and frames on the wire. */
  datatype Output = Output(readTx: seq<Result<Message>>, writeHalf: seq<byte>, written: nat)

  /** The output after a reader has done what t says. */
  ghost function After(kind: WriterKind, rng: nat -> Mask, o: Output, t: Trace): Output {
    Output(o.readTx + Oks(t.delivered), o.writeHalf + WireBytes(kind, rng, o.written, t.replies),
           o.written + |t.replies|)
  }

  lemma AfterThen(kind: WriterKind, rng: nat -> Mask, o: Output, t: Trace, u: Trace)
    ensures After(kind, rng, o, Then(t, u)) == After(kind, rng, After(kind, rng, o, t), u)
  {
    OksConcat(t.delivered, u.delivered);
    WireBytesConcat(kind, rng, o.written, t.replies, u.replies);
    hide WireBytes, Oks;
    var w1, w2 := WireBytes(kind, rng, o.written, t.replies), WireBytes(kind, rng, o.written + |t.replies|, u.replies);
    assert o.readTx + (Oks(t.delivered) + Oks(u.delivered)) == o.readTx + Oks(t.delivered) + Oks(u.delivered);
    assert o.writeHalf + (w1 + w2) == o.writeHalf + w1 + w2;
  }

  // ---------------------------------------------------------------- among other tasks

  /**
   What goes on around a reader: how many items its channel takes before the user drops the other
   end, and what other tasks write to the shared writer before the reader's k-th turn.
   */
  datatype Surroundings = Surroundings(takes: nat, others: nat -> seq<Frame>)

  function Remaining(room: nat, n: nat): nat { if n <= room then room - n else 0 }

  /** A message that the channel no longer takes is an error. */
  function Heard(t: Trace, room: nat): Trace {
    if |t.delivered| > room then Fail(CommunicationError) else t
  }

  /** One turn, the k-th: first the other tasks write, then a frame is read and handled. */
  function TurnAmid(parse: Parser, step: Stepper, st: RState, input: seq<byte>, room: nat,
                    others: nat -> seq<Frame>, k: nat): Trace
  {
    Then(Trace([], others(k), Open(st)),
         match parse(input) case Err(e) => Fail(e) case Ok(p) => Heard(step(st, p.frame), room))
  }

  /**
   The loop among other tasks, from its k-th turn on, when the channel takes `room` more items. Here
   `replies` is everything that gets on the wire meanwhile, the frames of the other tasks included.
   */
  function PollAmid(parse: Parser, step: Stepper, st: RState, input: seq<byte>, room: nat,
                    others: nat -> seq<Frame>, k: nat): PollResult
    decreases |input|
  {
    var t := TurnAmid(parse, step, st, input, room, others, k);
    match parse(input)
    case Err(_) => PollResult(t, input)
    case Ok(p) =>
      if t.status.Open? then
        var r := PollAmid(parse, step, t.status.st, p.rest, Remaining(room, |t.delivered|), others, k + 1);
        PollResult(Then(t, r.trace), r.rest)
      else PollResult(t, p.rest)
  }

  /** What the other tasks write before the next n turns. */
  function Written(others: nat -> seq<Frame>, k: nat, n: nat): seq<Frame>
    decreases n
  {
    if n == 0 then [] else others(k) + Written(others, k + 1, n - 1)
  }

  lemma WrittenOnce(others: nat -> seq<Frame>, k: nat)
    ensures Written(others, k, 1) == others(k)
  {
    assert Written(others, k + 1, 0) == [];
    assert others(k) + [] == others(k);
  }

  /** The first n of s, or all. */
  function UpTo<T>(s: seq<T>, n: nat): seq<T> { if n <= |s| then s[..n] else s }

  /** a is what becomes of p, with the reader's own replies given apart, when the channel takes `room` items. */
  ghost predicate Follows(p: PollResult, a: PollResult, replies: seq<Frame>, room: nat) {
    && a.trace.delivered == UpTo(p.trace.delivered, room)
    && (if |p.trace.delivered| <= room
        then a.trace.status == p.trace.status && a.rest == p.rest && replies == p.trace.replies
        else a.trace.status == Failed(CommunicationError) && replies <= p.trace.replies)
  }

  lemma FollowsThen(before: Trace, t: Trace, p: PollResult, a: PollResult, replies: seq<Frame>, room: nat)
    requires before.delivered == [] && |t.delivered| <= room && Follows(p, a, replies, room - |t.delivered|)
    ensures Follows(PollResult(Then(t, p.trace), p.rest), PollResult(Then(Then(before, t), a.trace), a.rest),
                    t.replies + replies, room)
  {
    assert [] + t.delivered == t.delivered;
    if |t.delivered + p.trace.delivered| > room {
      var n := room - |t.delivered|;
      assert (t.delivered + p.trace.delivered)[..room] == t.delivered + p.trace.delivered[..n];
    }
  }

  /** A turn that ends the loop. */
  lemma FollowsLast(before: Trace, t: Trace, rest: seq<byte>, room: nat)
    requires before.delivered == [] && |t.delivered| <= 1
    requires |t.delivered| <= room ==> !t.status.Open?
    ensures Follows(PollResult(t, rest), PollResult(Then(before, Heard(t, room)), rest), Heard(t, room).replies, room)
  {
  }

  /** The user has left, and the turn would deliver a message. */
  lemma FollowsLeft(before: Trace, t: Trace, p: PollResult, rest: seq<byte>, room: nat)
    requires before.delivered == [] && |t.delivered| <= 1 && |t.delivered| > room
    ensures Follows(PollResult(Then(t, p.trace), p.rest), PollResult(Then(before, Heard(t, room)), rest), [], room)
    ensures Heard(t, room).replies == []
  {
  }

  /**
   The other tasks and the user cannot disturb the reader: it hands over the same messages as when
   it is alone, until the user leaves, which ends the loop at the next message; and the wire carries
   its replies in order, with the other tasks' frames in between, in theirs.
   */
  lemma {:induction false} Undisturbed(parse: Parser, step: Stepper, st: RState, input: seq<byte>, room: nat,
                                       others: nat -> seq<Frame>, k: nat)
    returns (replies: seq<Frame>, n: nat)
    requires forall s, f :: |step(s, f).delivered| <= 1
    ensures var p, a := PollBy(parse, step, st, input), PollAmid(parse, step, st, input, room, others, k);
      Follows(p, a, replies, room) && Merges(a.trace.replies, replies, Written(others, k, n))
    decreases |input|
  {
    hide Merges, Written, Follows, UpTo;
    var before := Trace([], others(k), Open(st));
    WrittenOnce(others, k);
    MergesAlone<Frame>([]);
    n := 1;
    match parse(input)
    case Err(e) =>
      replies := [];
      FollowsLast(before, Fail(e), input, room);
      MergesBefore(others(k), [], [], [], []);
    case Ok(p) =>
      var t := step(st, p.frame);
      replies := Heard(t, room).replies;
      MergesBefore(others(k), replies, [], [], []);
      if !t.status.Open? {
        FollowsLast(before, t, p.rest, room);
      } else if |t.delivered| > room {
        FollowsLeft(before, t, PollBy(parse, step, t.status.st, p.rest), p.rest, room);
      } else {
        assert [] + t.delivered == t.delivered;
        var left := room - |t.delivered|;
        var more, m := Undisturbed(parse, step, t.status.st, p.rest, left, others, k + 1);
        var a := PollAmid(parse, step, t.status.st, p.rest, left, others, k + 1);
        FollowsThen(before, t, PollBy(parse, step, t.status.st, p.rest), a, more, room);
        MergesBefore(others(k), replies, a.trace.replies, more, Written(others, k + 1, m));
        replies, n := replies + more, m + 1;
        WrittenMore(others, k, m);
      }
  }

  lemma WrittenMore(others: nat -> seq<Frame>, k: nat, m: nat)
    ensures Written(others, k, m + 1) == others(k) + Written(others, k + 1, m)
  {
  }

  class ReadStream {
    var bufReader: seq<byte>
    var fragmentedMessage: Option<FragmentedMessage>
    /** What has been sent to the user's channel. */
    var readTx: seq<Result<Message>>
    const writer: Writer
    const config: Limits
    const decoder: Deflate.Decoder
    const around: Surroundings
    /** How many turns the loop has taken. */
    var turns: nat

    constructor (bufReader: seq<byte>, writer: Writer, config: Limits, decoder: Deflate.Decoder, around: Surroundings)
      ensures this.bufReader == bufReader && readTx == [] && turns == 0 && this.around == around
      ensures this.writer == writer && this.config == config && this.decoder == decoder
      ensures State() == RState(None, decoder.State())
    {
      this.bufReader, this.writer, this.config, this.decoder := bufReader, writer, config, decoder;
      this.around := around;
      fragmentedMessage, readTx, turns := None, [], 0;
    }

    /** How many items the channel still takes. */
    function Room(): nat
      reads this
    {
      Remaining(around.takes, |readTx|)
    }

    /** The mutex is free between the reader's own frames, and other tasks write theirs. */
    method OthersWrite()
      modifies this`turns, writer
      ensures turns == old(turns) + 1
      ensures Out() == OutAfter(old(Out()), Trace([], around.others(old(turns)), Open(State())))
    {
      hide WireBytes;
      var frames := around.others(turns);
      NothingDone();
      assert readTx + Oks([]) == readTx by { assert Oks([]) == []; }
      assert frames[..0] == [];
      WireBytesNone(writer.kind, writer.rng, writer.written);
      for i := 0 to |frames|
        invariant turns == old(turns) && writer.written == old(writer.written) + i
        invariant writer.writeHalf == old(writer.writeHalf)
                                      + WireBytes(writer.kind, writer.rng, old(writer.written), frames[..i])
      {
        writer.WriteFrame(frames[i], frames[i].compressed);
        WireBytesConcat(writer.kind, writer.rng, old(writer.written), frames[..i], [frames[i]]);
        assert frames[..i + 1] == frames[..i] + [frames[i]];
      }
      assert frames[..|frames|] == frames;
      turns := turns + 1;
    }

    ghost function State(): RState
      reads this, decoder
    {
      RState(fragmentedMessage, decoder.State())
    }

    ghost function Out(): Output
      reads this, writer
    {
      Output(readTx, writer.writeHalf, writer.written)
    }

    /** The effect of t on the output. */
    ghost function OutAfter(o: Output, t: Trace): Output {
      After(writer.kind, writer.rng, o, t)
    }

    /** `read_exact`; after an end-of-stream error nothing more can be read. */
    method Take(n: nat) returns (r: Result<seq<byte>>)
      modifies this`bufReader
      ensures match ReadExact(old(bufReader), n)
              case Err(e) => r == Err(e)
              case Ok((b, rest)) => r == Ok(b) && bufReader == rest
    {
      if |bufReader| < n {
        bufReader := [];
        return Err(IOError);
      }
      r := Ok(bufReader[..n]);
      bufReader := bufReader[n..];
    }

    method ReadFrame() returns (r: Result<Frame>)
      modifies this`bufReader, decoder
      ensures match ParseFrame(config, old(bufReader))
              case Err(e) => r == Err(e)
              case Ok(p) =>
                match Arrive(old(State()), p.frame)
                case Err(e) => r == Err(e)
                case Ok((f, st)) => r == Ok(f) && State() == st && bufReader == p.rest
    {
      ghost var input := bufReader;
      var header :- Take(2);
      var finalFragment := Bit(header[0], 0x80);
      var opcode :- OpCodeFrom(header[0] % 16);
      var rsv1 := Bit(header[0], 0x40);
      var rsv2 := Bit(header[0], 0x20);
      var rsv3 := Bit(header[0], 0x10);
      if rsv2 || rsv3 || (rsv1 && !config.deflate) {
        return Err(RSVNotZero);
      }
      if !finalFragment && opcode.IsControl() {
        return Err(ControlFramesFragmented);
      }
      var masked := Bit(header[1], 0x80);
      var length := header[1] % 128;
      if length > 125 && opcode.IsControl() {
        return Err(ControlFramePayloadSize);
      }
      ghost var h := Header(finalFragment, opcode, rsv1, masked, length);
      ghost var in1 := bufReader;
      assert ParseHeader(config, header[0], header[1]) == Ok(h);
      assert ParseFrame(config, input) == ParsePayload(config, h, in1);
      var payload :- ReadPayload(h, masked, length);
      if rsv1 && finalFragment {
        payload :- decoder.Decompress(payload);
      }
      return Ok(Frame(finalFragment, opcode, payload, rsv1));
    }

    /** The part of `read_frame` from the extended length to the unmasking loop. */
    method ReadPayload(ghost h: Header, masked: bool, len7: nat) returns (r: Result<seq<byte>>)
      requires h.masked == masked && h.len7 == len7
      modifies this`bufReader
      ensures match ParsePayload(config, h, old(bufReader))
              case Err(e) => r == Err(e)
              case Ok(p) => r == Ok(p.frame.payload) && bufReader == p.rest
    {
      var length := len7;
      if length == 126 {
        var beBytes :- Take(2);
        length := FromBigEndian(beBytes);
      } else if length == 127 {
        var beBytes :- Take(8);
        length := FromBigEndian(beBytes);
      }
      if length > config.maxFrame {
        return Err(MaxFrameSize);
      }
      var mask: Option<Mask> := None;
      if masked {
        var m :- Take(4);
        mask := Some(m);
      }
      var body :- Take(length);
      if mask.None? {
        return Ok(body);
      }
      assert Body(mask, body) == Masked(mask.value, body);
      var payload := new byte[length](i requires 0 <= i < length => body[i]);
      assert payload[..] == body;
      Unmask(payload, mask.value);
      return Ok(payload[..]);
    }

    method TransmitMessage(opcode: OpCode, payload: seq<byte>) returns (r: Result<()>)
      modifies this`readTx
      ensures match FromFrame(opcode, payload)
              case Err(e) => r == Err(e) && readTx == old(readTx)
              case Ok(m) =>
                if old(Room()) == 0 then r == Err(CommunicationError) && readTx == old(readTx)
                else r == Ok(()) && readTx == old(readTx) + [Ok(m)]
    {
      if opcode.Text? && !ValidUtf8(payload) {
        return Err(FromUtf8Error);
      }
      var message :- FromFrame(opcode, payload);
      if |readTx| >= around.takes {
        return Err(CommunicationError);
      }
      readTx := readTx + [Ok(message)];
      return Ok(());
    }

    method SendPongFrame(payload: seq<byte>)
      modifies writer
      ensures writer.written == old(writer.written) + 1
      ensures writer.writeHalf == old(writer.writeHalf)
                                  + WireBytes(writer.kind, writer.rng, old(writer.written),
                                              [Frame(true, Pong, payload, false)])
    {
      writer.WriteFrame(Frame(true, Pong, payload, false), false);
    }

    method SendCloseFrame()
      modifies writer
      ensures writer.written == old(writer.written) + 1
      ensures writer.writeHalf == old(writer.writeHalf)
                                  + WireBytes(writer.kind, writer.rng, old(writer.written),
                                              [Frame(true, Close, [], false)])
    {
      writer.WriteFrame(Frame(true, Close, [], false), false);
    }

    /** A continuation frame: extend the pending message and, if it is the last, deliver the whole. */
    method Continuation(frame: Frame) returns (r: Result<()>)
      requires frame.opcode.Continue?
      modifies this`fragmentedMessage, this`readTx, decoder
      ensures var t := Heard(Dispatch(config, old(State()), frame), old(Room()));
              && t.replies == []
              && (t.status.Open? ==> r == Ok(()) && State() == t.status.st)
              && (t.status.Failed? ==> r == Err(t.status.error))
              && !t.status.Closed?
              && readTx == old(readTx) + Oks(t.delivered)
    {
      if fragmentedMessage.None? {
        return Err(InvalidContinuationFrame);
      }
      var message := fragmentedMessage.value;
      message := message.(fragments := message.fragments + frame.payload);
      fragmentedMessage := Some(message);
      if |message.fragments| > config.maxMessage {
        return Err(MaxMessageSize);
      }
      if frame.fin {
        fragmentedMessage := None;
        var fragments := message.fragments;
        if message.compressed {
          fragments :- decoder.Decompress(fragments);
        }
        r := TransmitMessage(message.opcode, fragments);
        return;
      }
      return Ok(());
    }

    /** One turn of the loop after `read_frame`; `done` when the loop is left by `break`. */
    method HandleFrame(frame: Frame) returns (r: Result<()>, done: bool)
      modifies this`fragmentedMessage, this`readTx, decoder, writer
      ensures var t := Heard(Dispatch(config, old(State()), frame), old(Room()));
              && (t.status.Open? ==> r == Ok(()) && !done && State() == t.status.st)
              && (t.status.Failed? ==> r == Err(t.status.error))
              && (t.status.Closed? ==> r == Ok(()) && done)
              && Out() == OutAfter(old(Out()), t)
    {
      r, done := Ok(()), false;
      match frame.opcode {
        case Continue =>
          r := Continuation(frame);
        case Close =>
          SendCloseFrame();
          done := true;
        case Ping =>
          SendPongFrame(frame.payload);
        case Pong =>
        case _ =>
          if !frame.fin {
            if fragmentedMessage.None? {
              fragmentedMessage := Some(FragmentedMessage(frame.payload, frame.opcode, frame.compressed));
            } else {
              r := Err(FragmentedInProgress);
            }
          } else if fragmentedMessage.Some? {
            r := Err(InvalidFrameFragmentation);
          } else {
            r := TransmitMessage(frame.opcode, frame.payload);
          }
      }
    }

    ghost function ThisTurn(): Trace
      reads this, decoder
    {
      TurnAmid(FrameParser(config), Reader.Turn(config), State(), bufReader, Room(), around.others, turns)
    }

    /** All that the loop will do from here. */
    ghost function Ahead(): PollResult
      reads this, decoder
    {
      PollAmid(FrameParser(config), Reader.Turn(config), State(), bufReader, Room(), around.others, turns)
    }

    /** What other tasks do meanwhile, then reading one frame and handling it. */
    method Turn() returns (r: Result<()>, done: bool)
      modifies this`bufReader, this`fragmentedMessage, this`readTx, this`turns, decoder, writer
      ensures var t, parsed := old(ThisTurn()), FrameParser(config)(old(bufReader));
              && (t.status.Open? ==>
                    && r == Ok(()) && !done && State() == t.status.st && turns == old(turns) + 1
                    && parsed.Ok? && bufReader == parsed.value.rest)
              && (t.status.Failed? ==> r == Err(t.status.error))
              && (t.status.Closed? ==> r == Ok(()) && done && parsed.Ok? && bufReader == parsed.value.rest)
              && Out() == OutAfter(old(Out()), t)
    {
      hide ParseFrame, FrameParser, Reader.Turn, Arrive, Dispatch, After;
      ParserUnfolds(config, bufReader);
      ghost var parsed := ParseFrame(config, bufReader);
      if parsed.Ok? { TurnUnfolds(config, State(), parsed.value.frame); }
      ghost var before := Trace([], around.others(turns), Open(State()));
      OthersWrite();
      NothingDone();
      var frame := ReadFrame();
      if frame.Err? {
        AfterThen(writer.kind, writer.rng, old(Out()), before, Fail(frame.error));
        assert OutAfter(Out(), Fail(frame.error)) == Out();
        return Err(frame.error), false;
      }
      ghost var st, room := State(), Room();
      r, done := HandleFrame(frame.value);
      AfterThen(writer.kind, writer.rng, old(Out()), before, Heard(Dispatch(config, st, frame.value), room));
    }

    /**
     `poll_messages`: the loop does what `PollAmid` says to the user's channel and to the shared
     writer, and at its top the pending buffer is within bounds.
     */
    method PollMessages() returns (r: Result<()>)
      requires WithinBound(config, State())
      modifies this, decoder, writer
      ensures var p := old(Ahead()); var t := p.trace;
              && (t.status.Closed? ==> r == Ok(()) && bufReader == p.rest)
              && (t.status.Failed? ==> r == Err(t.status.error))
              && !t.status.Open?
              && Out() == OutAfter(old(Out()), t)
    {
      hide Reader.Turn, FrameParser, After, WithinBound, TurnAmid, Remaining;
      ghost var all, sofar := Ahead(), Trace([], [], Open(State()));
      ThenNothing(all.trace, State());
      NothingDone();
      while true
        invariant all == PollResult(Then(sofar, Ahead().trace), Ahead().rest)
        invariant WithinBound(config, State())
        invariant Out() == OutAfter(old(Out()), sofar)
        decreases |bufReader|
      {
        ghost var st, input, room, t := State(), bufReader, Room(), ThisTurn();
        TurnAmidFacts(config, st, input, room, around.others, turns);
        label before:
        var turn, done := Turn();
        AfterThen(writer.kind, writer.rng, old(Out()), sofar, t);
        if turn.Err? {
          return turn;
        }
        if done {
          break;
        }
        RoomLeft@before(t);
        ThenAssociative(sofar, t, Ahead().trace);
        sofar := Then(sofar, t);
      }
      return Ok(());
    }

    twostate lemma RoomLeft(t: Trace)
      requires Out() == OutAfter(old(Out()), t)
      ensures Room() == Remaining(old(Room()), |t.delivered|)
    {
    }

    lemma NothingDone()
      ensures forall st, o :: OutAfter(o, Trace([], [], Open(st))) == o
      ensures forall e, o :: OutAfter(o, Fail(e)) == o
    {
      forall o: Output
        ensures o.readTx + Oks([]) == o.readTx
        ensures o.writeHalf + WireBytes(writer.kind, writer.rng, o.written, []) == o.writeHalf
      {
        assert Oks([]) == [];
        assert WireBytes(writer.kind, writer.rng, o.written, []) == [];
      }
    }

    /**
     The spawned reader task: the error that ends the loop is sent after the messages. The user gets
     the stream of the reader alone, as far as it listens.
     */
    method ReaderTask()
      requires WithinBound(config, State())
      modifies this, decoder, writer
      ensures readTx == old(readTx)
                        + UpTo(UserStream(Poll(config, old(State()), old(bufReader)).trace), old(Room()))
    {
      ghost var alone, room := Poll(config, State(), bufReader).trace, Room();
      hide PollBy, PollAmid, UserStream, Merges, FrameParser, Reader.Turn, After;
      ReaderUndisturbed(config, State(), bufReader, room, around.others, turns);
      UserStreamUpTo(alone, room);
      ghost var t := Ahead().trace;
      var r := PollMessages();
      OutIs(old(Out()), t);
      if r.Err? && |readTx| < around.takes {
        readTx := readTx + [Err(r.error)];
      }
    }

    lemma OutIs(o: Output, t: Trace)
      ensures OutAfter(o, t).readTx == o.readTx + Oks(t.delivered)
    {
    }
  }

  /** The reader among others, as far as its user can see. */
  lemma ReaderUndisturbed(lim: Limits, st: RState, input: seq<byte>, room: nat, others: nat -> seq<Frame>, k: nat)
    ensures var p := Poll(lim, st, input).trace;
      var a := PollAmid(FrameParser(lim), Turn(lim), st, input, room, others, k).trace;
      && a.delivered == UpTo(p.delivered, room)
      && (|p.delivered| <= room ==> a.status == p.status)
      && (|p.delivered| > room ==> a.status == Failed(CommunicationError))
  {
    hide PollBy, PollAmid, Merges;
    TurnsDeliverOne(lim);
    var replies, n := Undisturbed(FrameParser(lim), Turn(lim), st, input, room, others, k);
  }

  lemma TurnAmidFacts(lim: Limits, st: RState, input: seq<byte>, room: nat, others: nat -> seq<Frame>, k: nat)
    ensures var t, parsed := TurnAmid(FrameParser(lim), Turn(lim), st, input, room, others, k), FrameParser(lim)(input);
      && (parsed.Err? ==> t.status.Failed?)
      && (WithinBound(lim, st) && t.status.Open? ==> WithinBound(lim, t.status.st))
  {
    hide FrameParser, Turn, WithinBound;
    if FrameParser(lim)(input).Ok? { TurnFacts(lim, st, input); }
  }

  lemma TurnsDeliverOne(lim: Limits)
    ensures forall s, f :: |Turn(lim)(s, f).delivered| <= 1
  {
    forall s, f ensures |Turn(lim)(s, f).delivered| <= 1 {
      TurnUnfolds(lim, s, f);
      StepDeliversOne(lim, s, f);
    }
  }

  lemma StepDeliversOne(lim: Limits, st: RState, f: Frame)
    ensures |Step(lim, st, f).delivered| <= 1
  {
    hide Deflate.Inflate;
  }

  lemma UserStreamUpTo(t: Trace, room: nat)
    ensures UpTo(UserStream(t), room) ==
            Oks(UpTo(t.delivered, room))
            + if t.status.Failed? && |t.delivered| < room then [Err(t.status.error)] else []
  {
  }

  /** The unmasking loop of `read_frame`, in place. */
  method Unmask(payload: array<byte>, mask: Mask)
    modifies payload
    ensures payload[..] == Masked(mask, old(payload[..]))
  {
    for i := 0 to payload.Length
      invariant forall k :: 0 <= k < i ==> payload[k] == Xor(old(payload[k]), mask[k % 4])
      invariant forall k :: i <= k < payload.Length ==> payload[k] == old(payload[k])
    {
      payload[i] := Xor(payload[i], mask[i % 4]);
    }
  }
}
