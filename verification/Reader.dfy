/**
 The receiving half of a connection (src/read.rs), as functions of the input: what one frame does,
 what a list of frames does, and what `poll_messages` does with a byte stream.
 */
module Reader {
  import opened Basics
  import opened Frames
  import opened Wire
  import opened Deflate

  datatype FragmentedMessage = FragmentedMessage(fragments: seq<byte>, opcode: OpCode, compressed: bool)

  datatype RState = RState(pending: Option<FragmentedMessage>, inflater: Inflater)

  datatype Status = Open(st: RState) | Closed | Failed(error: Error)

  /** What a reader has done: messages handed to the user, frames it wrote by itself, and how it stands. */
  datatype Trace = Trace(delivered: seq<Message>, replies: seq<Frame>, status: Status)

  const CLOSE_FRAME: Frame := Frame(true, Close, [], false)

  function PongFrame(payload: seq<byte>): Frame { Frame(true, Pong, payload, false) }

  function Fail(e: Error): Trace { Trace([], [], Failed(e)) }

  function Then(t: Trace, u: Trace): Trace {
    Trace(t.delivered + u.delivered, t.replies + u.replies, u.status)
  }

  /** The end of `read_frame`: a final frame with RSV1 is decompressed on its own. */
  function Arrive(st: RState, f: Frame): Result<(Frame, RState)> {
    if f.compressed && f.fin then
      var (m, d) :- Inflate(st.inflater, f.payload);
      Ok((f.(payload := m), st.(inflater := d)))
    else Ok((f, st))
  }

  function Transmit(st: RState, opcode: OpCode, payload: seq<byte>): Trace {
    match FromFrame(opcode, payload)
    case Ok(m) => Trace([m], [], Open(st))
    case Err(e) => Fail(e)
  }

  /** The last fragment has come: decompress the whole if its first frame had RSV1, and deliver it. */
  function Complete(st: RState, p: FragmentedMessage): Trace {
    if p.compressed then
      match Inflate(st.inflater, p.fragments)
      case Ok((m, d)) => Transmit(RState(None, d), p.opcode, m)
      case Err(e) => Fail(e)
    else Transmit(RState(None, st.inflater), p.opcode, p.fragments)
  }

  function Dispatch(lim: Limits, st: RState, f: Frame): Trace {
    match f.opcode
    case Close => Trace([], [CLOSE_FRAME], Closed)
    case Ping => Trace([], [PongFrame(f.payload)], Open(st))
    case Pong => Trace([], [], Open(st))
    case Continue =>
      if st.pending.None? then Fail(InvalidContinuationFrame)
      else
        var p := st.pending.value.(fragments := st.pending.value.fragments + f.payload);
        if |p.fragments| > lim.maxMessage then Fail(MaxMessageSize)
        else if f.fin then Complete(st, p)
        else Trace([], [], Open(st.(pending := Some(p))))
    case _ =>
      if !f.fin then
        if st.pending.None? then
          Trace([], [], Open(st.(pending := Some(FragmentedMessage(f.payload, f.opcode, f.compressed)))))
        else Fail(FragmentedInProgress)
      else if st.pending.Some? then Fail(InvalidFrameFragmentation)
      else Transmit(st, f.opcode, f.payload)
  }

  /** One turn of the `poll_messages` loop, given the frame as it was on the wire. */
  function Step(lim: Limits, st: RState, f: Frame): Trace {
    match Arrive(st, f)
    case Ok((g, st')) => Dispatch(lim, st', g)
    case Err(e) => Fail(e)
  }

  type Stepper = (RState, Frame) -> Trace

  /** The turns for a list of frames; those after a Close or an error are not looked at. */
  function RunBy(step: Stepper, st: RState, fs: seq<Frame>): Trace
    decreases |fs|
  {
    if fs == [] then Trace([], [], Open(st))
    else
      var t := step(st, fs[0]);
      if t.status.Open? then Then(t, RunBy(step, t.status.st, fs[1..])) else t
  }

  function Turn(lim: Limits): Stepper { (st: RState, f: Frame) => Step(lim, st, f) }

  function Run(lim: Limits, st: RState, fs: seq<Frame>): Trace { RunBy(Turn(lim), st, fs) }

  /** A parser takes something off the front of its input whenever it accepts. */
  type Parser = parse: seq<byte> -> Result<Parsed> |
      forall i :: parse(i).Ok? ==> |parse(i).value.rest| < |i|
    witness (_ => Err(IOError))

  function FrameParser(lim: Limits): Parser {
    ParserProgress(lim);
    (input: seq<byte>) => ParseFrame(lim, input)
  }

  lemma ParserProgress(lim: Limits)
    ensures forall i :: ParseFrame(lim, i).Ok? ==> |ParseFrame(lim, i).value.rest| < |i|
  {
    forall i | ParseFrame(lim, i).Ok? ensures |ParseFrame(lim, i).value.rest| < |i| {
      FrameProgress(lim, i);
    }
  }

  datatype PollResult = PollResult(trace: Trace, rest: seq<byte>)

  function PollBy(parse: Parser, step: Stepper, st: RState, input: seq<byte>): PollResult
    decreases |input|
  {
    match parse(input)
    case Err(e) => PollResult(Fail(e), input)
    case Ok(p) =>
      var t := step(st, p.frame);
      if t.status.Open? then
        var r := PollBy(parse, step, t.status.st, p.rest);
        PollResult(Then(t, r.trace), r.rest)
      else PollResult(t, p.rest)
  }

  /** `poll_messages` on a byte stream that ends after `input`, and what it leaves unread. */
  function Poll(lim: Limits, st: RState, input: seq<byte>): PollResult {
    PollBy(FrameParser(lim), Turn(lim), st, input)
  }

  // ---------------------------------------------------------------- composing runs

  lemma ThenAssociative(t: Trace, u: Trace, v: Trace)
    ensures Then(t, Then(u, v)) == Then(Then(t, u), v)
  {
    assert t.delivered + (u.delivered + v.delivered) == t.delivered + u.delivered + v.delivered;
    assert t.replies + (u.replies + v.replies) == t.replies + u.replies + v.replies;
  }

  lemma ThenNothing(t: Trace, st: RState)
    ensures Then(Trace([], [], Open(st)), t) == t
    ensures t.status == Open(st) ==> Then(t, Trace([], [], Open(st))) == t
  {
    assert [] + t.delivered == t.delivered && [] + t.replies == t.replies;
    assert t.delivered + [] == t.delivered && t.replies + [] == t.replies;
  }

  lemma {:induction false} RunByConcat(step: Stepper, st: RState, a: seq<Frame>, b: seq<Frame>)
    ensures RunBy(step, st, a + b) ==
            var t := RunBy(step, st, a);
            if t.status.Open? then Then(t, RunBy(step, t.status.st, b)) else t
    decreases |a|
  {
    if a == [] {
      assert a + b == b;
      ThenNothing(RunBy(step, st, b), st);
    } else {
      assert (a + b)[1..] == a[1..] + b;
      var t := step(st, a[0]);
      if t.status.Open? {
        RunByConcat(step, t.status.st, a[1..], b);
        var u := RunBy(step, t.status.st, a[1..]);
        if u.status.Open? { ThenAssociative(t, u, RunBy(step, u.status.st, b)); }
      }
    }
  }

  lemma RunConcat(lim: Limits, st: RState, a: seq<Frame>, b: seq<Frame>)
    ensures Run(lim, st, a + b) ==
            var t := Run(lim, st, a);
            if t.status.Open? then Then(t, Run(lim, t.status.st, b)) else t
  {
    RunByConcat(Turn(lim), st, a, b);
  }

  lemma RunCons(lim: Limits, st: RState, f: Frame, fs: seq<Frame>)
    ensures Run(lim, st, [f] + fs) ==
            var t := Step(lim, st, f);
            if t.status.Open? then Then(t, Run(lim, t.status.st, fs)) else t
  {
    assert ([f] + fs)[1..] == fs;
    assert Turn(lim)(st, f) == Step(lim, st, f);
  }

  lemma RunSnoc(lim: Limits, st: RState, fs: seq<Frame>, f: Frame)
    ensures Run(lim, st, fs + [f]) ==
            var t := Run(lim, st, fs);
            if t.status.Open? then Then(t, Step(lim, t.status.st, f)) else t
  {
    RunConcat(lim, st, fs, [f]);
    var t := Run(lim, st, fs);
    if t.status.Open? { RunOne(lim, t.status.st, f); }
  }

  lemma RunOne(lim: Limits, st: RState, f: Frame)
    ensures Run(lim, st, [f]) == Step(lim, st, f)
  {
    RunCons(lim, st, f, []);
    assert [f] + [] == [f];
    var t := Step(lim, st, f);
    if t.status.Open? { ThenNothing(t, t.status.st); }
  }

  // ---------------------------------------------------------------- from bytes to frames

  /** The frames a stream begins with, and the error where the next one would stand. */
  datatype Framing = Framing(frames: seq<Frame>, error: Error)

  function FramingBy(parse: Parser, input: seq<byte>): Framing
    decreases |input|
  {
    match parse(input)
    case Err(e) => Framing([], e)
    case Ok(p) => var more := FramingBy(parse, p.rest); Framing([p.frame] + more.frames, more.error)
  }

  function FramingOf(lim: Limits, input: seq<byte>): Framing { FramingBy(FrameParser(lim), input) }

  /** What follows the first n frames. */
  function BeyondBy(parse: Parser, input: seq<byte>, n: nat): seq<byte>
    decreases n
  {
    if n == 0 then input
    else match parse(input) case Err(_) => input case Ok(p) => BeyondBy(parse, p.rest, n - 1)
  }

  function Beyond(lim: Limits, input: seq<byte>, n: nat): seq<byte> { BeyondBy(FrameParser(lim), input, n) }

  /** How many of the frames a run looks at. */
  function Handled(step: Stepper, st: RState, fs: seq<Frame>): (n: nat)
    ensures n <= |fs|
    decreases |fs|
  {
    if fs == [] then 0
    else
      var t := step(st, fs[0]);
      1 + if t.status.Open? then Handled(step, t.status.st, fs[1..]) else 0
  }

  lemma {:induction false} HandledConcat(step: Stepper, st: RState, a: seq<Frame>, b: seq<Frame>)
    ensures var t := RunBy(step, st, a);
      Handled(step, st, a + b) ==
        if t.status.Open? then |a| + Handled(step, t.status.st, b) else Handled(step, st, a)
    decreases |a|
  {
    if a == [] {
      assert a + b == b;
    } else {
      assert (a + b)[1..] == a[1..] + b;
      var t := step(st, a[0]);
      if t.status.Open? { HandledConcat(step, t.status.st, a[1..], b); }
    }
  }

  lemma {:induction false} PollByRuns(parse: Parser, step: Stepper, st: RState, input: seq<byte>)
    ensures var stream := FramingBy(parse, input); var t := RunBy(step, st, stream.frames);
      PollBy(parse, step, st, input) ==
        PollResult(if t.status.Open? then Then(t, Fail(stream.error)) else t,
                   BeyondBy(parse, input, Handled(step, st, stream.frames)))
    decreases |input|
  {
    var stream := FramingBy(parse, input);
    if parse(input).Ok? {
      var p, more := parse(input).value, stream.frames[1..];
      var t := step(st, p.frame);
      if t.status.Open? {
        PollByRuns(parse, step, t.status.st, p.rest);
        ThenAssociative(t, RunBy(step, t.status.st, more), Fail(stream.error));
      }
    } else {
      ThenNothing(Fail(stream.error), st);
    }
  }

  /**
   `poll_messages` on any bytes at all: it runs the frames the stream begins with, ends with the
   error of the first byte sequence that is no frame unless a frame has ended it before, and leaves
   unread exactly what follows the frames it has looked at.
   */
  lemma PollRuns(lim: Limits, st: RState, input: seq<byte>)
    ensures var stream := FramingOf(lim, input); var t := Run(lim, st, stream.frames);
      Poll(lim, st, input) ==
        PollResult(if t.status.Open? then Then(t, Fail(stream.error)) else t,
                   Beyond(lim, input, Handled(Turn(lim), st, stream.frames)))
  {
    PollByRuns(FrameParser(lim), Turn(lim), st, input);
  }

  lemma {:induction false} FramesLegal(lim: Limits, input: seq<byte>)
    ensures forall f | f in FramingOf(lim, input).frames :: Legal(lim, f)
    decreases |input|
  {
    hide ParseFrame, FrameParser, Legal;
    ParserUnfolds(lim, input);
    if ParseFrame(lim, input).Ok? {
      FrameProgress(lim, input);
      FramesLegal(lim, ParseFrame(lim, input).value.rest);
    }
  }

  // ---------------------------------------------------------------- properties over any input

  lemma TurnUnfolds(lim: Limits, st: RState, f: Frame)
    ensures Turn(lim)(st, f) == Step(lim, st, f)
  {
  }

  lemma ParserUnfolds(lim: Limits, input: seq<byte>)
    ensures FrameParser(lim)(input) == ParseFrame(lim, input)
  {
    hide ParseFrame;
  }

  /** What one turn of the loop guarantees: progress within the limits, and how it can end. */
  lemma TurnFacts(lim: Limits, st: RState, input: seq<byte>)
    requires FrameParser(lim)(input).Ok?
    ensures var p := FrameParser(lim)(input).value; var t := Turn(lim)(st, p.frame);
      && |p.rest| + 2 <= |input| && p.rest == input[|input| - |p.rest|..]
      && (t.status.Closed? ==> t == Trace([], [CLOSE_FRAME], Closed))
      && (WithinBound(lim, st) && t.status.Open? ==> WithinBound(lim, t.status.st))
  {
    hide ParseFrame, EncodeFrame, FrameParser, Turn, Step;
    ParserUnfolds(lim, input);
    FrameProgress(lim, input);
    var p := FrameParser(lim)(input).value;
    TurnUnfolds(lim, st, p.frame);
    StepFacts(lim, st, p.frame);
  }

  lemma StepFacts(lim: Limits, st: RState, f: Frame)
    requires Legal(lim, f)
    ensures var t := Step(lim, st, f);
      && (t.status.Closed? ==> t == Trace([], [CLOSE_FRAME], Closed))
      && (WithinBound(lim, st) && t.status.Open? ==> WithinBound(lim, t.status.st))
  {
  }

  /**
   A reader never stops anywhere but at a Close frame, which it answers and after which it reads
   nothing, or at an error.
   */
  lemma {:induction false} PollStops(lim: Limits, st: RState, input: seq<byte>)
    ensures var r := Poll(lim, st, input); var replies := r.trace.replies;
      && !r.trace.status.Open?
      && |r.rest| <= |input| && r.rest == input[|input| - |r.rest|..]
      && (r.trace.status.Closed? ==>
            |r.rest| + 2 <= |input| && replies != [] && replies[|replies| - 1] == Frame(true, Close, [], false))
    decreases |input|
  {
    hide Turn, FrameParser;
    if FrameParser(lim)(input).Ok? {
      TurnFacts(lim, st, input);
      var p := FrameParser(lim)(input).value;
      var t := Turn(lim)(st, p.frame);
      if t.status.Open? { PollStops(lim, t.status.st, p.rest); }
    }
  }

  // ---------------------------------------------------------------- the replies

  /** The payloads of the frames with one opcode, in order. */
  function Payloads(fs: seq<Frame>, opcode: OpCode): seq<seq<byte>>
    decreases |fs|
  {
    if fs == [] then []
    else (if fs[0].opcode == opcode then [fs[0].payload] else []) + Payloads(fs[1..], opcode)
  }

  lemma {:induction false} PayloadsConcat(a: seq<Frame>, b: seq<Frame>, opcode: OpCode)
    ensures Payloads(a + b, opcode) == Payloads(a, opcode) + Payloads(b, opcode)
    decreases |a|
  {
    if a == [] {
      assert a + b == b;
    } else {
      PayloadsConcat(a[1..], b, opcode);
      assert (a + b)[1..] == a[1..] + b;
      var p := if a[0].opcode == opcode then [a[0].payload] else [];
      assert p + (Payloads(a[1..], opcode) + Payloads(b, opcode)) == p + Payloads(a[1..], opcode) + Payloads(b, opcode);
    }
  }

  /**
   What sections 5.5.1 to 5.5.3 of RFC 6455 ask of the frames a reader writes when it has looked at
   fs: a Pong for each Ping, with the Ping's payload, in order; an empty Close for each Close; nothing
   else, and each in a single frame without RSV1.
   */
  predicate Answers(replies: seq<Frame>, fs: seq<Frame>) {
    && Payloads(replies, Pong) == Payloads(fs, Ping)
    && |Payloads(replies, Close)| == |Payloads(fs, Close)|
    && (forall p | p in Payloads(replies, Close) :: p == [])
    && (forall r | r in replies :: (r.opcode.Pong? || r.opcode.Close?) && r.fin && !r.compressed)
  }

  lemma AnswersThen(r1: seq<Frame>, fs1: seq<Frame>, r2: seq<Frame>, fs2: seq<Frame>)
    requires Answers(r1, fs1) && Answers(r2, fs2)
    ensures Answers(r1 + r2, fs1 + fs2)
  {
    hide Payloads;
    PayloadsConcat(r1, r2, Pong);
    PayloadsConcat(r1, r2, Close);
    PayloadsConcat(fs1, fs2, Ping);
    PayloadsConcat(fs1, fs2, Close);
  }

  /** Frames of a size a control frame may have. */
  predicate Short(fs: seq<Frame>) { forall f | f in fs :: |f.payload| <= 125 }

  /** A Ping with RSV1 that is decompressed to more than a control frame may hold. */
  predicate Swells(st: RState, f: Frame) {
    && f.opcode.Ping? && f.compressed && f.fin
    && Inflate(st.inflater, f.payload).Ok? && |Inflate(st.inflater, f.payload).value.0| > 125
  }

  /** The n-th frame, if the run gets to it, swells. */
  predicate SwellsAt(lim: Limits, st: RState, fs: seq<Frame>, n: nat)
    requires n < |fs|
  {
    var t := Run(lim, st, fs[..n]);
    t.status.Open? && Swells(t.status.st, fs[n])
  }

  /** Which accepted frames are answered by an oversize frame. */
  lemma StepReplies(lim: Limits, st: RState, f: Frame)
    requires Legal(lim, f)
    ensures Short(Step(lim, st, f).replies) <==> !Swells(st, f)
  {
    hide Inflate;
    var replies := Step(lim, st, f).replies;
    if f.opcode.Ping? && Arrive(st, f).Ok? { assert replies[0] == PongFrame(Arrive(st, f).value.0.payload); }
  }

  lemma {:induction false} RunReplies(lim: Limits, st: RState, fs: seq<Frame>)
    requires forall f | f in fs :: Legal(lim, f)
    ensures Short(Run(lim, st, fs).replies) <==> forall n | 0 <= n < |fs| :: !SwellsAt(lim, st, fs, n)
    decreases |fs|
  {
    hide Run, Step, Swells, Legal;
    if fs == [] {
      RunEmpty(lim, st);
    } else {
      var init, f := fs[..|fs| - 1], fs[|fs| - 1];
      assert fs == init + [f];
      RunReplies(lim, st, init);
      RunSnoc(lim, st, init, f);
      forall n | 0 <= n < |init| ensures SwellsAt(lim, st, fs, n) <==> SwellsAt(lim, st, init, n) {
        assert fs[..n] == init[..n];
      }
      var t, k := Run(lim, st, init), |init|;
      assert fs[..k] == init && fs[k] == f;
      assert SwellsAt(lim, st, fs, k) <==> t.status.Open? && Swells(t.status.st, f);
      if t.status.Open? {
        StepReplies(lim, t.status.st, f);
        ShortConcat(t.replies, Step(lim, t.status.st, f).replies);
      }
    }
  }

  lemma ShortConcat(a: seq<Frame>, b: seq<Frame>)
    ensures Short(a + b) <==> Short(a) && Short(b)
  {
    forall f | f in a + b ensures f in a || f in b { }
    if Short(a + b) {
      forall f | f in a || f in b ensures |f.payload| <= 125 { assert f in a + b; }
    }
  }

  lemma RunEmpty(lim: Limits, st: RState)
    ensures Run(lim, st, []) == Trace([], [], Open(st))
  {
  }

  /**
   No reply is longer than 125 bytes, except exactly where a Ping with RSV1 is decompressed to more;
   so never without compression, and never when Pings come without RSV1.
   */
  lemma ReplyBound(lim: Limits, st: RState, input: seq<byte>)
    ensures var fs := FramingOf(lim, input).frames; var replies := Poll(lim, st, input).trace.replies;
      && (Short(replies) <==> forall n | 0 <= n < |fs| :: !SwellsAt(lim, st, fs, n))
      && (!lim.deflate || (forall f | f in fs && f.opcode.Ping? :: !f.compressed) ==> Short(replies))
  {
    hide Run, Poll, FramingOf, Turn, Beyond;
    var stream := FramingOf(lim, input);
    PollRuns(lim, st, input);
    FramesLegal(lim, input);
    RunReplies(lim, st, stream.frames);
    var t := Run(lim, st, stream.frames);
    assert t.replies + [] == t.replies;
    forall n | 0 <= n < |stream.frames| ensures SwellsAt(lim, st, stream.frames, n) ==>
      lim.deflate && stream.frames[n].opcode.Ping? && stream.frames[n].compressed
    {
      assert Legal(lim, stream.frames[n]);
    }
  }

  /**
   What a Ping with RSV1 is answered with, in any format and context: a Pong with whatever it is
   decompressed to, however long.
   */
  lemma PingAnswered(lim: Limits, st: RState, mask: Option<Mask>, w: seq<byte>)
    requires lim.deflate && |w| <= 125 && |w| <= lim.maxFrame
    requires Inflate(st.inflater, w).Ok?
    ensures var input := EncodeFrame(mask, Frame(true, Ping, w, true), true);
      Poll(lim, st, input).trace.replies == [Frame(true, Pong, Inflate(st.inflater, w).value.0, false)]
  {
    hide EncodeFrame, ParseFrame, FrameParser, Inflate;
    var ping := Frame(true, Ping, w, true);
    var input := EncodeFrame(mask, ping, true);
    FrameRoundTrip(lim, mask, ping, true, []);
    assert input + [] == input;
    ParserUnfolds(lim, input);
    ParserUnfolds(lim, []);
    NoFrame(lim);
    var t := Step(lim, st, ping);
    TurnUnfolds(lim, st, ping);
    assert Poll(lim, t.status.st, []).trace.replies == [];
  }

  /**
   The bound fails in every format that has a stream of at most 125 bytes for a zero and a copy of
   it 125 times, in every context: the Pong has 126 bytes.
   */
  lemma LongPong(lim: Limits, st: RState, mask: Option<Mask>, w: seq<byte>)
    requires lim.deflate && |w| <= 125 && |w| <= lim.maxFrame
    requires st.inflater.parse(w + TRAILER) == Some([Literal(0), Copy(1, 125)])
    ensures var replies := Poll(lim, st, EncodeFrame(mask, Frame(true, Ping, w, true), true)).trace.replies;
      |replies| == 1 && replies[0].opcode.Pong? && |replies[0].payload| == 126
  {
    hide Poll, EncodeFrame;
    ZeroRun(Pow2(st.inflater.bits), if st.inflater.reset then [] else st.inflater.history) by {
      Pow2Positive(st.inflater.bits);
    }
    PingAnswered(lim, st, mask, w);
  }

  lemma ZeroRun(window: nat, hist: seq<byte>)
    requires window >= 1
    ensures var out := Expand(window, hist, [Literal(0), Copy(1, 125)]); out.Some? && |out.value| == 126
  {
    var ts := [Literal(0), Copy(1, 125)];
    var h := hist + [0];
    CopyOutSize(h, 1, 125);
    var out := CopyOut(h, 1, 125);
    assert ts[1..] == [Copy(1, 125)] && ts[1..][1..] == [];
    assert ExpandToken(window, h, ts[1..][0]) == Some(out);
    assert Expand(window, h, ts[1..]) == Some(out + []);
  }

  lemma NoFrame(lim: Limits)
    ensures ParseFrame(lim, []) == Err(IOError)
  {
  }

  function PendingSize(st: RState): nat {
    if st.pending.None? then 0 else |st.pending.value.fragments|
  }

  /** The pending buffer fits the larger of the two limits. */
  predicate WithinBound(lim: Limits, st: RState) {
    PendingSize(st) <= if lim.maxFrame <= lim.maxMessage then lim.maxMessage else lim.maxFrame
  }

  /** The state at the top of the loop after n turns over `input`, if the loop gets that far. */
  function AfterTurns(lim: Limits, st: RState, input: seq<byte>, n: nat): Option<RState>
    decreases n
  {
    if n == 0 then Some(st)
    else
      match FrameParser(lim)(input)
      case Err(_) => None
      case Ok(p) =>
        var t := Turn(lim)(st, p.frame);
        if t.status.Open? then AfterTurns(lim, t.status.st, p.rest, n - 1) else None
  }

  /**
   Whatever bytes arrive, the pending buffer never exceeds the larger limit, although the first
   fragment is not checked against the message limit.
   */
  lemma {:induction false} BufferBound(lim: Limits, st: RState, input: seq<byte>, n: nat)
    requires WithinBound(lim, st)
    ensures AfterTurns(lim, st, input, n).Some? ==> WithinBound(lim, AfterTurns(lim, st, input, n).value)
    decreases n
  {
    hide Turn, FrameParser;
    if n > 0 && FrameParser(lim)(input).Ok? {
      TurnFacts(lim, st, input);
      var p := FrameParser(lim)(input).value;
      var t := Turn(lim)(st, p.frame);
      if t.status.Open? { BufferBound(lim, t.status.st, p.rest, n - 1); }
    }
  }

  /** The user's stream (src/handshake.rs): the messages, then the error if there was one, then the end. */
  function UserStream(t: Trace): seq<Result<Message>> {
    Oks(t.delivered) + if t.status.Failed? then [Err(t.status.error)] else []
  }

  function Oks(ms: seq<Message>): seq<Result<Message>> {
    seq(|ms|, i requires 0 <= i < |ms| => Ok(ms[i]))
  }

  lemma OksConcat(a: seq<Message>, b: seq<Message>)
    ensures Oks(a + b) == Oks(a) + Oks(b)
  {
  }
}
