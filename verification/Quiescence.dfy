/**
 Two connected endpoints, each with a user that sends finitely many frames and a reader task that
 answers Pings and Closes (src/read.rs, src/split.rs). One step is one frame written or one frame
 read; the mutex around the writer makes these steps atomic, the streams are first-in first-out.
 */
module Quiescence {
  import opened Basics
  import opened Frames
  import Wire
  import Deflate
  import opened Reader
  import opened Grammar

  /**
   One end of the connection: the reader's state while its task lives, what the user has yet to
   send, the frames in flight towards it, and, for the record, what the user has sent and been
   delivered, the frames the reader has accepted and those it has written by itself.
   */
  datatype Endpoint = Endpoint(lim: Wire.Limits, reader: Option<RState>, sends: seq<Frame>, inbox: seq<Frame>,
                               sent: seq<Frame>, seen: seq<Frame>, auto: seq<Frame>, delivered: seq<Message>)

  datatype Net = Net(a: Endpoint, b: Endpoint)

  ghost predicate Sends(me: Endpoint, peer: Endpoint, me': Endpoint, peer': Endpoint) {
    && me.sends != []
    && me' == me.(sends := me.sends[1..], sent := me.sent + [me.sends[0]])
    && peer' == peer.(inbox := peer.inbox + [me.sends[0]])
  }

  /** One turn of a reader: a frame that breaks the rules of `read_frame` is an error. */
  function Taken(lim: Wire.Limits, st: RState, f: Frame): Trace {
    match Wire.Objection(lim, f, f.compressed)
    case Some(e) => Fail(e)
    case None => Turn(lim)(st, f)
  }

  /** That is what `poll_messages` makes of the frame's bytes, however they are masked. */
  lemma TakenFromBytes(lim: Wire.Limits, st: RState, f: Frame, mask: Option<Wire.Mask>, rest: seq<byte>)
    requires |f.payload| < Wire.U64
    ensures var t := Taken(lim, st, f);
      Poll(lim, st, Wire.EncodeFrame(mask, f, f.compressed) + rest).trace ==
        if t.status.Open? then Then(t, Poll(lim, t.status.st, rest).trace) else t
  {
    hide Turn, FrameParser, Wire.ParseFrame, Wire.EncodeFrame;
    var input := Wire.EncodeFrame(mask, f, f.compressed) + rest;
    Wire.FrameRoundTrip(lim, mask, f, f.compressed, rest);
    assert f.(compressed := f.compressed) == f;
    ParserUnfolds(lim, input);
  }

  /** The reader after the first frame of its inbox, of which it makes t. */
  function AfterTaking(me: Endpoint, t: Trace): Endpoint
    requires me.inbox != []
  {
    me.(inbox := me.inbox[1..], reader := if t.status.Open? then Some(t.status.st) else None,
        seen := if Wire.Legal(me.lim, me.inbox[0]) then me.seen + [me.inbox[0]] else me.seen,
        auto := me.auto + t.replies, delivered := me.delivered + t.delivered)
  }

  ghost predicate Reads(me: Endpoint, peer: Endpoint, me': Endpoint, peer': Endpoint) {
    && me.reader.Some? && me.inbox != []
    && var t := Taken(me.lim, me.reader.value, me.inbox[0]);
    && me' == AfterTaking(me, t)
    && peer' == peer.(inbox := peer.inbox + t.replies)
  }

  ghost predicate Moves(me: Endpoint, peer: Endpoint, me': Endpoint, peer': Endpoint) {
    Sends(me, peer, me', peer') || Reads(me, peer, me', peer')
  }

  ghost predicate NetStep(n: Net, n': Net) {
    Moves(n.a, n.b, n'.a, n'.b) || Moves(n.b, n.a, n'.b, n'.a)
  }

  ghost predicate IsRun(ns: seq<Net>) {
    |ns| >= 1 && forall i :: 0 <= i < |ns| - 1 ==> NetStep(ns[i], ns[i + 1])
  }

  // ---------------------------------------------------------------- the measure

  /** A Ping weighs more than the Pong it calls for. */
  function Weight(f: Frame): nat { if f.opcode.Ping? then 2 else 1 }

  function Weights(fs: seq<Frame>, extra: nat): nat
    decreases |fs|
  {
    if fs == [] then 0 else Weight(fs[0]) + extra + Weights(fs[1..], extra)
  }

  function EndMeasure(e: Endpoint): nat {
    Weights(e.sends, 1) + Weights(e.inbox, 0) + if e.reader.Some? then 1 else 0
  }

  function Measure(n: Net): nat { EndMeasure(n.a) + EndMeasure(n.b) }

  lemma {:induction false} WeightsConcat(a: seq<Frame>, b: seq<Frame>, extra: nat)
    ensures Weights(a + b, extra) == Weights(a, extra) + Weights(b, extra)
    decreases |a|
  {
    if a == [] {
      assert a + b == b;
    } else {
      WeightsConcat(a[1..], b, extra);
      assert (a + b)[1..] == a[1..] + b;
    }
  }

  lemma WeightsOne(f: Frame, extra: nat)
    ensures Weights([f], extra) == Weight(f) + extra
  {
    assert [f][1..] == [];
  }

  /** Reading a frame puts less in flight than it takes out, counting the life of the reader. */
  lemma TurnIsLighter(lim: Wire.Limits, st: RState, f: Frame)
    ensures var t := Turn(lim)(st, f);
      Weights(t.replies, 0) + (if t.status.Open? then 1 else 0) <= Weight(f)
  {
    TurnUnfolds(lim, st, f);
    hide Turn, Deflate.Inflate, Complete;
    CompleteSilent(lim, st, f);
    WeightsOne(CLOSE_FRAME, 0);
    if Arrive(st, f).Ok? { WeightsOne(PongFrame(Arrive(st, f).value.0.payload), 0); }
  }

  lemma TakenIsLighter(lim: Wire.Limits, st: RState, f: Frame)
    ensures var t := Taken(lim, st, f);
      Weights(t.replies, 0) + (if t.status.Open? then 1 else 0) <= Weight(f)
  {
    hide Turn;
    TurnIsLighter(lim, st, f);
  }

  lemma CompleteSilent(lim: Wire.Limits, st: RState, f: Frame)
    ensures forall s, p :: Complete(s, p).replies == [] && !Complete(s, p).status.Closed?
  {
    hide Deflate.Inflate;
  }

  lemma MoveDecreases(me: Endpoint, peer: Endpoint, me': Endpoint, peer': Endpoint)
    requires Moves(me, peer, me', peer')
    ensures EndMeasure(me') + EndMeasure(peer') < EndMeasure(me) + EndMeasure(peer)
  {
    hide Taken, Weight;
    if Sends(me, peer, me', peer') {
      WeightsConcat(peer.inbox, [me.sends[0]], 0);
      WeightsOne(me.sends[0], 0);
    } else {
      TakenIsLighter(me.lim, me.reader.value, me.inbox[0]);
      WeightsConcat(peer.inbox, Taken(me.lim, me.reader.value, me.inbox[0]).replies, 0);
    }
  }

  /** No reply loop: every run is at most as long as the measure of its first state. */
  lemma {:induction false} Quiesces(ns: seq<Net>)
    requires IsRun(ns)
    ensures |ns| - 1 + Measure(ns[|ns| - 1]) <= Measure(ns[0])
    decreases |ns|
  {
    hide Moves, EndMeasure;
    if |ns| > 1 {
      var n, n' := ns[|ns| - 2], ns[|ns| - 1];
      assert NetStep(ns[|ns| - 2], ns[|ns| - 2 + 1]);
      if Moves(n.a, n.b, n'.a, n'.b) { MoveDecreases(n.a, n.b, n'.a, n'.b); }
      else { MoveDecreases(n.b, n.a, n'.b, n'.a); }
      Quiesces(ns[..|ns| - 1]);
    }
  }

  /** A state is final exactly when the users are done and no living reader has a frame to read. */
  predicate Final(n: Net) {
    && n.a.sends == [] && (n.a.reader.None? || n.a.inbox == [])
    && n.b.sends == [] && (n.b.reader.None? || n.b.inbox == [])
  }

  lemma FinalStates(n: Net)
    ensures Final(n) <==> forall n' :: !NetStep(n, n')
  {
    hide Turn;
    if n.a.sends != [] {
      var n' := Net(n.a.(sends := n.a.sends[1..], sent := n.a.sent + [n.a.sends[0]]),
                    n.b.(inbox := n.b.inbox + [n.a.sends[0]]));
      assert NetStep(n, n');
    } else if n.b.sends != [] {
      var n' := Net(n.a.(inbox := n.a.inbox + [n.b.sends[0]]),
                    n.b.(sends := n.b.sends[1..], sent := n.b.sent + [n.b.sends[0]]));
      assert NetStep(n, n');
    } else if n.a.reader.Some? && n.a.inbox != [] {
      var a', b' := Reading(n.a, n.b);
      assert NetStep(n, Net(a', b'));
    } else if n.b.reader.Some? && n.b.inbox != [] {
      var b', a' := Reading(n.b, n.a);
      assert NetStep(n, Net(a', b'));
    }
  }

  lemma Reading(me: Endpoint, peer: Endpoint) returns (me': Endpoint, peer': Endpoint)
    requires me.reader.Some? && me.inbox != []
    ensures Reads(me, peer, me', peer')
  {
    hide Taken;
    var t := Taken(me.lim, me.reader.value, me.inbox[0]);
    me' := AfterTaking(me, t);
    peer' := peer.(inbox := peer.inbox + t.replies);
  }

  // ---------------------------------------------------------------- what the readers write

  function Count(fs: seq<Frame>, op: OpCode): nat
    decreases |fs|
  {
    if fs == [] then 0 else (if fs[0].opcode == op then 1 else 0) + Count(fs[1..], op)
  }

  lemma {:induction false} CountSnoc(fs: seq<Frame>, f: Frame, op: OpCode)
    ensures Count(fs + [f], op) == Count(fs, op) + if f.opcode == op then 1 else 0
    decreases |fs|
  {
    if fs == [] {
      assert fs + [f] == [f] && [f][1..] == [];
    } else {
      CountSnoc(fs[1..], f, op);
      assert (fs + [f])[1..] == fs[1..] + [f];
    }
  }

  /** Users and readers put RSV1 on no control frame. */
  predicate CleanFlight(e: Endpoint) {
    (forall f | f in e.sends :: ControlClean(f)) && (forall f | f in e.inbox :: ControlClean(f))
  }

  /** The frames read are answered, one Pong per Ping, and one Close for a Close, after which nothing is read. */
  predicate Answered(e: Endpoint) {
    && e.auto == AutoReplies(e.seen) && Answers(e.auto, e.seen)
    && Count(e.auto, Pong) == Count(e.seen, Ping)
    && Count(e.auto, Close) <= 1
    && (e.reader.Some? ==> Count(e.auto, Close) == 0)
  }

  predicate Healthy(n: Net) { CleanFlight(n.a) && CleanFlight(n.b) && Answered(n.a) && Answered(n.b) }

  lemma CountReplies(fs: seq<Frame>, f: Frame)
    ensures Count(fs + AutoReply(f), Pong) == Count(fs, Pong) + if f.opcode.Ping? then 1 else 0
    ensures Count(fs + AutoReply(f), Close) == Count(fs, Close) + if f.opcode.Close? then 1 else 0
  {
    hide Count;
    if AutoReply(f) == [] {
      assert fs + [] == fs;
    } else {
      CountSnoc(fs, AutoReply(f)[0], Pong);
      CountSnoc(fs, AutoReply(f)[0], Close);
    }
  }

  lemma MoveKeepsHealth(me: Endpoint, peer: Endpoint, me': Endpoint, peer': Endpoint)
    requires Moves(me, peer, me', peer')
    requires CleanFlight(me) && CleanFlight(peer) && Answered(me) && Answered(peer)
    ensures CleanFlight(me') && CleanFlight(peer') && Answered(me') && Answered(peer')
  {
    hide Turn, Count, AutoReplies, Answers;
    AutoRepliesAnswer(me'.seen);
    var f := if me.inbox != [] then me.inbox[0] else CLOSE_FRAME;
    if Reads(me, peer, me', peer') && !Wire.Legal(me.lim, f) {
      assert me.auto + [] == me.auto && peer.inbox + [] == peer.inbox;
    } else if Reads(me, peer, me', peer') {
      ControlTurn(me.lim, me.reader.value, f);
      AutoRepliesSnoc(me.seen, f);
      CountSnoc(me.seen, f, Ping);
      CountReplies(me.auto, f);
    }
  }

  lemma {:induction false} RunsStayHealthy(ns: seq<Net>)
    requires IsRun(ns) && Healthy(ns[0])
    ensures Healthy(ns[|ns| - 1])
    decreases |ns|
  {
    hide Moves, Answered, CleanFlight;
    if |ns| > 1 {
      var n, n' := ns[|ns| - 2], ns[|ns| - 1];
      assert NetStep(ns[|ns| - 2], ns[|ns| - 2 + 1]);
      RunsStayHealthy(ns[..|ns| - 1]);
      if Moves(n.a, n.b, n'.a, n'.b) { MoveKeepsHealth(n.a, n.b, n'.a, n'.b); }
      else { MoveKeepsHealth(n.b, n.a, n'.b, n'.a); }
    }
  }

  /** A fresh connection: nothing is in flight or has been read, and the users put RSV1 on no control frame. */
  predicate Fresh(n: Net) {
    && n.a.inbox == n.b.inbox == n.a.seen == n.b.seen == n.a.auto == n.b.auto == n.a.sent == n.b.sent == []
    && n.a.delivered == n.b.delivered == []
    && (forall f | f in n.a.sends :: ControlClean(f)) && (forall f | f in n.b.sends :: ControlClean(f))
  }

  /**
   From a fresh connection, whatever the steps: in every reachable state each endpoint has written
   exactly the replies to the frames it accepted, in order, one Pong for each Ping, and at most one
   Close by itself, none while its reader lives.
   */
  lemma RepliesOverRuns(ns: seq<Net>)
    requires IsRun(ns) && Fresh(ns[0])
    ensures var n := ns[|ns| - 1]; Answered(n.a) && Answered(n.b)
  {
    RunsStayHealthy(ns);
  }
}
