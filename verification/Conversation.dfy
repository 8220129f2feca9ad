/**
 Two users talking: the frames of both, with the replies of both readers in between, travel through
 the network of module Quiescence, and what each user is delivered is what the other has sent.
 */
module Conversation {
  import opened Basics
  import opened Frames
  import opened Wire
  import opened Deflate
  import opened Reader
  import opened Grammar
  import opened Delivery
  import opened Quiescence

  /**
   What one user sends: the frames of an accepted run of messages, with control frames in between;
   e and d are the contexts of its writer and of the peer's reader.
   */
  datatype Plan = Plan(e: Deflater, d: Inflater, outs: seq<Outgoing>, frames: seq<Frame>)

  /** The frames that are not control frames. */
  function DataOf(fs: seq<Frame>): seq<Frame>
    decreases |fs|
  {
    if fs == [] then [] else (if fs[0].opcode.IsControl() then [] else [fs[0]]) + DataOf(fs[1..])
  }

  /** A frame that the reader at `to` lets through, and so does the one at `from` with the Pong for it. */
  predicate Suits(to: Limits, from: Limits, f: Frame) {
    Legal(to, f) && ControlClean(f) && (f.opcode.Ping? ==> |f.payload| <= from.maxFrame)
  }

  ghost predicate Suitable(plan: Plan, from: Limits, to: Limits) {
    && Accepted(from, plan.e, plan.outs) && Agree(from.deflate, plan.e, plan.d)
    && (forall o | o in plan.outs :: Fits(from, to, o))
    && DataOf(plan.frames) == Flatten(Groups(plan.outs))
    && (forall f | f in plan.frames && f.opcode.IsControl() :: Suits(to, from, f))
  }

  /** The beginning: both readers wait, and nothing has been sent. */
  ghost predicate Starts(n: Net, p: Plan, q: Plan) {
    && Fresh(n)
    && Suitable(p, n.a.lim, n.b.lim) && n.a.sends == p.frames && n.b.reader == Some(RState(None, p.d))
    && Suitable(q, n.b.lim, n.a.lim) && n.b.sends == q.frames && n.a.reader == Some(RState(None, q.d))
  }

  // ---------------------------------------------------------------- data frames

  lemma {:induction false} DataOfConcat(a: seq<Frame>, b: seq<Frame>)
    ensures DataOf(a + b) == DataOf(a) + DataOf(b)
    decreases |a|
  {
    if a == [] {
      assert a + b == b;
    } else {
      DataOfConcat(a[1..], b);
      assert (a + b)[1..] == a[1..] + b;
    }
  }

  lemma {:induction false} DataOfControl(fs: seq<Frame>)
    requires forall f | f in fs :: f.opcode.IsControl()
    ensures DataOf(fs) == []
    decreases |fs|
  {
    if fs != [] { DataOfControl(fs[1..]); }
  }

  lemma {:induction false} DataOfMerged(w: seq<Frame>, a: seq<Frame>, b: seq<Frame>)
    requires Merges(w, a, b) && forall f | f in b :: f.opcode.IsControl()
    ensures DataOf(w) == DataOf(a)
    decreases |w|
  {
    if w != [] {
      if a != [] && a[0] == w[0] && Merges(w[1..], a[1..], b) {
        DataOfMerged(w[1..], a[1..], b);
      } else {
        DataOfMerged(w[1..], a, b[1..]);
      }
    }
  }

  lemma {:induction false} QuietIsData(fs: seq<Frame>)
    requires forall f | f in fs :: !f.opcode.Close?
    ensures Quiet(fs) == DataOf(fs)
    decreases |fs|
  {
    if fs != [] { QuietIsData(fs[1..]); }
  }

  lemma {:induction false} DataOfMember(fs: seq<Frame>, f: Frame)
    requires f in fs && !f.opcode.IsControl()
    ensures f in DataOf(fs)
    decreases |fs|
  {
    if fs[0] != f { DataOfMember(fs[1..], f); }
  }

  lemma PlanSuits(plan: Plan, from: Limits, to: Limits)
    requires Suitable(plan, from, to)
    ensures forall f | f in plan.frames :: Suits(to, from, f)
  {
    hide Accepted, Agree, Fits, DataOf, Flatten, Groups;
    DataFramesOnly(from, to, plan.e, plan.d, plan.outs);
    forall f | f in plan.frames ensures Suits(to, from, f) {
      if !f.opcode.IsControl() { DataOfMember(plan.frames, f); }
    }
  }

  // ---------------------------------------------------------------- one direction

  /**
   What has travelled from one end to the other: what its user has sent, with its reader's replies in
   between; and the reader at the other end has done what these frames, run from the start, say.
   */
  ghost predicate Way(from: Endpoint, to: Endpoint, plan: Plan) {
    && from.sent + from.sends == plan.frames
    && Merges(to.seen + to.inbox, from.sent, from.auto)
    && (forall f | f in to.seen + to.inbox + plan.frames :: Suits(to.lim, from.lim, f))
    && (forall f | f in from.auto :: f.opcode.IsControl())
    && var t := Run(to.lim, RState(None, plan.d), to.seen);
    && to.delivered == t.delivered
    && (if to.reader.Some? then t.status == Open(to.reader.value) else !t.status.Open?)
  }

  lemma SendKeepsWay(me: Endpoint, peer: Endpoint, me': Endpoint, peer': Endpoint, plan: Plan)
    requires Sends(me, peer, me', peer') && Way(me, peer, plan)
    ensures Way(me', peer', plan)
  {
    hide Merges, Suits, Run;
    var f := me.sends[0];
    assert me.sends == [f] + me.sends[1..];
    assert f in plan.frames;
    MergesSnoc(peer.seen + peer.inbox, me.sent, me.auto, [f]);
    assert peer'.seen + peer'.inbox == peer.seen + peer.inbox + [f];
    assert me'.sent + me'.sends == me.sent + me.sends;
  }

  lemma SendKeepsBack(me: Endpoint, peer: Endpoint, me': Endpoint, peer': Endpoint, plan: Plan)
    requires Sends(me, peer, me', peer') && Way(peer, me, plan)
    ensures Way(peer', me', plan)
  {
    hide Merges, Suits, Run;
  }

  lemma ReadKeepsWay(me: Endpoint, peer: Endpoint, me': Endpoint, peer': Endpoint, plan: Plan)
    requires Reads(me, peer, me', peer') && Way(peer, me, plan)
    ensures Way(peer', me', plan)
  {
    hide Merges, Run, Turn;
    var f := me.inbox[0];
    assert f in me.seen + me.inbox + plan.frames;
    assert me'.seen + me'.inbox == me.seen + me.inbox;
    RunSnoc(me.lim, RState(None, plan.d), me.seen, f);
    TurnUnfolds(me.lim, me.reader.value, f);
  }

  lemma ReplySuits(to: Limits, from: Limits, f: Frame)
    requires Suits(from, to, f)
    ensures forall r | r in AutoReply(f) :: Suits(to, from, r) && r.opcode.IsControl()
  {
  }

  lemma ReadKeepsBack(me: Endpoint, peer: Endpoint, me': Endpoint, peer': Endpoint, plan: Plan)
    requires Reads(me, peer, me', peer') && Way(me, peer, plan)
    requires Suits(me.lim, peer.lim, me.inbox[0])
    ensures Way(me', peer', plan)
  {
    hide Merges, Run, Turn, AutoReply;
    var f := me.inbox[0];
    ControlTurn(me.lim, me.reader.value, f);
    ReplySuits(peer.lim, me.lim, f);
    MergesSnoc(peer.seen + peer.inbox, me.sent, me.auto, AutoReply(f));
    assert peer'.seen + peer'.inbox == peer.seen + peer.inbox + AutoReply(f);
  }

  lemma MoveKeepsWays(me: Endpoint, peer: Endpoint, me': Endpoint, peer': Endpoint, p: Plan, q: Plan)
    requires Moves(me, peer, me', peer') && Way(me, peer, p) && Way(peer, me, q)
    ensures Way(me', peer', p) && Way(peer', me', q)
    ensures me'.lim == me.lim && peer'.lim == peer.lim
  {
    hide Way, Taken;
    if Sends(me, peer, me', peer') {
      SendKeepsWay(me, peer, me', peer', p);
      SendKeepsBack(me, peer, me', peer', q);
    } else {
      NextSuits(peer, me, q);
      ReadKeepsBack(me, peer, me', peer', p);
      ReadKeepsWay(me, peer, me', peer', q);
    }
  }

  lemma NextSuits(from: Endpoint, to: Endpoint, plan: Plan)
    requires Way(from, to, plan) && to.inbox != []
    ensures Suits(to.lim, from.lim, to.inbox[0])
  {
    assert to.inbox[0] in to.seen + to.inbox + plan.frames;
  }

  // ---------------------------------------------------------------- what a user is delivered

  /**
   In one direction: the user is delivered the first messages the other user has sent, all of them
   once everything has arrived; and the reader fails in no case: only a Close ends it.
   */
  lemma WayDelivers(from: Endpoint, to: Endpoint, plan: Plan) returns (n: nat)
    requires Way(from, to, plan) && Suitable(plan, from.lim, to.lim)
    ensures n <= |plan.outs| && to.delivered == Messages(plan.outs[..n])
    ensures to.reader.None? <==> exists f :: f in to.seen && f.opcode.Close?
    ensures to.reader.Some? && from.sends == [] && to.inbox == [] ==> to.delivered == Messages(plan.outs)
  {
    hide Accepted, Agree, Fits, Run, Turn, Quiet, DataOf, Merges, Flatten, Groups, Group, Messages, Suits, AutoReplies,
      BeforeClose, Handled;
    var st, fs := RState(None, plan.d), to.seen;
    var a := BeforeClose(fs);
    var more := ThroughCloseSplits(fs);
    forall f | f in fs ensures ControlClean(f) {
      assert f in to.seen + to.inbox + plan.frames;
      SuitsClean(to.lim, from.lim, f);
    }
    RunThroughClose(to.lim, st, fs);
    ControlTransparency(to.lim, st, a);
    QuietIsData(a);
    DataSoFar(from, to, plan, a);
    var j;
    n, j := PrefixRead(from.lim, to.lim, plan.e, plan.d, plan.outs, Quiet(a));
    if to.reader.Some? && from.sends == [] && to.inbox == [] {
      assert a == fs == to.seen + to.inbox && from.sent + [] == from.sent;
      DataOfMerged(fs, from.sent, from.auto);
      var d' := DeliverAll(from.lim, to.lim, plan.e, plan.d, plan.outs);
      AllRead(to.lim, plan.d, Groups(plan.outs));
    }
  }

  lemma SuitsClean(to: Limits, from: Limits, f: Frame)
    requires Suits(to, from, f)
    ensures ControlClean(f)
  {
  }

  lemma AllRead(lim: Limits, d: Inflater, gs: seq<seq<Frame>>)
    requires forall g | g in gs :: |g| >= 1 && IsWhole(g) && AllRsv1Clean(g)
    ensures MeaningAll(lim, d, gs).status.Open? ==>
              Run(lim, RState(None, d), Flatten(gs)).delivered == MeaningAll(lim, d, gs).delivered
  {
    hide Run, MeaningAll, IsWhole, AllRsv1Clean;
    RunWholes(lim, d, gs, []);
    var m := MeaningAll(lim, d, gs);
    assert Flatten(gs) + [] == Flatten(gs);
    if m.status.Open? {
      RunEmpty(lim, m.status.st);
      assert m.delivered + [] == m.delivered;
    }
  }

  /** The data frames that have arrived are a prefix of those of the plan. */
  lemma DataSoFar(from: Endpoint, to: Endpoint, plan: Plan, a: seq<Frame>)
    requires Way(from, to, plan) && DataOf(plan.frames) == Flatten(Groups(plan.outs)) && a <= to.seen
    ensures DataOf(a) <= Flatten(Groups(plan.outs))
  {
    hide Run, DataOf, Merges, Flatten, Groups, Suits;
    var w := to.seen + to.inbox;
    DataOfMerged(w, from.sent, from.auto);
    DataOfConcat(from.sent, from.sends);
    DataOfConcat(a, w[|a|..]);
    assert a + w[|a|..] == w;
  }

  // ---------------------------------------------------------------- whole conversations

  ghost predicate Underway(n: Net, first: Net, p: Plan, q: Plan) {
    && Way(n.a, n.b, p) && Way(n.b, n.a, q)
    && n.a.lim == first.a.lim && n.b.lim == first.b.lim
  }

  lemma StartsUnderway(n: Net, p: Plan, q: Plan)
    requires Starts(n, p, q)
    ensures Underway(n, n, p, q)
  {
    hide Suitable, Suits;
    PlanSuits(p, n.a.lim, n.b.lim);
    PlanSuits(q, n.b.lim, n.a.lim);
    assert [] + p.frames == p.frames && [] + q.frames == q.frames;
  }

  lemma {:induction false} RunsStayUnderway(ns: seq<Net>, p: Plan, q: Plan)
    requires IsRun(ns) && Starts(ns[0], p, q)
    ensures Underway(ns[|ns| - 1], ns[0], p, q)
    decreases |ns|
  {
    hide Moves, Way, Starts;
    if |ns| == 1 {
      StartsUnderway(ns[0], p, q);
    } else {
      var n, n' := ns[|ns| - 2], ns[|ns| - 1];
      assert NetStep(ns[|ns| - 2], ns[|ns| - 2 + 1]);
      RunsStayUnderway(ns[..|ns| - 1], p, q);
      if Moves(n.a, n.b, n'.a, n'.b) { MoveKeepsWays(n.a, n.b, n'.a, n'.b, p, q); }
      else { MoveKeepsWays(n.b, n.a, n'.b, n'.a, q, p); }
    }
  }

  /** No Close is under way. */
  predicate Quietly(e: Endpoint) { forall f | f in e.sends + e.inbox + e.seen :: !f.opcode.Close? }

  lemma MoveStaysQuiet(me: Endpoint, peer: Endpoint, me': Endpoint, peer': Endpoint, q: Plan)
    requires Moves(me, peer, me', peer') && Way(peer, me, q) && Quietly(me) && Quietly(peer)
    ensures Quietly(me') && Quietly(peer')
  {
    hide Turn, Run, Merges;
    if Sends(me, peer, me', peer') {
      assert me.sends[0] in me.sends + me.inbox + me.seen;
    } else {
      var f := me.inbox[0];
      assert f in me.sends + me.inbox + me.seen;
      NextSuits(peer, me, q);
      ControlTurn(me.lim, me.reader.value, f);
    }
  }

  lemma {:induction false} RunsStayQuiet(ns: seq<Net>, p: Plan, q: Plan)
    requires IsRun(ns) && Starts(ns[0], p, q) && Quietly(ns[0].a) && Quietly(ns[0].b)
    ensures Quietly(ns[|ns| - 1].a) && Quietly(ns[|ns| - 1].b)
    decreases |ns|
  {
    hide Moves, Way, Starts, Quietly;
    if |ns| > 1 {
      var n, n' := ns[|ns| - 2], ns[|ns| - 1];
      assert NetStep(ns[|ns| - 2], ns[|ns| - 2 + 1]);
      RunsStayQuiet(ns[..|ns| - 1], p, q);
      RunsStayUnderway(ns[..|ns| - 1], p, q);
      if Moves(n.a, n.b, n'.a, n'.b) { MoveStaysQuiet(n.a, n.b, n'.a, n'.b, q); }
      else { MoveStaysQuiet(n.b, n.a, n'.b, n'.a, p); }
    }
  }

  lemma MessagesPrefix(outs: seq<Outgoing>, n: nat)
    requires n <= |outs|
    ensures Messages(outs[..n]) <= Messages(outs)
  {
  }

  /**
   A conversation: over every run of the two endpoints, with the replies of both readers among the
   frames of both users, each user has been delivered a prefix of what the other sends, and no reader
   has failed: one that has stopped has read a Close. A user whose reader lives to the end of the run
   has got everything; and without a Close both do.
   */
  lemma ConversationDelivers(ns: seq<Net>, p: Plan, q: Plan)
    requires IsRun(ns) && Starts(ns[0], p, q)
    ensures var n := ns[|ns| - 1];
      && n.b.delivered <= Messages(p.outs) && n.a.delivered <= Messages(q.outs)
      && (n.a.reader.None? <==> exists f :: f in n.a.seen && f.opcode.Close?)
      && (n.b.reader.None? <==> exists f :: f in n.b.seen && f.opcode.Close?)
      && (Final(n) && n.b.reader.Some? ==> n.b.delivered == Messages(p.outs))
      && (Final(n) && n.a.reader.Some? ==> n.a.delivered == Messages(q.outs))
      && ((forall f | f in p.frames + q.frames :: !f.opcode.Close?) ==> n.a.reader.Some? && n.b.reader.Some?)
  {
    hide Way, Suitable, Messages;
    var n := ns[|ns| - 1];
    RunsStayUnderway(ns, p, q);
    var i := WayDelivers(n.a, n.b, p);
    var j := WayDelivers(n.b, n.a, q);
    MessagesPrefix(p.outs, i);
    MessagesPrefix(q.outs, j);
    if forall f | f in p.frames + q.frames :: !f.opcode.Close? {
      assert Quietly(ns[0].a) && Quietly(ns[0].b) by {
        forall f | f in ns[0].a.sends || f in ns[0].b.sends ensures !f.opcode.Close? {
          assert f in p.frames + q.frames;
        }
      }
      RunsStayQuiet(ns, p, q);
      forall f | f in n.a.seen ensures !f.opcode.Close? { assert f in n.a.sends + n.a.inbox + n.a.seen; }
      forall f | f in n.b.seen ensures !f.opcode.Close? { assert f in n.b.sends + n.b.inbox + n.b.seen; }
    }
  }
}
