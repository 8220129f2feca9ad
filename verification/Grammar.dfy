/**
 What a stream of frames means (sections 5.4 and 5.5 of RFC 6455), stated without the state
 machine, and the proof that `poll_messages` computes it.
 */
module Grammar {
  import opened Basics
  import opened Frames
  import opened Wire
  import opened Deflate
  import opened Reader

  // ---------------------------------------------------------------- control frames

  predicate PingOrPong(f: Frame) { f.opcode.Ping? || f.opcode.Pong? }

  /** The frames without the Pings and Pongs. */
  function Quiet(fs: seq<Frame>): seq<Frame>
    decreases |fs|
  {
    if fs == [] then [] else (if PingOrPong(fs[0]) then [] else [fs[0]]) + Quiet(fs[1..])
  }

  /** What a reader writes by itself: a Pong for each Ping, a Close for a Close. */
  function AutoReplies(fs: seq<Frame>): seq<Frame>
    decreases |fs|
  {
    if fs == [] then [] else AutoReply(fs[0]) + AutoReplies(fs[1..])
  }

  function AutoReply(f: Frame): seq<Frame> {
    if f.opcode.Ping? then [Frame(true, Pong, f.payload, false)]
    else if f.opcode.Close? then [Frame(true, Close, [], false)]
    else []
  }

  lemma AutoReplyAnswers(f: Frame)
    ensures Answers(AutoReply(f), [f])
  {
    assert [f][1..] == [];
    if AutoReply(f) != [] {
      assert AutoReply(f)[1..] == [];
    }
  }

  lemma {:induction false} AutoRepliesAnswer(fs: seq<Frame>)
    ensures Answers(AutoReplies(fs), fs)
    decreases |fs|
  {
    if fs != [] {
      hide Answers, AutoReply, Payloads;
      AutoReplyAnswers(fs[0]);
      AutoRepliesAnswer(fs[1..]);
      AnswersThen(AutoReply(fs[0]), [fs[0]], AutoReplies(fs[1..]), fs[1..]);
      assert [fs[0]] + fs[1..] == fs;
    }
  }

  predicate ControlClean(f: Frame) { f.opcode.IsControl() ==> !f.compressed }

  lemma ControlTurn(lim: Limits, st: RState, f: Frame)
    requires ControlClean(f)
    ensures var t := Turn(lim)(st, f);
      && t.replies == AutoReply(f)
      && (PingOrPong(f) ==> t.delivered == [] && t.status == Open(st))
      && (f.opcode.Close? ==> t.delivered == [] && t.status == Closed)
      && (t.status.Closed? ==> f.opcode.Close?)
  {
    TurnUnfolds(lim, st, f);
  }

  lemma {:induction false} AutoRepliesSnoc(fs: seq<Frame>, f: Frame)
    ensures AutoReplies(fs + [f]) == AutoReplies(fs) + AutoReply(f)
    decreases |fs|
  {
    if fs == [] {
      assert fs + [f] == [f] && [f][1..] == [];
      assert AutoReply(f) + [] == AutoReply(f);
    } else {
      AutoRepliesSnoc(fs[1..], f);
      assert (fs + [f])[1..] == fs[1..] + [f];
    }
  }

  lemma {:induction false} AutoRepliesShort(fs: seq<Frame>)
    requires forall f | f in fs && f.opcode.Ping? :: |f.payload| <= 125
    ensures Short(AutoReplies(fs))
    decreases |fs|
  {
    if fs != [] {
      AutoRepliesShort(fs[1..]);
      ShortConcat(AutoReply(fs[0]), AutoReplies(fs[1..]));
    }
  }

  /** Frame by frame. */
  lemma {:induction false} ControlSilent(lim: Limits, st: RState, fs: seq<Frame>)
    requires forall f | f in fs :: ControlClean(f)
    ensures var t, q := Run(lim, st, fs), Run(lim, st, Quiet(fs));
      && t.delivered == q.delivered && t.status == q.status
      && t.replies == AutoReplies(fs[..Handled(Turn(lim), st, fs)])
      && (t.status.Open? ==> Handled(Turn(lim), st, fs) == |fs|)
    decreases |fs|
  {
    hide Turn, AutoReply;
    if fs != [] {
      var f, step := fs[0], Turn(lim);
      ControlTurn(lim, st, f);
      var t := step(st, f);
      var n := Handled(step, st, fs);
      assert fs[..n][1..] == fs[1..][..n - 1];
      if t.status.Open? {
        ControlSilent(lim, t.status.st, fs[1..]);
        if PingOrPong(f) {
          assert Quiet(fs) == Quiet(fs[1..]);
        } else {
          assert Quiet(fs)[1..] == Quiet(fs[1..]);
        }
      } else {
        assert AutoReplies(fs[..n]) == AutoReply(f) + AutoReplies(fs[..n][1..]);
        assert fs[..n][1..] == [];
      }
    }
  }

  /**
   Control transparency: Pings and Pongs, wherever they stand, change neither the messages
   delivered nor how the run ends, and the replies answer the Pings looked at, in order, none too long
   when the Pings are not.
   */
  lemma ControlTransparency(lim: Limits, st: RState, fs: seq<Frame>)
    requires forall f | f in fs :: ControlClean(f)
    ensures var t, q := Run(lim, st, fs), Run(lim, st, Quiet(fs));
      && t.delivered == q.delivered && t.status == q.status
      && t.replies == AutoReplies(fs[..Handled(Turn(lim), st, fs)])
      && (t.status.Open? ==> Handled(Turn(lim), st, fs) == |fs|)
      && Answers(t.replies, fs[..Handled(Turn(lim), st, fs)])
      && ((forall f | f in fs && f.opcode.Ping? :: |f.payload| <= 125) ==> Short(t.replies))
  {
    hide Turn, Run, AutoReplies, Quiet, Short, Handled, Answers;
    ControlSilent(lim, st, fs);
    AutoRepliesAnswer(fs[..Handled(Turn(lim), st, fs)]);
    if forall f | f in fs && f.opcode.Ping? :: |f.payload| <= 125 {
      AutoRepliesShort(fs[..Handled(Turn(lim), st, fs)]);
    }
  }

  // ---------------------------------------------------------------- the grammar of data frames

  predicate DataFrame(f: Frame) { (f.opcode.IsData() || f.opcode.Continue?) && Rsv1Clean(f) }

  /** start cont* : a message that has begun and not ended. */
  predicate IsPart(t: seq<Frame>) {
    && |t| >= 1
    && t[0].opcode.IsData()
    && (forall i :: 1 <= i < |t| ==> t[i].opcode.Continue?)
    && (forall i :: 0 <= i < |t| ==> !t[i].fin)
  }

  /** single | start cont* final */
  predicate IsWhole(g: seq<Frame>) {
    && |g| >= 1
    && g[0].opcode.IsData()
    && (forall i :: 1 <= i < |g| ==> g[i].opcode.Continue?)
    && (forall i :: 0 <= i < |g| ==> (g[i].fin <==> i == |g| - 1))
  }

  /** fs is a sequence of whole messages followed by at most one unfinished one. */
  ghost predicate Parses(fs: seq<Frame>, gs: seq<seq<Frame>>, tail: seq<Frame>) {
    && fs == Flatten(gs) + tail
    && (forall g | g in gs :: IsWhole(g))
    && (tail == [] || IsPart(tail))
  }

  /** A frame that cannot follow an unfinished message `tail` (or none, if empty). */
  predicate Violates(tail: seq<Frame>, f: Frame) {
    if f.opcode.Continue? then tail == [] else tail != []
  }

  function Payload(fs: seq<Frame>): seq<byte>
    decreases |fs|
  {
    if fs == [] then [] else fs[0].payload + Payload(fs[1..])
  }

  lemma {:induction false} PayloadConcat(a: seq<Frame>, b: seq<Frame>)
    ensures Payload(a + b) == Payload(a) + Payload(b)
    decreases |a|
  {
    if a == [] {
      assert a + b == b;
    } else {
      PayloadConcat(a[1..], b);
      assert (a + b)[1..] == a[1..] + b;
    }
  }

  lemma PayloadSnoc(a: seq<Frame>, f: Frame)
    ensures Payload(a + [f]) == Payload(a) + f.payload
  {
    PayloadConcat(a, [f]);
    assert Payload([f]) == f.payload + Payload([]) by { assert [f][1..] == []; }
    assert f.payload + [] == f.payload;
  }

  /** A whole message on its own: its size, its decompression, its UTF-8. */
  function Meaning(lim: Limits, d: Inflater, g: seq<Frame>): Trace
    requires |g| >= 1
  {
    if |g| >= 2 && |Payload(g)| > lim.maxMessage then Fail(MaxMessageSize)
    else
      match Receive(d, Sent(g[0].compressed, Payload(g)))
      case Err(e) => Fail(e)
      case Ok((m, d')) => Transmit(RState(None, d'), g[0].opcode, m)
  }

  function MeaningAll(lim: Limits, d: Inflater, gs: seq<seq<Frame>>): Trace
    requires forall g | g in gs :: |g| >= 1
    decreases |gs|
  {
    if gs == [] then Trace([], [], Open(RState(None, d)))
    else
      var t := Meaning(lim, d, gs[0]);
      if t.status.Open? then Then(t, MeaningAll(lim, t.status.st.inflater, gs[1..])) else t
  }

  /** An unfinished message, held back; only its continuations are checked against the limit. */
  function PartTrace(lim: Limits, d: Inflater, tail: seq<Frame>): Trace {
    if tail == [] then Trace([], [], Open(RState(None, d)))
    else if |tail| >= 2 && |Payload(tail)| > lim.maxMessage then Fail(MaxMessageSize)
    else Trace([], [], Open(RState(Some(FragmentedMessage(Payload(tail), tail[0].opcode, tail[0].compressed)), d)))
  }

  /** The error for a frame that violates the grammar; decompression comes first. */
  function ViolationError(d: Inflater, f: Frame): Error {
    if f.opcode.Continue? then InvalidContinuationFrame
    else if !f.fin then FragmentedInProgress
    else if f.compressed && Inflate(d, f.payload).Err? then Inflate(d, f.payload).error
    else InvalidFrameFragmentation
  }

  /** Whole messages, an unfinished one, and possibly a frame that violates the grammar. */
  function Verdict(lim: Limits, d: Inflater, gs: seq<seq<Frame>>, tail: seq<Frame>, more: seq<Frame>): Trace
    requires forall g | g in gs :: |g| >= 1
  {
    var a := MeaningAll(lim, d, gs);
    if !a.status.Open? then a
    else
      var b := PartTrace(lim, a.status.st.inflater, tail);
      if !b.status.Open? || more == [] then Then(a, b)
      else Then(a, Then(b, Fail(ViolationError(a.status.st.inflater, more[0]))))
  }

  // ---------------------------------------------------------------- the state machine computes it

  lemma PayloadOne(f: Frame)
    ensures Payload([f]) == f.payload
  {
    assert [f][1..] == [] && f.payload + [] == f.payload;
  }

  /** One continuation frame, against the pending message it extends. */
  lemma ContinuationStep(lim: Limits, d: Inflater, p: FragmentedMessage, f: Frame)
    requires f.opcode.Continue? && !(f.compressed && f.fin)
    ensures Step(lim, RState(Some(p), d), f) ==
            var p' := p.(fragments := p.fragments + f.payload);
            if |p'.fragments| > lim.maxMessage then Fail(MaxMessageSize)
            else if f.fin then Complete(RState(Some(p), d), p')
            else Trace([], [], Open(RState(Some(p'), d)))
  {
  }

  lemma {:induction false} RunPart(lim: Limits, d: Inflater, t: seq<Frame>)
    requires IsPart(t)
    ensures Run(lim, RState(None, d), t) == PartTrace(lim, d, t)
    decreases |t|
  {
    hide Step, Run;
    if |t| == 1 {
      assert t == [t[0]];
      RunOne(lim, RState(None, d), t[0]);
      PayloadOne(t[0]);
      StartStep(lim, d, t[0]);
    } else {
      var t', f := t[..|t| - 1], t[|t| - 1];
      assert t == t' + [f];
      RunPart(lim, d, t');
      RunSnoc(lim, RState(None, d), t', f);
      PayloadSnoc(t', f);
      var u := PartTrace(lim, d, t');
      if u.status.Open? {
        var p := u.status.st.pending.value;
        assert u.status.st == RState(Some(p), d);
        ContinuationStep(lim, d, p, f);
        if |Payload(t)| <= lim.maxMessage { ThenNothing(Step(lim, u.status.st, f), u.status.st); }
      }
    }
  }

  lemma StartStep(lim: Limits, d: Inflater, f: Frame)
    requires f.opcode.IsData() && !f.fin
    ensures Step(lim, RState(None, d), f) ==
            Trace([], [], Open(RState(Some(FragmentedMessage(f.payload, f.opcode, f.compressed)), d)))
  {
  }

  lemma SingleStep(lim: Limits, d: Inflater, f: Frame)
    requires f.opcode.IsData() && f.fin
    ensures Step(lim, RState(None, d), f) ==
            match Receive(d, Sent(f.compressed, f.payload))
            case Err(e) => Fail(e)
            case Ok((m, d')) => Transmit(RState(None, d'), f.opcode, m)
  {
    hide Inflate;
  }

  /** The two places where a message is decompressed agree: what counts is the whole payload. */
  lemma RunWhole(lim: Limits, d: Inflater, g: seq<Frame>)
    requires IsWhole(g) && AllRsv1Clean(g)
    ensures Run(lim, RState(None, d), g) == Meaning(lim, d, g)
  {
    hide Step, Run, Inflate, Transmit;
    if |g| == 1 {
      assert g == [g[0]];
      RunOne(lim, RState(None, d), g[0]);
      PayloadOne(g[0]);
      SingleStep(lim, d, g[0]);
    } else {
      var t, f := g[..|g| - 1], g[|g| - 1];
      assert g == t + [f];
      RunPart(lim, d, t);
      RunSnoc(lim, RState(None, d), t, f);
      PayloadSnoc(t, f);
      var u := PartTrace(lim, d, t);
      if u.status.Open? {
        var p := u.status.st.pending.value;
        assert u.status.st == RState(Some(p), d);
        assert Rsv1Clean(f);
        ContinuationStep(lim, d, p, f);
        ThenNothing(Step(lim, u.status.st, f), u.status.st);
      }
    }
  }

  lemma MeaningOpen(lim: Limits, d: Inflater, g: seq<Frame>)
    requires |g| >= 1
    ensures var t := Meaning(lim, d, g); t.replies == [] && (t.status.Open? ==> t.status.st.pending.None?)
    ensures !Meaning(lim, d, g).status.Closed?
  {
  }

  lemma {:induction false} RunWholes(lim: Limits, d: Inflater, gs: seq<seq<Frame>>, rest: seq<Frame>)
    requires forall g | g in gs :: |g| >= 1 && IsWhole(g) && AllRsv1Clean(g)
    ensures Run(lim, RState(None, d), Flatten(gs) + rest) ==
            var a := MeaningAll(lim, d, gs);
            if a.status.Open? then Then(a, Run(lim, a.status.st, rest)) else a
    ensures var a := MeaningAll(lim, d, gs); a.status.Open? ==> a.status.st.pending.None?
    decreases |gs|
  {
    hide Run, Meaning;
    if gs == [] {
      assert Flatten(gs) + rest == rest;
      ThenNothing(Run(lim, RState(None, d), rest), RState(None, d));
    } else {
      var g, more := gs[0], Flatten(gs[1..]) + rest;
      assert Flatten(gs) + rest == g + more;
      RunConcat(lim, RState(None, d), g, more);
      RunWhole(lim, d, g);
      MeaningOpen(lim, d, g);
      var t := Meaning(lim, d, g);
      if t.status.Open? {
        var d' := t.status.st.inflater;
        assert t.status.st == RState(None, d');
        RunWholes(lim, d', gs[1..], rest);
        var a := MeaningAll(lim, d', gs[1..]);
        if a.status.Open? { ThenAssociative(t, a, Run(lim, a.status.st, rest)); }
      }
    }
  }

  // ---------------------------------------------------------------- every stream has exactly one reading

  lemma FlattenOne(gs: seq<seq<Frame>>, g: seq<Frame>)
    ensures Flatten(gs + [g]) == Flatten(gs) + g
  {
    FlattenConcat(gs, [g]);
    assert [g][1..] == [];
    assert g + [] == g;
  }

  /** A frame that does not violate the grammar extends the reading of what came before. */
  lemma ParsesSnoc(fs: seq<Frame>, gs: seq<seq<Frame>>, tail: seq<Frame>, f: Frame)
    returns (gs': seq<seq<Frame>>, tail': seq<Frame>)
    requires Parses(fs, gs, tail) && !Violates(tail, f) && DataFrame(f)
    ensures Parses(fs + [f], gs', tail')
  {
    var t := tail + [f];
    assert Flatten(gs) + t == fs + [f];
    if f.fin {
      gs', tail' := gs + [t], [];
      FlattenOne(gs, t);
      assert IsWhole(t);
      assert Flatten(gs') + [] == Flatten(gs');
    } else {
      gs', tail' := gs, t;
      assert IsPart(t);
    }
  }

  /** Reading from the left: up to the end, or to the first frame that violates the grammar. */
  lemma {:induction false} Read(fs: seq<Frame>) returns (gs: seq<seq<Frame>>, tail: seq<Frame>, k: nat)
    requires forall f | f in fs :: DataFrame(f)
    ensures k <= |fs| && Parses(fs[..k], gs, tail)
    ensures k < |fs| ==> Violates(tail, fs[k])
    decreases |fs|
  {
    if fs == [] {
      gs, tail, k := [], [], 0;
    } else {
      var n := |fs| - 1;
      var init, f := fs[..n], fs[n];
      gs, tail, k := Read(init);
      assert init[..k] == fs[..k];
      if k == n {
        assert init[..n] == init && fs[..n] + [f] == fs[..n + 1];
        if !Violates(tail, f) {
          gs, tail := ParsesSnoc(init, gs, tail, f);
          k := n + 1;
        }
      }
    }
  }

  lemma PartHasNoEnd(fs: seq<Frame>, gs: seq<seq<Frame>>, tail: seq<Frame>)
    requires Parses(fs, gs, tail)
    ensures gs == [] ==> fs == tail && forall i :: 0 <= i < |fs| ==> !fs[i].fin
    ensures gs != [] ==> |gs[0]| <= |fs| && gs[0] == fs[..|gs[0]|] && IsWhole(gs[0])
    ensures gs != [] ==> Parses(fs[|gs[0]|..], gs[1..], tail)
    ensures gs != [] <==> exists i :: 0 <= i < |fs| && fs[i].fin
  {
    if gs != [] {
      assert fs == gs[0] + (Flatten(gs[1..]) + tail);
      assert gs[0] in gs;
      assert fs[|gs[0]| - 1] == gs[0][|gs[0]| - 1];
    }
  }

  /** Two readings of the same frames are the same. */
  lemma {:induction false} OneReading(fs: seq<Frame>, gs: seq<seq<Frame>>, tail: seq<Frame>,
                                      gs': seq<seq<Frame>>, tail': seq<Frame>)
    requires Parses(fs, gs, tail) && Parses(fs, gs', tail')
    ensures gs == gs' && tail == tail'
    decreases |gs|
  {
    PartHasNoEnd(fs, gs, tail);
    PartHasNoEnd(fs, gs', tail');
    if gs != [] && gs' != [] {
      SameFirst(fs, gs[0], gs'[0]);
      OneReading(fs[|gs[0]|..], gs[1..], tail, gs'[1..], tail');
      assert gs == [gs[0]] + gs[1..] && gs' == [gs'[0]] + gs'[1..];
    }
  }

  lemma SameFirst(fs: seq<Frame>, g: seq<Frame>, g': seq<Frame>)
    requires |g| <= |fs| && g == fs[..|g|] && IsWhole(g)
    requires |g'| <= |fs| && g' == fs[..|g'|] && IsWhole(g')
    ensures g == g'
  {
    var n, n' := |g| - 1, |g'| - 1;
    assert fs[n] == g[n] && fs[n'] == g'[n'];
    assert forall i :: 0 <= i < |g| ==> (fs[i].fin <==> i == n);
    assert forall i :: 0 <= i < |g'| ==> (fs[i].fin <==> i == n');
  }

  /** A frame that is followed by, or ends, a longer reading does not violate the grammar. */
  lemma {:induction false} LongerReading(fs: seq<Frame>, gs: seq<seq<Frame>>, tail: seq<Frame>,
                                         f: Frame, more: seq<Frame>,
                                         gs': seq<seq<Frame>>, tail': seq<Frame>)
    requires Parses(fs, gs, tail) && Parses(fs + [f] + more, gs', tail')
    ensures !Violates(tail, f)
    decreases |gs|
  {
    hide Parses, IsWhole, IsPart, Flatten, Violates;
    var all := fs + [f] + more;
    PartHasNoEnd(fs, gs, tail);
    PartHasNoEnd(all, gs', tail');
    if gs != [] {
      var n := |gs[0]|;
      WholeEnds(gs[0]);
      assert all[..n] == fs[..n];
      assert all[n - 1] == gs[0][n - 1];
      SameFirst(all, gs[0], gs'[0]);
      assert all[n..] == fs[n..] + [f] + more;
      LongerReading(fs[n..], gs[1..], tail, f, more, gs'[1..], tail');
    } else {
      FirstPart(fs, gs, tail);
      FirstPart(all, gs', tail');
      var first := if gs' != [] then gs'[0] else tail';
      assert first == all[..|first|];
      LongerFirst(tail, f, more, first, gs' != []);
    }
  }

  lemma FirstPart(fs: seq<Frame>, gs: seq<seq<Frame>>, tail: seq<Frame>)
    requires Parses(fs, gs, tail)
    ensures gs != [] ==> IsWhole(gs[0])
    ensures tail == [] || IsPart(tail)
  {
  }

  lemma WholeEnds(g: seq<Frame>)
    requires IsWhole(g)
    ensures |g| >= 1 && g[|g| - 1].fin
  {
  }

  /** f is reached inside the part of the longer reading that starts where the frames do. */
  lemma LongerFirst(tail: seq<Frame>, f: Frame, more: seq<Frame>, first: seq<Frame>, whole: bool)
    requires tail == [] || IsPart(tail)
    requires if whole then IsWhole(first) else IsPart(first) && |first| == |tail + [f] + more|
    requires |first| <= |tail + [f] + more| && first == (tail + [f] + more)[..|first|]
    ensures !Violates(tail, f)
  {
    var all := tail + [f] + more;
    assert forall i :: 0 <= i < |tail| ==> all[i] == tail[i];
    assert first[|first| - 1] == all[|first| - 1];
    assert |first| > |tail|;
    assert first[|tail|] == all[|tail|] == f;
  }

  /**
   Reassembly: a stream of data frames has one longest reading as whole messages and an unfinished
   one, and `poll_messages` does exactly what that reading says, up to the first frame that
   violates the grammar, the limits, the compression or UTF-8, with the matching error.
   */
  lemma Reassembly(lim: Limits, d: Inflater, fs: seq<Frame>) returns (gs: seq<seq<Frame>>, tail: seq<Frame>, k: nat)
    requires forall f | f in fs :: DataFrame(f)
    ensures k <= |fs| && Parses(fs[..k], gs, tail) && (k < |fs| ==> Violates(tail, fs[k]))
    ensures Run(lim, RState(None, d), fs) == Verdict(lim, d, gs, tail, fs[k..])
    ensures forall n, gs', tail' :: k < n <= |fs| ==> !Parses(fs[..n], gs', tail')
    ensures forall gs', tail' :: Parses(fs[..k], gs', tail') ==> gs' == gs && tail' == tail
  {
    gs, tail, k := Read(fs);
    forall n, gs', tail' | k < n <= |fs| ensures !Parses(fs[..n], gs', tail') {
      var f, more := fs[k], fs[k + 1..n];
      assert fs[..n] == fs[..k] + [f] + more;
      if Parses(fs[..k] + [f] + more, gs', tail') { LongerReading(fs[..k], gs, tail, f, more, gs', tail'); }
    }
    forall gs', tail' | Parses(fs[..k], gs', tail') ensures gs' == gs && tail' == tail {
      OneReading(fs[..k], gs, tail, gs', tail');
    }
    assert fs == Flatten(gs) + (tail + fs[k..]);
    ReadingClean(fs[..k], gs, tail);
    RunReading(lim, d, gs, tail, fs[k..]);
  }

  /** Frames without a Close: leave out the Pings and Pongs, and read the rest by the grammar. */
  lemma FramesMeaning(lim: Limits, d: Inflater, fs: seq<Frame>) returns (gs: seq<seq<Frame>>, tail: seq<Frame>, k: nat)
    requires forall f | f in fs :: Rsv1Clean(f) && !f.opcode.Close?
    ensures var q := Quiet(fs); k <= |q| && Parses(q[..k], gs, tail) && (k < |q| ==> Violates(tail, q[k]))
    ensures var t, v := Run(lim, RState(None, d), fs), Verdict(lim, d, gs, tail, Quiet(fs)[k..]);
      t.delivered == v.delivered && t.status == v.status
  {
    hide Run, Turn, Verdict, Parses, AutoReplies, Violates;
    QuietMembers(fs);
    ControlTransparency(lim, RState(None, d), fs);
    gs, tail, k := Reassembly(lim, d, Quiet(fs));
  }

  /** The frames before the first Close. */
  function BeforeClose(fs: seq<Frame>): (r: seq<Frame>)
    ensures r <= fs && (forall f | f in r :: !f.opcode.Close?)
    ensures |r| < |fs| ==> fs[|r|].opcode.Close?
    decreases |fs|
  {
    if fs == [] || fs[0].opcode.Close? then [] else [fs[0]] + BeforeClose(fs[1..])
  }

  /** The frames up to the first Close, that one included. */
  function ThroughClose(fs: seq<Frame>): seq<Frame> {
    var n := |BeforeClose(fs)|;
    if n < |fs| then fs[..n + 1] else fs
  }

  /** Frames that end with a Close: the run does not go on. */
  lemma RunToClose(lim: Limits, st: RState, a: seq<Frame>, c: Frame)
    requires c.opcode.Close? && ControlClean(c)
    ensures var t, u := Run(lim, st, a), Run(lim, st, a + [c]);
      && u.delivered == t.delivered && u.status == (if t.status.Open? then Closed else t.status)
      && (t.status.Open? ==> Handled(Turn(lim), st, a + [c]) == |a| + 1)
  {
    hide Step;
    RunSnoc(lim, st, a, c);
    HandledConcat(Turn(lim), st, a, [c]);
    var t := Run(lim, st, a);
    if t.status.Open? {
      ControlTurn(lim, t.status.st, c);
      assert t.delivered + [] == t.delivered;
      assert [c][1..] == [];
    }
  }

  lemma RunStopped(lim: Limits, st: RState, fs: seq<Frame>, more: seq<Frame>)
    requires !Run(lim, st, fs).status.Open?
    ensures Run(lim, st, fs + more) == Run(lim, st, fs)
    ensures Handled(Turn(lim), st, fs + more) == Handled(Turn(lim), st, fs)
  {
    hide RunBy, Handled;
    RunConcat(lim, st, fs, more);
    HandledConcat(Turn(lim), st, fs, more);
  }

  lemma ThroughCloseSplits(fs: seq<Frame>) returns (more: seq<Frame>)
    ensures fs == ThroughClose(fs) + more && |BeforeClose(fs)| <= |fs|
    ensures var a, b := BeforeClose(fs), ThroughClose(fs);
      if |a| < |fs| then fs[|a|].opcode.Close? && fs[|a|] in b && b == a + [fs[|a|]] && |b| == |a| + 1
      else b == a == fs
  {
    more := fs[|ThroughClose(fs)|..];
  }

  /** A run through a Close never goes on. */
  lemma RunThroughClose(lim: Limits, st: RState, fs: seq<Frame>)
    requires forall f | f in ThroughClose(fs) :: ControlClean(f)
    ensures var t, u, n := Run(lim, st, BeforeClose(fs)), Run(lim, st, fs), Handled(Turn(lim), st, fs);
      && u.delivered == t.delivered
      && u.status == (if t.status.Open? && |BeforeClose(fs)| < |fs| then Closed else t.status)
      && n <= |ThroughClose(fs)| && u.replies == AutoReplies(ThroughClose(fs)[..n])
      && (t.status.Open? ==> n == |ThroughClose(fs)|)
  {
    hide Turn, Run, AutoReplies, AutoReply, ControlClean, Handled, Quiet, Short, BeforeClose, ThroughClose;
    var a, b := BeforeClose(fs), ThroughClose(fs);
    var more := ThroughCloseSplits(fs);
    ControlTransparency(lim, st, b);
    if |a| < |fs| {
      RunToClose(lim, st, a, fs[|a|]);
      RunStopped(lim, st, b, more);
    }
  }

  /**
   Any bytes whatever: take the frames they begin with, up to the first Close, leave out the Pings
   and Pongs, and read the rest by the grammar. That reading is what is delivered, and its first
   violation, if any, is the error; otherwise the loop ends at the Close, or with the error of the
   bytes that are no frame. The replies answer the Pings and the Close among the frames looked at, and
   none of them is too long.
   */
  lemma StreamMeaning(lim: Limits, d: Inflater, input: seq<byte>)
    returns (gs: seq<seq<Frame>>, tail: seq<Frame>, k: nat)
    requires lim.deflate ==> forall f | f in ThroughClose(FramingOf(lim, input).frames) :: Rsv1Clean(f)
    ensures var q := Quiet(BeforeClose(FramingOf(lim, input).frames));
      k <= |q| && Parses(q[..k], gs, tail) && (k < |q| ==> Violates(tail, q[k]))
    ensures var stream, r := FramingOf(lim, input), Poll(lim, RState(None, d), input); var fs := stream.frames;
      var v := Verdict(lim, d, gs, tail, Quiet(BeforeClose(fs))[k..]);
      var n := if v.status.Open? then |ThroughClose(fs)| else Handled(Turn(lim), RState(None, d), fs);
      && r.trace.delivered == v.delivered
      && r.trace.status == (if !v.status.Open? then v.status
                            else if |BeforeClose(fs)| < |fs| then Closed else Failed(stream.error))
      && n <= |ThroughClose(fs)| && r.trace.replies == AutoReplies(ThroughClose(fs)[..n])
      && Answers(r.trace.replies, ThroughClose(fs)[..n]) && Short(r.trace.replies)
      && r.rest == Beyond(lim, input, n)
  {
    hide Run, Poll, Turn, Verdict, Parses, AutoReplies, Violates, FramingOf, Beyond, Short, Quiet, Answers;
    var st, stream := RState(None, d), FramingOf(lim, input);
    var fs := stream.frames;
    var a, b := BeforeClose(fs), ThroughClose(fs);
    FramesLegal(lim, input);
    forall f | f in b ensures Rsv1Clean(f) { assert Legal(lim, f); }
    forall f | f in a ensures f in b { }
    gs, tail, k := FramesMeaning(lim, d, a);
    RunThroughClose(lim, st, fs);
    PollRuns(lim, st, input);
    var n := Handled(Turn(lim), st, fs);
    forall f | f in b[..n] && f.opcode.Ping? ensures |f.payload| <= 125 { assert Legal(lim, f); }
    AutoRepliesShort(b[..n]);
    AutoRepliesAnswer(b[..n]);
    var t := Run(lim, st, fs);
    assert t.delivered + [] == t.delivered && t.replies + [] == t.replies;
  }

  lemma {:induction false} QuietMembers(fs: seq<Frame>)
    ensures forall f | f in Quiet(fs) :: f in fs && !PingOrPong(f)
    decreases |fs|
  {
    if fs != [] { QuietMembers(fs[1..]); }
  }

  lemma {:induction false} ReadingClean(fs: seq<Frame>, gs: seq<seq<Frame>>, tail: seq<Frame>)
    requires Parses(fs, gs, tail) && forall f | f in fs :: DataFrame(f)
    ensures forall g | g in gs :: AllRsv1Clean(g)
    ensures AllRsv1Clean(tail)
    decreases |gs|
  {
    forall f | f in tail ensures Rsv1Clean(f) { assert f in fs; }
    PartHasNoEnd(fs, gs, tail);
    if gs != [] {
      ReadingClean(fs[|gs[0]|..], gs[1..], tail);
      forall f | f in gs[0] ensures Rsv1Clean(f) { assert f in fs; }
      assert gs == [gs[0]] + gs[1..];
    }
  }

  lemma RunReading(lim: Limits, d: Inflater, gs: seq<seq<Frame>>, tail: seq<Frame>, more: seq<Frame>)
    requires forall g | g in gs :: |g| >= 1 && IsWhole(g) && AllRsv1Clean(g)
    requires tail == [] || (IsPart(tail) && AllRsv1Clean(tail))
    requires forall f | f in more :: DataFrame(f)
    requires more != [] ==> Violates(tail, more[0])
    ensures Run(lim, RState(None, d), Flatten(gs) + (tail + more)) == Verdict(lim, d, gs, tail, more)
  {
    hide Run, Step;
    RunWholes(lim, d, gs, tail + more);
    var a := MeaningAll(lim, d, gs);
    if a.status.Open? {
      var d' := a.status.st.inflater;
      assert a.status.st == RState(None, d');
      RunTail(lim, d', tail, more);
    }
  }

  lemma RunTail(lim: Limits, d: Inflater, tail: seq<Frame>, more: seq<Frame>)
    requires tail == [] || (IsPart(tail) && AllRsv1Clean(tail))
    requires more != [] ==> DataFrame(more[0]) && Violates(tail, more[0])
    ensures Run(lim, RState(None, d), tail + more) ==
            var b := PartTrace(lim, d, tail);
            if !b.status.Open? || more == [] then b else Then(b, Fail(ViolationError(d, more[0])))
  {
    hide Run, Step;
    RunConcat(lim, RState(None, d), tail, more);
    var b := PartTrace(lim, d, tail);
    if tail == [] {
      assert tail + more == more;
      RunEmpty(lim, RState(None, d));
    } else {
      RunPart(lim, d, tail);
    }
    if b.status.Open? {
      var st := b.status.st;
      if more == [] {
        RunEmpty(lim, st);
        ThenNothing(b, st);
      } else {
        RunCons(lim, st, more[0], more[1..]);
        assert more == [more[0]] + more[1..];
        ViolationStep(lim, st, more[0]);
      }
    }
  }

  lemma ViolationStep(lim: Limits, st: RState, f: Frame)
    requires DataFrame(f)
    requires f.opcode.Continue? <==> st.pending.None?
    ensures Step(lim, st, f) == Fail(ViolationError(st.inflater, f))
  {
    hide Inflate;
  }
}
