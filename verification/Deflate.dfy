/**
 The compression context of permessage-deflate (src/encoder.rs, src/decoder.rs).

 DEFLATE itself is not modelled. A stream of bytes stands for a list of literals and
 back-references, through an arbitrary function `parse`; a compressor may produce any stream
 whose references stay inside its window and its history and that expands to the message.
 What is modelled is the context: who keeps which history, when it is reset, and the trailer.
 */
module Deflate {
  import opened Basics
  import opened Wire

  const TRAILER: seq<byte> := [0, 0, 255, 255]

  datatype Token = Literal(b: byte) | Copy(dist: nat, len: nat)

  type Parse = seq<byte> -> Option<seq<Token>>

  /** Repeats, byte by byte, what lies `dist` bytes back; the copy may overlap its own output. */
  function CopyOut(hist: seq<byte>, dist: nat, len: nat): seq<byte>
    requires 1 <= dist <= |hist|
    decreases len
  {
    if len == 0 then []
    else var b := hist[|hist| - dist]; [b] + CopyOut(hist + [b], dist, len - 1)
  }

  lemma {:induction false} CopyOutSize(hist: seq<byte>, dist: nat, len: nat)
    requires 1 <= dist <= |hist|
    ensures |CopyOut(hist, dist, len)| == len
    decreases len
  {
    if len > 0 { CopyOutSize(hist + [hist[|hist| - dist]], dist, len - 1); }
  }

  function ExpandToken(window: nat, hist: seq<byte>, t: Token): Option<seq<byte>> {
    match t
    case Literal(b) => Some([b])
    case Copy(dist, len) =>
      if 1 <= dist <= |hist| && dist <= window && 3 <= len <= 258 then Some(CopyOut(hist, dist, len)) else None
  }

  /**
   A back-reference is accepted if it stays within the history and the window and has a length that
   DEFLATE knows; it then repeats, byte for byte, what lies that far back, its own output included.
   */
  lemma CopyMeaning(window: nat, hist: seq<byte>, dist: nat, len: nat)
    ensures var r := ExpandToken(window, hist, Copy(dist, len));
      && (r.Some? <==> 1 <= dist <= |hist| && dist <= window && 3 <= len <= 258)
      && (r.Some? ==> |r.value| == len
                      && forall i :: 0 <= i < len ==> r.value[i] == (hist + r.value)[|hist| - dist + i])
  {
    if 1 <= dist <= |hist| { CopyOutBytes(hist, dist, len); }
  }

  lemma {:induction false} CopyOutBytes(hist: seq<byte>, dist: nat, len: nat)
    requires 1 <= dist <= |hist|
    ensures var out := CopyOut(hist, dist, len);
      |out| == len && forall i :: 0 <= i < len ==> out[i] == (hist + out)[|hist| - dist + i]
    decreases len
  {
    if len > 0 {
      var b := hist[|hist| - dist];
      var more := CopyOut(hist + [b], dist, len - 1);
      CopyOutBytes(hist + [b], dist, len - 1);
      var out := [b] + more;
      assert CopyOut(hist, dist, len) == out;
      hide CopyOut;
      assert hist + [b] + more == hist + out;
      forall i | 0 <= i < len ensures out[i] == (hist + out)[|hist| - dist + i] {
        if i > 0 { assert more[i - 1] == (hist + [b] + more)[|hist + [b]| - dist + (i - 1)]; }
      }
    }
  }

  /** The output of a token list, or None when a reference leaves the window or the history. */
  function Expand(window: nat, hist: seq<byte>, ts: seq<Token>): Option<seq<byte>>
    decreases |ts|
  {
    if ts == [] then Some([])
    else
      match ExpandToken(window, hist, ts[0])
      case None => None
      case Some(out) =>
        match Expand(window, hist + out, ts[1..])
        case None => None
        case Some(more) => Some(out + more)
  }

  datatype Deflater = Deflater(parse: Parse, reset: bool, bits: nat, history: seq<byte>)
  datatype Inflater = Inflater(parse: Parse, reset: bool, bits: nat, history: seq<byte>)

  /** `wire` is something the compressor may return for the message m. */
  ghost predicate Deflates(e: Deflater, m: seq<byte>, wire: seq<byte>) {
    && wire != []
    && e.parse(wire + TRAILER).Some?
    && Expand(Pow2(e.bits), e.history, e.parse(wire + TRAILER).value) == Some(m)
  }

  /** The encoder resets after a message. */
  function AfterDeflate(e: Deflater, m: seq<byte>): Deflater {
    e.(history := if e.reset then [] else e.history + m)
  }

  /** The decoder resets before a message. */
  function Inflate(d: Inflater, wire: seq<byte>): Result<(seq<byte>, Inflater)> {
    var hist := if d.reset then [] else d.history;
    match d.parse(wire + TRAILER)
    case None => Err(IOError)
    case Some(ts) =>
      match Expand(Pow2(d.bits), hist, ts)
      case None => Err(IOError)
      case Some(m) => Ok((m, d.(history := hist + m)))
  }

  // ---------------------------------------------------------------- the two objects

  /** The window sizes the library accepts; it panics on others. */
  predicate ZlibBits(bits: Option<byte>) { bits.Some? ==> 9 <= bits.value <= 15 }

  /** The library's choice of stream for a history and a payload, trailer included. */
  type Library = (seq<byte>, seq<byte>) -> seq<byte>

  /** What is taken from the library: a sync-flushed stream that stands for the payload. */
  ghost predicate LawfulLibrary(parse: Parse, library: Library, bits: nat) {
    forall h, m ::
      m != [] ==>
        var s := library(h, m);
        && |s| > |TRAILER| && s[|s| - |TRAILER|..] == TRAILER && parse(s).Some?
        && Expand(Pow2(bits), h, parse(s).value) == Some(m)
  }

  class Encoder {
    const parse: Parse
    const resetContext: bool
    const windowBits: nat
    const library: Library
    var history: seq<byte>

    constructor (parse: Parse, library: Library, resetContext: bool, windowBits: Option<byte>)
      requires ZlibBits(windowBits)
      ensures this.library == library
      ensures State() == Deflater(parse, resetContext, if windowBits.Some? then windowBits.value else 15, [])
    {
      this.parse, this.library, this.resetContext := parse, library, resetContext;
      this.windowBits := if windowBits.Some? then windowBits.value else 15;
      this.history := [];
    }

    ghost function State(): Deflater
      reads this
    {
      Deflater(parse, resetContext, windowBits, history)
    }

    ghost predicate Lawful() { LawfulLibrary(parse, library, windowBits) }

    method Compress(payload: seq<byte>) returns (compressedData: seq<byte>)
      requires Lawful()
      modifies this
      ensures payload == [] ==> compressedData == [] && State() == old(State())
      ensures payload != [] ==> Deflates(old(State()), payload, compressedData)
                                && State() == AfterDeflate(old(State()), payload)
      ensures payload != [] ==> library(old(history), payload) == compressedData + [0x00, 0x00, 0xFF, 0xFF]
    {
      if payload == [] {
        return [];
      }
      compressedData := library(history, payload);
      ghost var stream := compressedData;
      compressedData := compressedData[..|compressedData| - 4];
      assert compressedData + TRAILER == stream;
      history := history + payload;
      if resetContext {
        history := [];
      }
    }
  }

  class Decoder {
    const parse: Parse
    const resetContext: bool
    const windowBits: nat
    var history: seq<byte>

    constructor (parse: Parse, resetContext: bool, windowBits: Option<byte>)
      requires ZlibBits(windowBits)
      ensures State() == Inflater(parse, resetContext, if windowBits.Some? then windowBits.value else 15, [])
    {
      this.parse, this.resetContext := parse, resetContext;
      this.windowBits := if windowBits.Some? then windowBits.value else 15;
      this.history := [];
    }

    ghost function State(): Inflater
      reads this
    {
      Inflater(parse, resetContext, windowBits, history)
    }

    method Decompress(payload: seq<byte>) returns (r: Result<seq<byte>>)
      modifies this
      ensures match Inflate(old(State()), payload)
              case Err(e) => r == Err(e)
              case Ok((m, d)) => r == Ok(m) && State() == d
      ensures parse(payload + [0x00, 0x00, 0xFF, 0xFF]).None? ==> r == Err(IOError)
      ensures r.Ok? ==> history == (if resetContext then [] else old(history)) + r.value
    {
      var extended := payload + TRAILER;
      if resetContext {
        history := [];
      }
      var tokens := parse(extended);
      if tokens.None? {
        return Err(IOError);
      }
      var decompressedData := Expand(Pow2(windowBits), history, tokens.value);
      if decompressedData.None? {
        return Err(IOError);
      }
      history := history + decompressedData.value;
      return Ok(decompressedData.value);
    }
  }

  // ---------------------------------------------------------------- one message

  lemma {:induction false} CopyOutMoreHistory(prefix: seq<byte>, hist: seq<byte>, dist: nat, len: nat)
    requires 1 <= dist <= |hist|
    ensures CopyOut(prefix + hist, dist, len) == CopyOut(hist, dist, len)
    decreases len
  {
    if len > 0 {
      var b := hist[|hist| - dist];
      assert (prefix + hist)[|prefix + hist| - dist] == b;
      CopyOutMoreHistory(prefix, hist + [b], dist, len - 1);
      assert prefix + hist + [b] == prefix + (hist + [b]);
    }
  }

  /** What expands in some window and history expands alike in a larger window and a longer history. */
  lemma {:induction false} ExpandMoreHistory(w: nat, w': nat, prefix: seq<byte>, hist: seq<byte>, ts: seq<Token>)
    requires w <= w' && Expand(w, hist, ts).Some?
    ensures Expand(w', prefix + hist, ts) == Expand(w, hist, ts)
    decreases |ts|
  {
    if ts != [] {
      var out := ExpandToken(w, hist, ts[0]).value;
      if ts[0].Copy? {
        CopyOutMoreHistory(prefix, hist, ts[0].dist, ts[0].len);
      }
      ExpandMoreHistory(w, w', prefix, hist + out, ts[1..]);
      assert prefix + hist + out == prefix + (hist + out);
    }
  }

  lemma {:induction false} Pow2Monotone(a: nat, b: nat)
    requires a <= b
    ensures Pow2(a) <= Pow2(b) && (a < b ==> Pow2(a) < Pow2(b))
    decreases b
  {
    if a < b {
      Pow2Monotone(a, b - 1);
      Pow2Positive(b - 1);
    }
  }

  lemma {:induction false} Pow2Positive(k: nat)
    ensures Pow2(k) >= 1
  {
    if k > 0 { Pow2Positive(k - 1); }
  }

  predicate IsSuffix(s: seq<byte>, t: seq<byte>) { |s| <= |t| && t[|t| - |s|..] == s }

  /** The settings under which a decoder follows an encoder. */
  predicate Compatible(eReset: bool, eBits: nat, dReset: bool, dBits: nat) {
    eBits <= dBits && (dReset ==> eReset)
  }

  /** The relation between the two histories that every message preserves. */
  ghost predicate InSync(e: Deflater, d: Inflater) {
    && e.parse == d.parse
    && Compatible(e.reset, e.bits, d.reset, d.bits)
    && (e.reset ==> e.history == [])
    && IsSuffix(e.history, d.history)
  }

  lemma InflateDeflated(e: Deflater, d: Inflater, m: seq<byte>, wire: seq<byte>)
    requires InSync(e, d) && Deflates(e, m, wire)
    ensures Inflate(d, wire).Ok? && Inflate(d, wire).value.0 == m
    ensures InSync(AfterDeflate(e, m), Inflate(d, wire).value.1)
  {
    hide Expand, Pow2;
    var hist := if d.reset then [] else d.history;
    var prefix := hist[..|hist| - |e.history|];
    assert hist == prefix + e.history;
    Pow2Monotone(e.bits, d.bits);
    ExpandMoreHistory(Pow2(e.bits), Pow2(d.bits), prefix, e.history, e.parse(wire + TRAILER).value);
    assert hist + m == prefix + (e.history + m);
  }

  // ---------------------------------------------------------------- whole runs

  /** A message as it is put into frames: compressed or not, and the bytes to be cut up. */
  datatype Sent = Sent(compressed: bool, wire: seq<byte>)

  /** `check_compression`: only payloads longer than one byte are compressed, and only if enabled. */
  predicate Compresses(on: bool, m: seq<byte>) { on && |m| > 1 }

  ghost predicate Prepares(on: bool, e: Deflater, m: seq<byte>, s: Sent) {
    if Compresses(on, m) then s.compressed && Deflates(e, m, s.wire) else s == Sent(false, m)
  }

  function AfterSend(on: bool, e: Deflater, m: seq<byte>): Deflater {
    if Compresses(on, m) then AfterDeflate(e, m) else e
  }

  function Receive(d: Inflater, s: Sent): Result<(seq<byte>, Inflater)> {
    if s.compressed then Inflate(d, s.wire) else Ok((s.wire, d))
  }

  ghost predicate ValidRun(on: bool, e: Deflater, ms: seq<seq<byte>>, ss: seq<Sent>)
    decreases |ms|
  {
    && |ms| == |ss|
    && (ms != [] ==> Prepares(on, e, ms[0], ss[0]) && ValidRun(on, AfterSend(on, e, ms[0]), ms[1..], ss[1..]))
  }

  function ReceiveAll(d: Inflater, ss: seq<Sent>): Result<(seq<seq<byte>>, Inflater)>
    decreases |ss|
  {
    if ss == [] then Ok(([], d))
    else
      var (m, d') :- Receive(d, ss[0]);
      var (ms, d'') :- ReceiveAll(d', ss[1..]);
      Ok(([m] + ms, d''))
  }

  /** The decoder recovers exactly the messages of a run. */
  ghost predicate RoundTrips(d: Inflater, ms: seq<seq<byte>>, ss: seq<Sent>) {
    ReceiveAll(d, ss).Ok? && ReceiveAll(d, ss).value.0 == ms
  }

  lemma ReceivePrepared(on: bool, e: Deflater, d: Inflater, m: seq<byte>, s: Sent)
    requires InSync(e, d) && Prepares(on, e, m, s)
    ensures Receive(d, s).Ok? && Receive(d, s).value.0 == m
    ensures InSync(AfterSend(on, e, m), Receive(d, s).value.1)
  {
    if Compresses(on, m) { InflateDeflated(e, d, m, s.wire); }
  }

  lemma {:induction false} RunStaysInSync(on: bool, e: Deflater, d: Inflater, ms: seq<seq<byte>>, ss: seq<Sent>)
    requires InSync(e, d) && ValidRun(on, e, ms, ss)
    ensures RoundTrips(d, ms, ss)
    decreases |ms|
  {
    if ms != [] {
      ReceivePrepared(on, e, d, ms[0], ss[0]);
      RunStaysInSync(on, AfterSend(on, e, ms[0]), Receive(d, ss[0]).value.1, ms[1..], ss[1..]);
    }
  }

  // ---------------------------------------------------------------- when the settings do not match

  function Literals(m: seq<byte>): seq<Token> { seq(|m|, i requires 0 <= i < |m| => Literal(m[i])) }

  lemma {:induction false} ExpandLiterals(w: nat, hist: seq<byte>, m: seq<byte>)
    ensures Expand(w, hist, Literals(m)) == Some(m)
    decreases |m|
  {
    if m != [] {
      ExpandLiterals(w, hist + [m[0]], m[1..]);
      assert Literals(m)[1..] == Literals(m[1..]);
      assert [m[0]] + m[1..] == m;
    }
  }

  lemma {:induction false} ExpandSnoc(w: nat, hist: seq<byte>, ts: seq<Token>, t: Token)
    requires Expand(w, hist, ts).Some?
    ensures Expand(w, hist, ts + [t]) ==
            match ExpandToken(w, hist + Expand(w, hist, ts).value, t)
            case None => None
            case Some(out) => Some(Expand(w, hist, ts).value + out)
    decreases |ts|
  {
    if ts == [] {
      assert ts + [t] == [t] && [t][1..] == [] && hist + [] == hist;
      var end := ExpandToken(w, hist, t);
      if end.Some? { assert end.value + [] == end.value == [] + end.value; }
    } else {
      var out := ExpandToken(w, hist, ts[0]).value;
      ExpandSnoc(w, hist + out, ts[1..], t);
      assert (ts + [t])[1..] == ts[1..] + [t];
      var more := Expand(w, hist + out, ts[1..]).value;
      assert hist + out + more == hist + (out + more);
      var end := ExpandToken(w, hist + (out + more), t);
      if end.Some? { assert out + (more + end.value) == out + more + end.value; }
    }
  }

  lemma CopyThree(w: nat)
    requires 3 <= w
    ensures Expand(w, [1, 2, 3], [Copy(3, 3)]) == Some([1, 2, 3])
  {
    var m: seq<byte> := [1, 2, 3];
    assert CopyOut(m, 3, 3) == m by {
      assert CopyOut(m + [1] + [2] + [3], 3, 0) == [];
      assert CopyOut(m + [1] + [2], 3, 1) == [3];
      assert CopyOut(m + [1], 3, 2) == [2, 3];
    }
    var ts := [Copy(3, 3)];
    assert ts[1..] == [];
    assert Expand(w, m + m, ts[1..]) == Some([]);
    assert m + [] == m;
  }

  lemma ValidPair(e: Deflater, m1: seq<byte>, m2: seq<byte>, s1: Sent, s2: Sent)
    requires Prepares(true, e, m1, s1) && Prepares(true, AfterSend(true, e, m1), m2, s2)
    ensures ValidRun(true, e, [m1, m2], [s1, s2])
  {
    var ms, ss := [m1, m2], [s1, s2];
    assert ms[1..] == [m2] && ss[1..] == [s2];
    assert [m2][1..] == [] && [s2][1..] == [];
    assert ValidRun(true, AfterSend(true, e, m1), [m2], [s2]);
  }

  lemma SecondRefused(d: Inflater, s1: Sent, s2: Sent)
    requires Receive(d, s1).Ok? ==> Receive(Receive(d, s1).value.1, s2).Err?
    ensures ReceiveAll(d, [s1, s2]).Err?
  {
    if Receive(d, s1).Ok? {
      assert [s1, s2][1..] == [s2];
      assert ReceiveAll(Receive(d, s1).value.1, [s2]).Err?;
    }
  }

  lemma WindowOfThree(bits: nat)
    requires bits >= 2
    ensures Pow2(bits) >= 3
  {
    assert Pow2(2) == 4;
    Pow2Monotone(2, bits);
  }

  lemma CopyNothing(w: nat)
    ensures Expand(w, [], [Copy(3, 3)]) == None
  {
  }

  /** A token as DEFLATE has them (section 3.2.5 of RFC 1951). */
  predicate InFormat(t: Token) { t.Copy? ==> 1 <= t.dist <= 32768 && 3 <= t.len <= 258 }

  predicate AllInFormat(ts: seq<Token>) { forall t | t in ts :: InFormat(t) }

  /** w, with its trailer, is a stream for the tokens ts. */
  predicate StreamFor(parse: Parse, w: seq<byte>, ts: seq<Token>) { w != [] && parse(w + TRAILER) == Some(ts) }

  /** A format that can express every list of DEFLATE's tokens. */
  ghost predicate Expressive(parse: Parse) {
    forall ts | AllInFormat(ts) :: exists w :: StreamFor(parse, w, ts)
  }

  lemma StreamOf(parse: Parse, ts: seq<Token>) returns (w: seq<byte>)
    requires Expressive(parse) && AllInFormat(ts)
    ensures StreamFor(parse, w, ts)
  {
    w :| StreamFor(parse, w, ts);
  }

  /**
   In any expressive format: the decoder forgets what the encoder still refers to, and the second of
   two equal messages is lost.
   */
  lemma ResetMismatch(parse: Parse, eBits: nat, dBits: nat) returns (ms: seq<seq<byte>>, ss: seq<Sent>)
    requires Expressive(parse) && 2 <= eBits
    ensures ValidRun(true, Deflater(parse, false, eBits, []), ms, ss)
    ensures ReceiveAll(Inflater(parse, true, dBits, []), ss).Err?
  {
    hide Expressive, Expand, Literals, Pow2;
    var m: seq<byte> := [1, 2, 3];
    LiteralsInFormat(m);
    var w1 := StreamOf(parse, Literals(m));
    var w2 := StreamOf(parse, [Copy(3, 3)]);
    var e, d := Deflater(parse, false, eBits, []), Inflater(parse, true, dBits, []);
    ExpandLiterals(Pow2(eBits), [], m);
    ExpandLiterals(Pow2(dBits), [], m);
    WindowOfThree(eBits);
    CopyThree(Pow2(eBits));
    CopyNothing(Pow2(dBits));
    var e' := AfterSend(true, e, m);
    assert e' == e.(history := m) by { assert [] + m == m; }
    ms, ss := [m, m], [Sent(true, w1), Sent(true, w2)];
    ValidPair(e, m, m, Sent(true, w1), Sent(true, w2));
    SecondRefused(d, Sent(true, w1), Sent(true, w2));
  }

  /** A back-reference of distance n, just after n literals, needs a window of at least n. */
  lemma FarReference(w: nat, n: nat)
    requires n >= 1
    ensures var zeros: seq<byte> := seq(n, _ => 0);
      Expand(w, [], Literals(zeros) + [Copy(n, 3)]) ==
        if n <= w then Some(zeros + CopyOut(zeros, n, 3)) else None
  {
    var zeros: seq<byte> := seq(n, _ => 0);
    ExpandLiterals(w, [], zeros);
    ExpandSnoc(w, [], Literals(zeros), Copy(n, 3));
    assert [] + zeros == zeros;
  }

  /**
   In any expressive format: a message one window longer than the decoder's, whose end is a reference
   to its first byte, is refused.
   */
  lemma WindowMismatch(parse: Parse, eReset: bool, eBits: nat, dReset: bool, dBits: nat)
    returns (ms: seq<seq<byte>>, ss: seq<Sent>)
    requires Expressive(parse) && dBits < eBits <= 15
    ensures ValidRun(true, Deflater(parse, eReset, eBits, []), ms, ss)
    ensures ReceiveAll(Inflater(parse, dReset, dBits, []), ss).Err?
  {
    hide Expand, CopyOut, Literals, ReceiveAll, ValidRun, Expressive;
    var n := Pow2(dBits) + 1;
    Pow2Monotone(dBits, eBits);
    Pow2Positive(dBits);
    LargestWindow(eBits);
    FarReference(Pow2(dBits), n);
    FarReference(Pow2(eBits), n);
    var zeros: seq<byte> := seq(n, _ => 0);
    var ts := Literals(zeros) + [Copy(n, 3)];
    LiteralsInFormat(zeros);
    var w := StreamOf(parse, ts);
    var m := zeros + CopyOut(zeros, n, 3);
    ms, ss := [m], [Sent(true, w)];
    SingleRun(Deflater(parse, eReset, eBits, []), Inflater(parse, dReset, dBits, []), m, w);
  }

  lemma LargestWindow(bits: nat)
    requires bits <= 15
    ensures Pow2(bits) <= 32768
  {
    Pow2Monotone(bits, 15);
    assert Pow2(15) == 32768 by { assert Pow2(4) == 16; assert Pow2(8) == 256; assert Pow2(12) == 4096; }
  }

  lemma LiteralsInFormat(m: seq<byte>)
    ensures AllInFormat(Literals(m))
  {
  }

  lemma SingleRun(e: Deflater, d: Inflater, m: seq<byte>, wire: seq<byte>)
    requires |m| > 1 && Deflates(e, m, wire) && Inflate(d, wire).Err?
    ensures ValidRun(true, e, [m], [Sent(true, wire)])
    ensures ReceiveAll(d, [Sent(true, wire)]).Err?
  {
    hide Deflates, Inflate;
    assert [m][1..] == [] && [Sent(true, wire)][1..] == [];
  }

  /**
   Context agreement, exactly: in every expressive format, every run of messages round-trips,
   whatever the compressor chooses, if and only if the encoder's window fits the decoder's and the
   decoder resets only if the encoder does.
   */
  lemma ContextAgreement(parse: Parse, eReset: bool, eBits: nat, dReset: bool, dBits: nat)
    requires Expressive(parse) && 9 <= eBits <= 15 && 9 <= dBits <= 15
    ensures Compatible(eReset, eBits, dReset, dBits) <==>
            forall ms, ss | ValidRun(true, Deflater(parse, eReset, eBits, []), ms, ss) ::
              RoundTrips(Inflater(parse, dReset, dBits, []), ms, ss)
  {
    hide Expressive;
    var e, d := Deflater(parse, eReset, eBits, []), Inflater(parse, dReset, dBits, []);
    if Compatible(eReset, eBits, dReset, dBits) {
      forall ms, ss | ValidRun(true, e, ms, ss) ensures RoundTrips(d, ms, ss) {
        RunStaysInSync(true, e, d, ms, ss);
      }
    } else {
      var ms, ss;
      if dBits < eBits {
        ms, ss := WindowMismatch(parse, eReset, eBits, dReset, dBits);
      } else {
        ms, ss := ResetMismatch(parse, eBits, dBits);
      }
      assert !RoundTrips(d, ms, ss);
    }
  }

  // ---------------------------------------------------------------- an expressive format

  /** Two bytes for a literal, four for a reference. */
  function WriteToken(t: Token): seq<byte>
    requires InFormat(t)
  {
    match t
    case Literal(b) => [0, b]
    case Copy(dist, len) => [1, (dist - 1) / 256, (dist - 1) % 256, len - 3]
  }

  function WriteTokens(ts: seq<Token>): seq<byte>
    requires AllInFormat(ts)
    decreases |ts|
  {
    if ts == [] then [] else assert InFormat(ts[0]); WriteToken(ts[0]) + WriteTokens(ts[1..])
  }

  function ReadTokens(s: seq<byte>): Option<seq<Token>>
    decreases |s|
  {
    if s == [] then Some([])
    else if s[0] == 0 && |s| >= 2 then
      match ReadTokens(s[2..]) case None => None case Some(ts) => Some([Literal(s[1])] + ts)
    else if s[0] == 1 && |s| >= 4 then
      match ReadTokens(s[4..])
      case None => None
      case Some(ts) => var dist: int, len: int := s[1], s[3]; Some([Copy(dist * 256 + s[2] + 1, len + 3)] + ts)
    else None
  }

  lemma {:induction false} TokensRoundTrip(ts: seq<Token>)
    requires AllInFormat(ts)
    ensures ReadTokens(WriteTokens(ts)) == Some(ts)
    decreases |ts|
  {
    if ts != [] {
      var t, more := ts[0], ts[1..];
      forall u | u in more ensures InFormat(u) { assert u in ts; }
      TokensRoundTrip(more);
      assert ts == [t] + more && InFormat(t);
      var s := WriteTokens(ts);
      match t
      case Literal(_) =>
        assert s[2..] == WriteTokens(more);
      case Copy(dist, _) =>
        assert s[4..] == WriteTokens(more);
        assert (dist - 1) / 256 * 256 + (dist - 1) % 256 + 1 == dist;
    }
  }

  /** The format: a byte to begin with, the tokens, the trailer. */
  function PlainFormat(): Parse {
    (s: seq<byte>) => if |s| < 5 then None else ReadTokens(s[1..|s| - 4])
  }

  /** Expressive formats exist. */
  lemma PlainIsExpressive()
    ensures Expressive(PlainFormat())
  {
    forall ts | AllInFormat(ts) ensures exists w :: StreamFor(PlainFormat(), w, ts) {
      var w := [0] + WriteTokens(ts);
      TokensRoundTrip(ts);
      assert (w + TRAILER)[1..|w + TRAILER| - 4] == WriteTokens(ts);
      assert StreamFor(PlainFormat(), w, ts);
    }
  }

  /** The relation is inhabited: with streams of literals only, every message has an encoding in every state. */
  lemma StoredStreams(reset: bool, bits: nat, history: seq<byte>, m: seq<byte>)
    requires m != []
    ensures var parse: Parse := (b: seq<byte>) => if |b| < 4 then None else Some(Literals(b[..|b| - 4]));
      Deflates(Deflater(parse, reset, bits, history), m, m)
  {
    assert (m + TRAILER)[..|m + TRAILER| - 4] == m;
    ExpandLiterals(Pow2(bits), history, m);
  }
}
