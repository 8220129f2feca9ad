/** The sending half of a connection (src/split.rs): from a message to frames. */
module Sender {
  import opened Basics
  import opened Frames
  import Wire
  import opened Writers
  import opened Deflate
  import Grammar

  /** `slice::chunks(m)`; a chunk size of 0 panics in the source. */
  function Chunks(s: seq<byte>, m: nat): seq<seq<byte>>
    requires m >= 1
    decreases |s|
  {
    if |s| == 0 then [] else if |s| <= m then [s] else [s[..m]] + Chunks(s[m..], m)
  }

  /** One frame per chunk: the opcode on the first, FIN on the last. */
  function FramesOf(opcode: OpCode, chunks: seq<seq<byte>>, compressed: bool): seq<Frame> {
    seq(|chunks|, i requires 0 <= i < |chunks| =>
      Frame(i == |chunks| - 1, if i == 0 then opcode else Continue, chunks[i], compressed))
  }

  /** The frames of a message; an empty one is sent as one empty frame. */
  function MessageFrames(opcode: OpCode, bytes: seq<byte>, s: Sent, m: nat): seq<Frame>
    requires m >= 1
  {
    if bytes == [] then [Frame(true, opcode, [], false)] else FramesOf(opcode, Chunks(s.wire, m), s.compressed)
  }

  /** What `write_frames` puts on the wire: RSV1 on the first frame only. */
  function OnWire(fs: seq<Frame>): seq<Frame> {
    seq(|fs|, i requires 0 <= i < |fs| => fs[i].(compressed := i == 0 && fs[0].compressed))
  }

  /** The loop of `convert_to_frames` over the chunks, and FIN on the last frame. */
  method CutFrames(opcode: OpCode, wire: seq<byte>, compressed: bool, max: nat) returns (frames: seq<Frame>)
    requires max >= 1
    ensures frames == FramesOf(opcode, Chunks(wire, max), compressed)
  {
    frames := [];
    var at := 0;
    ghost var chunks := Chunks(wire, max);
    while at < |wire|
      invariant 0 <= at <= |wire|
      invariant |frames| <= |chunks| && Chunks(wire[at..], max) == chunks[|frames|..]
      invariant forall i :: 0 <= i < |frames| ==>
        frames[i] == Frame(false, if i == 0 then opcode else Continue, chunks[i], compressed)
    {
      var end := if at + max < |wire| then at + max else |wire|;
      ghost var left := wire[at..];
      assert left[end - at..] == wire[end..] && wire[at..end] == left[..end - at];
      assert chunks[|frames|..][0] == chunks[|frames|];
      frames := frames + [Frame(false, if frames == [] then opcode else Continue, wire[at..end], compressed)];
      at := end;
    }
    if frames != [] {
      var last := |frames| - 1;
      frames := frames[last := frames[last].(fin := true)];
    }
  }

  // ---------------------------------------------------------------- the writer object

  class WSWriter {
    const writer: Writer
    const config: Wire.Limits
    const encoder: Encoder

    constructor (writer: Writer, config: Wire.Limits, encoder: Encoder)
      ensures this.writer == writer && this.config == config && this.encoder == encoder
    {
      this.writer, this.config, this.encoder := writer, config, encoder;
    }

    method CheckCompression(data: seq<byte>) returns (wire: seq<byte>, compressed: bool)
      requires encoder.Lawful()
      modifies encoder
      ensures Prepares(config.deflate, old(encoder.State()), data, Sent(compressed, wire))
      ensures encoder.State() == AfterSend(config.deflate, old(encoder.State()), data)
    {
      wire, compressed := data, false;
      if config.deflate && |data| > 1 {
        wire := encoder.Compress(data);
        compressed := true;
      }
    }

    method ConvertToFrames(message: Message) returns (frames: seq<Frame>, ghost s: Sent)
      requires encoder.Lawful() && config.maxFrame >= 1
      modifies encoder
      ensures Prepares(config.deflate, old(encoder.State()), message.AsBinary(), s)
      ensures encoder.State() == AfterSend(config.deflate, old(encoder.State()), message.AsBinary())
      ensures frames == MessageFrames(message.Kind(), message.AsBinary(), s, config.maxFrame)
    {
      hide FramesOf, Chunks, Deflates;
      var opcode, payload := message.Kind(), message.AsBinary();
      if payload == [] {
        s := Sent(false, []);
        return [Frame(true, opcode, payload, false)], s;
      }
      var wire, compressed := CheckCompression(payload);
      s := Sent(compressed, wire);
      frames := CutFrames(opcode, wire, compressed, config.maxFrame);
    }

    method WriteFrames(frames: seq<Frame>)
      modifies writer
      ensures writer.written == old(writer.written) + |frames|
      ensures writer.writeHalf == old(writer.writeHalf)
                                  + WireBytes(writer.kind, writer.rng, old(writer.written), OnWire(frames))
    {
      hide WireBytes;
      var setRsv1FirstFrame := frames != [] && frames[0].compressed;
      ghost var sent := OnWire(frames);
      assert sent[..0] == [];
      WireBytesNone(writer.kind, writer.rng, writer.written);
      for i := 0 to |frames|
        invariant setRsv1FirstFrame == (i == 0 && frames != [] && frames[0].compressed)
        invariant writer.written == old(writer.written) + i
        invariant writer.writeHalf == old(writer.writeHalf)
                                      + WireBytes(writer.kind, writer.rng, old(writer.written), sent[..i])
      {
        writer.WriteFrame(frames[i], setRsv1FirstFrame);
        WireBytesConcat(writer.kind, writer.rng, old(writer.written), sent[..i], [sent[i]]);
        assert sent[..i + 1] == sent[..i] + [sent[i]];
        setRsv1FirstFrame := false;
      }
      assert sent[..|frames|] == sent;
    }

    method WriteMessage(message: Message) returns (r: Result<()>, ghost s: Sent)
      requires encoder.Lawful() && config.maxFrame >= 1
      modifies encoder, writer
      ensures |message.AsBinary()| > config.maxMessage ==>
        r == Err(MaxMessageSize) && encoder.State() == old(encoder.State())
        && writer.writeHalf == old(writer.writeHalf) && writer.written == old(writer.written)
      ensures |message.AsBinary()| <= config.maxMessage ==>
        var frames := OnWire(MessageFrames(message.Kind(), message.AsBinary(), s, config.maxFrame));
        && r == Ok(())
        && Prepares(config.deflate, old(encoder.State()), message.AsBinary(), s)
        && encoder.State() == AfterSend(config.deflate, old(encoder.State()), message.AsBinary())
        && writer.written == old(writer.written) + |frames|
        && writer.writeHalf == old(writer.writeHalf)
                               + WireBytes(writer.kind, writer.rng, old(writer.written), frames)
    {
      if |message.AsBinary()| > config.maxMessage {
        s := Sent(false, []);
        return Err(MaxMessageSize), s;
      }
      var frames;
      frames, s := ConvertToFrames(message);
      WriteFrames(frames);
      return Ok(()), s;
    }

    method SendPing()
      modifies writer
      ensures writer.writeHalf == old(writer.writeHalf)
        + WireBytes(writer.kind, writer.rng, old(writer.written), [Frame(true, Ping, [], false)])
    {
      WriteFrames([Frame(true, Ping, [], false)]);
      OnWireOne(Frame(true, Ping, [], false));
    }

    method CloseConnection()
      modifies writer
      ensures writer.writeHalf == old(writer.writeHalf)
        + WireBytes(writer.kind, writer.rng, old(writer.written), [Frame(true, Close, [], false)])
    {
      WriteFrames([Frame(true, Close, [], false)]);
      OnWireOne(Frame(true, Close, [], false));
    }

    /** Each fragment is a `write_frames` call of its own, so each carries RSV1 if compressed. */
    method SendLargeDataFragmented(data: seq<byte>, fragmentSize: nat) returns (r: Result<()>, ghost s: Sent)
      requires encoder.Lawful() && fragmentSize >= 1
      modifies encoder, writer
      ensures fragmentSize > config.maxFrame ==> r == Err(CustomFragmentSizeExceeded(fragmentSize, config.maxFrame))
      ensures fragmentSize <= config.maxFrame && |data| > config.maxMessage ==> r == Err(MaxMessageSize)
      ensures r.Err? ==> encoder.State() == old(encoder.State()) && writer.writeHalf == old(writer.writeHalf)
      ensures fragmentSize <= config.maxFrame && |data| <= config.maxMessage ==>
        && r == Ok(())
        && Prepares(config.deflate, old(encoder.State()), data, s)
        && encoder.State() == AfterSend(config.deflate, old(encoder.State()), data)
        && writer.writeHalf == old(writer.writeHalf)
             + WireBytes(writer.kind, writer.rng, old(writer.written), LargeFrames(s, fragmentSize))
    {
      hide WireBytes, Prepares, AfterSend, Chunks, OnWire;
      s := Sent(false, []);
      if fragmentSize > config.maxFrame {
        return Err(CustomFragmentSizeExceeded(fragmentSize, config.maxFrame)), s;
      }
      if |data| > config.maxMessage {
        return Err(MaxMessageSize), s;
      }
      var wire, compressed := CheckCompression(data);
      s := Sent(compressed, wire);
      var chunks := Chunks(wire, fragmentSize);
      ghost var sent := LargeFrames(s, fragmentSize);
      assert sent[..0] == [];
      WireBytesNone(writer.kind, writer.rng, writer.written);
      for i := 0 to |chunks|
        modifies writer
        invariant writer.written == old(writer.written) + i
        invariant writer.writeHalf == old(writer.writeHalf)
                                      + WireBytes(writer.kind, writer.rng, old(writer.written), sent[..i])
      {
        var frame := Frame(i == |chunks| - 1, if i == 0 then OpCode.Text else Continue, chunks[i], compressed);
        WriteFrames([frame]);
        assert frame == sent[i];
        OnWireOne(frame);
        WireBytesConcat(writer.kind, writer.rng, old(writer.written), sent[..i], [sent[i]]);
        assert sent[..i + 1] == sent[..i] + [sent[i]];
      }
      assert sent[..|chunks|] == sent;
      return Ok(()), s;
    }
  }

  /** The frames of `send_large_data_fragmented` as they are on the wire. */
  function LargeFrames(s: Sent, fragmentSize: nat): seq<Frame>
    requires fragmentSize >= 1
  {
    FramesOf(OpCode.Text, Chunks(s.wire, fragmentSize), s.compressed)
  }

  lemma OnWireOne(f: Frame)
    ensures OnWire([f]) == [f]
  {
  }

  // ---------------------------------------------------------------- the shape of the fragments

  lemma OneMoreChunk(n: nat, m: nat, k: nat)
    requires m <= k && (n - 1) * m < k - m <= n * m
    ensures n * m < k <= (n + 1) * m
  {
    assert (n - 1) * m + m == n * m && n * m + m == (n + 1) * m;
  }

  lemma {:induction false} ChunksSizes(s: seq<byte>, m: nat)
    requires m >= 1
    ensures var cs := Chunks(s, m);
      && (forall i :: 0 <= i < |cs| ==> 1 <= |cs[i]| <= m && (i < |cs| - 1 ==> |cs[i]| == m))
      && (s == [] <==> cs == [])
      && Flatten(cs) == s
    decreases |s|
  {
    if |s| <= m {
      if s != [] { assert [s][1..] == [] && s + [] == s; }
    } else {
      ChunksSizes(s[m..], m);
      var cs := Chunks(s, m);
      assert cs[1..] == Chunks(s[m..], m);
      assert s[..m] + s[m..] == s;
    }
  }

  lemma {:induction false} ChunksCount(s: seq<byte>, m: nat)
    requires m >= 1 && s != []
    ensures var n := |Chunks(s, m)|; (n - 1) * m < |s| <= n * m
    decreases |s|
  {
    if |s| > m {
      ChunksCount(s[m..], m);
      OneMoreChunk(|Chunks(s[m..], m)|, m, |s|);
    }
  }

  lemma {:induction false} PayloadOfFrames(fs: seq<Frame>, chunks: seq<seq<byte>>)
    requires |fs| == |chunks| && forall i :: 0 <= i < |fs| ==> fs[i].payload == chunks[i]
    ensures Grammar.Payload(fs) == Flatten(chunks)
    decreases |fs|
  {
    if fs != [] { PayloadOfFrames(fs[1..], chunks[1..]); }
  }

  /**
   Fragmentation shape: a non-empty wire payload becomes ceil(n/m) frames that form one whole
   message of the grammar and concatenate to the payload, all but the last of length m; on the
   wire RSV1 stands on the first frame exactly when the message is compressed.
   */
  lemma FragmentationShape(opcode: OpCode, s: Sent, m: nat)
    requires m >= 1 && s.wire != [] && opcode.IsData()
    ensures var fs := FramesOf(opcode, Chunks(s.wire, m), s.compressed);
      && Grammar.IsWhole(OnWire(fs)) && AllRsv1Clean(OnWire(fs))
      && Grammar.Payload(OnWire(fs)) == s.wire && OnWire(fs)[0].compressed == s.compressed && fs[0].opcode == opcode
      && (|fs| - 1) * m < |s.wire| <= |fs| * m
      && (forall i :: 0 <= i < |fs| ==> 1 <= |fs[i].payload| <= m && fs[i].compressed == s.compressed)
      && (forall i :: 0 <= i < |fs| - 1 ==> |fs[i].payload| == m)
  {
    ChunksSizes(s.wire, m);
    ChunksCount(s.wire, m);
    hide Chunks;
    var cs := Chunks(s.wire, m);
    PayloadOfFrames(OnWire(FramesOf(opcode, cs, s.compressed)), cs);
  }

  /**
   `send_large_data_fragmented` puts on the wire what sending the same data as a Text message with
   frame limit `fragmentSize` would, exactly when there is data and it is uncompressed or fits one
   fragment; otherwise there is no frame at all, or RSV1 stands on every fragment.
   */
  lemma LargeSendAgrees(data: seq<byte>, s: Sent, fragmentSize: nat)
    requires fragmentSize >= 1 && (data == [] ==> s == Sent(false, [])) && (data != [] ==> s.wire != [])
    ensures var large := LargeFrames(s, fragmentSize);
      var message := OnWire(MessageFrames(OpCode.Text, data, s, fragmentSize));
      && (large == message <==> data != [] && (!s.compressed || |s.wire| <= fragmentSize))
      && (data != [] ==>
            && |large| == |message|
            && forall i :: 0 <= i < |large| ==>
                 && large[i] == message[i].(compressed := s.compressed)
                 && message[i].compressed == (i == 0 && s.compressed))
  {
    ChunksSizes(s.wire, fragmentSize);
    var large := LargeFrames(s, fragmentSize);
    var message := OnWire(MessageFrames(OpCode.Text, data, s, fragmentSize));
    if data != [] {
      assert |large| >= 2 <==> |s.wire| > fragmentSize;
      if s.compressed && |s.wire| > fragmentSize {
        assert large[1].compressed && !message[1].compressed;
      } else {
        assert large == message;
      }
    }
  }
}
