/** The shared frame writer (src/write.rs). */
module Writers {
  import opened Basics
  import opened Frames
  import opened Wire

  datatype WriterKind = Client | Server

  /** Clients mask the k-th frame with the k-th random mask; servers do not mask. */
  function MaskOf(kind: WriterKind, rng: nat -> Mask, k: nat): Option<Mask> {
    if kind.Client? then Some(rng(k)) else None
  }

  /** How one endpoint encodes the k-th frame it writes; RSV1 is the frame's `compressed` bit. */
  function FrameEncoder(kind: WriterKind, rng: nat -> Mask): (nat, Frame) -> seq<byte> {
    (k: nat, f: Frame) => EncodeFrame(MaskOf(kind, rng, k), f, f.compressed)
  }

  /** The bytes of the frames `fs`, the first of which is the k-th written. */
  function BytesBy(enc: (nat, Frame) -> seq<byte>, k: nat, fs: seq<Frame>): seq<byte>
    decreases |fs|
  {
    if fs == [] then [] else enc(k, fs[0]) + BytesBy(enc, k + 1, fs[1..])
  }

  function WireBytes(kind: WriterKind, rng: nat -> Mask, k: nat, fs: seq<Frame>): seq<byte> {
    BytesBy(FrameEncoder(kind, rng), k, fs)
  }

  lemma WireBytesNone(kind: WriterKind, rng: nat -> Mask, k: nat)
    ensures WireBytes(kind, rng, k, []) == []
  {
  }

  lemma {:induction false} BytesByConcat(enc: (nat, Frame) -> seq<byte>, k: nat, a: seq<Frame>, b: seq<Frame>)
    ensures BytesBy(enc, k, a + b) == BytesBy(enc, k, a) + BytesBy(enc, k + |a|, b)
    decreases |a|
  {
    if a == [] {
      assert a + b == b;
    } else {
      BytesByConcat(enc, k + 1, a[1..], b);
      assert (a + b)[1..] == a[1..] + b;
    }
  }

  lemma WireBytesConcat(kind: WriterKind, rng: nat -> Mask, k: nat, a: seq<Frame>, b: seq<Frame>)
    ensures WireBytes(kind, rng, k, a + b) == WireBytes(kind, rng, k, a) + WireBytes(kind, rng, k + |a|, b)
  {
    BytesByConcat(FrameEncoder(kind, rng), k, a, b);
  }

  lemma WireBytesOne(kind: WriterKind, rng: nat -> Mask, k: nat, f: Frame, setRsv1: bool)
    ensures WireBytes(kind, rng, k, [f.(compressed := setRsv1)]) == EncodeFrame(MaskOf(kind, rng, k), f, setRsv1)
  {
    var g := f.(compressed := setRsv1);
    var e := FrameEncoder(kind, rng)(k, g);
    assert e == EncodeFrame(MaskOf(kind, rng, k), f, setRsv1);
    var enc := FrameEncoder(kind, rng);
    assert BytesBy(enc, k, [g]) == enc(k, g) + BytesBy(enc, k + 1, [g][1..]);
    assert [g][1..] == [];
    assert e + [] == e;
  }

  /** Clients mask, servers do not: the mask bit of every frame, and the mask that follows the length. */
  lemma ClientsMask(kind: WriterKind, rng: nat -> Mask, k: nat, f: Frame)
    requires |f.payload| < U64
    ensures var w, at := WireBytes(kind, rng, k, [f]), 2 + Extended(|f.payload|);
      && |w| >= at && (BitAt(w[1], 7) <==> kind.Client?)
      && (kind.Client? ==> |w| >= at + 4 && w[at..at + 4] == rng(k))
      && (kind.Server? ==> w[at..] == f.payload)
  {
    hide EncodeFrame, WireBytes, BitAt, Numbered, InNetworkOrder, DiffersByMask;
    WireBytesOne(kind, rng, k, f, f.compressed);
    assert f.(compressed := f.compressed) == f;
    FrameLayout(MaskOf(kind, rng, k), f, f.compressed);
  }

  class Writer {
    const kind: WriterKind
    const rng: nat -> Mask
    var writeHalf: seq<byte>
    var written: nat

    constructor (kind: WriterKind, rng: nat -> Mask)
      ensures this.kind == kind && this.rng == rng && writeHalf == [] && written == 0
    {
      this.kind, this.rng, writeHalf, written := kind, rng, [], 0;
    }

    method WriteFrame(frame: Frame, setRsv1: bool)
      modifies this
      ensures written == old(written) + 1
      ensures writeHalf == old(writeHalf) + WireBytes(kind, rng, old(written), [frame.(compressed := setRsv1)])
      ensures kind.Client? ==> writeHalf == old(writeHalf) + EncodeFrame(Some(rng(old(written))), frame, setRsv1)
      ensures kind.Server? ==> writeHalf == old(writeHalf) + EncodeFrame(None, frame, setRsv1)
    {
      match kind {
        case Client => WriteFrameClient(frame, setRsv1);
        case Server => WriteFrameServer(frame, setRsv1);
      }
      WireBytesOne(kind, rng, old(written), frame, setRsv1);
    }

    method WriteFrameServer(frame: Frame, setRsv1: bool)
      modifies this
      ensures written == old(written) + 1
      ensures writeHalf == old(writeHalf) + EncodeFrame(None, frame, setRsv1)
    {
      var firstByte := (if frame.fin then 0x80 else 0) + frame.opcode.AsU8();
      if setRsv1 {
        firstByte := firstByte + 0x40;
      }
      var payloadLen := |frame.payload|;
      writeHalf := writeHalf + [firstByte];
      ghost var head := writeHalf;
      LengthFieldForms(payloadLen, false);
      EncodePlain(frame, setRsv1);
      assert firstByte == FirstByte(frame.fin, frame.opcode, setRsv1);
      hide LengthField, BigEndian, EncodeFrame, FirstByte;
      if payloadLen <= 125 {
        writeHalf := writeHalf + [payloadLen];
      } else if payloadLen <= 65535 {
        writeHalf := writeHalf + [126, payloadLen / 256, payloadLen % 256];
      } else {
        var bytes := BigEndian(payloadLen, 8);
        writeHalf := writeHalf
        + [127, bytes[0], bytes[1], bytes[2], bytes[3], bytes[4], bytes[5], bytes[6], bytes[7]];
      }
      assert writeHalf == head + LengthField(payloadLen, false);
      writeHalf := writeHalf + frame.payload;
      Regroup(old(writeHalf), [firstByte], LengthField(payloadLen, false), [], frame.payload);
      written := written + 1;
    }

    method WriteFrameClient(frame: Frame, setRsv1: bool)
      modifies this
      ensures written == old(written) + 1
      ensures writeHalf == old(writeHalf) + EncodeFrame(Some(rng(old(written))), frame, setRsv1)
    {
      var mask := rng(written);
      var firstByte := (if frame.fin then 0x80 else 0) + frame.opcode.AsU8();
      if setRsv1 {
        firstByte := firstByte + 0x40;
      }
      var payloadLen := |frame.payload|;
      writeHalf := writeHalf + [firstByte];
      ghost var head := writeHalf;
      LengthFieldForms(payloadLen, true);
      EncodeMasked(mask, frame, setRsv1);
      assert firstByte == FirstByte(frame.fin, frame.opcode, setRsv1);
      hide LengthField, BigEndian, EncodeFrame, Masked, FirstByte;
      if payloadLen <= 125 {
        writeHalf := writeHalf + [0x80 + payloadLen];
      } else if payloadLen <= 65535 {
        writeHalf := writeHalf + [0x80 + 126, payloadLen / 256, payloadLen % 256];
      } else {
        var bytes := BigEndian(payloadLen, 8);
        writeHalf := writeHalf
        + [0x80 + 127, bytes[0], bytes[1], bytes[2], bytes[3], bytes[4], bytes[5], bytes[6], bytes[7]];
      }
      assert writeHalf == head + LengthField(payloadLen, true);
      writeHalf := writeHalf + mask;
      var maskedPayload := MaskPayload(mask, frame.payload);
      writeHalf := writeHalf + maskedPayload;
      Regroup(old(writeHalf), [firstByte], LengthField(payloadLen, true), mask, maskedPayload);
      written := written + 1;
    }
  }

  /** The masking loop of `write_frame_client`. */
  method MaskPayload(mask: Mask, payload: seq<byte>) returns (maskedPayload: seq<byte>)
    ensures maskedPayload == Masked(mask, payload)
  {
    maskedPayload := [];
    for i := 0 to |payload|
      invariant maskedPayload == Masked(mask, payload)[..i]
    {
      maskedPayload := maskedPayload + [Xor(payload[i], mask[i % 4])];
    }
  }

  lemma Regroup(o: seq<byte>, a: seq<byte>, b: seq<byte>, c: seq<byte>, d: seq<byte>)
    ensures o + a + b + c + d == o + (a + b + c + d)
    ensures o + a + b + d == o + a + b + [] + d
  {
    assert b + [] == b;
  }

  lemma EncodePlain(f: Frame, setRsv1: bool)
    ensures EncodeFrame(None, f, setRsv1) ==
            [FirstByte(f.fin, f.opcode, setRsv1)] + LengthField(|f.payload|, false) + [] + f.payload
  {}

  lemma EncodeMasked(mask: Mask, f: Frame, setRsv1: bool)
    ensures EncodeFrame(Some(mask), f, setRsv1) ==
            [FirstByte(f.fin, f.opcode, setRsv1)] + LengthField(|f.payload|, true) + mask + Masked(mask, f.payload)
  {}

  lemma TwoBytes(n: nat)
    requires n <= 65535
    ensures n / 256 < 256 && BigEndian(n, 2) == [n / 256, n % 256]
  {
    assert BigEndian(n / 256, 1) == [] + [n / 256 % 256];
  }

  lemma LengthFieldForms(n: nat, masked: bool)
    ensures var bit: byte := if masked then 0x80 else 0; var b := BigEndian(n, 8);
      LengthField(n, masked) ==
        if n <= 125 then [bit + n]
        else if n <= 65535 then [bit + 126, n / 256, n % 256]
        else [bit + 127, b[0], b[1], b[2], b[3], b[4], b[5], b[6], b[7]]
  {
    if 125 < n <= 65535 { TwoBytes(n); }
  }
}
