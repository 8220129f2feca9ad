/**
 The frame format on the wire (src/write.rs, and the first half of `read_frame` in src/read.rs).
 `EncodeFrame` is what a Writer appends; `ParseFrame` is what a reader takes off the front of
 its input before any decompression.
 */
module Wire {
  import opened Basics
  import opened Frames

  type Mask = m: seq<byte> | |m| == 4 witness [0, 0, 0, 0]

  /** The limits `read_frame` checks; a limit that is not configured is 0. */
  datatype Limits = Limits(maxFrame: nat, maxMessage: nat, deflate: bool)

  const U64: nat := 0x1_0000_0000_0000_0000

  /** Exclusive or of the low k bits. */
  function XorBits(a: nat, b: nat, k: nat): nat {
    if k == 0 then 0 else (a + b) % 2 + 2 * XorBits(a / 2, b / 2, k - 1)
  }

  lemma {:induction false} XorBitsTwice(a: nat, b: nat, k: nat)
    requires a < Pow2(k)
    ensures XorBits(a, b, k) < Pow2(k)
    ensures XorBits(XorBits(a, b, k), b, k) == a
  {
    if k > 0 {
      XorBitsTwice(a / 2, b / 2, k - 1);
      Parity(a, b, XorBits(a / 2, b / 2, k - 1));
    }
  }

  lemma Parity(a: nat, b: nat, x: nat)
    ensures var y := (a + b) % 2 + 2 * x; y / 2 == x && (y + b) % 2 == a % 2
  {
    var r := (a + b) % 2;
    assert r == 0 || r == 1;
    assert (r + b) % 2 == a % 2;
  }

  function Pow2(k: nat): nat { if k == 0 then 1 else 2 * Pow2(k - 1) }

  function Xor(a: byte, b: byte): byte {
    XorBitsByte(a, b);
    XorBits(a, b, 8)
  }

  lemma XorBitsByte(a: byte, b: byte)
    ensures XorBits(a, b, 8) < 256
    ensures XorBits(XorBits(a, b, 8), b, 8) == a
  {
    assert Pow2(8) == 256 by { assert Pow2(4) == 16; assert Pow2(6) == 64; }
    XorBitsTwice(a, b, 8);
  }

  function Masked(mask: Mask, data: seq<byte>): seq<byte> {
    seq(|data|, i requires 0 <= i < |data| => Xor(data[i], mask[i % 4]))
  }

  /** The last `k` base-256 digits of n, most significant first. */
  function BigEndian(n: nat, k: nat): (s: seq<byte>)
    ensures |s| == k
  {
    if k == 0 then [] else BigEndian(n / 256, k - 1) + [n % 256]
  }

  function FromBigEndian(s: seq<byte>): nat {
    if s == [] then 0 else FromBigEndian(s[..|s| - 1]) * 256 + s[|s| - 1]
  }

  /** Whether the bit of weight w (a power of two) is set. */
  predicate Bit(b: byte, w: nat)
    requires w > 0
  {
    b / w % 2 == 1
  }

  /** FIN, RSV1 and the opcode occupy disjoint bits, so combining them is a sum. */
  function FirstByte(fin: bool, opcode: OpCode, rsv1: bool): byte {
    (if fin then 0x80 else 0) + (if rsv1 then 0x40 else 0) + opcode.AsU8()
  }

  function LengthField(n: nat, masked: bool): seq<byte> {
    var bit: byte := if masked then 0x80 else 0;
    if n <= 125 then [bit + n]
    else if n <= 65535 then [bit + 126] + BigEndian(n, 2)
    else [bit + 127] + BigEndian(n, 8)
  }

  function MaskField(mask: Option<Mask>): seq<byte> {
    match mask case None => [] case Some(m) => m
  }

  function Body(mask: Option<Mask>, payload: seq<byte>): seq<byte> {
    match mask case None => payload case Some(m) => Masked(m, payload)
  }

  function EncodeFrame(mask: Option<Mask>, f: Frame, setRsv1: bool): seq<byte> {
    [FirstByte(f.fin, f.opcode, setRsv1)]
    + LengthField(|f.payload|, mask.Some?) + MaskField(mask) + Body(mask, f.payload)
  }

  /** `read_exact`: n bytes off the front, or an I/O error at end of stream. */
  function ReadExact(input: seq<byte>, n: nat): Result<(seq<byte>, seq<byte>)> {
    if |input| < n then Err(IOError) else Ok((input[..n], input[n..]))
  }

  function ReadLength(len7: nat, input: seq<byte>): Result<(nat, seq<byte>)> {
    if len7 == 126 then
      var (b, rest) :- ReadExact(input, 2);
      Ok((FromBigEndian(b), rest))
    else if len7 == 127 then
      var (b, rest) :- ReadExact(input, 8);
      Ok((FromBigEndian(b), rest))
    else Ok((len7, input))
  }

  function ReadMask(masked: bool, input: seq<byte>): Result<(Option<Mask>, seq<byte>)> {
    if masked then
      var (m, rest) :- ReadExact(input, 4);
      Ok((Some(m), rest))
    else Ok((None, input))
  }

  /** What the first two bytes say. */
  datatype Header = Header(fin: bool, opcode: OpCode, rsv1: bool, masked: bool, len7: nat)

  function ParseHeader(lim: Limits, b0: byte, b1: byte): Result<Header> {
    var fin := Bit(b0, 0x80);
    var opcode :- OpCodeFrom(b0 % 16);
    var rsv1 := Bit(b0, 0x40);
    var rsv2 := Bit(b0, 0x20);
    var rsv3 := Bit(b0, 0x10);
    if rsv2 || rsv3 || (rsv1 && !lim.deflate) then Err(RSVNotZero)
    else if !fin && opcode.IsControl() then Err(ControlFramesFragmented)
    else
      var len7 := b1 % 128;
      if len7 > 125 && opcode.IsControl() then Err(ControlFramePayloadSize)
      else Ok(Header(fin, opcode, rsv1, Bit(b1, 0x80), len7))
  }

  datatype Parsed = Parsed(frame: Frame, mask: Option<Mask>, rest: seq<byte>)

  function ParsePayload(lim: Limits, h: Header, in1: seq<byte>): Result<Parsed> {
    var (length, in2) :- ReadLength(h.len7, in1);
    if length > lim.maxFrame then Err(MaxFrameSize)
    else
      var (mask, in3) :- ReadMask(h.masked, in2);
      var (body, rest) :- ReadExact(in3, length);
      Ok(Parsed(Frame(h.fin, h.opcode, Body(mask, body), h.rsv1), mask, rest))
  }

  /** `read_frame` up to and including unmasking; `frame.compressed` is RSV1. */
  function ParseFrame(lim: Limits, input: seq<byte>): Result<Parsed> {
    var (start, in1) :- ReadExact(input, 2);
    var h :- ParseHeader(lim, start[0], start[1]);
    ParsePayload(lim, h, in1)
  }

  // ---------------------------------------------------------------- round trip

  lemma MaskedTwice(mask: Mask, data: seq<byte>)
    ensures Masked(mask, Masked(mask, data)) == data
  {
    forall i | 0 <= i < |data| ensures Masked(mask, Masked(mask, data))[i] == data[i] {
      XorBitsByte(data[i], mask[i % 4]);
    }
  }

  function Pow256(k: nat): nat { if k == 0 then 1 else 256 * Pow256(k - 1) }

  lemma {:induction false} BigEndianRoundTrip(n: nat, k: nat)
    requires n < Pow256(k)
    ensures FromBigEndian(BigEndian(n, k)) == n
  {
    if k > 0 {
      BigEndianRoundTrip(n / 256, k - 1);
      var s := BigEndian(n, k);
      assert s[..|s| - 1] == BigEndian(n / 256, k - 1);
    }
  }

  lemma {:induction false} FromBigEndianBound(s: seq<byte>)
    ensures FromBigEndian(s) < Pow256(|s|)
  {
    if s != [] { FromBigEndianBound(s[..|s| - 1]); }
  }

  lemma Pow256Two() ensures Pow256(2) == 65536 {
    assert Pow256(1) == 256;
  }

  lemma Pow256Eight() ensures Pow256(8) == U64 {
    Pow256Two();
    assert Pow256(4) == 0x1_0000_0000 by { assert Pow256(3) == 0x100_0000; }
    assert Pow256(6) == 0x1_0000_0000_0000 by { assert Pow256(5) == 0x100_0000_0000; }
    assert Pow256(7) == 0x100_0000_0000_0000;
  }

  lemma FirstByteBits(fin: bool, opcode: OpCode, rsv1: bool)
    ensures var b := FirstByte(fin, opcode, rsv1);
      && (Bit(b, 0x80) <==> fin)
      && (Bit(b, 0x40) <==> rsv1)
      && !Bit(b, 0x20) && !Bit(b, 0x10)
      && OpCodeFrom(b % 16) == Ok(opcode)
  {}

  /** The 7-bit length announces which form follows. */
  function Len7(n: nat): nat { if n <= 125 then n else if n <= 65535 then 126 else 127 }

  lemma ReadBigEndian(n: nat, k: nat, tail: seq<byte>)
    requires n < Pow256(k)
    ensures ReadExact(BigEndian(n, k) + tail, k) == Ok((BigEndian(n, k), tail))
    ensures FromBigEndian(BigEndian(n, k)) == n
  {
    BigEndianRoundTrip(n, k);
    assert (BigEndian(n, k) + tail)[..k] == BigEndian(n, k);
    assert (BigEndian(n, k) + tail)[k..] == tail;
  }

  lemma LengthFieldReads(n: nat, masked: bool, tail: seq<byte>)
    requires n < U64
    ensures var l := LengthField(n, masked);
      && |l| >= 1
      && l[0] % 128 == Len7(n) && (Bit(l[0], 0x80) <==> masked)
      && ReadLength(Len7(n), l[1..] + tail) == Ok((n, tail))
  {
    var l := LengthField(n, masked);
    if n <= 125 {
      assert l[1..] + tail == tail;
    } else if n <= 65535 {
      Pow256Two();
      ReadBigEndian(n, 2, tail);
      assert l[1..] == BigEndian(n, 2);
    } else {
      Pow256Eight();
      ReadBigEndian(n, 8, tail);
      assert l[1..] == BigEndian(n, 8);
    }
  }

  /** The error `read_frame` raises on a frame a Writer has encoded, if any, in the order of its checks. */
  function Objection(lim: Limits, f: Frame, setRsv1: bool): Option<Error> {
    if setRsv1 && !lim.deflate then Some(RSVNotZero)
    else if !f.fin && f.opcode.IsControl() then Some(ControlFramesFragmented)
    else if |f.payload| > 125 && f.opcode.IsControl() then Some(ControlFramePayloadSize)
    else if |f.payload| > lim.maxFrame then Some(MaxFrameSize)
    else None
  }

  /** A frame that the checks let through. */
  predicate Legal(lim: Limits, f: Frame) { Objection(lim, f, f.compressed).None? }

  lemma BodyRoundTrip(mask: Option<Mask>, payload: seq<byte>)
    ensures Body(mask, Body(mask, payload)) == payload && |Body(mask, payload)| == |payload|
  {
    if mask.Some? { MaskedTwice(mask.value, payload); }
  }

  lemma HeaderRoundTrip(lim: Limits, f: Frame, setRsv1: bool, masked: bool, l: byte)
    requires l % 128 == Len7(|f.payload|) && (Bit(l, 0x80) <==> masked)
    ensures ParseHeader(lim, FirstByte(f.fin, f.opcode, setRsv1), l) ==
            match Objection(lim, f, setRsv1)
            case Some(e) =>
              if e == MaxFrameSize then Ok(Header(f.fin, f.opcode, setRsv1, masked, Len7(|f.payload|))) else Err(e)
            case None => Ok(Header(f.fin, f.opcode, setRsv1, masked, Len7(|f.payload|)))
  {
    FirstByteBits(f.fin, f.opcode, setRsv1);
  }

  lemma PayloadRoundTrip(lim: Limits, h: Header, mask: Option<Mask>, payload: seq<byte>,
                         in1: seq<byte>, rest: seq<byte>)
    requires h.masked == mask.Some?
    requires ReadLength(h.len7, in1) == Ok((|payload|, MaskField(mask) + Body(mask, payload) + rest))
    ensures ParsePayload(lim, h, in1) ==
            if |payload| > lim.maxFrame then Err(MaxFrameSize)
            else Ok(Parsed(Frame(h.fin, h.opcode, payload, h.rsv1), mask, rest))
  {
    var m := MaskField(mask);
    var b := Body(mask, payload);
    BodyRoundTrip(mask, payload);
    assert (m + b + rest)[|m|..] == b + rest;
    assert (m + b + rest)[..|m|] == m;
    assert (b + rest)[..|b|] == b && (b + rest)[|b|..] == rest;
  }

  lemma Reassociate(a: seq<byte>, b: seq<byte>, c: seq<byte>, d: seq<byte>, e: seq<byte>)
    ensures a + b + c + d + e == a + b + (c + d + e)
    ensures a + b + c + d == a + b + (c + d)
  {
  }

  lemma ParseSplit(lim: Limits, b0: byte, l: seq<byte>, tail: seq<byte>)
    requires |l| >= 1
    ensures ParseFrame(lim, [b0] + l + tail) ==
            match ParseHeader(lim, b0, l[0])
            case Ok(h) => ParsePayload(lim, h, l[1..] + tail)
            case Err(e) => Err(e)
  {
    var input := [b0] + l + tail;
    assert input[..2] == [b0, l[0]];
    assert input[2..] == l[1..] + tail;
  }

  /**
   Whatever the masking, and whatever follows, a reader takes back exactly the frame that was
   written and leaves exactly what follows; a frame it refuses is refused with the error above.
   */
  lemma FrameRoundTrip(lim: Limits, mask: Option<Mask>, f: Frame, setRsv1: bool, rest: seq<byte>)
    requires |f.payload| < U64
    ensures ParseFrame(lim, EncodeFrame(mask, f, setRsv1) + rest) ==
            match Objection(lim, f, setRsv1)
            case None => Ok(Parsed(f.(compressed := setRsv1), mask, rest))
            case Some(e) => Err(e)
  {
    var n := |f.payload|;
    var b0 := FirstByte(f.fin, f.opcode, setRsv1);
    var l := LengthField(n, mask.Some?);
    var after := MaskField(mask) + Body(mask, f.payload) + rest;
    hide LengthField, FirstByte, Masked, ParseFrame, ParseHeader, ParsePayload, ReadLength;
    hide MaskField, Body;
    Reassociate([b0], l, MaskField(mask), Body(mask, f.payload), rest);
    hide EncodeFrame;
    LengthFieldReads(n, mask.Some?, after);
    ParseSplit(lim, b0, l, after);
    HeaderRoundTrip(lim, f, setRsv1, mask.Some?, l[0]);
    var h := Header(f.fin, f.opcode, setRsv1, mask.Some?, Len7(n));
    PayloadRoundTrip(lim, h, mask, f.payload, l[1..] + after, rest);
  }

  // ---------------------------------------------------------------- the bytes of a frame

  /** Whether bit i is set; bit 0 is the lowest. */
  predicate BitAt(b: nat, i: nat) {
    Pow2IsPositive(i);
    b / Pow2(i) % 2 == 1
  }

  lemma {:induction false} Pow2IsPositive(k: nat)
    ensures Pow2(k) >= 1
  {
    if k > 0 { Pow2IsPositive(k - 1); }
  }

  lemma BitAtHalf(b: nat, i: nat)
    requires i > 0
    ensures BitAt(b, i) <==> BitAt(b / 2, i - 1)
  {
    var p := Pow2(i - 1);
    Pow2IsPositive(i - 1);
    DivideTwice(b, p);
  }

  lemma DivideTwice(n: nat, p: nat)
    requires p >= 1
    ensures n / (2 * p) == n / 2 / p
  {
    var q := n / 2 / p;
    var r := n / 2 % p;
    assert n / 2 == q * p + r;
    assert n == 2 * p * q + (2 * r + n % 2);
    QuotientUnique(n, 2 * p, q, 2 * r + n % 2);
  }

  lemma QuotientUnique(n: nat, m: nat, q: nat, r: nat)
    requires m >= 1 && r < m && n == m * q + r
    ensures n / m == q
  {
    var d := n / m - q;
    assert n == m * (n / m) + n % m;
    assert m * d == r - n % m;
    Multiples(m, d);
  }

  lemma Multiples(m: int, d: int)
    requires m >= 1
    ensures (d >= 1 ==> m * d >= m) && (d <= -1 ==> m * d <= -m)
  {
  }

  lemma LowestBit(b: nat)
    ensures BitAt(b, 0) <==> b % 2 == 1
  {
    assert Pow2(0) == 1;
  }

  /** One bit of an exclusive or, and the others. */
  lemma XorBitsStep(a: nat, b: nat, k: nat)
    requires k > 0
    ensures XorBits(a, b, k) / 2 == XorBits(a / 2, b / 2, k - 1)
    ensures XorBits(a, b, k) % 2 == 1 <==> a % 2 != b % 2
  {
  }

  lemma {:induction false} XorBitsMeaning(a: nat, b: nat, k: nat, i: nat)
    requires i < k
    ensures BitAt(XorBits(a, b, k), i) <==> BitAt(a, i) != BitAt(b, i)
    decreases k
  {
    hide BitAt, XorBits;
    XorBitsStep(a, b, k);
    if i == 0 {
      LowestBit(a);
      LowestBit(b);
      LowestBit(XorBits(a, b, k));
    } else {
      BitAtHalf(a, i);
      BitAtHalf(b, i);
      BitAtHalf(XorBits(a, b, k), i);
      XorBitsMeaning(a / 2, b / 2, k - 1, i - 1);
    }
  }

  /** Exclusive or, bit by bit. */
  predicate DiffersByMask(x: byte, a: byte, b: byte) {
    forall i :: 0 <= i < 8 ==> (BitAt(x, i) <==> BitAt(a, i) != BitAt(b, i))
  }

  lemma XorMeaning(a: byte, b: byte)
    ensures DiffersByMask(Xor(a, b), a, b)
  {
    hide BitAt;
    forall i | 0 <= i < 8 ensures BitAt(Xor(a, b), i) <==> BitAt(a, i) != BitAt(b, i) {
      XorBitsMeaning(a, b, 8, i);
    }
  }

  /** Masking changes, in the byte at i, exactly the bits that are set in the mask's byte at i modulo 4. */
  lemma MaskedMeaning(mask: Mask, data: seq<byte>)
    ensures |Masked(mask, data)| == |data|
    ensures forall i :: 0 <= i < |data| ==> DiffersByMask(Masked(mask, data)[i], data[i], mask[i % 4])
  {
    hide Xor, DiffersByMask;
    forall i | 0 <= i < |data| ensures DiffersByMask(Masked(mask, data)[i], data[i], mask[i % 4]) {
      XorMeaning(data[i], mask[i % 4]);
    }
  }

  /** The k-th digit of n to the base 256, counted from the lowest. */
  function Digit(n: nat, k: nat): byte {
    Pow256Positive(k);
    n / Pow256(k) % 256
  }

  lemma {:induction false} Pow256Positive(k: nat)
    ensures Pow256(k) >= 1
  {
    if k > 0 { Pow256Positive(k - 1); }
  }

  /** Network byte order: the most significant byte first. */
  predicate InNetworkOrder(s: seq<byte>, n: nat) {
    forall i :: 0 <= i < |s| ==> s[i] == Digit(n, |s| - 1 - i)
  }

  lemma {:induction false} BigEndianMeaning(n: nat, k: nat)
    ensures InNetworkOrder(BigEndian(n, k), n)
    decreases k
  {
    hide Digit;
    if k > 0 {
      BigEndianMeaning(n / 256, k - 1);
      var s := BigEndian(n, k);
      forall i | 0 <= i < k ensures s[i] == Digit(n, k - 1 - i) {
        if i < k - 1 {
          assert s[i] == BigEndian(n / 256, k - 1)[i];
          DigitOfRest(n, k - 1 - i);
        } else {
          LastDigit(n);
        }
      }
    }
  }

  lemma DigitOfRest(n: nat, k: nat)
    requires k > 0
    ensures Digit(n, k) == Digit(n / 256, k - 1)
  {
    Pow256Positive(k - 1);
    DivideBy256(n, Pow256(k - 1));
  }

  lemma LastDigit(n: nat)
    ensures Digit(n, 0) == n % 256
  {
    assert Pow256(0) == 1;
  }

  lemma DivideBy256(n: nat, p: nat)
    requires p >= 1
    ensures n / (256 * p) == n / 256 / p
  {
    var q := n / 256 / p;
    var r := n / 256 % p;
    assert n / 256 == q * p + r;
    assert n == 256 * p * q + (256 * r + n % 256);
    QuotientUnique(n, 256 * p, q, 256 * r + n % 256);
  }

  /** How many bytes an extended length takes. */
  function Extended(n: nat): nat { if n <= 125 then 0 else if n <= 65535 then 2 else 8 }

  /** The numbers of the opcodes (section 11.8 of RFC 6455). */
  predicate Numbered(opcode: OpCode, n: nat) {
    && (n == 0 <==> opcode.Continue?) && (n == 1 <==> opcode.Text?) && (n == 2 <==> opcode.Binary?)
    && (n == 8 <==> opcode.Close?) && (n == 9 <==> opcode.Ping?) && (n == 10 <==> opcode.Pong?)
  }

  /**
   The bytes of a frame one by one, as section 5.2 of RFC 6455 has them: FIN, RSV1, no other reserved
   bit, and the opcode's number; the mask bit and the length; the extended length in network byte
   order; the mask; and the payload, in which the bits set in the mask are inverted.
   */
  lemma FrameLayout(mask: Option<Mask>, f: Frame, setRsv1: bool)
    requires |f.payload| < U64
    ensures var e, n := EncodeFrame(mask, f, setRsv1), |f.payload|;
      var x := Extended(n); var at := 2 + x + if mask.Some? then 4 else 0;
      && |e| == at + n
      && (BitAt(e[0], 7) <==> f.fin) && (BitAt(e[0], 6) <==> setRsv1) && !BitAt(e[0], 5) && !BitAt(e[0], 4)
      && Numbered(f.opcode, e[0] % 16)
      && (BitAt(e[1], 7) <==> mask.Some?) && e[1] % 128 == (if x == 0 then n else if x == 2 then 126 else 127)
      && InNetworkOrder(e[2..2 + x], n)
      && (mask.Some? ==> e[2 + x..at] == mask.value)
      && (mask.None? ==> e[at..] == f.payload)
      && (mask.Some? ==> forall i :: 0 <= i < n ==> DiffersByMask(e[at + i], f.payload[i], mask.value[i % 4]))
  {
    hide LengthField, FirstByte, Body, MaskField, DiffersByMask, BitAt, Numbered, InNetworkOrder;
    FirstByteLayout(f, setRsv1);
    LengthLayout(|f.payload|, mask.Some?);
    BodyLayout(mask, f.payload);
    Positions(FirstByte(f.fin, f.opcode, setRsv1), LengthField(|f.payload|, mask.Some?), MaskField(mask),
              Body(mask, f.payload));
  }

  lemma Positions(first: byte, l: seq<byte>, m: seq<byte>, b: seq<byte>)
    requires |l| >= 1
    ensures var e, at := [first] + l + m + b, 1 + |l| + |m|;
      && |e| == at + |b| && e[0] == first && e[1] == l[0] && e[2..1 + |l|] == l[1..] && e[1 + |l|..at] == m
      && e[at..] == b && forall i :: 0 <= i < |b| ==> e[at + i] == b[i]
  {
    var e, at := [first] + l + m + b, 1 + |l| + |m|;
    forall i | 0 <= i < |b| ensures e[at + i] == b[i] { }
  }

  lemma HighBits(b: byte)
    ensures (BitAt(b, 7) <==> Bit(b, 0x80)) && (BitAt(b, 6) <==> Bit(b, 0x40))
    ensures (BitAt(b, 5) <==> Bit(b, 0x20)) && (BitAt(b, 4) <==> Bit(b, 0x10))
  {
    assert Pow2(4) == 16 && Pow2(5) == 32;
    assert Pow2(6) == 64 && Pow2(7) == 128;
  }

  lemma FirstByteLayout(f: Frame, setRsv1: bool)
    ensures var b := FirstByte(f.fin, f.opcode, setRsv1);
      && (BitAt(b, 7) <==> f.fin) && (BitAt(b, 6) <==> setRsv1) && !BitAt(b, 5) && !BitAt(b, 4)
      && Numbered(f.opcode, b % 16)
  {
    hide BitAt;
    FirstByteBits(f.fin, f.opcode, setRsv1);
    HighBits(FirstByte(f.fin, f.opcode, setRsv1));
  }

  lemma LengthLayout(n: nat, masked: bool)
    requires n < U64
    ensures var l, x := LengthField(n, masked), Extended(n);
      && |l| == 1 + x && (BitAt(l[0], 7) <==> masked)
      && l[0] % 128 == (if x == 0 then n else if x == 2 then 126 else 127)
      && InNetworkOrder(l[1..], n)
  {
    hide BitAt, BigEndian, InNetworkOrder;
    var l, x := LengthField(n, masked), Extended(n);
    HighBits(l[0]);
    if x == 0 {
      assert l[1..] == [] && InNetworkOrder([], n) by { NoDigits(n); }
    } else {
      assert l[1..] == BigEndian(n, x);
      BigEndianMeaning(n, x);
    }
  }

  lemma NoDigits(n: nat)
    ensures InNetworkOrder([], n)
  {
  }

  lemma BodyLayout(mask: Option<Mask>, payload: seq<byte>)
    ensures var b, m := Body(mask, payload), MaskField(mask);
      && |b| == |payload| && |m| == (if mask.Some? then 4 else 0)
      && (mask.Some? ==> m == mask.value)
      && (mask.None? ==> b == payload)
      && (mask.Some? ==> forall i :: 0 <= i < |b| ==> DiffersByMask(b[i], payload[i], mask.value[i % 4]))
  {
    hide Masked, DiffersByMask;
    if mask.Some? { MaskedMeaning(mask.value, payload); }
  }

  // ---------------------------------------------------------------- what is refused

  /** Which headers are refused, and why, in the order of the checks, by the bits of the two bytes. */
  lemma HeaderErrors(lim: Limits, b0: byte, b1: byte, rest: seq<byte>)
    ensures var n, size := b0 % 16, b1 % 128;
      var e: Option<Error> :=
        if 3 <= n <= 7 || n >= 11 then Some(InvalidOpcode)
        else if BitAt(b0, 4) || BitAt(b0, 5) || (BitAt(b0, 6) && !lim.deflate) then Some(RSVNotZero)
        else if n >= 8 && !BitAt(b0, 7) then Some(ControlFramesFragmented)
        else if n >= 8 && size > 125 then Some(ControlFramePayloadSize)
        else None;
      e.Some? ==> ParseFrame(lim, [b0, b1] + rest) == Err(e.value)
  {
    HighBits(b0);
    hide BitAt, ParsePayload;
    var s := [b0, b1] + rest;
    assert s[..2] == [b0, b1];
  }

  /**
   A stream that ends inside a frame: an I/O error, except that what the header or the length alone
   make unacceptable is refused with its own error as soon as it is known.
   */
  lemma CutFrame(lim: Limits, mask: Option<Mask>, f: Frame, setRsv1: bool, n: nat)
    requires |f.payload| < U64
    requires n < |EncodeFrame(mask, f, setRsv1)|
    ensures ParseFrame(lim, EncodeFrame(mask, f, setRsv1)[..n]) ==
            match Objection(lim, f, setRsv1)
            case None => Err(IOError)
            case Some(e) =>
              if n < 2 + (if e == MaxFrameSize then Extended(|f.payload|) else 0) then Err(IOError) else Err(e)
  {
    hide LengthField, FirstByte, ParseFrame, ParsePayload, MaskField, Body, Objection, EncodeFrame;
    var size := |f.payload|;
    var b0, l := FirstByte(f.fin, f.opcode, setRsv1), LengthField(size, mask.Some?);
    var tail := MaskField(mask) + Body(mask, f.payload);
    EncodedParts(mask, f, setRsv1);
    var s := EncodeFrame(mask, f, setRsv1)[..n];
    if n < 2 {
      TooShort(lim, s);
    } else {
      LengthOnly(size, mask.Some?);
      HeaderRoundTrip(lim, f, setRsv1, mask.Some?, l[0]);
      var in1 := s[2..];
      CutParts(b0, l, tail, n);
      assert s == [b0] + [l[0]] + in1;
      ParseSplit(lim, b0, [l[0]], in1);
      assert [l[0]][1..] + in1 == in1;
      CutObjection(lim, f, setRsv1);
      var h := Header(f.fin, f.opcode, setRsv1, mask.Some?, Len7(size));
      CutPayload(lim, h, mask, f.payload, l[1..], in1);
    }
  }

  lemma EncodedParts(mask: Option<Mask>, f: Frame, setRsv1: bool)
    ensures EncodeFrame(mask, f, setRsv1) ==
            [FirstByte(f.fin, f.opcode, setRsv1)] + LengthField(|f.payload|, mask.Some?)
            + (MaskField(mask) + Body(mask, f.payload))
  {
    hide LengthField, FirstByte, MaskField, Body;
    Reassociate([FirstByte(f.fin, f.opcode, setRsv1)], LengthField(|f.payload|, mask.Some?), MaskField(mask),
                Body(mask, f.payload), []);
  }

  lemma LengthOnly(n: nat, masked: bool)
    requires n < U64
    ensures var l := LengthField(n, masked);
      && |l| == 1 + Extended(n) && l[0] % 128 == Len7(n) && (Bit(l[0], 0x80) <==> masked)
      && ReadLength(Len7(n), l[1..]) == Ok((n, []))
  {
    hide BitAt, InNetworkOrder;
    LengthFieldReads(n, masked, []);
    LengthLayout(n, masked);
    assert LengthField(n, masked)[1..] + [] == LengthField(n, masked)[1..];
  }

  lemma CutParts(b0: byte, l: seq<byte>, tail: seq<byte>, n: nat)
    requires |l| >= 1 && 2 <= n < |[b0] + l + tail|
    ensures var s := ([b0] + l + tail)[..n];
      s == [b0] + [l[0]] + s[2..] && s[2..] == (l[1..] + tail)[..n - 2] && |l[1..] + tail| == |[b0] + l + tail| - 2
  {
  }

  lemma CutObjection(lim: Limits, f: Frame, setRsv1: bool)
    ensures Objection(lim, f, setRsv1) == Some(MaxFrameSize) ==> |f.payload| > lim.maxFrame
    ensures Objection(lim, f, setRsv1) == None ==> |f.payload| <= lim.maxFrame
  {
  }

  lemma TooShort(lim: Limits, input: seq<byte>)
    requires |input| < 2
    ensures ParseFrame(lim, input) == Err(IOError)
  {
  }

  lemma CutPayload(lim: Limits, h: Header, mask: Option<Mask>, payload: seq<byte>, ext: seq<byte>, in1: seq<byte>)
    requires h.masked == mask.Some? && h.len7 == Len7(|payload|) && |ext| == Extended(|payload|)
    requires ReadLength(h.len7, ext) == Ok((|payload|, []))
    requires |in1| < |ext + (MaskField(mask) + Body(mask, payload))|
    requires in1 == (ext + (MaskField(mask) + Body(mask, payload)))[..|in1|]
    ensures ParsePayload(lim, h, in1) ==
            if |payload| > lim.maxFrame && |in1| >= |ext| then Err(MaxFrameSize) else Err(IOError)
  {
    BodyRoundTrip(mask, payload);
    hide Masked, FromBigEndian;
    if |in1| >= |ext| {
      var after := in1[|ext|..];
      assert in1[..|ext|] == ext && in1 == ext + after;
      assert ext + [] == ext;
      ReadLengthAnyTail(h.len7, ext, [], after);
    }
  }

  // ---------------------------------------------------------------- what an accepted frame is made of

  function ExtLen(len7: nat): nat { if len7 == 126 then 2 else if len7 == 127 then 8 else 0 }

  lemma {:induction false} FromBigEndianInverse(s: seq<byte>)
    ensures BigEndian(FromBigEndian(s), |s|) == s
  {
    if s != [] {
      var p, last := s[..|s| - 1], s[|s| - 1];
      FromBigEndianInverse(p);
      var n := FromBigEndian(s);
      assert n / 256 == FromBigEndian(p) && n % 256 == last;
      assert s == p + [last];
    }
  }

  lemma OpCodeInverse(b: byte)
    requires OpCodeFrom(b).Ok?
    ensures OpCodeFrom(b).value.AsU8() == b
  {}

  lemma FirstByteInverse(b0: byte, opcode: OpCode)
    requires !Bit(b0, 0x20) && !Bit(b0, 0x10) && opcode.AsU8() == b0 % 16
    ensures FirstByte(Bit(b0, 0x80), opcode, Bit(b0, 0x40)) == b0
  {
    var h, n := b0 / 16, b0 % 16;
    assert b0 == 16 * h + n && 0 <= h < 16;
    assert b0 / 0x20 == h / 2 && b0 / 0x40 == h / 4 && b0 / 0x80 == h / 8;
    assert h / 2 % 2 == 0 && h % 2 == 0;
    assert h == 8 * (h / 8 % 2) + 4 * (h / 4 % 2);
  }

  lemma HeaderInverse(lim: Limits, b0: byte, b1: byte)
    requires ParseHeader(lim, b0, b1).Ok?
    ensures var h := ParseHeader(lim, b0, b1).value;
      && b0 == FirstByte(h.fin, h.opcode, h.rsv1)
      && h.len7 <= 127
      && b1 == (if h.masked then 0x80 else 0) + h.len7
      && (h.rsv1 ==> lim.deflate)
      && (h.opcode.IsControl() ==> h.fin && h.len7 <= 125)
  {
    OpCodeInverse(b0 % 16);
    FirstByteInverse(b0, OpCodeFrom(b0 % 16).value);
  }

  lemma ReadLengthInverse(len7: nat, input: seq<byte>)
    requires len7 <= 127 && ReadLength(len7, input).Ok?
    ensures var (n, rest) := ReadLength(len7, input).value;
      && n < U64 && ExtLen(len7) <= |input| && rest == input[ExtLen(len7)..]
      && n == (if len7 <= 125 then len7 else FromBigEndian(input[..ExtLen(len7)]))
      && ExtLen(Len7(n)) <= ExtLen(len7)
      && (ExtLen(Len7(n)) == ExtLen(len7) ==> Len7(n) == len7)
  {
    if len7 > 125 {
      Pow256Two();
      Pow256Eight();
      FromBigEndianBound(input[..ExtLen(len7)]);
    }
  }

  lemma LengthFieldInverse(len7: nat, masked: bool, input: seq<byte>)
    requires len7 <= 127 && ReadLength(len7, input).Ok?
    ensures var (n, _) := ReadLength(len7, input).value; var l := LengthField(n, masked);
      && |l| == 1 + ExtLen(Len7(n))
      && (len7 == Len7(n) ==> l == [(if masked then 0x80 else 0) + len7] + input[..ExtLen(len7)])
  {
    ReadLengthInverse(len7, input);
    var n := ReadLength(len7, input).value.0;
    if len7 == Len7(n) {
      FromBigEndianInverse(input[..ExtLen(len7)]);
    }
  }

  lemma ReadLengthAnyTail(len7: nat, ext: seq<byte>, a: seq<byte>, b: seq<byte>)
    requires |ext| == ExtLen(len7) && ReadLength(len7, ext + a).Ok?
    ensures ReadLength(len7, ext + a).value.1 == a
    ensures ReadLength(len7, ext + b) == Ok((ReadLength(len7, ext + a).value.0, b))
  {
    assert (ext + a)[..|ext|] == ext && (ext + a)[|ext|..] == a;
    assert (ext + b)[..|ext|] == ext && (ext + b)[|ext|..] == b;
  }

  lemma MaskLayout(masked: bool, input: seq<byte>, n: nat)
    requires ReadMask(masked, input).Ok? && ReadExact(ReadMask(masked, input).value.1, n).Ok?
    ensures var (mask, in3) := ReadMask(masked, input).value; var (b, rest) := ReadExact(in3, n).value;
      mask.Some? == masked && |b| == n && input == MaskField(mask) + b + rest
  {
    var (mask, in3) := ReadMask(masked, input).value;
    var (b, rest) := ReadExact(in3, n).value;
    assert in3 == b + rest;
    if masked {
      assert input == input[..4] + input[4..];
      assert input[..4] + (b + rest) == input[..4] + b + rest;
    } else {
      assert input == [] + b + rest;
    }
  }

  /** The bytes of an accepted frame after its header: extended length, mask, body, then the rest. */
  lemma PayloadLayout(lim: Limits, h: Header, in1: seq<byte>) returns (ext: seq<byte>)
    requires h.len7 <= 127 && ParsePayload(lim, h, in1).Ok?
    ensures var p := ParsePayload(lim, h, in1).value; var f := p.frame;
      var after := MaskField(p.mask) + Body(p.mask, f.payload);
      && h == Header(f.fin, f.opcode, f.compressed, p.mask.Some?, h.len7)
      && |f.payload| <= lim.maxFrame && |f.payload| < U64
      && |ext| == ExtLen(h.len7)
      && in1 == ext + (after + p.rest)
      && ReadLength(h.len7, in1) == Ok((|f.payload|, after + p.rest))
  {
    hide ReadMask, MaskField, Masked, FromBigEndian, ReadLength;
    ReadLengthInverse(h.len7, in1);
    ext := in1[..ExtLen(h.len7)];
    var (n, in2) := ReadLength(h.len7, in1).value;
    MaskLayout(h.masked, in2, n);
    var (mask, in3) := ReadMask(h.masked, in2).value;
    BodyRoundTrip(mask, in3[..n]);
    assert in1 == ext + in2;
  }

  /**
   An accepted frame takes at least two bytes and depends on no byte after it. Encoding it again
   with the same masking is never longer, reads back as the same frame, and gives the same bytes
   exactly when the peer had used the shortest length form.
   */
  lemma CanonicalForm(lim: Limits, input: seq<byte>, other: seq<byte>)
    requires ParseFrame(lim, input).Ok?
    ensures var p := ParseFrame(lim, input).value;
      var e := EncodeFrame(p.mask, p.frame, p.frame.compressed);
      && |p.rest| + 2 <= |input| && input == input[..|input| - |p.rest|] + p.rest
      && ParseFrame(lim, input[..|input| - |p.rest|] + other) == Ok(p.(rest := other))
      && |e| <= |input| - |p.rest|
      && ParseFrame(lim, e + other) == Ok(p.(rest := other))
      && (|e| == |input| - |p.rest| <==> e == input[..|input| - |p.rest|])
  {
    hide ParseFrame, ParseHeader, ParsePayload, EncodeFrame, LengthField, ReadLength, MaskField, Body, FirstByte;
    var p := ParseFrame(lim, input).value;
    var f := p.frame;
    var h := AcceptedHeader(lim, input);
    HeaderInverse(lim, input[0], input[1]);
    var ext := PayloadLayout(lim, h, input[2..]);
    var after := MaskField(p.mask) + Body(p.mask, f.payload);
    var consumed := [input[0]] + ([input[1]] + ext) + after;
    RegroupFrame(input, ext, after, p.rest, other);
    ReadLengthAnyTail(h.len7, ext, after + p.rest, after + other);
    ParseSplit(lim, input[0], [input[1]] + ext, after + other);
    assert ([input[1]] + ext)[1..] == ext;
    PayloadRoundTrip(lim, h, p.mask, f.payload, ext + (after + other), other);
    FrameRoundTrip(lim, p.mask, f, f.compressed, other);
    ReadLengthInverse(h.len7, input[2..]);
    LengthFieldInverse(h.len7, h.masked, input[2..]);
    assert input[2..][..ExtLen(h.len7)] == ext;
    ShortestForm(h, f, p.mask, input[0], input[1], ext);
  }

  lemma AcceptedHeader(lim: Limits, input: seq<byte>) returns (h: Header)
    requires ParseFrame(lim, input).Ok?
    ensures |input| >= 2 && ParseHeader(lim, input[0], input[1]) == Ok(h)
    ensures ParseFrame(lim, input) == ParsePayload(lim, h, input[2..])
  {
    h := ParseHeader(lim, input[0], input[1]).value;
  }

  lemma RegroupFrame(input: seq<byte>, ext: seq<byte>, after: seq<byte>, rest: seq<byte>, other: seq<byte>)
    requires |input| >= 2 && input[2..] == ext + (after + rest)
    ensures var consumed := [input[0]] + ([input[1]] + ext) + after;
      && |input| - |rest| == |consumed|
      && input == consumed + rest && input[..|consumed|] == consumed
      && consumed + other == [input[0]] + ([input[1]] + ext) + (after + other)
  {
    var consumed := [input[0]] + ([input[1]] + ext) + after;
    assert input == [input[0], input[1]] + input[2..];
    assert consumed + rest == [input[0], input[1]] + (ext + (after + rest));
  }

  lemma ShortestForm(h: Header, f: Frame, mask: Option<Mask>, b0: byte, b1: byte, ext: seq<byte>)
    requires h == Header(f.fin, f.opcode, f.compressed, mask.Some?, h.len7)
    requires b0 == FirstByte(h.fin, h.opcode, h.rsv1)
    requires |ext| == ExtLen(h.len7) && ExtLen(Len7(|f.payload|)) <= ExtLen(h.len7)
    requires |LengthField(|f.payload|, h.masked)| == 1 + ExtLen(Len7(|f.payload|))
    requires ExtLen(Len7(|f.payload|)) == ExtLen(h.len7) ==> LengthField(|f.payload|, h.masked) == [b1] + ext
    ensures var e := EncodeFrame(mask, f, f.compressed);
      var consumed := [b0] + ([b1] + ext) + (MaskField(mask) + Body(mask, f.payload));
      |e| <= |consumed| && (|e| == |consumed| <==> e == consumed)
  {
    var l := LengthField(|f.payload|, h.masked);
    var after := MaskField(mask) + Body(mask, f.payload);
    Reassociate([b0], l, MaskField(mask), Body(mask, f.payload), []);
  }

  /** What callers need most: a frame takes at least two bytes, off the front, and is a legal one. */
  lemma FrameProgress(lim: Limits, input: seq<byte>)
    requires ParseFrame(lim, input).Ok?
    ensures var p := ParseFrame(lim, input).value;
      && |p.rest| + 2 <= |input| && p.rest == input[|input| - |p.rest|..]
      && |p.frame.payload| < U64 && Legal(lim, p.frame)
  {
    CanonicalForm(lim, input, []);
    var p := ParseFrame(lim, input).value;
    var h := ParseHeader(lim, input[0], input[1]).value;
    HeaderInverse(lim, input[0], input[1]);
    ReadLengthInverse(h.len7, input[2..]);
    var ext := PayloadLayout(lim, h, input[2..]);
  }
}
