/** Opcodes, frames and messages (src/frame.rs, src/message.rs). */
module Frames {
  import opened Basics

  datatype OpCode = Continue | Text | Binary | Close | Ping | Pong {
    function AsU8(): byte {
      match this
      case Continue => 0x0
      case Text => 0x1
      case Binary => 0x2
      case Close => 0x8
      case Ping => 0x9
      case Pong => 0xA
    }

    predicate IsControl() { Close? || Ping? || Pong? }

    /** Text or Binary: the opcodes that open a message. */
    predicate IsData() { Text? || Binary? }
  }

  function OpCodeFrom(b: byte): Result<OpCode> {
    if b == 0x0 then Ok(Continue)
    else if b == 0x1 then Ok(Text)
    else if b == 0x2 then Ok(Binary)
    else if b == 0x8 then Ok(Close)
    else if b == 0x9 then Ok(Ping)
    else if b == 0xA then Ok(Pong)
    else Err(InvalidOpcode)
  }

  /**
   A frame. On the receiving side, and wherever frames are spoken of as "on the wire",
   `compressed` is the RSV1 bit. A sender keeps `compressed` true on every fragment of a
   compressed message and chooses the RSV1 bit when it writes the frame.
   */
  datatype Frame = Frame(fin: bool, opcode: OpCode, payload: seq<byte>, compressed: bool)

  predicate Trailing(b: byte) { 0x80 <= b <= 0xBF }

  /** Well-formed UTF-8, as `String::from_utf8` checks it. */
  predicate ValidUtf8(s: seq<byte>)
    decreases |s|
  {
    if |s| == 0 then true
    else if s[0] < 0x80 then ValidUtf8(s[1..])
    else if 0xC2 <= s[0] <= 0xDF then
      |s| >= 2 && Trailing(s[1]) && ValidUtf8(s[2..])
    else if 0xE0 <= s[0] <= 0xEF then
      && |s| >= 3 && Trailing(s[1]) && Trailing(s[2])
      && (s[0] == 0xE0 ==> 0xA0 <= s[1])
      && (s[0] == 0xED ==> s[1] <= 0x9F)
      && ValidUtf8(s[3..])
    else if 0xF0 <= s[0] <= 0xF4 then
      && |s| >= 4 && Trailing(s[1]) && Trailing(s[2]) && Trailing(s[3])
      && (s[0] == 0xF0 ==> 0x90 <= s[1])
      && (s[0] == 0xF4 ==> s[1] <= 0x8F)
      && ValidUtf8(s[4..])
    else false
  }

  /** The bytes of a Rust `String`. */
  type Utf8 = s: seq<byte> | ValidUtf8(s) witness []

  datatype Message = TextMessage(text: Utf8) | BinaryMessage(data: seq<byte>) {
    function AsBinary(): seq<byte> {
      match this case TextMessage(t) => t case BinaryMessage(d) => d
    }

    function Kind(): OpCode {
      match this case TextMessage(_) => Text case BinaryMessage(_) => Binary
    }
  }

  function FromFrame(opcode: OpCode, payload: seq<byte>): Result<Message> {
    match opcode
    case Text => if ValidUtf8(payload) then Ok(TextMessage(payload)) else Err(FromUtf8Error)
    case Binary => Ok(BinaryMessage(payload))
    case _ => Err(InvalidOpcode)
  }

  /** Only Text and Binary frames may carry RSV1; the others are excluded where this is required. */
  predicate Rsv1Clean(f: Frame) { f.compressed ==> f.opcode.IsData() }

  predicate AllRsv1Clean(fs: seq<Frame>) { forall f | f in fs :: Rsv1Clean(f) }
}
