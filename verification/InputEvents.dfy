/** Remote-control events on the input channel (src/protocol.rs). */
module InputEvents {
  import opened Common
  import opened LittleEndian

  datatype MouseButton = Left | Middle | Right | Back | Forward {
    /** Browser numbering. */
    function ToWire(): byte {
      match this
      case Left => 0
      case Middle => 1
      case Right => 2
      case Back => 3
      case Forward => 4
    }

    /** Linux `BTN_*` codes, in which right comes before middle. */
    function EvdevCode(): nat {
      match this
      case Left => 0x110
      case Right => 0x111
      case Middle => 0x112
      case Back => 0x113
      case Forward => 0x114
    }
  }

  function ButtonFromWire(v: byte): Option<MouseButton> {
    match v
    case 0 => Some(Left)
    case 1 => Some(Middle)
    case 2 => Some(Right)
    case 3 => Some(Back)
    case 4 => Some(Forward)
    case _ => None
  }

  type u16 = x: int | 0 <= x < U16_LIMIT
  type i16 = x: int | -0x8000 <= x < 0x8000

  datatype InputEvent =
    | PointerMotion(x: u16, y: u16)
    | PointerButton(button: MouseButton, pressed: bool)
    | PointerAxis(dx: i16, dy: i16)
    | Key(code: u16, down: bool)

  /** `u16 as i16` and back: two's complement. */
  function ToSigned(v: u16): i16 { if v < 0x8000 then v else v - U16_LIMIT }

  function ToUnsigned(v: i16): u16 { if v >= 0 then v else v + U16_LIMIT }

  function WireBool(v: byte): Option<bool> {
    match v
    case 0 => Some(false)
    case 1 => Some(true)
    case _ => None
  }

  function BoolByte(b: bool): byte { if b then 1 else 0 }

  /** Malformed messages from the network yield `None`. */
  function Decode(msg: seq<byte>): Option<InputEvent> {
    if msg == [] then None
    else if msg[0] == 0x01 && |msg| == 5 then Some(PointerMotion(At16(msg, 1), At16(msg, 3)))
    else if msg[0] == 0x02 && |msg| == 3 then
      if ButtonFromWire(msg[1]).Some? && WireBool(msg[2]).Some?
      then Some(PointerButton(ButtonFromWire(msg[1]).value, WireBool(msg[2]).value)) else None
    else if msg[0] == 0x03 && |msg| == 5 then Some(PointerAxis(ToSigned(At16(msg, 1)), ToSigned(At16(msg, 3))))
    else if msg[0] == 0x04 && |msg| == 4 then
      if WireBool(msg[3]).Some? then Some(Key(At16(msg, 1), WireBool(msg[3]).value)) else None
    else None
  }

  function Encode(e: InputEvent): seq<byte> {
    match e
    case PointerMotion(x, y) => [0x01] + Le16(x) + Le16(y)
    case PointerButton(button, pressed) => [0x02, button.ToWire(), BoolByte(pressed)]
    case PointerAxis(dx, dy) => [0x03] + Le16(ToUnsigned(dx)) + Le16(ToUnsigned(dy))
    case Key(code, down) => [0x04] + Le16(code) + [BoolByte(down)]
  }

  lemma WordRead(msg: seq<byte>, i: nat, v: u16)
    requires i + 2 <= |msg|
    ensures msg[i..i + 2] == Le16(v) <==> At16(msg, i) == v
  {
    Pow256Values();
    if msg[i..i + 2] == Le16(v) { Read16(msg, i, v); }
    ReadWrite(msg[i..i + 2]);
  }

  /** Decoding inverts encoding, and accepts nothing but encodings: every event has
      exactly one message. */
  lemma DecodeIff(msg: seq<byte>, e: InputEvent)
    ensures Decode(msg) == Some(e) <==> msg == Encode(e)
  {
    if |msg| == |Encode(e)| {
      match e
      case PointerMotion(x, y) => TwoWords(msg, 0x01, x, y);
      case PointerButton(button, pressed) =>
        assert msg == [msg[0], msg[1], msg[2]];
      case PointerAxis(dx, dy) => TwoWords(msg, 0x03, ToUnsigned(dx), ToUnsigned(dy));
      case Key(code, down) =>
        WordRead(msg, 1, code);
        assert msg == [msg[0]] + msg[1..3] + [msg[3]];
    }
  }

  /** The messages byte by byte: a tag, then little-endian words, two's complement where a
      number may be negative, and one byte for a button or a flag. */
  lemma MotionLayout(x: u16, y: u16)
    ensures Encode(PointerMotion(x, y)) == [1, x % 256, x / 256, y % 256, y / 256]
  {
    TwoBytes(x);
    TwoBytes(y);
  }

  lemma AxisLayout(dx: i16, dy: i16)
    ensures var u, v := (dx + 0x10000) % 0x10000, (dy + 0x10000) % 0x10000;
            Encode(PointerAxis(dx, dy)) == [3, u % 256, u / 256, v % 256, v / 256]
  {
    TwoBytes(ToUnsigned(dx));
    TwoBytes(ToUnsigned(dy));
    TwosComplement(dx);
    TwosComplement(dy);
  }

  lemma KeyLayout(code: u16, down: bool)
    ensures Encode(Key(code, down)) == [4, code % 256, code / 256, if down then 1 else 0]
  {
    TwoBytes(code);
  }

  lemma ButtonLayout(pressed: bool)
    ensures var flag: byte := if pressed then 1 else 0;
            && Encode(PointerButton(Left, pressed)) == [2, 0, flag] && Encode(PointerButton(Middle, pressed)) == [2, 1, flag]
            && Encode(PointerButton(Right, pressed)) == [2, 2, flag] && Encode(PointerButton(Back, pressed)) == [2, 3, flag]
            && Encode(PointerButton(Forward, pressed)) == [2, 4, flag]
  {}

  lemma TwosComplement(v: i16)
    ensures ToUnsigned(v) == (v + 0x10000) % 0x10000
  {}

  lemma TwoBytes(v: u16)
    ensures Le16(v) == [v % 256, v / 256]
  {
    LowByteFirst(v);
  }

  lemma TwoWords(msg: seq<byte>, tag: byte, a: u16, b: u16)
    requires |msg| == 5
    ensures msg == [tag] + Le16(a) + Le16(b) <==> msg[0] == tag && At16(msg, 1) == a && At16(msg, 3) == b
  {
    WordRead(msg, 1, a);
    WordRead(msg, 3, b);
    assert msg == [msg[0]] + msg[1..3] + msg[3..5];
    var m := [tag] + Le16(a) + Le16(b);
    assert m[1..3] == Le16(a) && m[3..5] == Le16(b);
  }
}
