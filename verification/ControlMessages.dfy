/** The binary encoding of control messages (src/message/control_msg.cpp) and a decoder for it. */
module ControlMessages {
  import opened Common
  import opened BufferUtil
  import Utf8

  const TEXT_MAX_LENGTH := 300
  const CLIPBOARD_TEXT_MAX_LENGTH := 4093
  const SERIALIZED_MAX_SIZE := 3 + CLIPBOARD_TEXT_MAX_LENGTH

  datatype Point = Point(x: int32, y: int32)
  datatype Position = Position(screenSize: Size, point: Point)

  datatype ControlMessage =
    | InjectKeycode(action: uint32, keycode: uint32, metastate: uint32)
    | InjectText(text: seq<byte>)
    | InjectTouchEvent(action: uint32, pointerId: uint64, position: Position, pressure: real, buttons: uint32)
    | InjectScrollEvent(position: Position, hscroll: int32, vscroll: int32)
    | BackOrScreenOn
    | ExpandNotificationPanel
    | CollapseNotificationPanel
    | GetClipboard
    | SetClipboard(text: seq<byte>)
    | SetScreenPowerMode(mode: uint32)
    | RotateDevice
    // The message types Serialize does not know: recording control and unknown.
    | Unserializable(kind: uint32)

  /** What Serialize demands: C strings it can cut, and the pressure its assertion allows. */
  predicate Encodable(m: ControlMessage) {
    match m
    case InjectText(text) => 0 !in text && Utf8.CanTruncate(text, TEXT_MAX_LENGTH)
    case SetClipboard(text) => 0 !in text && Utf8.CanTruncate(text, CLIPBOARD_TEXT_MAX_LENGTH)
    case InjectTouchEvent(_, _, _, pressure, _) => 0.0 <= pressure <= 1.0
    case Unserializable(kind) => kind > 10
    case _ => true
  }

  function TypeCode(m: ControlMessage): uint32 {
    match m
    case InjectKeycode(_, _, _) => 0
    case InjectText(_) => 1
    case InjectTouchEvent(_, _, _, _, _) => 2
    case InjectScrollEvent(_, _, _) => 3
    case BackOrScreenOn => 4
    case ExpandNotificationPanel => 5
    case CollapseNotificationPanel => 6
    case GetClipboard => 7
    case SetClipboard(_) => 8
    case SetScreenPowerMode(_) => 9
    case RotateDevice => 10
    case Unserializable(kind) => kind
  }

  // ---------- Encoding ----------

  function ToFixedPoint16(pressure: real): uint16
    requires 0.0 <= pressure <= 1.0
  {
    var u := (pressure * 65536.0).Floor;
    if u >= 0xffff then 0xffff else u
  }

  function Quantized(pressure: real): real
    requires 0.0 <= pressure <= 1.0
  {
    ToFixedPoint16(pressure) as real / 65536.0
  }

  function EncodePosition(p: Position): seq<byte> {
    Be32(Unsigned32(p.point.x)) + Be32(Unsigned32(p.point.y)) + Be16(p.screenSize.width) + Be16(p.screenSize.height)
  }

  function Cut(text: seq<byte>, maxLen: nat): seq<byte>
    requires Utf8.CanTruncate(text, maxLen)
  {
    text[..Utf8.TruncationIndex(text, maxLen)]
  }

  function EncodeText(text: seq<byte>, maxLen: uint16): seq<byte>
    requires Utf8.CanTruncate(text, maxLen)
  {
    Be16(|Cut(text, maxLen)|) + Cut(text, maxLen)
  }

  function Encode(m: ControlMessage): seq<byte>
    requires Encodable(m)
  {
    match m
    case InjectKeycode(action, keycode, metastate) =>
      [0, action % 0x100] + Be32(keycode) + Be32(metastate)
    case InjectText(text) =>
      [1] + EncodeText(text, TEXT_MAX_LENGTH)
    case InjectTouchEvent(action, pointerId, position, pressure, buttons) =>
      [2, action % 0x100] + Be64(pointerId) + EncodePosition(position) + Be16(ToFixedPoint16(pressure)) + Be32(buttons)
    case InjectScrollEvent(position, hscroll, vscroll) =>
      [3] + EncodePosition(position) + Be32(Unsigned32(hscroll)) + Be32(Unsigned32(vscroll))
    case SetClipboard(text) =>
      [8] + EncodeText(text, CLIPBOARD_TEXT_MAX_LENGTH)
    case SetScreenPowerMode(mode) =>
      [9, mode % 0x100]
    case Unserializable(_) => []
    case _ => [TypeCode(m)]
  }

  // ---------- Decoding, from the layout alone ----------

  function DecodePosition(s: seq<byte>): Position
    requires |s| >= 12
  {
    Position(Size(Read16be(s[8..]), Read16be(s[10..])),
             Point(Signed32(Read32be(s)), Signed32(Read32be(s[4..]))))
  }

  /** The first message of a byte stream and the number of bytes it takes. */
  function Decode(s: seq<byte>): Option<(ControlMessage, nat)> {
    if s == [] then None
    else if s[0] == 0 then
      if |s| < 10 then None
      else Some((InjectKeycode(s[1], Read32be(s[2..]), Read32be(s[6..])), 10))
    else if s[0] == 1 || s[0] == 8 then
      if |s| < 3 || |s| < 3 + Read16be(s[1..]) then None
      else
        var text := s[3..3 + Read16be(s[1..])];
        Some((if s[0] == 1 then InjectText(text) else SetClipboard(text), 3 + |text|))
    else if s[0] == 2 then
      if |s| < 28 then None
      else Some((InjectTouchEvent(s[1], Read64be(s[2..]), DecodePosition(s[10..]),
                                  Read16be(s[22..]) as real / 65536.0, Read32be(s[24..])), 28))
    else if s[0] == 3 then
      if |s| < 21 then None
      else Some((InjectScrollEvent(DecodePosition(s[1..]), Signed32(Read32be(s[13..])), Signed32(Read32be(s[17..]))), 21))
    else if s[0] == 4 then Some((BackOrScreenOn, 1))
    else if s[0] == 5 then Some((ExpandNotificationPanel, 1))
    else if s[0] == 6 then Some((CollapseNotificationPanel, 1))
    else if s[0] == 7 then Some((GetClipboard, 1))
    else if s[0] == 9 then
      if |s| < 2 then None else Some((SetScreenPowerMode(s[1]), 2))
    else if s[0] == 10 then Some((RotateDevice, 1))
    else None
  }

  /** What of a message survives on the wire: enumerations keep a byte, texts are cut, pressures rounded down. */
  function Canonical(m: ControlMessage): ControlMessage
    requires Encodable(m)
  {
    match m
    case InjectKeycode(action, keycode, metastate) => InjectKeycode(action % 0x100, keycode, metastate)
    case InjectText(text) => InjectText(Cut(text, TEXT_MAX_LENGTH))
    case InjectTouchEvent(action, pointerId, position, pressure, buttons) =>
      InjectTouchEvent(action % 0x100, pointerId, position, Quantized(pressure), buttons)
    case SetClipboard(text) => SetClipboard(Cut(text, CLIPBOARD_TEXT_MAX_LENGTH))
    case SetScreenPowerMode(mode) => SetScreenPowerMode(mode % 0x100)
    case _ => m
  }

  // ---------- Round trips ----------

  lemma PositionRoundTrip(p: Position, rest: seq<byte>)
    ensures |EncodePosition(p)| == 12 && DecodePosition(EncodePosition(p) + rest) == p
  {
    var x, y := Be32(Unsigned32(p.point.x)), Be32(Unsigned32(p.point.y));
    var w, h := Be16(p.screenSize.width), Be16(p.screenSize.height);
    var s := EncodePosition(p) + rest;
    assert s == x + (y + w + h + rest);
    assert s[4..] == y + (w + h + rest);
    assert s[8..] == w + (h + rest);
    assert s[10..] == h + rest;
    RoundTrip32(Unsigned32(p.point.x), y + w + h + rest);
    RoundTrip32(Unsigned32(p.point.y), w + h + rest);
    RoundTrip16(p.screenSize.width, h + rest);
    RoundTrip16(p.screenSize.height, rest);
    SignedRoundTrip(p.point.x);
    SignedRoundTrip(p.point.y);
  }

  lemma KeycodeRoundTrip(m: ControlMessage, rest: seq<byte>)
    requires m.InjectKeycode?
    ensures Decode(Encode(m) + rest) == Some((Canonical(m), |Encode(m)|))
  {
    var s := Encode(m) + rest;
    assert s[2..] == Be32(m.keycode) + (Be32(m.metastate) + rest);
    assert s[6..] == Be32(m.metastate) + rest;
    RoundTrip32(m.keycode, Be32(m.metastate) + rest);
    RoundTrip32(m.metastate, rest);
  }

  lemma TextBytes(kind: byte, text: seq<byte>, rest: seq<byte>)
    requires |text| < 0x1_0000
    ensures var s := [kind] + (Be16(|text|) + text) + rest;
            |s| >= 3 + |text| && s[0] == kind && Read16be(s[1..]) == |text| && s[3..3 + |text|] == text
  {
    var s := [kind] + (Be16(|text|) + text) + rest;
    assert s[1..] == Be16(|text|) + (text + rest);
    RoundTrip16(|text|, text + rest);
  }

  lemma TextRoundTrip(m: ControlMessage, rest: seq<byte>)
    requires (m.InjectText? || m.SetClipboard?) && Encodable(m)
    ensures Decode(Encode(m) + rest) == Some((Canonical(m), |Encode(m)|))
  {
    if m.InjectText? {
      TextBytes(1, Cut(m.text, TEXT_MAX_LENGTH), rest);
    } else {
      TextBytes(8, Cut(m.text, CLIPBOARD_TEXT_MAX_LENGTH), rest);
    }
  }

  /** The suffixes of a concatenation start with its parts. */
  lemma Suffixes(head: seq<byte>, a: seq<byte>, b: seq<byte>, c: seq<byte>, d: seq<byte>, rest: seq<byte>)
    ensures var s := (head + a + b + c + d) + rest;
            && s[|head|..] == a + (b + c + d + rest)
            && s[|head + a|..] == b + (c + d + rest)
            && s[|head + a + b|..] == c + (d + rest)
            && s[|head + a + b + c|..] == d + rest
  {
  }

  lemma TouchRoundTrip(m: ControlMessage, rest: seq<byte>)
    requires m.InjectTouchEvent? && Encodable(m)
    ensures |Encode(m)| == 28 && Decode(Encode(m) + rest) == Some((Canonical(m), 28))
  {
    var id, position := Be64(m.pointerId), EncodePosition(m.position);
    var pressure, buttons := Be16(ToFixedPoint16(m.pressure)), Be32(m.buttons);
    Suffixes([2, m.action % 0x100], id, position, pressure, buttons, rest);
    PositionRoundTrip(m.position, pressure + buttons + rest);
    RoundTrip64(m.pointerId, position + pressure + buttons + rest);
    RoundTrip16(ToFixedPoint16(m.pressure), buttons + rest);
    RoundTrip32(m.buttons, rest);
  }

  lemma ScrollRoundTrip(m: ControlMessage, rest: seq<byte>)
    requires m.InjectScrollEvent?
    ensures |Encode(m)| == 21 && Decode(Encode(m) + rest) == Some((Canonical(m), 21))
  {
    var position, h, v := EncodePosition(m.position), Be32(Unsigned32(m.hscroll)), Be32(Unsigned32(m.vscroll));
    PositionRoundTrip(m.position, h + v + [] + rest);
    Suffixes([3], position, h, v, [], rest);
    assert [3] + position + h + v + [] == Encode(m);
    RoundTrip32(Unsigned32(m.hscroll), v + [] + rest);
    RoundTrip32(Unsigned32(m.vscroll), [] + rest);
    SignedRoundTrip(m.hscroll);
    SignedRoundTrip(m.vscroll);
  }

  /** Whatever follows on the wire, the decoder finds the message, and where it ends. */
  lemma RoundTrip(m: ControlMessage, rest: seq<byte>)
    requires Encodable(m) && !m.Unserializable?
    ensures Decode(Encode(m) + rest) == Some((Canonical(m), |Encode(m)|))
    ensures 1 <= |Encode(m)| <= 4096
  {
    match m
    case InjectKeycode(_, _, _) => KeycodeRoundTrip(m, rest);
    case InjectText(_) => TextRoundTrip(m, rest);
    case SetClipboard(_) => TextRoundTrip(m, rest);
    case InjectTouchEvent(_, _, _, _, _) => TouchRoundTrip(m, rest);
    case InjectScrollEvent(_, _, _) => ScrollRoundTrip(m, rest);
    case _ =>
  }

  predicate AllSerializable(ms: seq<ControlMessage>) {
    forall m | m in ms :: Encodable(m) && !m.Unserializable?
  }

  function EncodeAll(ms: seq<ControlMessage>): seq<byte>
    requires AllSerializable(ms)
  {
    if ms == [] then [] else Encode(ms[0]) + EncodeAll(ms[1..])
  }

  function DecodeAll(s: seq<byte>): Option<seq<ControlMessage>>
    decreases |s|
  {
    if s == [] then Some([])
    else
      match Decode(s)
      case None => None
      case Some((m, n)) =>
        if 0 < n <= |s| then
          match DecodeAll(s[n..])
          case None => None
          case Some(ms) => Some([m] + ms)
        else None
  }

  function CanonicalAll(ms: seq<ControlMessage>): seq<ControlMessage>
    requires AllSerializable(ms)
  {
    seq(|ms|, i requires 0 <= i < |ms| => Canonical(ms[i]))
  }

  lemma DecodesFirst(m: ControlMessage, rest: seq<byte>, later: seq<ControlMessage>)
    requires Encodable(m) && !m.Unserializable? && DecodeAll(rest) == Some(later)
    ensures DecodeAll(Encode(m) + rest) == Some([Canonical(m)] + later)
  {
    RoundTrip(m, rest);
    assert (Encode(m) + rest)[|Encode(m)|..] == rest;
  }

  /** A stream of messages is uniquely decodable. */
  lemma {:induction false} StreamRoundTrip(ms: seq<ControlMessage>)
    requires AllSerializable(ms)
    ensures DecodeAll(EncodeAll(ms)) == Some(CanonicalAll(ms))
  {
    if ms == [] {
    } else {
      StreamRoundTrip(ms[1..]);
      DecodesFirst(ms[0], EncodeAll(ms[1..]), CanonicalAll(ms[1..]));
      assert CanonicalAll(ms) == [Canonical(ms[0])] + CanonicalAll(ms[1..]);
    }
  }

  lemma DecodesAtHead(m: ControlMessage, s: seq<byte>)
    requires Encodable(m) && !m.Unserializable? && Encode(m) <= s
    ensures Decode(s) == Some((Canonical(m), |Encode(m)|))
  {
    var bytes := Encode(m);
    var rest := s[|bytes|..];
    RoundTrip(m, rest);
    assert s == bytes + rest;
  }

  lemma EqualPrefix(a: seq<byte>, b: seq<byte>)
    requires a <= b && |a| == |b|
    ensures a == b
  {
  }

  /** No encoding is a proper prefix of another. */
  lemma PrefixFree(a: ControlMessage, b: ControlMessage)
    requires Encodable(a) && Encodable(b) && !a.Unserializable? && !b.Unserializable?
    requires Encode(a) <= Encode(b)
    ensures Encode(a) == Encode(b)
  {
    DecodesAtHead(a, Encode(b));
    DecodesAtHead(b, Encode(b));
    EqualPrefix(Encode(a), Encode(b));
  }

  lemma QuantizedTwice(pressure: real)
    requires 0.0 <= pressure <= 1.0
    ensures 0.0 <= Quantized(pressure) <= 1.0
    ensures ToFixedPoint16(Quantized(pressure)) == ToFixedPoint16(pressure)
  {
    var u := ToFixedPoint16(pressure);
    assert Quantized(pressure) * 65536.0 == u as real;
  }

  lemma CutTwice(text: seq<byte>, maxLen: nat)
    requires 0 !in text && Utf8.CanTruncate(text, maxLen)
    ensures var cut := Cut(text, maxLen); 0 !in cut && |cut| <= maxLen && Cut(cut, maxLen) == cut
  {
  }

  lemma TouchSentUnchanged(m: ControlMessage)
    requires m.InjectTouchEvent? && Encodable(m)
    ensures Encodable(Canonical(m))
    ensures Encode(Canonical(m)) == Encode(m) && Canonical(Canonical(m)) == Canonical(m)
  {
    QuantizedTwice(m.pressure);
  }

  lemma TextSentUnchanged(m: ControlMessage)
    requires (m.InjectText? || m.SetClipboard?) && Encodable(m)
    ensures Encodable(Canonical(m))
    ensures Encode(Canonical(m)) == Encode(m) && Canonical(Canonical(m)) == Canonical(m)
  {
    CutTwice(m.text, if m.InjectText? then TEXT_MAX_LENGTH else CLIPBOARD_TEXT_MAX_LENGTH);
  }

  lemma OthersSentUnchanged(m: ControlMessage)
    requires !m.InjectText? && !m.SetClipboard? && !m.InjectTouchEvent? && Encodable(m)
    ensures Encodable(Canonical(m))
    ensures Encode(Canonical(m)) == Encode(m) && Canonical(Canonical(m)) == Canonical(m)
  {
  }

  /** The canonical form is all that is sent, and it is sent unchanged. */
  lemma CanonicalIsWhatIsSent(m: ControlMessage)
    requires Encodable(m)
    ensures Encodable(Canonical(m))
    ensures Encode(Canonical(m)) == Encode(m) && Canonical(Canonical(m)) == Canonical(m)
  {
    if m.InjectTouchEvent? {
      TouchSentUnchanged(m);
    } else if m.InjectText? || m.SetClipboard? {
      TextSentUnchanged(m);
    } else {
      OthersSentUnchanged(m);
    }
  }

  /** Two messages look the same on the wire exactly when their canonical forms are equal. */
  lemma WireEquality(a: ControlMessage, b: ControlMessage)
    requires Encodable(a) && Encodable(b) && !a.Unserializable? && !b.Unserializable?
    ensures Encode(a) == Encode(b) <==> Canonical(a) == Canonical(b)
  {
    RoundTrip(a, []);
    RoundTrip(b, []);
    assert Encode(a) + [] == Encode(a) && Encode(b) + [] == Encode(b);
    CanonicalIsWhatIsSent(a);
    CanonicalIsWhatIsSent(b);
  }

  /** `cut` is as much of a valid text as fits `limit` bytes without cutting a character. */
  ghost predicate IsLargestCut(cut: seq<byte>, text: seq<byte>, limit: nat) {
    && cut <= text && |cut| <= limit && Utf8.Valid(cut)
    && (forall i | |cut| < i <= limit && i <= |text| :: !Utf8.Valid(text[..i]))
    && (|text| <= limit ==> cut == text)
    && (|text| > limit ==> |cut| + 3 >= limit)
  }

  /**
   Little is lost: of valid text only what exceeds 300 bytes, or 4093 for the clipboard, and of the character
   there; of a pressure at most 2^-16; of actions and modes what exceeds a byte.
   */
  lemma LossIsBounded(m: ControlMessage)
    requires Encodable(m)
    ensures match m
            case InjectText(text) =>
              Canonical(m).InjectText? && (Utf8.Valid(text) ==> IsLargestCut(Canonical(m).text, text, 300))
            case SetClipboard(text) =>
              Canonical(m).SetClipboard? && (Utf8.Valid(text) ==> IsLargestCut(Canonical(m).text, text, 4093))
            case InjectTouchEvent(action, pointerId, position, pressure, buttons) =>
              && Canonical(m).InjectTouchEvent? && 0.0 <= pressure - Canonical(m).pressure <= 1.0 / 65536.0
              && Canonical(m) == InjectTouchEvent(action % 256, pointerId, position, Canonical(m).pressure, buttons)
            case InjectKeycode(action, keycode, metastate) => Canonical(m) == InjectKeycode(action % 256, keycode, metastate)
            case SetScreenPowerMode(mode) => Canonical(m) == SetScreenPowerMode(mode % 256)
            case _ => Canonical(m) == m
  {
    match m
    case InjectText(text) => if Utf8.Valid(text) { Utf8.TruncationIsLargestBoundary(text, TEXT_MAX_LENGTH); }
    case SetClipboard(text) => if Utf8.Valid(text) { Utf8.TruncationIsLargestBoundary(text, CLIPBOARD_TEXT_MAX_LENGTH); }
    case InjectTouchEvent(_, _, _, pressure, _) =>
      var scaled := pressure * 65536.0;
      assert scaled.Floor as real <= scaled < scaled.Floor as real + 1.0;
      assert 0.0 <= pressure - Quantized(pressure) <= 1.0 / 65536.0;
    case _ =>
  }

  // ---------- The layout, in bytes ----------

  /** A position is x, y, width and height: 1, -1, 1080 and 1920 here. */
  lemma PositionExample()
    ensures EncodePosition(Position(Size(1080, 1920), Point(1, -1))) ==
            [0, 0, 0, 1, 0xFF, 0xFF, 0xFF, 0xFF, 0x04, 0x38, 0x07, 0x80]
  {
    BigEndian32(0, 0, 0, 1);
    TwosComplement(-1);
    BigEndian32(0xFF, 0xFF, 0xFF, 0xFF);
    BigEndian16(0x04, 0x38);
    BigEndian16(0x07, 0x80);
  }

  // One message of each kind, field after field.

  lemma KeycodeExample()
    ensures Encode(InjectKeycode(1, 0x0203, 0x0405)) == [0, 1, 0, 0, 2, 3, 0, 0, 4, 5]
  {
    BigEndian32(0, 0, 2, 3);
    BigEndian32(0, 0, 4, 5);
  }

  lemma TextExamples()
    ensures Encode(InjectText([0x68, 0x69])) == [1, 0, 2, 0x68, 0x69]
    ensures Encode(SetClipboard([0x68, 0x69])) == [8, 0, 2, 0x68, 0x69]
  {
    BigEndian16(0, 2);
    assert Cut([0x68, 0x69], 300) == [0x68, 0x69] && Cut([0x68, 0x69], 4093) == [0x68, 0x69];
  }

  lemma TouchExample(p: Position)
    ensures Encode(InjectTouchEvent(1, 7, p, 0.5, 3)) ==
            [2, 1] + [0, 0, 0, 0, 0, 0, 0, 7] + EncodePosition(p) + [0x80, 0] + [0, 0, 0, 3]
  {
    BigEndian64(0, 7);
    BigEndian32(0, 0, 0, 0);
    BigEndian32(0, 0, 0, 7);
    assert Be64(7) == [0, 0, 0, 0, 0, 0, 0, 7];
    BigEndian16(0x80, 0);
    BigEndian32(0, 0, 0, 3);
    assert ToFixedPoint16(0.5) == 0x8000;
  }

  lemma ScrollExample(p: Position)
    ensures Encode(InjectScrollEvent(p, 1, -1)) == [3] + EncodePosition(p) + [0, 0, 0, 1] + [0xFF, 0xFF, 0xFF, 0xFF]
  {
    TwosComplement(1);
    TwosComplement(-1);
    BigEndian32(0, 0, 0, 1);
    BigEndian32(0xFF, 0xFF, 0xFF, 0xFF);
  }

  lemma OtherExamples()
    ensures Encode(SetScreenPowerMode(2)) == [9, 2]
    ensures [Encode(BackOrScreenOn), Encode(ExpandNotificationPanel), Encode(CollapseNotificationPanel),
             Encode(GetClipboard), Encode(RotateDevice)] == [[4], [5], [6], [7], [10]]
  {
  }

  // ---------- The methods that write the buffer ----------

  method WritePosition(buf: array<byte>, at: nat, position: Position)
    requires at + 12 <= buf.Length
    modifies buf
    ensures buf[..at + 12] == old(buf[..at]) + EncodePosition(position)
    ensures buf[at + 12..] == old(buf[at + 12..])
  {
    Write32be(buf, at, Unsigned32(position.point.x));
    assert buf[at + 12..] == old(buf[at + 12..]) by { assert buf[at + 12..] == buf[at + 4..][8..]; }
    Write32be(buf, at + 4, Unsigned32(position.point.y));
    assert buf[at + 12..] == old(buf[at + 12..]) by { assert buf[at + 12..] == buf[at + 8..][4..]; }
    Write16be(buf, at + 8, position.screenSize.width);
    assert buf[at + 12..] == old(buf[at + 12..]) by { assert buf[at + 12..] == buf[at + 10..][2..]; }
    Write16be(buf, at + 10, position.screenSize.height);
  }

  method WriteString(utf8: CString, maxLen: uint16, buf: array<byte>, at: nat) returns (written: nat)
    requires Utf8.CanTruncate(utf8, maxLen) && at + 2 + maxLen <= buf.Length
    modifies buf
    ensures written == |EncodeText(utf8, maxLen)| && at + written <= buf.Length
    ensures buf[..at + written] == old(buf[..at]) + EncodeText(utf8, maxLen)
    ensures buf[at + written..] == old(buf[at + written..])
  {
    var index := Utf8.Utf8TruncationIndex(utf8, maxLen);
    var len := index.value;
    Write16be(buf, at, len);
    label Header:
    assert buf[at + 2 + len..] == old(buf[at + 2 + len..]) by { assert buf[at + 2 + len..] == buf[at + 2..][len..]; }
    forall i | 0 <= i < len {
      buf[at + 2 + i] := utf8[i];
    }
    assert buf[..at + 2] == old@Header(buf[..at + 2]);
    assert buf[at + 2..at + 2 + len] == Cut(utf8, maxLen);
    assert buf[..at + 2 + len] == buf[..at + 2] + buf[at + 2..at + 2 + len];
    written := 2 + len;
  }

  // The cases of Serialize with fields, each after the type byte has been written.

  method SerializeKeycode(m: ControlMessage, buf: array<byte>)
    requires m.InjectKeycode? && buf.Length >= 10 && buf[0] == 0
    modifies buf
    ensures buf[..10] == Encode(m) && buf[10..] == old(buf[10..])
  {
    ghost var tail := buf[10..];
    buf[1] := m.action % 0x100;
    assert buf[..2] == [0, m.action % 0x100] && buf[10..] == tail;
    Write32be(buf, 2, m.keycode);
    assert buf[6..][4..] == tail;
    Write32be(buf, 6, m.metastate);
  }

  method SerializeText(m: ControlMessage, buf: array<byte>, maxLen: uint16) returns (len: nat)
    requires Encodable(m) && buf.Length >= 3 + maxLen && buf[0] == TypeCode(m)
    requires (m.InjectText? && maxLen == TEXT_MAX_LENGTH) || (m.SetClipboard? && maxLen == CLIPBOARD_TEXT_MAX_LENGTH)
    modifies buf
    ensures len == |Encode(m)| <= 3 + maxLen
    ensures buf[..len] == Encode(m) && buf[len..] == old(buf[len..])
  {
    assert buf[..1] == [TypeCode(m)];
    len := WriteString(m.text, maxLen, buf, 1);
    len := 1 + len;
  }

  method SerializeTouch(m: ControlMessage, buf: array<byte>)
    requires m.InjectTouchEvent? && Encodable(m) && buf.Length >= 28 && buf[0] == 2
    modifies buf
    ensures buf[..28] == Encode(m) && buf[28..] == old(buf[28..])
  {
    ghost var tail := buf[28..];
    buf[1] := m.action % 0x100;
    assert buf[..2] == [2, m.action % 0x100] && buf[28..] == tail;
    Write64be(buf, 2, m.pointerId);
    assert buf[10..][18..] == tail;
    WritePosition(buf, 10, m.position);
    assert buf[22..][6..] == tail;
    Write16be(buf, 22, ToFixedPoint16(m.pressure));
    assert buf[24..][4..] == tail;
    Write32be(buf, 24, m.buttons);
  }

  method SerializeScroll(m: ControlMessage, buf: array<byte>)
    requires m.InjectScrollEvent? && buf.Length >= 21 && buf[0] == 3
    modifies buf
    ensures buf[..21] == Encode(m) && buf[21..] == old(buf[21..])
  {
    ghost var tail := buf[21..];
    assert buf[..1] == [3];
    WritePosition(buf, 1, m.position);
    assert buf[13..][8..] == tail;
    Write32be(buf, 13, Unsigned32(m.hscroll));
    assert buf[17..][4..] == tail;
    Write32be(buf, 17, Unsigned32(m.vscroll));
  }

  /**
   Writes the encoding at the start of the buffer and nothing after it. Of a message type it does not
   know it writes the type and returns 0.
   */
  method Serialize(m: ControlMessage, buf: array<byte>) returns (len: nat)
    requires Encodable(m) && buf.Length >= SERIALIZED_MAX_SIZE
    modifies buf
    ensures len == |Encode(m)| <= SERIALIZED_MAX_SIZE && buf[..len] == Encode(m)
    ensures var touched := if m.Unserializable? then 1 else len; buf[touched..] == old(buf[touched..])
  {
    buf[0] := TypeCode(m) % 0x100;
    match m
    case InjectKeycode(_, _, _) =>
      assert buf[10..] == old(buf[10..]);
      SerializeKeycode(m, buf);
      len := 10;
    case InjectText(_) =>
      len := SerializeText(m, buf, TEXT_MAX_LENGTH);
    case InjectTouchEvent(_, _, _, _, _) =>
      assert buf[28..] == old(buf[28..]);
      SerializeTouch(m, buf);
      len := 28;
    case InjectScrollEvent(_, _, _) =>
      assert buf[21..] == old(buf[21..]);
      SerializeScroll(m, buf);
      len := 21;
    case SetClipboard(_) =>
      len := SerializeText(m, buf, CLIPBOARD_TEXT_MAX_LENGTH);
    case SetScreenPowerMode(mode) =>
      buf[1] := mode % 0x100;
      len := 2;
    case Unserializable(_) =>
      len := 0;
    case _ =>
      len := 1;
  }
}
