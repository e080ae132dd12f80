/** Messages from the device and their incremental parser (src/message/device_msg.cpp, src/android/receiver.cpp). */
module DeviceMessages {
  import opened Common
  import opened BufferUtil

  const TYPE_CLIPBOARD := 0
  const SERIALIZED_MAX_SIZE := 3 + 4093

  // A clipboard message is its text; it is the only kind there is.
  type Text = t: seq<byte> | |t| < 0x1_0000

  function Encode(text: Text): seq<byte> {
    [TYPE_CLIPBOARD] + Be16(|text|) + text
  }

  function EncodeAll(texts: seq<Text>): seq<byte> {
    if texts == [] then [] else Encode(texts[0]) + EncodeAll(texts[1..])
  }

  // ---------- One message ----------

  datatype Parsed = Message(text: Text, size: nat) | NeedMore | Error

  function Parse(buf: seq<byte>): Parsed {
    if |buf| < 3 then NeedMore
    else if buf[0] != TYPE_CLIPBOARD then Error
    else if Read16be(buf[1..]) > |buf| - 3 then NeedMore
    else Message(buf[3..3 + Read16be(buf[1..])], 3 + Read16be(buf[1..]))
  }

  /** A message is found exactly where an encoding starts. */
  lemma ParseIffEncoded(buf: seq<byte>, text: Text)
    ensures Parse(buf) == Message(text, 3 + |text|) <==> Encode(text) <= buf
    ensures Parse(buf).Message? ==> Parse(buf).size == 3 + |Parse(buf).text| <= |buf|
  {
    if Encode(text) <= buf {
      var rest := buf[|Encode(text)|..];
      assert buf == Encode(text) + rest;
      Reassociate([TYPE_CLIPBOARD] + Be16(|text|), text, rest);
      Reassociate([TYPE_CLIPBOARD], Be16(|text|), text + rest);
      assert buf[1..] == Be16(|text|) + (text + rest);
      RoundTrip16(|text|, text + rest);
    }
    if Parse(buf) == Message(text, 3 + |text|) {
      assert buf[1..3] == Be16(|text|) by {
        WriteReadBack16(buf[1..3]);
      }
      assert buf[..3 + |text|] == Encode(text);
    }
  }

  /** The layout: a zero, the length of the text in two bytes, most significant first, and the text. */
  lemma WireFormat(high: byte, low: byte, text: Text)
    requires |text| == 0x100 * high + low
    ensures Encode(text) == [0, high, low] + text
  {
    BigEndian16(high, low);
  }

  /** What is not a message: fewer bytes than announced, or another type, from which there is no recovery. */
  lemma WhenNoMessage(buf: seq<byte>)
    ensures Parse(buf).Error? <==> |buf| >= 3 && buf[0] != 0
    ensures Parse(buf).NeedMore? <==> |buf| < 3 || (buf[0] == 0 && |buf| < 3 + 0x100 * (buf[1] as int) + buf[2])
  {
  }

  /** More bytes change neither a message found nor an error. */
  lemma ParseOfLonger(a: seq<byte>, b: seq<byte>)
    requires !Parse(a).NeedMore?
    ensures Parse(a + b) == Parse(a)
  {
    assert (a + b)[1..] == a[1..] + b;
    assert (a + b)[0] == a[0];
    if Parse(a).Message? {
      var n := Read16be(a[1..]);
      assert (a + b)[3..3 + n] == a[3..3 + n];
    }
  }

  // ---------- All the messages of a buffer ----------

  /** The texts delivered, the bytes they took, and whether parsing ended on an error. */
  datatype Outcome = Outcome(texts: seq<Text>, consumed: nat, error: bool)

  function Process(buf: seq<byte>): (o: Outcome)
    ensures o.consumed <= |buf|
    decreases |buf|
  {
    match Parse(buf)
    case Error => Outcome([], 0, true)
    case NeedMore => Outcome([], 0, false)
    case Message(text, size) => After([text], size, Process(buf[size..]))
  }

  /** An outcome, after `consumed` bytes have already delivered `texts`. */
  function After(texts: seq<Text>, consumed: nat, o: Outcome): Outcome {
    Outcome(texts + o.texts, consumed + o.consumed, o.error)
  }

  lemma AfterTwice(s: seq<Text>, m: nat, t: seq<Text>, n: nat, o: Outcome)
    ensures After(s, m, After(t, n, o)) == After(s + t, m + n, o)
  {
    Reassociate(s, t, o.texts);
  }

  /** Parsing `buf` came to `head` having delivered `texts`, and has `whole` as its outcome. */
  ghost predicate OnTheWay(buf: seq<byte>, head: nat, texts: seq<Text>, whole: Outcome) {
    head <= |buf| && whole == After(texts, head, Process(buf[head..]))
  }

  lemma OneMessageFurther(buf: seq<byte>, head: nat, next: nat, texts: seq<Text>, whole: Outcome, text: Text)
    requires head <= next && OnTheWay(buf, head, texts, whole) && Parse(buf[head..]) == Message(text, next - head)
    ensures OnTheWay(buf, next, texts + [text], whole)
  {
    var size := next - head;
    ParseIffEncoded(buf[head..], text);
    assert buf[head..][size..] == buf[next..];
    AfterTwice(texts, head, [text], size, Process(buf[next..]));
  }

  lemma EncodedOneMore(buf: seq<byte>, text: Text, rest: seq<byte>, texts: seq<Text>, consumed: nat)
    requires Encode(text) <= buf && rest == buf[|Encode(text)|..]
    requires |Encode(text)| <= consumed <= |buf| && rest[..consumed - |Encode(text)|] == EncodeAll(texts)
    ensures buf[..consumed] == EncodeAll([text] + texts) && buf[consumed..] == rest[consumed - |Encode(text)|..]
  {
    SplitTwice(buf, |Encode(text)|, consumed - |Encode(text)|);
    assert ([text] + texts)[1..] == texts;
  }

  /**
   What is consumed is exactly the encoding of what is delivered, and parsing stops where no complete
   message is left: the run of messages delivered is maximal.
   */
  lemma {:induction false} ProcessIsMaximal(buf: seq<byte>)
    ensures var o := Process(buf);
            && buf[..o.consumed] == EncodeAll(o.texts)
            && Parse(buf[o.consumed..]) == (if o.error then Error else NeedMore)
    decreases |buf|
  {
    var p, o := Parse(buf), Process(buf);
    if p.Message? {
      var rest := buf[p.size..];
      ParseIffEncoded(buf, p.text);
      ProcessIsMaximal(rest);
      EncodedOneMore(buf, p.text, rest, Process(rest).texts, o.consumed);
      assert o.texts == [p.text] + Process(rest).texts && o.error == Process(rest).error;
    } else {
      assert o.texts == [] && buf[..0] == [] && buf[0..] == buf;
    }
  }

  /** Encoded messages followed by no complete message are delivered as they are. */
  lemma {:induction false} ProcessEncoded(texts: seq<Text>, tail: seq<byte>)
    requires Parse(tail).NeedMore?
    ensures Process(EncodeAll(texts) + tail) == Outcome(texts, |EncodeAll(texts)|, false)
  {
    if texts == [] {
      assert EncodeAll(texts) + tail == tail;
    } else {
      var head, rest := Encode(texts[0]), EncodeAll(texts[1..]);
      var buf := EncodeAll(texts) + tail;
      Reassociate(head, rest, tail);
      ParseIffEncoded(buf, texts[0]);
      assert buf[|head|..] == rest + tail;
      ProcessEncoded(texts[1..], tail);
    }
  }

  /** Texts before an unknown type are delivered, those after it never. */
  lemma {:induction false} ProcessUpToError(texts: seq<Text>, bad: seq<byte>)
    requires |bad| >= 3 && bad[0] != 0
    ensures Process(EncodeAll(texts) + bad) == Outcome(texts, |EncodeAll(texts)|, true)
  {
    if texts == [] {
      assert EncodeAll(texts) + bad == bad;
    } else {
      var head, rest := Encode(texts[0]), EncodeAll(texts[1..]);
      var buf := EncodeAll(texts) + bad;
      Reassociate(head, rest, bad);
      ParseIffEncoded(buf, texts[0]);
      assert buf[|head|..] == rest + bad;
      ProcessUpToError(texts[1..], bad);
    }
  }

  /**
   Where the bytes are split does not matter, provided the unconsumed tail is kept: parsing a + b is
   parsing a, then its tail followed by b.
   */
  lemma {:induction false} SplitIndependent(a: seq<byte>, b: seq<byte>)
    ensures var o := Process(a);
            Process(a + b) == if o.error then o else After(o.texts, o.consumed, Process(a[o.consumed..] + b))
    decreases |a|, 1
  {
    var p := Parse(a);
    if p.NeedMore? {
      assert a[0..] == a;
    } else {
      ParseOfLonger(a, b);
      if p.Message? {
        SplitMessage(a, b);
      }
    }
  }

  lemma {:induction false} SplitMessage(a: seq<byte>, b: seq<byte>)
    requires Parse(a).Message?
    ensures var o := Process(a);
            Process(a + b) == if o.error then o else After(o.texts, o.consumed, Process(a[o.consumed..] + b))
    decreases |a|, 0
  {
    var p := Parse(a);
    var rest := a[p.size..];
    ParseOfLonger(a, b);
    assert (a + b)[p.size..] == rest + b;
    SplitIndependent(rest, b);
    var o, later := Process(rest), Process(rest[Process(rest).consumed..] + b);
    SplitTwice(a, p.size, o.consumed);
    assert Process(a) == After([p.text], p.size, o);
    assert Process(a + b) == After([p.text], p.size, Process(rest + b));
    AfterTwice([p.text], p.size, o.texts, o.consumed, later);
    assert a[Process(a).consumed..] + b == rest[o.consumed..] + b;
  }

  // ---------- Methods ----------

  /** DeviceMessage::Deserialize: the text is copied to a NUL-terminated buffer of its own. */
  method Deserialize(buf: array<byte>, at: nat, len: nat) returns (r: int, text: array<byte>)
    requires at + len <= buf.Length
    ensures var p := Parse(buf[at..at + len]);
            && r == (match p case NeedMore => 0 case Error => -1 case Message(_, size) => size)
            && fresh(text)
            && (p.Message? ==> text[..] == p.text + [0])
  {
    ghost var view := buf[at..at + len];
    if len < 3 {
      text := new byte[0];
      return 0, text;
    }
    if buf[at] == TYPE_CLIPBOARD {
      assert buf[at + 1..at + 3] == view[1..][..2];
      var clipboardLen := Read16be(buf[at + 1..at + 3]);
      assert clipboardLen == Read16be(view[1..]);
      if clipboardLen > len - 3 {
        text := new byte[0];
        return 0, text;
      }
      text := new byte[clipboardLen + 1](_ => 0);
      forall i | 0 <= i < clipboardLen {
        text[i] := buf[at + 3 + i];
      }
      assert forall i | 0 <= i < clipboardLen :: text[i] == view[3 + i];
      assert text[..] == view[3..3 + clipboardLen] + [0] && buf[at..at + len] == view;
      return 3 + clipboardLen, text;
    }
    text := new byte[0];
    r := -1;
  }

  class Receiver {
    // The texts the clipboard was set to, each with its terminator as the handler gets it.
    var delivered: seq<Text>

    constructor ()
      ensures delivered == []
    {
      delivered := [];
    }

    method ProcessMessage(text: array<byte>)
      requires 0 < text.Length <= 0x1_0000
      modifies this
      ensures delivered == old(delivered) + [old(text[..text.Length - 1])]
    {
      delivered := delivered + [text[..text.Length - 1]];
    }

    /** One turn of the loop: the message at `head`, if it is complete, is handed on. */
    method ProcessOne(buf: array<byte>, head: nat, len: nat) returns (r: int)
      requires head <= len <= buf.Length
      modifies this
      ensures match Parse(buf[head..len])
              case NeedMore => r == 0 && delivered == old(delivered)
              case Error => r == -1 && delivered == old(delivered)
              case Message(text, size) => r == size && delivered == old(delivered) + [text]
    {
      assert head + (len - head) == len;
      var text;
      r, text := Deserialize(buf, head, len - head);
      if r > 0 {
        ghost var p := Parse(buf[head..len]);
        assert text[..text.Length - 1] == p.text;
        ProcessMessage(text);
      }
    }

    /** Texts delivered before an error stay delivered. */
    method ProcessMessages(buf: array<byte>, len: nat) returns (consumed: int)
      requires len <= buf.Length
      modifies this
      ensures var o := Process(buf[..len]);
              && delivered == old(delivered) + o.texts
              && consumed == if o.error then -1 else o.consumed
    {
      ghost var view := buf[..len];
      ghost var whole := After(delivered, 0, Process(view));
      var head := 0;
      assert view[0..] == view;
      while true
        invariant head <= len && OnTheWay(view, head, delivered, whole)
        decreases len - head
      {
        ghost var before, p := delivered, Parse(view[head..]);
        assert buf[head..len] == view[head..];
        var r := ProcessOne(buf, head, len);
        if r == -1 {
          return -1;
        }
        if r == 0 {
          return head;
        }
        head := head + r;
        OneMessageFurther(view, head - r, head, before, whole, p.text);
        assert delivered == before + [p.text];
        if head == len {
          break;
        }
      }
      return head;
    }
  }
}
