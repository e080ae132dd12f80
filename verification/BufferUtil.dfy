/** Big-endian integers in byte buffers (src/util/buffer_util.hpp). */
module BufferUtil {
  import opened Common

  function Be16(value: uint16): seq<byte> {
    [value / 0x100, value % 0x100]
  }

  function Be32(value: uint32): seq<byte> {
    [value / 0x100_0000, value / 0x1_0000 % 0x100, value / 0x100 % 0x100, value % 0x100]
  }

  function Be64(value: uint64): seq<byte> {
    Be32(value / 0x1_0000_0000) + Be32(value % 0x1_0000_0000)
  }

  function Read16be(buf: seq<byte>): uint16
    requires |buf| >= 2
  {
    0x100 * (buf[0] as int) + buf[1]
  }

  function Read32be(buf: seq<byte>): uint32
    requires |buf| >= 4
  {
    0x100_0000 * (buf[0] as int) + 0x1_0000 * (buf[1] as int) + 0x100 * (buf[2] as int) + buf[3]
  }

  function Read64be(buf: seq<byte>): uint64
    requires |buf| >= 8
  {
    Read32be(buf) * 0x1_0000_0000 + Read32be(buf[4..])
  }

  /** The conversion of a signed 32-bit value to the unsigned one with the same bits. */
  function Unsigned32(value: int32): uint32 {
    value % 0x1_0000_0000
  }

  function Signed32(value: uint32): int32 {
    if value < 0x8000_0000 then value else value - 0x1_0000_0000
  }

  // Reading undoes writing, whatever follows in the buffer, and writing undoes reading:
  // each width is a bijection between values and byte strings of that length.

  lemma RoundTrip16(value: uint16, rest: seq<byte>)
    ensures Read16be(Be16(value) + rest) == value
  {
    var buf := Be16(value) + rest;
    assert buf[0] == value / 0x100 && buf[1] == value % 0x100;
  }

  lemma RoundTrip32(value: uint32, rest: seq<byte>)
    ensures Read32be(Be32(value) + rest) == value
  {
    var buf := Be32(value) + rest;
    var top3, top2, top1 := value / 0x100, value / 0x1_0000, value / 0x100_0000;
    assert value == 0x100 * top3 + value % 0x100;
    assert top3 == 0x100 * top2 + top3 % 0x100;
    assert top2 == 0x100 * top1 + top2 % 0x100;
    assert buf[0] == top1 && buf[1] == top2 % 0x100 && buf[2] == top3 % 0x100 && buf[3] == value % 0x100;
  }

  lemma RoundTrip64(value: uint64, rest: seq<byte>)
    ensures Read64be(Be64(value) + rest) == value
  {
    var low := Be32(value % 0x1_0000_0000);
    RoundTrip32(value / 0x1_0000_0000, low + rest);
    RoundTrip32(value % 0x1_0000_0000, rest);
    assert Be64(value) + rest == Be32(value / 0x1_0000_0000) + (low + rest);
    assert (Be64(value) + rest)[4..] == low + rest;
  }

  lemma WriteReadBack16(buf: seq<byte>)
    requires |buf| == 2
    ensures Be16(Read16be(buf)) == buf
  {
  }

  lemma WriteReadBack32(buf: seq<byte>)
    requires |buf| == 4
    ensures Be32(Read32be(buf)) == buf
  {
    var v := Read32be(buf);
    var top3 := 0x1_0000 * (buf[0] as int) + 0x100 * (buf[1] as int) + buf[2];
    var top2 := 0x100 * (buf[0] as int) + buf[1];
    assert v == 0x100 * top3 + buf[3] && top3 == 0x100 * top2 + buf[2];
    assert v / 0x100 == top3 && v % 0x100 == buf[3];
    assert v / 0x1_0000 == top2 && top3 % 0x100 == buf[2];
    assert v / 0x100_0000 == buf[0] && top2 % 0x100 == buf[1];
  }

  lemma WriteReadBack64(buf: seq<byte>)
    requires |buf| == 8
    ensures Be64(Read64be(buf)) == buf
  {
    WriteReadBack32(buf[..4]);
    WriteReadBack32(buf[4..]);
    assert Read64be(buf) / 0x1_0000_0000 == Read32be(buf[..4]);
    assert buf == buf[..4] + buf[4..];
  }

  // The most significant byte comes first.

  lemma BigEndian16(b0: byte, b1: byte)
    ensures Be16(b0 * 0x100 + b1) == [b0, b1]
  {
  }

  lemma BigEndian32(b0: byte, b1: byte, b2: byte, b3: byte)
    ensures Be32(b0 * 0x100_0000 + b1 * 0x1_0000 + b2 * 0x100 + b3) == [b0, b1, b2, b3]
  {
    var v, top3, top2 := b0 * 0x100_0000 + b1 * 0x1_0000 + b2 * 0x100 + b3, b0 * 0x1_0000 + b1 * 0x100 + b2, b0 * 0x100 + b1;
    assert v == 0x100 * top3 + b3 && top3 == 0x100 * top2 + b2;
    assert v / 0x100 == top3 && v % 0x100 == b3;
    assert v / 0x1_0000 == top2 && top3 % 0x100 == b2;
    assert v / 0x100_0000 == b0 && top2 % 0x100 == b1;
  }

  lemma BigEndian64(high: uint32, low: uint32)
    ensures Be64(high * 0x1_0000_0000 + low) == Be32(high) + Be32(low)
  {
    var v: uint64 := high * 0x1_0000_0000 + low;
    assert v / 0x1_0000_0000 == high && v % 0x1_0000_0000 == low;
  }

  lemma TwosComplement(value: int32)
    ensures Unsigned32(value) == if value < 0 then value + 0x1_0000_0000 else value
  {
  }

  lemma SignedRoundTrip(value: int32)
    ensures Signed32(Unsigned32(value)) == value
  {
    assert Unsigned32(value) == if value < 0 then value + 0x1_0000_0000 else value;
  }

  /** Each write appends to what is below `at` and leaves what is above untouched. */
  method Write16be(buf: array<byte>, at: nat, value: uint16)
    requires at + 2 <= buf.Length
    modifies buf
    ensures buf[..at + 2] == old(buf[..at]) + Be16(value)
    ensures buf[at + 2..] == old(buf[at + 2..])
  {
    buf[at] := value / 0x100;
    buf[at + 1] := value % 0x100;
  }

  method Write32be(buf: array<byte>, at: nat, value: uint32)
    requires at + 4 <= buf.Length
    modifies buf
    ensures buf[..at + 4] == old(buf[..at]) + Be32(value)
    ensures buf[at + 4..] == old(buf[at + 4..])
  {
    buf[at] := value / 0x100_0000;
    buf[at + 1] := value / 0x1_0000 % 0x100;
    buf[at + 2] := value / 0x100 % 0x100;
    buf[at + 3] := value % 0x100;
  }

  method Write64be(buf: array<byte>, at: nat, value: uint64)
    requires at + 8 <= buf.Length
    modifies buf
    ensures buf[..at + 8] == old(buf[..at]) + Be64(value)
    ensures buf[at + 8..] == old(buf[at + 8..])
  {
    Write32be(buf, at, value / 0x1_0000_0000);
    Write32be(buf, at + 4, value % 0x1_0000_0000);
    assert buf[at + 8..] == old(buf[at + 4..])[4..];
  }
}
