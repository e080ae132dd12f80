/** Cutting a UTF-8 string without cutting a character (src/util/str_util.cpp). */
module Utf8 {
  import opened Common

  /** (b & 0x80) != 0 && (b & 0xc0) != 0xc0 */
  predicate Continuation(b: byte) {
    0x80 <= b < 0xC0
  }

  /** The length of the character at the head of `s` (section 4 of RFC 3629), 0 when there is none. */
  function CharLength(s: seq<byte>): (n: nat)
    ensures n <= |s| && n <= 4
    ensures n > 0 ==> !Continuation(s[0]) && forall i | 0 < i < n :: Continuation(s[i])
  {
    if |s| >= 1 && s[0] < 0x80 then 1
    else if |s| >= 2 && 0xC2 <= s[0] <= 0xDF && Continuation(s[1]) then 2
    else if |s| >= 3 && ThreeByteLead(s[0], s[1]) && Continuation(s[2]) then 3
    else if |s| >= 4 && FourByteLead(s[0], s[1]) && Continuation(s[2]) && Continuation(s[3]) then 4
    else 0
  }

  predicate ThreeByteLead(first: byte, second: byte) {
    || (first == 0xE0 && 0xA0 <= second <= 0xBF)
    || (0xE1 <= first <= 0xEC && Continuation(second))
    || (first == 0xED && 0x80 <= second <= 0x9F)
    || (0xEE <= first <= 0xEF && Continuation(second))
  }

  predicate FourByteLead(first: byte, second: byte) {
    || (first == 0xF0 && 0x90 <= second <= 0xBF)
    || (0xF1 <= first <= 0xF3 && Continuation(second))
    || (first == 0xF4 && 0x80 <= second <= 0x8F)
  }

  /** `s` is a sequence of whole characters. */
  predicate Valid(s: seq<byte>)
    decreases |s|
  {
    s == [] || (CharLength(s) > 0 && Valid(s[CharLength(s)..]))
  }

  /** The numbers that characters have: section 3 of RFC 3629 leaves out the surrogates. */
  predicate IsScalar(c: int) {
    0 <= c < 0xD800 || 0xE000 <= c < 0x11_0000
  }

  /** The encoding of a character, by the table of section 3 of RFC 3629. */
  function EncodeChar(c: int): seq<byte>
    requires IsScalar(c)
  {
    if c < 0x80 then [c]
    else if c < 0x800 then [0xC0 + c / 64, 0x80 + c % 64]
    else if c < 0x1_0000 then [0xE0 + c / 4096, 0x80 + c / 64 % 64, 0x80 + c % 64]
    else [0xF0 + c / 262144, 0x80 + c / 4096 % 64, 0x80 + c / 64 % 64, 0x80 + c % 64]
  }

  lemma ThreeByteEncoding(c: int)
    requires IsScalar(c) && 0x800 <= c < 0x1_0000
    ensures var e := EncodeChar(c); |e| == 3 && ThreeByteLead(e[0], e[1]) && Continuation(e[2])
  {
    var top, mid := c / 4096, c / 64 % 64;
    assert c / 64 == 64 * top + mid && 4096 * top + 64 * mid <= c < 4096 * top + 64 * mid + 64;
  }

  lemma FourByteEncoding(c: int)
    requires IsScalar(c) && 0x1_0000 <= c
    ensures var e := EncodeChar(c);
            |e| == 4 && FourByteLead(e[0], e[1]) && Continuation(e[2]) && Continuation(e[3])
  {
    var top, mid := c / 262144, c / 4096 % 64;
    assert c / 4096 == 64 * top + mid && 262144 * top + 4096 * mid <= c < 262144 * top + 4096 * mid + 4096;
  }

  /** Every encoding is a character. */
  lemma EncodedIsChar(c: int, rest: seq<byte>)
    requires IsScalar(c)
    ensures CharLength(EncodeChar(c) + rest) == |EncodeChar(c)|
  {
    var e := EncodeChar(c);
    var s := e + rest;
    assert forall i | 0 <= i < |e| :: s[i] == e[i];
    if c >= 0x1_0000 {
      FourByteEncoding(c);
    } else if c >= 0x800 {
      ThreeByteEncoding(c);
    }
  }

  lemma TwoByteChar(b0: int, b1: int)
    requires 0xC2 <= b0 <= 0xDF && 0x80 <= b1 < 0xC0
    ensures var c := (b0 - 0xC0) * 64 + (b1 - 0x80); IsScalar(c) && EncodeChar(c) == [b0, b1]
  {
    var c := (b0 - 0xC0) * 64 + (b1 - 0x80);
    assert 0x80 <= c < 0x800 && c / 64 == b0 - 0xC0 && c % 64 == b1 - 0x80;
  }

  lemma ThreeByteChar(b0: byte, b1: byte, b2: byte) returns (c: int)
    requires ThreeByteLead(b0, b1) && Continuation(b2)
    ensures IsScalar(c) && EncodeChar(c) == [b0, b1, b2]
  {
    var x0: int, x1: int, x2: int := b0 - 0xE0, b1 - 0x80, b2 - 0x80;
    var top := x0 * 64 + x1;
    c := top * 64 + x2;
    assert c / 64 == top && c % 64 == x2;
    assert c / 4096 == x0 && top % 64 == x1;
    assert 0x800 <= c < 0x1_0000 && !(0xD800 <= c < 0xE000);
  }

  lemma FourByteChar(b0: byte, b1: byte, b2: byte, b3: byte) returns (c: int)
    requires FourByteLead(b0, b1) && Continuation(b2) && Continuation(b3)
    ensures IsScalar(c) && EncodeChar(c) == [b0, b1, b2, b3]
  {
    var x0: int, x1: int, x2: int, x3: int := b0 - 0xF0, b1 - 0x80, b2 - 0x80, b3 - 0x80;
    var top2 := x0 * 64 + x1;
    var top3 := top2 * 64 + x2;
    c := top3 * 64 + x3;
    assert c / 64 == top3 && c % 64 == x3;
    assert c / 4096 == top2 && top3 % 64 == x2;
    assert c / 262144 == x0 && top2 % 64 == x1;
    assert 0x1_0000 <= c < 0x11_0000;
  }

  /** Every character is the encoding of a number, the shortest there is. */
  lemma CharIsEncoded(s: seq<byte>) returns (c: int)
    requires CharLength(s) > 0
    ensures IsScalar(c) && s[..CharLength(s)] == EncodeChar(c)
  {
    var n := CharLength(s);
    if n == 1 {
      c := s[0];
    } else if n == 2 {
      var b0: int, b1: int := s[0], s[1];
      c := (b0 - 0xC0) * 64 + (b1 - 0x80);
      TwoByteChar(b0, b1);
    } else if n == 3 {
      c := ThreeByteChar(s[0], s[1], s[2]);
    } else {
      c := FourByteChar(s[0], s[1], s[2], s[3]);
    }
  }

  /** The character at the head of a string is the same in any prefix long enough to hold it, and absent from the others. */
  lemma CharLengthOfPrefix(s: seq<byte>, i: nat)
    requires CharLength(s) > 0 && 0 < i <= |s|
    ensures CharLength(s[..i]) == if i < CharLength(s) then 0 else CharLength(s)
  {
  }

  /** In valid text the ends of characters are the positions not followed by a continuation byte. */
  lemma {:induction false} BoundaryIffNotContinuation(s: seq<byte>, i: nat)
    requires Valid(s) && i <= |s|
    ensures Valid(s[..i]) <==> i == |s| || !Continuation(s[i])
    decreases |s|
  {
    if i == 0 {
    } else {
      var n := CharLength(s);
      CharLengthOfPrefix(s, i);
      if n <= i {
        assert s[..i][n..] == s[n..][..i - n];
        BoundaryIffNotContinuation(s[n..], i - n);
      }
    }
  }

  /** No four consecutive continuation bytes in valid text. */
  lemma {:induction false} BoundaryNearby(s: seq<byte>, i: nat) returns (j: nat)
    requires Valid(s) && i < |s|
    ensures j <= i <= j + 3 && !Continuation(s[j])
    decreases |s|
  {
    var n := CharLength(s);
    if i < n {
      j := 0;
    } else {
      j := BoundaryNearby(s[n..], i - n);
      j := j + n;
    }
  }

  // ---------- The truncation index ----------

  /** Where the search from `i` downwards stops. */
  function LastBoundary(s: seq<byte>, i: nat): (r: nat)
    requires i < |s| && exists j :: 0 <= j <= i && !Continuation(s[j])
    ensures r <= i && !Continuation(s[r]) && forall j | r < j <= i :: Continuation(s[j])
  {
    if !Continuation(s[i]) then i
    else
      assert i > 0;
      LastBoundary(s, i - 1)
  }

  /** Exactly the inputs for which the loop stays inside the string. */
  predicate CanTruncate(s: seq<byte>, maxLen: nat) {
    |s| <= maxLen || exists j :: 0 <= j <= maxLen && !Continuation(s[j])
  }

  function TruncationIndex(s: seq<byte>, maxLen: nat): nat
    requires CanTruncate(s, maxLen)
  {
    if |s| <= maxLen then |s| else LastBoundary(s, maxLen)
  }

  lemma ValidTextCanBeTruncated(s: seq<byte>, maxLen: nat)
    requires Valid(s)
    ensures CanTruncate(s, maxLen)
  {
    if s != [] {
      assert !Continuation(s[0]);
    }
  }

  /**
   On valid text the cut is the largest character boundary not above `maxLen`: the prefix kept is
   valid text, no longer one within the limit is, and at most three bytes of the limit go unused.
   */
  lemma TruncationIsLargestBoundary(s: seq<byte>, maxLen: nat)
    requires Valid(s)
    ensures CanTruncate(s, maxLen)
    ensures var cut := TruncationIndex(s, maxLen);
            && cut <= |s| && cut <= maxLen && Valid(s[..cut])
            && (forall i | cut < i <= maxLen && i <= |s| :: !Valid(s[..i]))
            && (|s| <= maxLen ==> cut == |s|)
            && (|s| > maxLen ==> maxLen <= cut + 3)
  {
    ValidTextCanBeTruncated(s, maxLen);
    var cut := TruncationIndex(s, maxLen);
    forall i | 0 <= i <= |s|
      ensures Valid(s[..i]) <==> i == |s| || !Continuation(s[i])
    {
      BoundaryIffNotContinuation(s, i);
    }
    if |s| > maxLen {
      var j := BoundaryNearby(s, maxLen);
    }
  }

  /** None is where the source goes on to read before the string: it does not have a result there. */
  method Utf8TruncationIndex(utf8: CString, maxLen: nat) returns (index: Option<nat>)
    ensures index == if CanTruncate(utf8, maxLen) then Some(TruncationIndex(utf8, maxLen)) else None
  {
    var len := |utf8|;
    if len <= maxLen {
      return Some(len);
    }
    len := maxLen;
    while Continuation(utf8[len])
      invariant 0 <= len <= maxLen < |utf8|
      invariant forall j | len < j <= maxLen :: Continuation(utf8[j])
      invariant CanTruncate(utf8, maxLen) ==>
                  (exists j :: 0 <= j <= len && !Continuation(utf8[j])) && LastBoundary(utf8, len) == LastBoundary(utf8, maxLen)
      decreases len
    {
      if len == 0 {
        return None;
      }
      len := len - 1;
    }
    index := Some(len);
  }
}
