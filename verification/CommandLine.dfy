/** Rendering a command for an error message (argv_to_string in src/platform/command.cpp). */
module CommandLine {
  import opened Common

  const OPEN: byte := 0x5B
  const CLOSE: byte := 0x5D
  const COMMA: byte := 0x2C
  const SPACE: byte := 0x20
  const DOTS: seq<byte> := [0x2E, 0x2E, 0x2E]

  function Bracketed(arg: seq<byte>): seq<byte> {
    [OPEN] + arg + [CLOSE]
  }

  function RenderedLength(args: seq<seq<byte>>): nat {
    if args == [] then 0
    else RenderedLength(args[..|args| - 1]) + |args[|args| - 1]| + if |args| == 1 then 2 else 4
  }

  /** "[arg1], [arg2], [arg3]" */
  function Rendered(args: seq<seq<byte>>): (text: seq<byte>)
    ensures |text| == RenderedLength(args)
  {
    if args == [] then []
    else
      var front, last := args[..|args| - 1], args[|args| - 1];
      (if front == [] then [] else Rendered(front) + [COMMA, SPACE]) + Bracketed(last)
  }

  /** The test made before the j-th argument, room being kept for "[], ..." and the terminator. */
  predicate Fits(args: seq<seq<byte>>, j: nat, size: nat)
    requires j < |args|
  {
    |Rendered(args[..j])| + |args[j]| + 8 < size
  }

  /** How many arguments are rendered, of which the first `from` are known to be. */
  function Shown(args: seq<seq<byte>>, from: nat, size: nat): (k: nat)
    requires from <= |args|
    ensures from <= k <= |args|
    ensures forall j | from <= j < k :: Fits(args, j, size)
    ensures k < |args| ==> !Fits(args, k, size)
    decreases |args| - from
  {
    if from == |args| || !Fits(args, from, size) then from else Shown(args, from + 1, size)
  }

  /** What ends up in a buffer of `size` bytes, before the terminator: everything, or whole arguments and dots. */
  function Text(args: seq<seq<byte>>, size: nat): seq<byte> {
    var k := Shown(args, 0, size);
    Rendered(args[..k]) + if k == |args| then [] else DOTS
  }

  lemma RenderedOneMore(args: seq<seq<byte>>, j: nat)
    requires j < |args|
    ensures Rendered(args[..j + 1]) ==
            (if j == 0 then [] else Rendered(args[..j]) + [COMMA, SPACE]) + Bracketed(args[j])
  {
    assert args[..j + 1][..j] == args[..j];
  }

  lemma LengthOneMore(args: seq<seq<byte>>, j: nat)
    requires j < |args|
    ensures RenderedLength(args[..j]) + |args[j]| + 2 <= RenderedLength(args[..j + 1])
  {
    assert args[..j + 1][..j] == args[..j];
  }

  lemma {:induction false} LengthsGrow(args: seq<seq<byte>>, j: nat, k: nat)
    requires j < k <= |args|
    ensures RenderedLength(args[..j]) + |args[j]| + 2 <= RenderedLength(args[..k])
    decreases k - j
  {
    LengthOneMore(args, k - 1);
    if j + 1 == k {
    } else {
      LengthsGrow(args, j, k - 1);
    }
  }

  /** The test on an argument implies those on the arguments before it. */
  lemma FitsBefore(args: seq<seq<byte>>, j: nat, k: nat, size: nat)
    requires j <= k < |args| && Fits(args, k, size)
    ensures Fits(args, j, size)
  {
    if j < k {
      LengthsGrow(args, j, k);
    }
  }

  /**
   Everything is shown exactly when the full rendering leaves four unused bytes besides the terminator's
   (six, for a single argument).
   */
  lemma AllShownIffRoom(args: seq<seq<byte>>, size: nat)
    requires args != []
    ensures Shown(args, 0, size) == |args| <==> |Rendered(args)| + (if |args| == 1 then 6 else 4) < size
  {
    var n, k := |args| - 1, Shown(args, 0, size);
    assert args[..|args|] == args;
    assert Fits(args, n, size) <==> |Rendered(args)| + (if |args| == 1 then 6 else 4) < size;
    if k <= n && Fits(args, n, size) {
      FitsBefore(args, k, n, size);
    }
  }

  /** "[ab], [c]" in fourteen bytes, "[ab]..." in thirteen. */
  lemma Examples()
    ensures var args: seq<seq<byte>> := [[0x61, 0x62], [0x63]];
            && Rendered(args) == [0x5B, 0x61, 0x62, 0x5D, 0x2C, 0x20, 0x5B, 0x63, 0x5D]
            && Text(args, 14) == Rendered(args)
            && Text(args, 13) == [0x5B, 0x61, 0x62, 0x5D, 0x2E, 0x2E, 0x2E]
  {
    var args: seq<seq<byte>> := [[0x61, 0x62], [0x63]];
    var first := args[..1];
    assert first == [[0x61, 0x62]] && first[..0] == [] && args[..0] == [] && args[..2] == args;
    assert Rendered(first) == [0x5B, 0x61, 0x62, 0x5D];
    AllShownIffRoom(args, 14);
    AllShownIffRoom(args, 13);
    assert Fits(args, 0, 13);
  }

  /** memcpy(&buf[at], src, strlen(src)) */
  method Copy(buf: array<byte>, at: nat, src: CString)
    requires at + |src| <= buf.Length
    modifies buf
    ensures buf[..at + |src|] == old(buf[..at]) + src
  {
    forall i | 0 <= i < |src| {
      buf[at + i] := src[i];
    }
  }

  /** One argument, after a separator unless it is the first. */
  method WriteArgument(buf: array<byte>, at: nat, first: bool, arg: CString) returns (end: nat)
    requires at + |arg| + 4 <= buf.Length && (first ==> at == 0)
    modifies buf
    ensures end == at + |arg| + (if first then 2 else 4)
    ensures buf[..end] == (if first then [] else old(buf[..at]) + [COMMA, SPACE]) + Bracketed(arg)
  {
    end := at;
    if !first {
      buf[end], buf[end + 1] := COMMA, SPACE;
      end := end + 2;
    }
    ghost var separated := if first then [] else old(buf[..at]) + [COMMA, SPACE];
    assert buf[..end] == separated;
    buf[end] := OPEN;
    end := end + 1;
    assert buf[..end] == separated + [OPEN];
    Copy(buf, end, arg);
    end := end + |arg|;
    Reassociate(separated, [OPEN], arg);
    assert buf[..end] == separated + ([OPEN] + arg);
    buf[end] := CLOSE;
    end := end + 1;
    assert buf[..end] == separated + Bracketed(arg);
  }

  method WriteDots(buf: array<byte>, at: nat)
    requires at + 3 <= buf.Length
    modifies buf
    ensures buf[..at + 3] == old(buf[..at]) + DOTS
  {
    buf[at], buf[at + 1], buf[at + 2] := DOTS[0], DOTS[1], DOTS[2];
  }

  /** Both assertions of the source hold, so every write is inside the buffer. */
  method ArgvToString(argv: seq<CString>, buf: array<byte>) returns (idx: nat)
    requires buf.Length > 4 || (argv == [] && buf.Length > 0)
    modifies buf
    ensures idx == |Text(argv, buf.Length)| < buf.Length
    ensures buf[..idx] == Text(argv, buf.Length) && buf[idx] == 0
  {
    idx := 0;
    var first, j := true, 0;
    var bufsize := buf.Length;
    while j < |argv|
      invariant j <= |argv| && (first <==> j == 0)
      invariant Shown(argv, j, bufsize) == Shown(argv, 0, bufsize)
      invariant idx < bufsize && (argv != [] ==> idx < bufsize - 4)
      invariant buf[..idx] == Rendered(argv[..j])
    {
      RenderedOneMore(argv, j);
      var arg := argv[j];
      assert Fits(argv, j, bufsize) <==> idx + |arg| + 8 < bufsize;
      if idx + |arg| + 8 >= bufsize {
        assert idx < bufsize - 4;
        assert Text(argv, bufsize) == Rendered(argv[..j]) + DOTS;
        WriteDots(buf, idx);
        idx := idx + 3;
        break;
      }
      idx := WriteArgument(buf, idx, first, arg);
      first := false;
      j := j + 1;
    }
    assert idx < bufsize;
    assert argv[..|argv|] == argv;
    assert j == |argv| ==> Text(argv, bufsize) == Rendered(argv) + [] == Rendered(argv);
    buf[idx] := 0;
  }
}
