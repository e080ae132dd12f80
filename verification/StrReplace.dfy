/** Replacing every occurrence of a string (src/util/str_util.cpp). */
module StrReplace {
  import opened Common
  import opened CStrings

  // ---------- What leftmost non-overlapping replacement is ----------

  /** The pieces of `s` between the occurrences of `rep` found from left to right. */
  function Split(s: seq<byte>, rep: seq<byte>): (pieces: seq<seq<byte>>)
    requires rep != []
    ensures pieces != []
    decreases |s|
  {
    match StrStr(s, rep)
    case None => [s]
    case Some(k) => [s[..k]] + Split(s[k + |rep|..], rep)
  }

  function Join(pieces: seq<seq<byte>>, glue: seq<byte>): seq<byte>
    requires pieces != []
  {
    if |pieces| == 1 then pieces[0] else pieces[0] + glue + Join(pieces[1..], glue)
  }

  function Replaced(s: seq<byte>, rep: seq<byte>, with: seq<byte>): seq<byte>
    requires rep != []
  {
    Join(Split(s, rep), with)
  }

  /** No occurrence of `rep` starts within the piece, not even one that reaches into the glue after it. */
  ghost predicate NoneWithin(piece: seq<byte>, rep: seq<byte>) {
    forall k: nat | k < |piece| :: !OccursAt(piece + rep, rep, k)
  }

  ghost predicate NeverOccurs(s: seq<byte>, rep: seq<byte>) {
    forall k: nat :: !OccursAt(s, rep, k)
  }

  ghost predicate AllLeftmost(pieces: seq<seq<byte>>, rep: seq<byte>)
    requires pieces != []
  {
    if |pieces| == 1 then NeverOccurs(pieces[0], rep)
    else NoneWithin(pieces[0], rep) && AllLeftmost(pieces[1..], rep)
  }

  /** The definition without a search: glued by `rep` the pieces give `s`, and no cut could have come earlier. */
  ghost predicate IsLeftmostSplit(pieces: seq<seq<byte>>, s: seq<byte>, rep: seq<byte>)
    requires pieces != []
  {
    Join(pieces, rep) == s && AllLeftmost(pieces, rep)
  }

  lemma OccursInPrefix(a: seq<byte>, b: seq<byte>, rep: seq<byte>, k: nat)
    requires k + |rep| <= |a|
    ensures OccursAt(a + b, rep, k) <==> OccursAt(a, rep, k)
  {
    assert (a + b)[k..k + |rep|] == a[k..k + |rep|];
  }

  /** The split found from left to right is the leftmost one. */
  lemma {:induction false} SplitIsLeftmost(s: seq<byte>, rep: seq<byte>)
    requires rep != []
    ensures IsLeftmostSplit(Split(s, rep), s, rep)
    decreases |s|
  {
    match StrStr(s, rep)
    case None =>
    case Some(n) =>
      var first, rest := s[..n], s[n + |rep|..];
      SplitIsLeftmost(rest, rep);
      assert s == first + rep + rest;
      assert NoneWithin(first, rep) by {
        forall k: nat | k < n
          ensures !OccursAt(first + rep, rep, k)
        {
          OccursInPrefix(first + rep, rest, rep, k);
        }
      }
      assert Split(s, rep)[1..] == Split(rest, rep);
  }

  /** The first pieces of two leftmost splits end at the same place: where the leftmost occurrence is. */
  lemma FirstPiece(pieces: seq<seq<byte>>, s: seq<byte>, rep: seq<byte>)
    requires rep != [] && pieces != [] && IsLeftmostSplit(pieces, s, rep)
    ensures |pieces| == 1 ==> StrStr(s, rep) == None && pieces[0] == s
    ensures |pieces| > 1 ==>
              && StrStr(s, rep) == Some(|pieces[0]|)
              && pieces[0] == s[..|pieces[0]|]
              && IsLeftmostSplit(pieces[1..], s[|pieces[0]| + |rep|..], rep)
  {
    if |pieces| > 1 {
      var first, rest := pieces[0], Join(pieces[1..], rep);
      assert s == first + rep + rest;
      assert OccursAt(s, rep, |first|);
      forall k: nat | k < |first|
        ensures !OccursAt(s, rep, k)
      {
        OccursInPrefix(first + rep, rest, rep, k);
      }
      assert s[|first| + |rep|..] == rest;
    }
  }

  /** There is only one leftmost split, so the definition says all there is to say. */
  lemma {:induction false} LeftmostSplitIsUnique(pieces: seq<seq<byte>>, s: seq<byte>, rep: seq<byte>)
    requires rep != [] && pieces != [] && IsLeftmostSplit(pieces, s, rep)
    ensures pieces == Split(s, rep)
    decreases |pieces|
  {
    FirstPiece(pieces, s, rep);
    if |pieces| > 1 {
      LeftmostSplitIsUnique(pieces[1..], s[|pieces[0]| + |rep|..], rep);
      assert pieces == [pieces[0]] + pieces[1..];
    } else {
      assert pieces == [pieces[0]];
    }
  }

  /** The length str_replace allocates, less the terminator. */
  lemma {:induction false} JoinLength(pieces: seq<seq<byte>>, a: seq<byte>, b: seq<byte>)
    requires pieces != []
    ensures |Join(pieces, b)| == |Join(pieces, a)| + (|b| - |a|) * (|pieces| - 1)
  {
    if |pieces| == 1 {
    } else {
      JoinLength(pieces[1..], a, b);
      assert (|b| - |a|) * (|pieces| - 1) == (|b| - |a|) * (|pieces| - 2) + (|b| - |a|);
    }
  }

  lemma ReplacedLength(s: seq<byte>, rep: seq<byte>, with: seq<byte>)
    requires rep != []
    ensures |Replaced(s, rep, with)| == |s| + (|with| - |rep|) * (|Split(s, rep)| - 1)
  {
    SplitIsLeftmost(s, rep);
    JoinLength(Split(s, rep), rep, with);
  }

  // ---------- The method ----------

  /** The counting pass finds as many occurrences as there are cuts. */
  method CountOccurrences(orig: CString, rep: CString) returns (count: nat)
    requires rep != []
    ensures count == |Split(orig, rep)| - 1
  {
    count := 0;
    var ins: CString := orig;
    var tmp := StrStr(ins, rep);
    while tmp.Some?
      invariant tmp == StrStr(ins, rep)
      invariant count + |Split(ins, rep)| == |Split(orig, rep)|
      decreases |ins|
    {
      ins := ins[tmp.value + |rep|..];
      count := count + 1;
      tmp := StrStr(ins, rep);
    }
  }

  /** The front of the remaining string, then the replacement. */
  method WriteOne(buf: array<byte>, at: nat, rest: CString, front: nat, patch: CString) returns (end: nat)
    requires front <= |rest| && at + front + |patch| + 1 <= buf.Length
    modifies buf
    ensures end == at + front + |patch| && buf[..end] == old(buf[..at]) + (rest[..front] + patch)
  {
    StrNCpy(buf, at, rest, front);
    StrCpy(buf, at + front, patch);
    end := at + front + |patch|;
    Reassociate(old(buf[..at]), rest[..front], patch);
  }

  lemma ReplacedAtFirst(s: seq<byte>, rep: seq<byte>, with: seq<byte>)
    requires rep != [] && |Split(s, rep)| > 1
    ensures StrStr(s, rep).Some?
    ensures var k := StrStr(s, rep).value;
            && Split(s, rep)[1..] == Split(s[k + |rep|..], rep)
            && Replaced(s, rep, with) == (s[..k] + with) + Replaced(s[k + |rep|..], rep, with)
  {
    var k := StrStr(s, rep).value;
    assert Split(s, rep)[1..] == Split(s[k + |rep|..], rep);
  }

  /** The rewriting pass: it fills the buffer exactly, and never looks for an occurrence that is not there. */
  method Rewrite(buf: array<byte>, orig: CString, rep: CString, with: CString, occurrences: nat)
    requires rep != [] && occurrences == |Split(orig, rep)| - 1
    requires buf.Length == |Replaced(orig, rep, with)| + 1
    modifies buf
    ensures buf[..] == Replaced(orig, rep, with) + [0]
  {
    ghost var whole := Replaced(orig, rep, with);
    var count := occurrences;
    var tmp: nat := 0;
    var rest: CString := orig;
    while count > 0
      invariant count == |Split(rest, rep)| - 1
      invariant tmp <= buf.Length && buf[..tmp] + Replaced(rest, rep, with) == whole
      decreases count
    {
      ReplacedAtFirst(rest, rep, with);
      var ins := StrStr(rest, rep);
      var after: CString := rest[ins.value + |rep|..];
      Reassociate(buf[..tmp], rest[..ins.value] + with, Replaced(after, rep, with));
      tmp := WriteOne(buf, tmp, rest, ins.value, with);
      rest := after;
      count := count - 1;
    }
    assert Replaced(rest, rep, with) == rest;
    StrCpy(buf, tmp, rest);
    assert buf[..] == buf[..tmp + |rest|] + [0];
  }

  /**
   A null argument is None. The result is null exactly when there is nothing to search in or for; else it
   is the replaced string and its terminator, filling the allocated buffer exactly.
   */
  method Replace(orig: Option<CString>, rep: Option<CString>, with: Option<CString>, memory: bool)
      returns (result: array?<byte>)
    ensures result == null <==> orig.None? || rep.None? || rep.value == [] || !memory
    ensures result != null ==>
              fresh(result) &&
              result[..] == Replaced(orig.value, rep.value, if with.Some? then with.value else []) + [0]
  {
    if orig.None? || rep.None? {
      return null;
    }
    if rep.value == [] {
      return null;
    }
    var patch: CString := if with.Some? then with.value else [];
    var count := CountOccurrences(orig.value, rep.value);
    ReplacedLength(orig.value, rep.value, patch);
    if !memory {
      return null;
    }
    var buf := new byte[|orig.value| + (|patch| - |rep.value|) * count + 1](_ => 0);
    Rewrite(buf, orig.value, rep.value, patch, count);
    result := buf;
  }
}
