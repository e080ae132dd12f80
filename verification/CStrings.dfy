/** The C library's string functions the utilities use, on byte buffers. */
module CStrings {
  import opened Common

  /** strcpy(&dst[at], src): the terminator is written too. */
  method StrCpy(dst: array<byte>, at: nat, src: CString)
    requires at + |src| + 1 <= dst.Length
    modifies dst
    ensures dst[..at + |src|] == old(dst[..at]) + src
    ensures dst[at + |src|] == 0 && dst[at + |src| + 1..] == old(dst[at + |src| + 1..])
  {
    forall i | 0 <= i < |src| {
      dst[at + i] := src[i];
    }
    dst[at + |src|] := 0;
  }

  /** strncpy(&dst[at], src, n) for n no longer than src: n bytes and no terminator. */
  method StrNCpy(dst: array<byte>, at: nat, src: CString, n: nat)
    requires n <= |src| && at + n <= dst.Length
    modifies dst
    ensures dst[..at + n] == old(dst[..at]) + src[..n]
    ensures dst[at + n..] == old(dst[at + n..])
  {
    forall i | 0 <= i < n {
      dst[at + i] := src[i];
    }
  }

  predicate OccursAt(s: seq<byte>, rep: seq<byte>, k: nat) {
    k + |rep| <= |s| && s[k..k + |rep|] == rep
  }

  /** strstr: the position of the leftmost occurrence, if any. */
  function StrStr(s: seq<byte>, rep: seq<byte>): (r: Option<nat>)
    ensures r.Some? ==> OccursAt(s, rep, r.value) && forall k: nat | k < r.value :: !OccursAt(s, rep, k)
    ensures r.None? ==> forall k: nat :: !OccursAt(s, rep, k)
  {
    StrStrFrom(s, rep, 0)
  }

  function StrStrFrom(s: seq<byte>, rep: seq<byte>, from: nat): (r: Option<nat>)
    requires from <= |s|
    ensures r.Some? ==>
              from <= r.value && OccursAt(s, rep, r.value) && forall k: nat | from <= k < r.value :: !OccursAt(s, rep, k)
    ensures r.None? ==> forall k: nat | from <= k :: !OccursAt(s, rep, k)
    decreases |s| - from
  {
    if OccursAt(s, rep, from) then Some(from)
    else if from == |s| then None
    else StrStrFrom(s, rep, from + 1)
  }
}
