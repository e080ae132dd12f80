/** Joining strings into a bounded buffer (src/util/str_util.cpp). */
module StrJoin {
  import opened Common

  /** `tokens` with `sep` between any two of them. */
  function Intercalated(tokens: seq<seq<byte>>, sep: byte): seq<byte> {
    if tokens == [] then []
    else if |tokens| == 1 then tokens[0]
    else tokens[0] + [sep] + Intercalated(tokens[1..], sep)
  }

  function WithoutLeadingEmpty(tokens: seq<seq<byte>>): seq<seq<byte>> {
    if tokens != [] && tokens[0] == [] then WithoutLeadingEmpty(tokens[1..]) else tokens
  }

  /** What xstrjoin joins: it puts no separator as long as nothing has been written. */
  function Joined(tokens: seq<seq<byte>>, sep: byte): seq<byte> {
    Intercalated(WithoutLeadingEmpty(tokens), sep)
  }

  lemma {:induction false} DroppingShortens(tokens: seq<seq<byte>>, sep: byte)
    ensures |Joined(tokens, sep)| <= |Intercalated(tokens, sep)|
  {
    if tokens == [] {
    } else if tokens[0] == [] {
      DroppingShortens(tokens[1..], sep);
    }
  }

  /** The separators are where they are expected exactly when the first token is not empty, or is the only one. */
  lemma JoinsAllIffFirstNotEmpty(tokens: seq<seq<byte>>, sep: byte)
    ensures Joined(tokens, sep) == Intercalated(tokens, sep) <==> |tokens| <= 1 || tokens[0] != []
  {
    if |tokens| <= 1 {
    } else if tokens[0] == [] {
      DroppingShortens(tokens[1..], sep);
      assert |Intercalated(tokens, sep)| == 1 + |Intercalated(tokens[1..], sep)|;
    }
  }

  /** The loop's view: `tokens` appended to what is already written. */
  function Appended(written: seq<byte>, tokens: seq<seq<byte>>, sep: byte): seq<byte>
    decreases |tokens|
  {
    if tokens == [] then written
    else Appended(if written == [] then tokens[0] else written + [sep] + tokens[0], tokens[1..], sep)
  }

  lemma {:induction false} AppendedToSome(written: seq<byte>, tokens: seq<seq<byte>>, sep: byte)
    requires written != []
    ensures Appended(written, tokens, sep) == Intercalated([written] + tokens, sep)
    decreases |tokens|
  {
    if tokens == [] {
    } else {
      var more := written + [sep] + tokens[0];
      AppendedToSome(more, tokens[1..], sep);
      assert ([written] + tokens)[1..] == tokens;
      assert ([more] + tokens[1..])[1..] == tokens[1..];
      if |tokens| > 1 {
        Reassociate(written + [sep], tokens[0], [sep] + Intercalated(tokens[1..], sep));
        Reassociate(more, [sep], Intercalated(tokens[1..], sep));
        Reassociate(tokens[0], [sep], Intercalated(tokens[1..], sep));
      }
    }
  }

  lemma {:induction false} AppendedToNone(tokens: seq<seq<byte>>, sep: byte)
    ensures Appended([], tokens, sep) == Joined(tokens, sep)
    decreases |tokens|
  {
    if tokens == [] {
    } else {
      if tokens[0] == [] {
        AppendedToNone(tokens[1..], sep);
      } else {
        AppendedToSome(tokens[0], tokens[1..], sep);
        assert [tokens[0]] + tokens[1..] == tokens;
      }
    }
  }

  lemma {:induction false} AppendedExtends(written: seq<byte>, tokens: seq<seq<byte>>, sep: byte)
    ensures written <= Appended(written, tokens, sep)
    decreases |tokens|
  {
    if tokens == [] {
    } else {
      AppendedExtends(if written == [] then tokens[0] else written + [sep] + tokens[0], tokens[1..], sep);
    }
  }

  /** The tokens between the separators of a string. */
  function Separated(s: seq<byte>, sep: byte): (tokens: seq<seq<byte>>)
    ensures tokens != []
  {
    if s == [] then [[]]
    else
      var rest := Separated(s[1..], sep);
      if s[0] == sep then [[]] + rest else [[s[0]] + rest[0]] + rest[1..]
  }

  lemma {:induction false} SeparatedToken(token: seq<byte>, rest: seq<byte>, sep: byte)
    requires sep !in token
    ensures Separated(token + rest, sep) == [token + Separated(rest, sep)[0]] + Separated(rest, sep)[1..]
  {
    if token == [] {
      var tail := Separated(rest, sep);
      assert token + rest == rest && token + tail[0] == tail[0] && [tail[0]] + tail[1..] == tail;
    } else {
      SeparatedToken(token[1..], rest, sep);
      assert (token + rest)[1..] == token[1..] + rest;
      assert token == [token[0]] + token[1..];
      Reassociate([token[0]], token[1..], Separated(rest, sep)[0]);
    }
  }

  lemma {:induction false} SeparatedGluesBack(s: seq<byte>, sep: byte)
    ensures Intercalated(Separated(s, sep), sep) == s
  {
    if s == [] {
    } else {
      var rest := Separated(s[1..], sep);
      SeparatedGluesBack(s[1..], sep);
      if s[0] == sep {
        assert ([[]] + rest)[1..] == rest;
      } else {
        assert ([[s[0]] + rest[0]] + rest[1..])[1..] == rest[1..];
      }
    }
  }

  /** Where no token contains the separator, the tokens can be read back exactly when the join shows all of them. */
  lemma JoinLosesNothing(tokens: seq<seq<byte>>, sep: byte)
    requires tokens != [] && forall t | t in tokens :: sep !in t
    ensures Separated(Joined(tokens, sep), sep) == tokens <==> |tokens| == 1 || tokens[0] != []
  {
    JoinsAllIffFirstNotEmpty(tokens, sep);
    IntercalatedLosesNothing(tokens, sep);
    SeparatedGluesBack(Joined(tokens, sep), sep);
  }

  lemma {:induction false} IntercalatedLosesNothing(tokens: seq<seq<byte>>, sep: byte)
    requires tokens != [] && forall t | t in tokens :: sep !in t
    ensures Separated(Intercalated(tokens, sep), sep) == tokens
  {
    var first := tokens[0];
    if |tokens| == 1 {
      SeparatedToken(first, [], sep);
      assert first + [] == first;
    } else {
      var rest := Intercalated(tokens[1..], sep);
      IntercalatedLosesNothing(tokens[1..], sep);
      Reassociate(first, [sep], rest);
      SeparatedToken(first, [sep] + rest, sep);
      assert ([sep] + rest)[1..] == rest;
      assert Separated([sep] + rest, sep) == [[]] + tokens[1..];
      assert first + [] == first;
    }
  }

  // ---------- The methods ----------

  /**
   xstrncpy(&dst[at], src, n). For n = 0 the bound n - 1 wraps around to a size no string reaches: the source
   tests n before it writes the terminator, but by then the whole of `src` has been copied.
   */
  method XStrNCpy(dst: array<byte>, at: nat, src: CString, n: nat) returns (w: nat)
    requires at + (if n == 0 then |src| else n) <= dst.Length
    modifies dst
    ensures w == if n == 0 || |src| < n then |src| else n
    ensures var copied := if n == 0 || |src| < n then |src| else n - 1;
            && dst[..at + copied] == old(dst[..at]) + src[..copied]
            && (n > 0 ==> dst[at + copied] == 0)
            && forall m | at + copied + (if n == 0 then 0 else 1) <= m < dst.Length :: dst[m] == old(dst[m])
  {
    var i := 0;
    while (n == 0 || i < n - 1) && i < |src|
      invariant i <= |src| && (n == 0 || i <= n - 1)
      invariant dst[..at + i] == old(dst[..at]) + src[..i]
      invariant forall m | at + i <= m < dst.Length :: dst[m] == old(dst[m])
    {
      dst[at + i] := src[i];
      assert dst[..at + i + 1] == dst[..at + i] + [src[i]];
      i := i + 1;
    }
    if n > 0 {
      dst[at + i] := 0;
    }
    w := if i == |src| then i else n;
  }

  /** One turn of xstrjoin's loop: a separator unless nothing is written yet, then the token, or as much as fits. */
  method AppendOne(dst: array<byte>, i: nat, token: CString, sep: byte, n: nat) returns (fits: bool, end: nat)
    requires i < n <= dst.Length
    modifies dst
    ensures var written := old(dst[..i]);
            var more := if written == [] then token else written + [sep] + token;
            && (fits <==> |more| < n)
            && (fits ==> end == |more|)
            && (var kept := if fits then |more| else n - 1;
                && dst[..kept] == more[..kept]
                && dst[kept] == 0
                && forall m | kept < m < dst.Length :: dst[m] == old(dst[m]))
  {
    end := i;
    if end != 0 {
      dst[end] := sep;
      end := end + 1;
      if end == n {
        dst[n - 1] := 0;
        return false, end;
      }
    }
    var w := XStrNCpy(dst, end, token, n - end);
    if w >= n - end {
      dst[n - 1] := 0;
      return false, end;
    }
    end := end + w;
    fits := true;
  }

  lemma OneTokenFurther(written: seq<byte>, tokens: seq<seq<byte>>, k: nat, next: nat, sep: byte, more: seq<byte>)
    requires k < |tokens| && next == k + 1
    requires more == if written == [] then tokens[k] else written + [sep] + tokens[k]
    ensures Appended(written, tokens[k..], sep) == Appended(more, tokens[next..], sep)
    ensures |written| <= |more| && more <= Appended(more, tokens[next..], sep)
  {
    assert tokens[k..][1..] == tokens[next..];
    AppendedExtends(more, tokens[next..], sep);
  }

  /** Whole, terminated and nothing beyond touched; or cut to n - 1 bytes and a terminator. */
  method XStrJoin(dst: array<byte>, tokens: seq<CString>, sep: byte, n: nat) returns (r: nat)
    requires 1 <= n <= dst.Length
    modifies dst
    ensures r == if |Joined(tokens, sep)| < n then |Joined(tokens, sep)| else n
    ensures tokens == [] ==> dst[..] == old(dst[..])
    ensures var kept := if |Joined(tokens, sep)| < n then |Joined(tokens, sep)| else n - 1;
            tokens != [] ==>
              && dst[..kept] == Joined(tokens, sep)[..kept]
              && dst[kept] == 0
              && forall m | kept < m < dst.Length :: dst[m] == old(dst[m])
  {
    ghost var whole := Joined(tokens, sep);
    AppendedToNone(tokens, sep);
    var i: nat, k: nat := 0, 0;
    while k < |tokens|
      invariant k <= |tokens| && i < n
      invariant Appended(dst[..i], tokens[k..], sep) == whole
      invariant k == 0 ==> i == 0 && dst[0] == old(dst[0])
      invariant k > 0 ==> dst[i] == 0
      invariant forall m | i < m < dst.Length :: dst[m] == old(dst[m])
    {
      ghost var written, token := dst[..i], tokens[k];
      ghost var more := if written == [] then token else written + [sep] + token;
      var fits;
      fits, i := AppendOne(dst, i, tokens[k], sep, n);
      k := k + 1;
      OneTokenFurther(written, tokens, k - 1, k, sep, more);
      if !fits {
        assert whole[..n - 1] == more[..n - 1];
        return n;
      }
      assert dst[..i] == more;
    }
    r := i;
  }
}
