/** replace_chars: names from rules and devices are cut down to whitelisted characters, letters
    and digits, "\x" escapes and valid multi-byte UTF-8 (udev_utils_string.c). */
module ReplaceChars {
  import opened Basics
  import opened Utf8

  const SPACE: byte := 0x20
  const UNDERSCORE: byte := 0x5f
  const BACKSLASH: byte := 0x5c
  const LETTER_X: byte := 0x78

  predicate IsAlnum(c: byte) {
    0x30 <= c <= 0x39 || 0x41 <= c <= 0x5a || 0x61 <= c <= 0x7a
  }

  predicate IsBlank(c: byte) {
    c == SPACE || 0x09 <= c <= 0x0d
  }

  /** How many bytes at the start of s are accepted as they are; 0 if the first is not. */
  function Accepted(s: seq<byte>, white: seq<byte>): (n: nat)
    requires s != []
    ensures n <= |s|
  {
    if s[0] in white then 1
    else if IsAlnum(s[0]) then 1
    else if s[0] == BACKSLASH && At(s, 1) == LETTER_X then 2
    else if ValidUnichar(s) > 1 then
      AcceptsLocally(s, []);
      ValidUnichar(s)
    else 0
  }

  function Substitute(c: byte, white: seq<byte>): byte {
    if IsBlank(c) && SPACE in white then SPACE else UNDERSCORE
  }

  function Replace(s: seq<byte>, white: seq<byte>): (r: seq<byte>)
    ensures |r| == |s|
  {
    if s == [] then []
    else
      var n := Accepted(s, white);
      if n > 0 then s[..n] + Replace(s[n..], white)
      else [Substitute(s[0], white)] + Replace(s[1..], white)
  }

  /** The number of replaced bytes. */
  function Replaced(s: seq<byte>, white: seq<byte>): nat {
    if s == [] then 0
    else
      var n := Accepted(s, white);
      if n > 0 then Replaced(s[n..], white) else 1 + Replaced(s[1..], white)
  }

  /** s consists of accepted tokens only. */
  predicate Clean(s: seq<byte>, white: seq<byte>) {
    s == [] || (Accepted(s, white) > 0 && Clean(s[Accepted(s, white)..], white))
  }

  /** What may stand in a name: a byte of the whitelist, a digit or letter, the start of a hex escape,
      or a character of more than one byte in its shortest form. */
  ghost predicate IsToken(t: seq<byte>, white: seq<byte>) {
    || (|t| == 1 && (t[0] in white || 0x30 <= t[0] <= 0x39 || 0x41 <= t[0] <= 0x5a || 0x61 <= t[0] <= 0x7a))
    || t == [0x5c, 0x78]
    || exists u: nat :: 0x80 <= u <= 0x10ffff && Allowed(u) && t == Encode(u)
  }

  lemma LongToken(s: seq<byte>)
    ensures ValidUnichar(s) > 1 ==>
              ValidUnichar(s) <= |s| && exists u: nat :: 0x80 <= u <= 0x10ffff && Allowed(u) && s[..ValidUnichar(s)] == Encode(u)
    ensures (exists u: nat :: 0x80 <= u <= 0x10ffff && Allowed(u) && Encode(u) <= s) ==> ValidUnichar(s) > 1
  {
    hide Allowed, ValidUnichar;
    if ValidUnichar(s) > 1 {
      AcceptsShortestForms(s, ValidUnichar(s));
      AcceptsLocally(s, []);
    }
    if u: nat :| 0x80 <= u <= 0x10ffff && Allowed(u) && Encode(u) <= s {
      AcceptsShortestForms(s, |Encode(u)|);
    }
  }

  /** What is accepted is a token, the whitelist first; what is not accepted begins with none. */
  lemma AcceptedMeaning(s: seq<byte>, white: seq<byte>)
    requires s != []
    ensures var n := Accepted(s, white);
            && (n > 0 ==> IsToken(s[..n], white))
            && (n == 0 ==> forall k :: 0 <= k <= |s| ==> !IsToken(s[..k], white))
            && (s[0] in white ==> n == 1)
  {
    LongToken(s);
    hide ValidUnichar, Allowed, Encode;
    if Accepted(s, white) == 0 {
      forall k | 0 <= k <= |s|
        ensures !IsToken(s[..k], white)
      {
        assert s[..k] <= s;
      }
    }
  }

  function Joined(tokens: seq<seq<byte>>): seq<byte> {
    if tokens == [] then [] else tokens[0] + Joined(tokens[1..])
  }

  lemma CleanStep(s: seq<byte>, white: seq<byte>)
    requires Clean(s, white) && s != []
    ensures var n := Accepted(s, white); n > 0 && IsToken(s[..n], white) && Clean(s[n..], white)
  {
    AcceptedMeaning(s, white);
    hide Accepted, IsToken;
  }

  /** s is a row of tokens. */
  ghost predicate Splits(s: seq<byte>, tokens: seq<seq<byte>>, white: seq<byte>) {
    Joined(tokens) == s && forall k :: 0 <= k < |tokens| ==> IsToken(tokens[k], white)
  }

  /** A clean string is a row of tokens. */
  lemma {:induction false} CleanSplits(s: seq<byte>, white: seq<byte>) returns (tokens: seq<seq<byte>>)
    requires Clean(s, white)
    ensures Splits(s, tokens, white)
    decreases |s|
  {
    if s == [] {
      tokens := [];
    } else {
      CleanStep(s, white);
      hide Accepted, IsToken, Clean, Splits;
      var n := Accepted(s, white);
      var rest := CleanSplits(s[n..], white);
      TokenInFront(s, n, rest, white);
      tokens := [s[..n]] + rest;
    }
  }

  lemma TokenInFront(s: seq<byte>, n: nat, rest: seq<seq<byte>>, white: seq<byte>)
    requires n <= |s| && IsToken(s[..n], white) && Splits(s[n..], rest, white)
    ensures Splits(s, [s[..n]] + rest, white)
  {
    hide IsToken;
    assert ([s[..n]] + rest)[1..] == rest;
    assert s == s[..n] + s[n..];
  }

  /** Each byte stays or becomes a blank, if it is white space and blanks are allowed, or '_'. */
  lemma {:induction false} BytesReplaced(s: seq<byte>, white: seq<byte>, i: nat)
    requires i < |s|
    ensures || Replace(s, white)[i] == s[i]
            || Replace(s, white)[i] == if (s[i] == 0x20 || 0x09 <= s[i] <= 0x0d) && 0x20 in white then 0x20 else 0x5f
    decreases |s|
  {
    var n := Accepted(s, white);
    hide Accepted;
    var k := if n > 0 then n else 1;
    if i >= k {
      BytesReplaced(s[k..], white, i - k);
    }
  }

  /** Acceptance depends on the accepted bytes alone. */
  lemma AcceptedLocally(s: seq<byte>, t: seq<byte>, white: seq<byte>)
    requires s != [] && Accepted(s, white) > 0
    ensures Accepted(s[..Accepted(s, white)] + t, white) == Accepted(s, white)
  {
    var n := Accepted(s, white);
    var s' := s[..n] + t;
    assert s'[0] == s[0];
    if s[0] in white || IsAlnum(s[0]) {
    } else if s[0] == BACKSLASH && At(s, 1) == LETTER_X {
      assert s'[1] == s[1];
    } else {
      AcceptsLocally(s, t);
      assert s[0] == BACKSLASH ==> ValidUnichar(s) == 1;
    }
  }

  /** A substitute is accepted once '_' is allowed. */
  lemma SubstituteAccepted(c: byte, t: seq<byte>, white: seq<byte>)
    ensures var s := [Substitute(c, white)] + t;
            && Accepted(s, white + [UNDERSCORE]) == 1
            && (UNDERSCORE in white ==> Accepted(s, white) == 1)
            && (Accepted(s, white) == 1 || (Accepted(s, white) == 0 && Substitute(s[0], white) == s[0]))
  {
    var s := [Substitute(c, white)] + t;
    assert s[0] == Substitute(c, white) && At(s, 0) == s[0];
    assert ValidUnichar(s) == 1;
  }

  /** Allowing '_' as well accepts the same tokens, and '_'. */
  lemma UnderscoreAllowed(s: seq<byte>, white: seq<byte>)
    requires s != []
    ensures Accepted(s, white + [UNDERSCORE]) ==
            if s[0] == UNDERSCORE then 1 else Accepted(s, white)
  {
  }

  /** Whatever the input, the result consists of accepted tokens and '_'; with '_' in the
      whitelist nothing in it would be replaced again. */
  lemma {:induction false} ResultIsClean(s: seq<byte>, white: seq<byte>)
    ensures Clean(Replace(s, white), white + [UNDERSCORE])
    ensures UNDERSCORE in white ==> Clean(Replace(s, white), white) && Replaced(Replace(s, white), white) == 0
    decreases |s|
  {
    if s != [] {
      var n := Accepted(s, white);
      var r := Replace(s, white);
      if n > 0 {
        ResultIsClean(s[n..], white);
        AcceptedLocally(s, Replace(s[n..], white), white);
        UnderscoreAllowed(r, white);
        assert r[0] == s[0];
        assert r[n..] == Replace(s[n..], white);
        if s[0] == UNDERSCORE {
          assert ValidUnichar(s) == 1;
          assert n == 1;
        }
      } else {
        ResultIsClean(s[1..], white);
        SubstituteAccepted(s[0], Replace(s[1..], white), white);
        assert r[1..] == Replace(s[1..], white);
      }
    }
  }

  /** Replacing again changes nothing, whether or not '_' is in the whitelist. */
  lemma {:induction false} ReplaceIsIdempotent(s: seq<byte>, white: seq<byte>)
    ensures Replace(Replace(s, white), white) == Replace(s, white)
    decreases |s|
  {
    if s != [] {
      var n := Accepted(s, white);
      var r := Replace(s, white);
      if n > 0 {
        ReplaceIsIdempotent(s[n..], white);
        AcceptedLocally(s, Replace(s[n..], white), white);
        assert r[..n] == s[..n] && r[n..] == Replace(s[n..], white);
      } else {
        ReplaceIsIdempotent(s[1..], white);
        SubstituteAccepted(s[0], Replace(s[1..], white), white);
        assert r[1..] == Replace(s[1..], white) && r[..1] == [r[0]];
      }
    }
  }

  /** Whatever the input, the result is a row of tokens and '_'. */
  lemma ResultIsTokens(s: seq<byte>, white: seq<byte>) returns (tokens: seq<seq<byte>>)
    ensures Joined(tokens) == Replace(s, white)
    ensures forall k :: 0 <= k < |tokens| ==> tokens[k] == [0x5f] || IsToken(tokens[k], white)
  {
    ResultIsClean(s, white);
    tokens := CleanSplits(Replace(s, white), white + [UNDERSCORE]);
    hide Clean, Replace;
    forall k | 0 <= k < |tokens|
      ensures tokens[k] == [0x5f] || IsToken(tokens[k], white)
    {
      assert IsToken(tokens[k], white + [UNDERSCORE]);
    }
  }

  lemma UnderscoreIsOne(s: seq<byte>, white: seq<byte>)
    requires s != [] && s[0] == UNDERSCORE
    ensures Accepted(s, white) <= 1
  {
    assert ValidUnichar(s) == 1;
  }

  /** A byte that is not accepted stays only if it is '_'. */
  lemma OnlyUnderscoreStays(s: seq<byte>, white: seq<byte>)
    requires s != [] && Accepted(s, white) == 0
    ensures Substitute(s[0], white) == s[0] <==> s[0] == UNDERSCORE
  {
  }

  lemma SamePieces(s: seq<byte>, n: nat, first: seq<byte>, rest: seq<byte>)
    requires n <= |s| && |first| == n
    ensures first + rest == s <==> first == s[..n] && rest == s[n..]
  {
    assert (first + rest)[..n] == first && (first + rest)[n..] == rest;
    assert s == s[..n] + s[n..];
  }

  /** A string is left alone exactly when it consists of accepted tokens and '_'; nothing is
      counted exactly when it consists of accepted tokens. */
  lemma {:induction false} LeftAlone(s: seq<byte>, white: seq<byte>)
    ensures Replaced(s, white) == 0 <==> Clean(s, white)
    ensures Replaced(s, white) == 0 ==> Replace(s, white) == s
    ensures Replace(s, white) == s <==> Clean(s, white + [UNDERSCORE])
    decreases |s|
  {
    if s != [] {
      var n := Accepted(s, white);
      UnderscoreAllowed(s, white);
      Turn(s, white);
      if n > 0 {
        LeftAlone(s[n..], white);
        SamePieces(s, n, s[..n], Replace(s[n..], white));
        if s[0] == UNDERSCORE {
          UnderscoreIsOne(s, white);
        }
      } else {
        LeftAlone(s[1..], white);
        SamePieces(s, 1, [Substitute(s[0], white)], Replace(s[1..], white));
        OnlyUnderscoreStays(s, white);
      }
      hide Accepted, Replace, Replaced, Substitute;
    }
  }

  lemma Turn(s: seq<byte>, white: seq<byte>)
    requires s != []
    ensures var n := Accepted(s, white);
            if n > 0 then
              Replace(s, white) == s[..n] + Replace(s[n..], white) && Replaced(s, white) == Replaced(s[n..], white)
            else
              Replace(s, white) == [Substitute(s[0], white)] + Replace(s[1..], white)
              && Replaced(s, white) == 1 + Replaced(s[1..], white)
  {
  }

  /** The loop over the string in place. */
  method ReplaceInPlace(str: array<byte>, white: seq<byte>) returns (replaced: nat)
    modifies str
    ensures str[..] == Replace(old(str[..]), white)
    ensures replaced == Replaced(old(str[..]), white)
  {
    hide Accepted, Replace, Replaced;
    ghost var s := str[..];
    var i := 0;
    replaced := 0;
    assert s[0..] == s && str[..0] == [];
    while i < str.Length
      invariant i <= str.Length && str.Length == |s|
      invariant str[..i] + Replace(s[i..], white) == Replace(s, white)
      invariant replaced + Replaced(s[i..], white) == Replaced(s, white)
      invariant forall k :: i <= k < |s| ==> str[k] == s[k]
    {
      ghost var before := str[..i];
      assert str[i..] == s[i..];
      var n := Accepted(str[i..], white);
      Turn(s[i..], white);
      if n > 0 {
        assert str[..i + n] == before + s[i..][..n];
        assert s[i..][n..] == s[i + n..];
        i := i + n;
        continue;
      }
      assert s[i..][1..] == s[i + 1..];
      if IsBlank(str[i]) && SPACE in white {
        str[i] := SPACE;
      } else {
        str[i] := UNDERSCORE;
      }
      assert str[..i + 1] == before + [Substitute(s[i..][0], white)];
      i := i + 1;
      replaced := replaced + 1;
    }
    ReplaceNothing(white);
    assert s[i..] == [] && str[..i] == str[..];
  }

  lemma ReplaceNothing(white: seq<byte>)
    ensures Replace([], white) == [] && Replaced([], white) == 0
  {
  }
}
