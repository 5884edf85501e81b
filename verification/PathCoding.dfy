/** udev stores a device path as one file name: '/' and '\' are escaped as "\x2f" and "\x5c"
    (path_encode, path_decode in udev_utils_string.c). */
module PathCoding {
  import opened Basics
  /** A C string is modelled without its terminator: no character of it is NUL. */
  predicate IsCString(s: string) {
    forall i :: 0 <= i < |s| ==> s[i] != '\0'
  }

  const SLASH_ESCAPE: string := "\\x2f"
  const BACKSLASH_ESCAPE: string := "\\x5c"

  function EncodeChar(c: char): string {
    if c == '/' then SLASH_ESCAPE else if c == '\\' then BACKSLASH_ESCAPE else [c]
  }

  function HexDigit(n: nat): char
    requires n < 16
  {
    "0123456789abcdef"[n]
  }

  /** An escaped character is written as its code in hexadecimal; every other character stands for
      itself. */
  lemma EscapesAreHex(c: char)
    ensures c == '/' || c == '\\' ==>
              EncodeChar(c) == "\\x" + [HexDigit(c as int / 16), HexDigit(c as int % 16)]
    ensures c != '/' && c != '\\' ==> EncodeChar(c) == [c]
  {
    var hex := "0123456789abcdef";
    assert hex[2] == '2' && hex[15] == 'f' && hex[5] == '5' && hex[12] == 'c';
    assert '/' as int == 0x2f && '\\' as int == 0x5c;
  }

  function Encode(s: string): string {
    if s == "" then "" else EncodeChar(s[0]) + Encode(s[1..])
  }

  function Decode(t: string): string {
    if t == "" then ""
    else if SLASH_ESCAPE <= t then "/" + Decode(t[4..])
    else if BACKSLASH_ESCAPE <= t then "\\" + Decode(t[4..])
    else [t[0]] + Decode(t[1..])
  }

  /** The strings that are encodings: no '/', and every '\' begins one of the two escapes. */
  predicate IsEncoded(t: string) {
    t != "" ==>
      if SLASH_ESCAPE <= t || BACKSLASH_ESCAPE <= t then IsEncoded(t[4..])
      else t[0] != '/' && t[0] != '\\' && IsEncoded(t[1..])
  }

  lemma EncodeStep(c: char, r: string)
    ensures Encode([c] + r) == EncodeChar(c) + Encode(r)
  {
    assert ([c] + r)[1..] == r;
  }

  lemma DecodeStep(c: char, r: string)
    ensures Decode(EncodeChar(c) + r) == [c] + Decode(r)
    ensures IsEncoded(EncodeChar(c) + r) == IsEncoded(r)
  {
    var t := EncodeChar(c) + r;
    if c == '/' || c == '\\' {
      assert t[4..] == r;
      assert t[3] == EncodeChar(c)[3];
    } else {
      assert t[1..] == r;
      assert t[0] == c;
    }
  }

  /** Decoding an encoded path gives it back. */
  lemma {:induction false} DecodeEncode(s: string)
    ensures Decode(Encode(s)) == s
  {
    if s != "" {
      DecodeEncode(s[1..]);
      DecodeStep(s[0], Encode(s[1..]));
      assert s == [s[0]] + s[1..];
    }
  }

  /** The next token of an encoded string: how many characters it takes, what it stands for. */
  function Token(str: string): (r: (nat, char))
    requires str != ""
    ensures 1 <= r.0 <= |str|
    ensures Decode(str) == [r.1] + Decode(str[r.0..])
  {
    if SLASH_ESCAPE <= str then (4, '/')
    else if BACKSLASH_ESCAPE <= str then (4, '\\')
    else (1, str[0])
  }

  lemma TokenEncoded(t: string)
    requires t != ""
    ensures var (k, c) := Token(t);
            && (IsEncoded(t) <==> EncodeChar(c) == t[..k] && IsEncoded(t[k..]))
            && (EncodeChar(c) <= t ==> EncodeChar(c) == t[..k])
  {
  }

  lemma SamePieces(t: string, k: nat, first: string, rest: string)
    requires k <= |t| && (first <= t ==> first == t[..k])
    ensures first + rest == t <==> first == t[..k] && rest == t[k..]
  {
    assert t == t[..k] + t[k..];
    assert (first + rest)[..|first|] == first && (first + rest)[|first|..] == rest;
  }

  /** A string is the encoding of some path exactly when it has the escaped form;
      the path is then unique and Decode finds it. */
  lemma {:induction false} EncodingsAreExactly(t: string)
    ensures IsEncoded(t) <==> Encode(Decode(t)) == t
  {
    if t != "" {
      hide Encode, Decode, EncodeChar, IsEncoded, Token;
      var (k, c) := Token(t);
      TokenEncoded(t);
      EncodingsAreExactly(t[k..]);
      EncodeStep(c, Decode(t[k..]));
      SamePieces(t, k, EncodeChar(c), Encode(Decode(t[k..])));
    }
  }

  /** An encoded path is a single file name: it holds no '/'. It is at least as long as the
      path, and stays NUL free. */
  lemma {:induction false} EncodedIsFileName(s: string)
    ensures '/' !in Encode(s)
    ensures |s| <= |Encode(s)| <= 4 * |s|
    ensures IsCString(s) ==> IsCString(Encode(s))
  {
    if s != "" {
      EncodedIsFileName(s[1..]);
      assert forall c :: c in Encode(s) ==> c in EncodeChar(s[0]) || c in Encode(s[1..]);
    }
  }

  /** Two paths never share a file name. */
  lemma EncodeInjective(a: string, b: string)
    ensures Encode(a) == Encode(b) <==> a == b
  {
    DecodeEncode(a);
    DecodeEncode(b);
  }

  lemma {:induction false} EncodeAppend(a: string, b: string)
    ensures Encode(a + b) == Encode(a) + Encode(b)
  {
    if a == "" {
      assert a + b == b;
    } else {
      EncodeAppend(a[1..], b);
      EncodeStep(a[0], a[1..] + b);
      EncodeStep(a[0], a[1..]);
      hide Encode, EncodeChar;
      assert a == [a[0]] + a[1..];
      Regroup3([a[0]], a[1..], b);
      Regroup3(EncodeChar(a[0]), Encode(a[1..]), Encode(b));
    }
  }

  lemma EncodePrefix(s: string, i: nat)
    requires i < |s|
    ensures Encode(s[..i + 1]) == Encode(s[..i]) + EncodeChar(s[i])
    ensures |Encode(s[..i + 1])| <= |Encode(s)|
  {
    assert s[..i + 1] == s[..i] + [s[i]];
    EncodeAppend(s[..i], [s[i]]);
    assert s == s[..i + 1] + s[i + 1..];
    EncodeAppend(s[..i + 1], s[i + 1..]);
  }

  lemma {:induction false} DecodeShrinks(t: string)
    ensures |Decode(t)| <= |t|
  {
    if t != "" {
      DecodeShrinks(if SLASH_ESCAPE <= t || BACKSLASH_ESCAPE <= t then t[4..] else t[1..]);
    }
  }

  /** strncpy: the first n characters of src, NUL padded. */
  function Padded(src: string, n: nat): (r: string)
    ensures |r| == n
  {
    if |src| >= n then src[..n] else src + seq(n - |src|, _ => '\0')
  }

  lemma PaddedHasNul(src: string, n: nat)
    requires IsCString(src)
    ensures '\0' in Padded(src, n) <==> |src| < n
  {
    if |src| < n {
      assert Padded(src, n)[|src|] == '\0';
    } else {
      assert forall i :: 0 <= i < n ==> Padded(src, n)[i] == src[i];
    }
  }

  /** u holds the C string str from its start. */
  predicate HoldsCString(u: string, str: string) {
    IsCString(str) && |str| < |u| && u[..|str|] == str && u[|str|] == '\0'
  }

  lemma CharAt(u: string, str: string, i: nat)
    requires HoldsCString(u, str) && i <= |str|
    ensures u[i] != '\0' <==> i < |str|
    ensures i < |str| ==> u[i] == str[i]
  {
    assert i < |str| ==> u[i] == u[..|str|][i];
  }

  method StrNCopy(s: array<char>, t: array<char>, j: nat, len: nat)
    requires s != t && len <= s.Length && j < t.Length && t[j] == '\0'
    requires IsCString(t[..j])
    modifies s
    ensures s[..len] == Padded(old(t[..j]), len)
    ensures s[len..] == old(s[len..])
  {
    ghost var src := t[..j];
    var k := 0;
    while k < len
      invariant k <= len
      invariant forall m :: 0 <= m < k ==> s[m] == if m < j then t[m] else '\0'
      invariant forall m :: len <= m < s.Length ==> s[m] == old(s[m])
    {
      s[k] := if k < j then t[k] else '\0';
      k := k + 1;
    }
    assert forall m :: 0 <= m < j ==> t[m] == src[m];
    assert s[..len] == Padded(src, len);
  }

  /** One turn of the encoding loop: the code of c is appended at j. */
  method PutEncoded(t: array<char>, j: nat, c: char) returns (j': nat)
    requires j + |EncodeChar(c)| <= t.Length
    modifies t
    ensures j' == j + |EncodeChar(c)|
    ensures t[..j'] == old(t[..j]) + EncodeChar(c)
  {
    if c == '/' {
      t[j], t[j + 1], t[j + 2], t[j + 3] := '\\', 'x', '2', 'f';
      j' := j + 4;
    } else if c == '\\' {
      t[j], t[j + 1], t[j + 2], t[j + 3] := '\\', 'x', '5', 'c';
      j' := j + 4;
    } else {
      t[j] := c;
      j' := j + 1;
    }
  }

  /** Encodes the C string s in place, through a temporary buffer of len * 3 + 1 characters.
      The terminator is kept exactly when the encoding is shorter than the buffer. */
  method PathEncode(s: array<char>, len: nat, ghost str: string) returns (j: nat)
    requires len <= s.Length && HoldsCString(s[..len], str)
    requires |Encode(str)| <= len * 3
    modifies s
    ensures j == |Encode(str)|
    ensures s[..len] == Padded(Encode(str), len) && s[len..] == old(s[len..])
    ensures '\0' in s[..len] <==> |Encode(str)| < len
  {
    var t := new char[len * 3 + 1];
    var i := 0;
    j := 0;
    ghost var u := s[..len];
    assert str[..0] == "";
    CharAt(u, str, 0);
    while s[i] != '\0'
      invariant i <= |str| && j <= len * 3 && u == s[..len] && s[i] == u[i]
      invariant s[len..] == old(s[len..])
      invariant u[i] != '\0' <==> i < |str|
      invariant i < |str| ==> u[i] == str[i]
      invariant j == |Encode(str[..i])| && t[..j] == Encode(str[..i])
      decreases |str| - i
    {
      EncodePrefix(str, i);
      j := PutEncoded(t, j, s[i]);
      i := i + 1;
      CharAt(u, str, i);
    }
    assert str[..i] == str;
    t[j] := '\0';
    EncodedIsFileName(str);
    PaddedHasNul(Encode(str), len);
    StrNCopy(s, t, j, len);
  }

  predicate FourAt(s: array<char>, i: nat, p: string)
    requires |p| == 4
    reads s
  {
    i + 4 <= s.Length && s[i] == p[0] && s[i + 1] == p[1] && s[i + 2] == p[2] && s[i + 3] == p[3]
  }

  lemma EscapeAt(s: array<char>, i: nat, u: string, str: string, p: string)
    requires HoldsCString(u, str) && i <= |str| && |u| == s.Length
    requires forall k :: i <= k < |u| ==> s[k] == u[k]
    requires |p| == 4 && IsCString(p)
    ensures FourAt(s, i, p) <==> p <= str[i..]
  {
    assert forall k :: 0 <= k < |str| ==> u[k] == u[..|str|][k] == str[k];
    assert s[|str|] == '\0';
    if FourAt(s, i, p) {
      assert forall k :: 0 <= k < 4 ==> s[i + k] == p[k];
      assert i + 3 < |str|;
      assert p == str[i..][..4];
    }
    if p <= str[i..] {
      assert forall k :: 0 <= k < 4 ==> str[i + k] == str[i..][k] == p[k];
    }
  }

  /** Reads one token at i. */
  method GetToken(s: array<char>, i: nat, ghost u: string, ghost str: string) returns (n: nat, c: char)
    requires HoldsCString(u, str) && i < |str| && |u| == s.Length
    requires forall k :: i <= k < |u| ==> s[k] == u[k]
    ensures (n, c) == Token(str[i..])
  {
    EscapeAt(s, i, u, str, SLASH_ESCAPE);
    EscapeAt(s, i, u, str, BACKSLASH_ESCAPE);
    CharAt(u, str, i);
    if FourAt(s, i, SLASH_ESCAPE) {
      n, c := 4, '/';
    } else if FourAt(s, i, BACKSLASH_ESCAPE) {
      n, c := 4, '\\';
    } else {
      n, c := 1, s[i];
    }
  }

  lemma TokenMoves(before: string, str: string, i: nat, n: nat, c: char)
    requires i < |str| && (n, c) == Token(str[i..])
    ensures i + n <= |str| && before + Decode(str[i..]) == before + [c] + Decode(str[i + n..])
  {
    assert str[i..][n..] == str[i + n..];
    hide Decode, Token;
    assert before + ([c] + Decode(str[i + n..])) == before + [c] + Decode(str[i + n..]);
  }

  lemma DecodeNothing()
    ensures Decode("") == ""
  {
  }

  /** Decodes the C string s in place. The write position never overtakes the read position,
      and input that has not been read yet is not changed. */
  method PathDecode(s: array<char>, ghost str: string) returns (j: nat)
    requires HoldsCString(s[..], str)
    modifies s
    ensures j == |Decode(str)| && j <= |str|
    ensures s[..j] == Decode(str) && s[j] == '\0'
    ensures forall k :: |str| < k < s.Length ==> s[k] == old(s[k])
  {
    assert |str| < s.Length;
    hide Decode, Token, HoldsCString;
    var i := 0;
    j := 0;
    ghost var u := s[..];
    assert str[0..] == str;
    CharAt(u, str, 0);
    while s[i] != '\0'
      invariant j <= i <= |str| && s.Length == |u|
      invariant forall k :: i <= k < |u| ==> s[k] == u[k]
      invariant u[i] != '\0' <==> i < |str|
      invariant s[..j] + Decode(str[i..]) == Decode(str)
      decreases |str| - i
    {
      var n, c := GetToken(s, i, u, str);
      ghost var before := s[..j];
      s[j] := c;
      assert s[..j + 1] == before + [c];
      TokenMoves(before, str, i, n, c);
      i := i + n;
      j := j + 1;
      CharAt(u, str, i);
    }
    assert str[i..] == "";
    DecodeNothing();
    s[j] := '\0';
    assert s[..j] == Decode(str);
  }
}
