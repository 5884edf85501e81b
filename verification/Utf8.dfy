/** The UTF-8 helpers that udev_utils_string.c and volume_id's util.c share. Bytes are numbers
    below 256; a mask and shift of the source is the remainder and quotient by a power of two.
    The yardstick is the table in section 3 of RFC 3629. */
module Utf8 {
  import opened Basics

  /** Byte i of a C string; behind its end comes the terminator. */
  function At(s: seq<byte>, i: nat): byte {
    if i < |s| then s[i] else 0
  }

  /** The encoding of a code point, from the table of the RFC. */
  function Encode(u: nat): (s: seq<byte>)
    requires u <= 0x10ffff
    ensures 1 <= |s| <= 4
  {
    if u < 0x80 then [u]
    else if u < 0x800 then [0xc0 + u / 64, 0x80 + u % 64]
    else if u < 0x10000 then [0xe0 + u / 4096, 0x80 + u / 64 % 64, 0x80 + u % 64]
    else [0xf0 + u / 262144, 0x80 + u / 4096 % 64, 0x80 + u / 64 % 64, 0x80 + u % 64]
  }

  // ---------------------------------------------------------------- the source's helpers

  /** utf8_encoded_expected_len. */
  function ExpectedLen(c: byte): nat {
    if c < 0x80 then 1
    else if c / 32 == 6 then 2
    else if c / 16 == 14 then 3
    else if c / 8 == 30 then 4
    else if c / 4 == 62 then 5
    else if c / 2 == 126 then 6
    else 0
  }

  function LeadBits(c: byte): nat {
    match ExpectedLen(c)
    case 2 => c % 32
    case 3 => c % 16
    case 4 => c % 8
    case 5 => c % 4
    case 6 => c % 2
    case _ => c
  }

  /** The loop over the bytes that follow, from position i on. */
  function Continue(s: seq<byte>, i: nat, len: nat, acc: nat): int
    decreases len - i
  {
    if i >= len then acc
    else if At(s, i) / 64 != 2 then -1
    else Continue(s, i + 1, len, acc * 64 + At(s, i) % 64)
  }

  /** utf8_encoded_to_unichar. */
  function ToUnichar(s: seq<byte>): int {
    var len := ExpectedLen(At(s, 0));
    if len == 0 then -1
    else if len == 1 then At(s, 0)
    else Continue(s, 1, len, LeadBits(At(s, 0)))
  }

  /** utf8_unichar_to_encoded_len. */
  function EncodedLen(u: int): nat {
    if u < 0x80 then 1
    else if u < 0x800 then 2
    else if u < 0x10000 then 3
    else if u < 0x200000 then 4
    else if u < 0x4000000 then 5
    else 6
  }

  /** utf8_unichar_valid_range. */
  predicate ValidRange(u: int) {
    && u <= 0x10ffff
    && u / 2048 != 27
    && !(u > 0xfdcf && u < 0xfdf0)
    && u % 0x10000 != 0xffff
  }

  /** A code point of Unicode that is not a surrogate, not one of the 32 noncharacters from U+FDD0
      on, and not the last of its plane. */
  predicate Allowed(u: nat) {
    && u <= 0x10ffff && !(0xd800 <= u <= 0xdfff) && !(0xfdd0 <= u <= 0xfdef)
    && u !in {0xffff, 0x1ffff, 0x2ffff, 0x3ffff, 0x4ffff, 0x5ffff, 0x6ffff, 0x7ffff, 0x8ffff, 0x9ffff, 0xaffff,
              0xbffff, 0xcffff, 0xdffff, 0xeffff, 0xfffff, 0x10ffff}
  }

  lemma RangeMeaning(u: nat)
    ensures ValidRange(u) <==> Allowed(u)
  {
    var plane, low := u / 0x10000, u % 0x10000;
    assert u == plane * 0x10000 + low;
    assert u / 2048 == 27 <==> 0xd800 <= u <= 0xdfff;
    if u <= 0x10ffff {
      assert plane <= 16;
    }
  }

  predicate HighBits(s: seq<byte>, len: nat) {
    forall i :: 0 <= i < len ==> At(s, i) >= 0x80
  }

  /** utf8_encoded_valid_unichar, volume_id_utf8_encoded_valid_unichar. */
  function ValidUnichar(s: seq<byte>): int {
    var len := ExpectedLen(At(s, 0));
    if len == 0 then -1
    else if len == 1 then 1
    else if !HighBits(s, len) then -1
    else
      var u := ToUnichar(s);
      if EncodedLen(u) != len || !ValidRange(u) then -1 else len
  }

  // ---------------------------------------------------------------- what they mean

  lemma Digit(high: nat, low: nat)
    requires low < 64
    ensures (high * 64 + low) / 64 == high && (high * 64 + low) % 64 == low
  {
  }

  lemma Digits(u: nat)
    ensures u == u / 64 * 64 + u % 64
    ensures u / 4096 == u / 64 / 64 && u / 262144 == u / 64 / 64 / 64
    ensures u / 4096 % 64 == u / 64 / 64 % 64
  {
  }

  /** One turn of the decoding loop. */
  lemma ContinueStep(s: seq<byte>, i: nat, len: nat, acc: nat)
    requires i < len && 0x80 <= At(s, i) < 0xc0
    ensures Continue(s, i, len, acc) == Continue(s, i + 1, len, acc * 64 + (At(s, i) - 0x80))
  {
  }

  lemma LeadByte(c: byte, len: nat)
    requires len == 2 ==> 0xc0 <= c < 0xe0
    requires len == 3 ==> 0xe0 <= c < 0xf0
    requires len == 4 ==> 0xf0 <= c < 0xf8
    requires 2 <= len <= 4
    ensures ExpectedLen(c) == len
    ensures LeadBits(c) == c - (if len == 2 then 0xc0 else if len == 3 then 0xe0 else 0xf0)
  {
  }

  lemma LeadRange(c: byte)
    ensures ExpectedLen(c) == 2 ==> 0xc0 <= c < 0xe0
    ensures ExpectedLen(c) == 3 ==> 0xe0 <= c < 0xf0
    ensures ExpectedLen(c) == 4 ==> 0xf0 <= c < 0xf8
  {
  }

  /** Decoding an encoded code point gives it back, whatever follows. */
  lemma DecodesBack(u: nat, rest: seq<byte>)
    requires u <= 0x10ffff
    ensures ToUnichar(Encode(u) + rest) == u
    ensures ExpectedLen((Encode(u) + rest)[0]) == |Encode(u)| == EncodedLen(u)
    ensures u >= 0x80 ==> HighBits(Encode(u) + rest, |Encode(u)|)
  {
    var s := Encode(u) + rest;
    var n := |Encode(u)|;
    assert forall i :: 0 <= i < n ==> At(s, i) == Encode(u)[i];
    hide Continue, ExpectedLen, LeadBits, ToUnichar;
    assert u >= 0x80 ==> HighBits(s, n);
    hide HighBits;
    if n == 1 {
      LoneByte(s);
    } else {
      DecodesLonger(u, s, n);
    }
  }

  lemma DecodesLonger(u: nat, s: seq<byte>, n: nat)
    requires 0x80 <= u <= 0x10ffff && n == |Encode(u)| == EncodedLen(u)
    requires forall i :: 0 <= i < n ==> At(s, i) == Encode(u)[i]
    ensures ToUnichar(s) == u && ExpectedLen(At(s, 0)) == n
  {
    hide Continue, ExpectedLen, LeadBits, ToUnichar;
    Digits(u);
    Digits(u / 64);
    LeadByte(At(s, 0), n);
    DecodeSteps(s, n, u);
  }

  lemma LoneByte(s: seq<byte>)
    requires At(s, 0) < 0x80
    ensures ToUnichar(s) == At(s, 0) && ExpectedLen(At(s, 0)) == 1
  {
  }

  /** Up to three turns put the six-bit digits of u together. */
  lemma DecodeSteps(s: seq<byte>, n: nat, u: nat)
    requires n == EncodedLen(u) && 2 <= n <= 4 && ExpectedLen(At(s, 0)) == n
    requires n == 2 ==> LeadBits(At(s, 0)) == u / 64
    requires n == 3 ==> LeadBits(At(s, 0)) == u / 64 / 64 && At(s, 1) == 0x80 + u / 64 % 64
    requires n == 4 ==> LeadBits(At(s, 0)) == u / 64 / 64 / 64 && At(s, 1) == 0x80 + u / 64 / 64 % 64 && At(s, 2) == 0x80 + u / 64 % 64
    requires At(s, n - 1) == 0x80 + u % 64
    ensures ToUnichar(s) == u
  {
    Digits(u);
    Digits(u / 64);
    Digits(u / 64 / 64);
    hide ExpectedLen, LeadBits, Continue;
    if n == 4 {
      ContinueStep(s, 1, 4, u / 64 / 64 / 64);
      ContinueStep(s, 2, 4, u / 64 / 64);
    }
    if n >= 3 {
      ContinueStep(s, n - 2, n, u / 64 / 64);
    }
    ContinueStep(s, n - 1, n, u / 64);
    ContinueEnds(s, n, u);
  }

  lemma ContinueEnds(s: seq<byte>, len: nat, acc: nat)
    ensures Continue(s, len, len, acc) == acc
  {
  }

  /** What has been decoded without complaint is the number its six-bit digits stand for. */
  lemma DecodedDigits(s: seq<byte>, len: nat)
    requires ExpectedLen(At(s, 0)) == len && 2 <= len <= 4 && ToUnichar(s) >= 0
    ensures forall i :: 1 <= i < len ==> 0x80 <= At(s, i) < 0xc0
    ensures var a := LeadBits(At(s, 0)); var b, c, d := At(s, 1) - 0x80, At(s, 2) - 0x80, At(s, 3) - 0x80;
            ToUnichar(s) == if len == 2 then a * 64 + b
                            else if len == 3 then (a * 64 + b) * 64 + c
                            else ((a * 64 + b) * 64 + c) * 64 + d
  {
    hide ExpectedLen, LeadBits, Continue;
    var a := LeadBits(At(s, 0));
    ContinueComplains(s, 1, len, a);
    var b := At(s, 1) - 0x80;
    ContinueStep(s, 1, len, a);
    if len >= 3 {
      ContinueComplains(s, 2, len, a * 64 + b);
      ContinueStep(s, 2, len, a * 64 + b);
      var c := At(s, 2) - 0x80;
      if len == 4 {
        ContinueComplains(s, 3, len, (a * 64 + b) * 64 + c);
        ContinueStep(s, 3, len, (a * 64 + b) * 64 + c);
        ContinueEnds(s, 4, ((a * 64 + b) * 64 + c) * 64 + (At(s, 3) - 0x80));
      } else {
        ContinueEnds(s, 3, (a * 64 + b) * 64 + c);
      }
    } else {
      ContinueEnds(s, 2, a * 64 + b);
    }
  }

  lemma ContinueComplains(s: seq<byte>, i: nat, len: nat, acc: nat)
    requires i < len && Continue(s, i, len, acc) >= 0
    ensures 0x80 <= At(s, i) < 0xc0
  {
  }

  lemma ShortestOfTwo(s: seq<byte>, a: nat, b: nat)
    requires 2 <= |s| && s[0] == 0xc0 + a && s[1] == 0x80 + b && b < 64
    requires 0x80 <= a * 64 + b < 0x800
    ensures Encode(a * 64 + b) <= s
  {
    Digit(a, b);
    assert Encode(a * 64 + b) == s[..2];
  }

  lemma ShortestOfThree(s: seq<byte>, a: nat, b: nat, c: nat)
    requires 3 <= |s| && s[0] == 0xe0 + a && s[1] == 0x80 + b && s[2] == 0x80 + c && b < 64 && c < 64
    requires 0x800 <= (a * 64 + b) * 64 + c < 0x10000
    ensures Encode((a * 64 + b) * 64 + c) <= s
  {
    var u := (a * 64 + b) * 64 + c;
    Digit(a, b);
    Digit(a * 64 + b, c);
    Digits(u);
    assert Encode(u) == s[..3];
  }

  lemma ShortestOfFour(s: seq<byte>, a: nat, b: nat, c: nat, d: nat)
    requires 4 <= |s| && s[0] == 0xf0 + a && s[1] == 0x80 + b && s[2] == 0x80 + c && s[3] == 0x80 + d
    requires b < 64 && c < 64 && d < 64
    requires 0x10000 <= ((a * 64 + b) * 64 + c) * 64 + d <= 0x10ffff
    ensures Encode(((a * 64 + b) * 64 + c) * 64 + d) <= s
  {
    var u := ((a * 64 + b) * 64 + c) * 64 + d;
    Digit(a, b);
    Digit(a * 64 + b, c);
    Digit((a * 64 + b) * 64 + c, d);
    Digits(u);
    assert Encode(u) == s[..4];
  }

  /** The bytes that were decoded are the shortest form of the result if the length is right. */
  lemma EncodesBack(s: seq<byte>, len: nat)
    requires ExpectedLen(At(s, 0)) == len && 2 <= len <= 4
    requires 0x80 <= ToUnichar(s) <= 0x10ffff && EncodedLen(ToUnichar(s)) == len
    ensures Encode(ToUnichar(s)) <= s
  {
    DecodedDigits(s, len);
    LeadRange(At(s, 0));
    LeadByte(At(s, 0), len);
    var a := LeadBits(At(s, 0));
    hide ToUnichar, ExpectedLen, LeadBits, Encode;
    assert At(s, len - 1) != 0;
    match len {
      case 2 => ShortestOfTwo(s, a, s[1] - 0x80);
      case 3 => ShortestOfThree(s, a, s[1] - 0x80, s[2] - 0x80);
      case _ => ShortestOfFour(s, a, s[1] - 0x80, s[2] - 0x80, s[3] - 0x80);
    }
  }

  lemma ValidIsShortest(s: seq<byte>, len: int)
    requires len > 1 && ValidUnichar(s) == len
    ensures var u := ToUnichar(s); 0x80 <= u <= 0x10ffff && Allowed(u) && |Encode(u)| == len && Encode(u) <= s
  {
    EncodesBack(s, len);
    RangeMeaning(ToUnichar(s));
    hide Allowed, ToUnichar;
  }

  /** A multi-byte sequence is accepted exactly when it begins with the shortest form of a code
      point in the allowed range, and then with its length: overlong and surrogate forms are
      out. */
  lemma AcceptsShortestForms(s: seq<byte>, len: int)
    requires len > 1
    ensures ValidUnichar(s) == len <==>
            exists u: nat :: 0x80 <= u <= 0x10ffff && Allowed(u) && |Encode(u)| == len && Encode(u) <= s
  {
    if ValidUnichar(s) == len {
      ValidIsShortest(s, len);
    }
    hide Allowed, ValidRange;
    if u: nat :| 0x80 <= u <= 0x10ffff && Allowed(u) && |Encode(u)| == len && Encode(u) <= s {
      var rest := s[len..];
      assert s == Encode(u) + rest;
      DecodesBack(u, rest);
      RangeMeaning(u);
    }
  }

  /** A plain ASCII byte has length 1, and whatever is neither that nor accepted has -1. */
  lemma RefusesTheRest(s: seq<byte>)
    ensures ValidUnichar(s) == 1 <==> At(s, 0) < 0x80
    ensures ValidUnichar(s) < 1 ==> ValidUnichar(s) == -1
  {
    LeadOfAscii(At(s, 0));
    hide ExpectedLen, ToUnichar, EncodedLen;
  }

  lemma LeadOfAscii(c: byte)
    ensures ExpectedLen(c) == 1 <==> c < 0x80
  {
  }

  /** Acceptance looks at the bytes of the sequence alone. */
  lemma AcceptsLocally(s: seq<byte>, t: seq<byte>)
    requires ValidUnichar(s) > 1
    ensures ValidUnichar(s) <= 4 && ValidUnichar(s) <= |s|
    ensures ValidUnichar(s[..ValidUnichar(s)] + t) == ValidUnichar(s)
  {
    var len := ValidUnichar(s);
    AcceptsShortestForms(s, len);
    hide Allowed;
    var u: nat :| 0x80 <= u <= 0x10ffff && Allowed(u) && |Encode(u)| == len && Encode(u) <= s;
    assert Encode(u) == s[..len];
    AcceptsShortestForms(s[..len] + t, len);
  }
}
