/** volume_id_set_unicode16: a label of 16-bit units becomes UTF-8 in a buffer of len bytes. */
module Unicode16 {
  import opened Basics
  import opened Utf8

  /** The units of the first count bytes; an odd last byte is not one. */
  function Units(buf: seq<byte>, little: bool, count: nat): (units: seq<nat>)
    requires count <= |buf|
    ensures |units| == count / 2
    ensures forall i :: 0 <= i < |units| ==> units[i] < 0x10000
  {
    seq(count / 2, i requires 0 <= i < count / 2 =>
      if little then Unit(buf[2 * i + 1], buf[2 * i]) else Unit(buf[2 * i], buf[2 * i + 1]))
  }

  function Unit(high: byte, low: byte): (u: nat)
    ensures u < 0x10000
  {
    high as int * 256 + low as int
  }

  /** Units as they are stored, the low byte first or the high one. */
  function BytesOf(units: seq<nat>, little: bool): (r: seq<byte>)
    requires AreUnits(units)
    ensures |r| == 2 * |units|
  {
    if units == [] then []
    else
      var last := units[|units| - 1];
      BytesOf(units[..|units| - 1], little)
      + (if little then [last % 256, last / 256] else [last / 256, last % 256])
  }

  lemma {:induction false} BytesAt(units: seq<nat>, little: bool, i: nat)
    requires AreUnits(units) && i < |units|
    ensures var b, high, low := BytesOf(units, little), units[i] / 256, units[i] % 256;
            b[2 * i] == (if little then low else high) && b[2 * i + 1] == (if little then high else low)
    decreases |units|
  {
    if i < |units| - 1 {
      BytesAt(units[..|units| - 1], little, i);
    }
  }

  lemma TwoBytes(u: nat)
    requires u < 0x10000
    ensures u / 256 < 256 && Unit(u / 256, u % 256) == u
  {
  }

  /** Stored units are found again, in either byte order, and an odd last byte is left out. */
  lemma UnitsReadBack(units: seq<nat>, little: bool, odd: seq<byte>)
    requires AreUnits(units) && |odd| <= 1
    ensures var buf := BytesOf(units, little) + odd; Units(buf, little, |buf|) == units
  {
    var buf := BytesOf(units, little) + odd;
    var us := Units(buf, little, |buf|);
    forall i | 0 <= i < |us|
      ensures us[i] == units[i]
    {
      BytesAt(units, little, i);
      TwoBytes(units[i]);
      hide BytesOf;
    }
  }

  predicate AreUnits(units: seq<nat>) {
    forall i :: 0 <= i < |units| ==> units[i] < 0x10000
  }

  function EncodeAll(units: seq<nat>): seq<byte>
    requires AreUnits(units)
  {
    if units == [] then [] else EncodeAll(units[..|units| - 1]) + Encode(units[|units| - 1])
  }

  /** How many units are converted: up to the first zero, or until the next one, with the
      terminator, would not fit. */
  function Cut(units: seq<nat>, len: nat, i: nat, j: nat): (k: nat)
    requires AreUnits(units) && i <= |units|
    ensures i <= k <= |units|
    decreases |units| - i
  {
    if i == |units| || units[i] == 0 || j + |Encode(units[i])| >= len then i
    else Cut(units, len, i + 1, j + |Encode(units[i])|)
  }

  function Converted(units: seq<nat>, len: nat): nat
    requires AreUnits(units)
  {
    Cut(units, len, 0, 0)
  }

  lemma {:induction false} EncodeAllGrows(units: seq<nat>, k: nat)
    requires AreUnits(units) && k < |units|
    ensures EncodeAll(units[..k + 1]) == EncodeAll(units[..k]) + Encode(units[k])
  {
    assert units[..k + 1][..k] == units[..k];
  }

  lemma {:induction false} CutFacts(units: seq<nat>, len: nat, i: nat)
    requires AreUnits(units) && i <= |units| && |EncodeAll(units[..i])| < len
    requires forall m :: 0 <= m < i ==> units[m] != 0
    ensures var k := Cut(units, len, i, |EncodeAll(units[..i])|);
            && |EncodeAll(units[..k])| < len
            && (forall m :: 0 <= m < k ==> units[m] != 0)
            && (k == |units| || units[k] == 0 || |EncodeAll(units[..k + 1])| >= len)
    decreases |units| - i
  {
    hide Encode, EncodeAll;
    if i < |units| {
      EncodeAllGrows(units, i);
      if units[i] != 0 && |EncodeAll(units[..i])| + |Encode(units[i])| < len {
        CutFacts(units, len, i + 1);
      }
    }
  }

  /** The result has room for its terminator, ends before the first zero unit, and is cut only
      where the next whole character would not fit. */
  lemma ConvertsAsMuchAsFits(units: seq<nat>, len: nat)
    requires AreUnits(units) && len >= 1
    ensures var k := Converted(units, len);
            && |EncodeAll(units[..k])| < len
            && (forall m :: 0 <= m < k ==> units[m] != 0)
            && (k == |units| || units[k] == 0 || |EncodeAll(units[..k + 1])| >= len)
  {
    assert units[..0] == [];
    CutFacts(units, len, 0);
  }

  /** Reads code points off a byte string, as long as the lead bytes tell a length. */
  function DecodeAll(s: seq<byte>): seq<int>
    decreases |s|
  {
    if s == [] then []
    else
      var n := ExpectedLen(s[0]);
      if n == 0 || n > |s| then [] else [ToUnichar(s)] + DecodeAll(s[n..])
  }

  lemma DecodeOne(u: nat, rest: seq<byte>)
    requires u < 0x10000
    ensures DecodeAll(Encode(u) + rest) == [u] + DecodeAll(rest)
  {
    DecodesBack(u, rest);
    assert (Encode(u) + rest)[|Encode(u)|..] == rest;
  }

  /** Characters come off one after the other. */
  lemma {:induction false} DecodeFirst(units: seq<nat>, more: seq<nat>)
    requires AreUnits(units) && AreUnits(more)
    ensures DecodeAll(EncodeAll(units) + EncodeAll(more)) == units + DecodeAll(EncodeAll(more))
    decreases |units|
  {
    hide Encode, DecodeAll;
    if units == [] {
      assert EncodeAll(units) + EncodeAll(more) == EncodeAll(more);
    } else {
      var last := units[|units| - 1];
      var front := units[..|units| - 1];
      EncodeAllPrepend(last, more);
      DecodeFirst(front, [last] + more);
      Regroup3(EncodeAll(front), Encode(last), EncodeAll(more));
      DecodeOne(last, EncodeAll(more));
      Regroup3(front, [last], DecodeAll(EncodeAll(more)));
      assert front + [last] == units;
    }
  }

  lemma EncodeAllPush(units: seq<nat>, last: nat)
    requires AreUnits(units) && last < 0x10000
    ensures EncodeAll(units + [last]) == EncodeAll(units) + Encode(last)
  {
    assert (units + [last])[..|units|] == units;
  }

  lemma {:induction false} EncodeAllPrepend(u: nat, more: seq<nat>)
    requires u < 0x10000 && AreUnits(more)
    ensures EncodeAll([u] + more) == Encode(u) + EncodeAll(more)
    decreases |more|
  {
    hide Encode;
    if more == [] {
      assert [u] + more == [u] && [u][..0] == [];
    } else {
      var front, last := more[..|more| - 1], more[|more| - 1];
      EncodeAllPrepend(u, front);
      EncodeAllPush([u] + front, last);
      EncodeAllPush(front, last);
      hide EncodeAll;
      assert more == front + [last];
      Regroup3([u], front, [last]);
      Regroup3(Encode(u), EncodeAll(front), Encode(last));
    }
  }

  /** Every character of the result decodes back to its unit. */
  lemma DecodesToUnits(units: seq<nat>, len: nat)
    requires AreUnits(units) && len >= 1
    ensures DecodeAll(EncodeAll(units[..Converted(units, len)])) == units[..Converted(units, len)]
  {
    var k := Converted(units, len);
    DecodeFirst(units[..k], []);
    assert EncodeAll(units[..k]) + EncodeAll([]) == EncodeAll(units[..k]);
    assert units[..k] + DecodeAll(EncodeAll([])) == units[..k];
  }

  /** Writes the character of one unit at j, as the three branches of the source do. */
  method PutUnit(str: array<byte>, j: nat, c: nat) returns (j': nat)
    requires 0 < c < 0x10000 && j + |Encode(c)| <= str.Length
    modifies str
    ensures j' == j + |Encode(c)| && str[..j'] == old(str[..j]) + Encode(c)
    ensures forall m :: j' <= m < str.Length ==> str[m] == old(str[m])
  {
    if c < 0x80 {
      str[j] := c;
      j' := j + 1;
    } else if c < 0x800 {
      str[j], str[j + 1] := 0xc0 + c / 64, 0x80 + c % 64;
      j' := j + 2;
    } else {
      str[j], str[j + 1], str[j + 2] := 0xe0 + c / 4096, 0x80 + c / 64 % 64, 0x80 + c % 64;
      j' := j + 3;
    }
  }

  lemma EncodeNothing()
    ensures EncodeAll([]) == []
  {
  }

  lemma UnitAt(buf: seq<byte>, little: bool, count: nat, k: nat)
    requires count <= |buf| && 2 * k + 2 <= count
    ensures k < |Units(buf, little, count)|
    ensures Units(buf, little, count)[k] ==
            if little then Unit(buf[2 * k + 1], buf[2 * k]) else Unit(buf[2 * k], buf[2 * k + 1])
  {
  }

  lemma LengthOf(c: nat)
    requires c < 0x10000
    ensures |Encode(c)| == if c < 0x80 then 1 else if c < 0x800 then 2 else 3
  {
  }

  lemma CutStep(units: seq<nat>, len: nat, i: nat, j: nat)
    requires AreUnits(units) && i < |units|
    ensures Cut(units, len, i, j) ==
            if units[i] == 0 || j + |Encode(units[i])| >= len then i
            else Cut(units, len, i + 1, j + |Encode(units[i])|)
  {
  }

  lemma CutEnds(units: seq<nat>, len: nat, j: nat)
    requires AreUnits(units)
    ensures Cut(units, len, |units|, j) == |units|
  {
  }

  method SetUnicode16(str: array<byte>, len: nat, buf: seq<byte>, little: bool, count: nat) returns (j: nat)
    requires 1 <= len <= str.Length && count <= |buf|
    modifies str
    ensures var units := Units(buf, little, count);
            j < len && str[..j] == EncodeAll(units[..Converted(units, len)])
    ensures str[j] == 0
    ensures forall m :: j < m < str.Length ==> str[m] == old(str[m])
  {
    hide Encode, EncodeAll, Cut, Units;
    ghost var units := Units(buf, little, count);
    var i := 0;
    j := 0;
    EncodeNothing();
    assert units[..0] == [];
    while i + 2 <= count
      invariant i % 2 == 0 && i / 2 <= |units| && j < len
      invariant str[..j] == EncodeAll(units[..i / 2])
      invariant Cut(units, len, 0, 0) == Cut(units, len, i / 2, j)
      invariant forall m :: j <= m < str.Length ==> str[m] == old(str[m])
      decreases count - i
    {
      var c := if little then Unit(buf[i + 1], buf[i]) else Unit(buf[i], buf[i + 1]);
      UnitAt(buf, little, count, i / 2);
      LengthOf(c);
      CutStep(units, len, i / 2, j);
      if c == 0 {
        break;
      }
      if j + (if c < 0x80 then 1 else if c < 0x800 then 2 else 3) >= len {
        break;
      }
      EncodeAllGrows(units, i / 2);
      j := PutUnit(str, j, c);
      i := i + 2;
    }
    if i + 2 > count {
      CutEnds(units, len, j);
    }
    ghost var done := str[..j];
    str[j] := 0;
    assert str[..j] == done;
  }
}
