/** One rule line as text: get_key (udev_rules_parse.c) takes a key, an operator and a quoted
    value off the line; what is left is the rest of the line. */
module RuleText {
  import opened Basics

  datatype Op = UNSET | MATCH | NOMATCH | ADD | ASSIGN | ASSIGN_FINAL

  datatype Token = Token(key: string, op: Op, value: string, rest: string)

  /** White space and commas between two keys. */
  function SkipBetween(s: string): (r: string)
    ensures |r| <= |s|
  {
    if s != "" && (IsSpace(s[0]) || s[0] == ',') then SkipBetween(s[1..]) else s
  }

  /** Does the key end at position i? */
  predicate EndsKey(s: string, i: nat)
    requires i < |s|
  {
    || IsSpace(s[i]) || s[i] == '='
    || (s[i] in "+!:" && i + 1 < |s| && s[i + 1] == '=')
  }

  /** The end of the key, looked for from position i on. */
  function KeyEnd(s: string, i: nat): (r: Option<nat>)
    ensures r.Some? ==> i <= r.value < |s| && EndsKey(s, r.value)
    decreases |s| - i
  {
    if i >= |s| then None
    else if EndsKey(s, i) then Some(i)
    else KeyEnd(s, i + 1)
  }

  /** The operator at the start of s, and its length. */
  function Operator(s: string): (Op, nat) {
    if s == "" then (UNSET, 0)
    else if "==" <= s then (MATCH, 2)
    else if "!=" <= s then (NOMATCH, 2)
    else if "+=" <= s then (ADD, 2)
    else if s[0] == '=' then (ASSIGN, 1)
    else if ":=" <= s then (ASSIGN_FINAL, 2)
    else (UNSET, 0)
  }

  /** strchr for the closing quote. */
  function Quote(s: string, i: nat): (r: Option<nat>)
    ensures r.Some? ==> i <= r.value < |s| && s[r.value] == '"' && forall k :: i <= k < r.value ==> s[k] != '"'
    decreases |s| - i
  {
    if i >= |s| then None else if s[i] == '"' then Some(i) else Quote(s, i + 1)
  }

  /** The quoted value at the start of s, after white space. */
  function QuotedValue(s: string): Option<(string, string)> {
    var t := SkipSpace(s);
    if t == "" || t[0] != '"' then None
    else
      var q := Quote(t, 1);
      if q.None? then None else Some((t[1..q.value], t[q.value + 1..]))
  }

  /** Operator and value, from the end of the key on. */
  function AfterKey(s: string): Option<(Op, string, string)> {
    var t := SkipSpace(s);
    var (op, n) := Operator(t);
    if op == UNSET then None
    else
      var v := QuotedValue(t[n..]);
      if v.None? then None else Some((op, v.value.0, v.value.1))
  }

  function TokenAt(s: string): Option<Token> {
    if s == "" then None
    else
      var e := KeyEnd(s, 1);
      if e.None? then None
      else
        var a := AfterKey(s[e.value..]);
        if a.None? then None else Some(Token(s[..e.value], a.value.0, a.value.1, a.value.2))
  }

  function GetKey(line: string): Option<Token> {
    TokenAt(SkipBetween(line))
  }

  // ---------------------------------------------------------------- what a token takes

  lemma OperatorFits(t: string)
    ensures var (op, n) := Operator(t); n <= |t| && (op != UNSET ==> n >= 1)
  {
  }

  lemma QuotedValueFits(s: string)
    ensures var v := QuotedValue(s);
            v.Some? ==> |v.value.0| + 2 + |v.value.1| <= |s| && '"' !in v.value.0
  {
  }

  lemma AfterKeyFits(s: string)
    ensures var a := AfterKey(s);
            a.Some? ==> a.value.0 != UNSET && '"' !in a.value.1 && 1 + |a.value.1| + 2 + |a.value.2| <= |s|
  {
    var t := SkipSpace(s);
    OperatorFits(t);
    var (op, n) := Operator(t);
    QuotedValueFits(t[n..]);
  }

  /** A token takes at least its key, one character of operator, its value and two quotes off
      the line; so the line gets shorter. */
  lemma TokenTakes(line: string)
    ensures var k := GetKey(line);
            k.Some? ==>
              && k.value.key != "" && '"' !in k.value.value && k.value.op != UNSET
              && |k.value.key| + 1 + |k.value.value| + 2 + |k.value.rest| <= |line|
  {
    var s := SkipBetween(line);
    if s != "" && KeyEnd(s, 1).Some? {
      AfterKeyFits(s[KeyEnd(s, 1).value..]);
    }
  }

  // ---------------------------------------------------------------- printing

  function OpText(op: Op): (s: string)
    requires op != UNSET
    ensures 1 <= |s| <= 2
  {
    match op
    case MATCH => "=="
    case NOMATCH => "!="
    case ADD => "+="
    case ASSIGN => "="
    case ASSIGN_FINAL => ":="
  }

  function PrintKey(key: string, op: Op, value: string): string
    requires op != UNSET
  {
    key + OpText(op) + "\"" + value + "\""
  }

  /** A key that get_key takes as a whole. */
  predicate KeyOk(key: string) {
    && key != "" && !IsSpace(key[0]) && key[0] != ','
    && (forall i :: 1 <= i < |key| ==> !IsSpace(key[i]) && key[i] != '=')
    && (|key| > 1 ==> key[|key| - 1] !in "+!:")
  }

  predicate ValueOk(value: string) {
    '"' !in value && '\0' !in value
  }

  lemma {:induction false} KeyEndFinds(s: string, i: nat, e: nat)
    requires i <= e < |s| && EndsKey(s, e)
    requires forall k :: i <= k < e ==> !EndsKey(s, k)
    ensures KeyEnd(s, i) == Some(e)
    decreases e - i
  {
    if i < e {
      KeyEndFinds(s, i + 1, e);
    }
  }

  lemma {:induction false} QuoteFinds(s: string, i: nat, e: nat)
    requires i <= e < |s| && s[e] == '"'
    requires forall k :: i <= k < e ==> s[k] != '"'
    ensures Quote(s, i) == Some(e)
    decreases e - i
  {
    if i < e {
      QuoteFinds(s, i + 1, e);
    }
  }

  lemma OperatorReadsBack(op: Op, rest: string)
    requires op != UNSET
    ensures Operator(OpText(op) + "\"" + rest) == (op, |OpText(op)|)
  {
    var s := OpText(op) + "\"" + rest;
    assert s[0] == OpText(op)[0];
    assert s[1] == if |OpText(op)| == 2 then OpText(op)[1] else '"';
    assert s[..2] == [s[0], s[1]];
  }

  lemma QuotedValueReadsBack(value: string, rest: string)
    requires '"' !in value
    ensures QuotedValue("\"" + value + "\"" + rest) == Some((value, rest))
  {
    var s := "\"" + value + "\"" + rest;
    assert forall k :: 1 <= k < |value| + 1 ==> s[k] == value[k - 1];
    QuoteFinds(s, 1, |value| + 1);
    assert s[1..|value| + 1] == value;
    assert s[|value| + 2..] == rest;
  }

  lemma KeyReadsBack(key: string, op: Op, rest: string)
    requires KeyOk(key) && op != UNSET
    ensures var s := key + OpText(op) + rest;
            SkipBetween(s) == s && KeyEnd(s, 1) == Some(|key|)
  {
    var s := key + OpText(op) + rest;
    assert forall k :: 0 <= k < |key| ==> s[k] == key[k];
    assert s[|key|] == OpText(op)[0];
    assert |OpText(op)| == 2 ==> s[|key| + 1] == OpText(op)[1];
    KeyEndFinds(s, 1, |key|);
  }

  lemma AfterKeyReadsBack(op: Op, value: string, rest: string)
    requires op != UNSET && ValueOk(value)
    ensures AfterKey(OpText(op) + "\"" + value + "\"" + rest) == Some((op, value, rest))
  {
    hide Operator, QuotedValue;
    var v := "\"" + value + "\"" + rest;
    var t := OpText(op) + "\"" + value + "\"" + rest;
    assert t == OpText(op) + v;
    assert t[0] == OpText(op)[0];
    assert t == OpText(op) + "\"" + (value + "\"" + rest);
    OperatorReadsBack(op, value + "\"" + rest);
    assert t[|OpText(op)|..] == v;
    QuotedValueReadsBack(value, rest);
  }

  lemma SeparatorSkipped(s: string)
    ensures SkipBetween(", " + s) == SkipBetween(s)
  {
    var c := ", " + s;
    assert c[1..][1..] == s && c[1..][0] == ' ';
    assert SkipBetween(c) == SkipBetween(c[1..]);
  }

  /** Whatever separates it from the key before, a printed key is read back, and the rest of the
      line is left. */
  lemma GetKeyReadsBack(key: string, op: Op, value: string, rest: string)
    requires KeyOk(key) && op != UNSET && ValueOk(value)
    ensures GetKey(PrintKey(key, op, value) + rest) == Some(Token(key, op, value, rest))
    ensures GetKey(", " + PrintKey(key, op, value) + rest) == Some(Token(key, op, value, rest))
  {
    hide KeyEnd, AfterKey, KeyOk, OpText, SkipBetween;
    var v := "\"" + value + "\"" + rest;
    var s := key + OpText(op) + v;
    assert PrintKey(key, op, value) + rest == s;
    KeyReadsBack(key, op, v);
    assert s[|key|..] == OpText(op) + "\"" + value + "\"" + rest && s[..|key|] == key;
    AfterKeyReadsBack(op, value, rest);
    SeparatorSkipped(s);
    assert ", " + PrintKey(key, op, value) + rest == ", " + s;
  }

  // ---------------------------------------------------------------- the loops

  method SkipSpaces(line: string, from: nat, commas: bool) returns (pos: nat)
    requires from <= |line|
    ensures from <= pos <= |line|
    ensures line[pos..] == if commas then SkipBetween(line[from..]) else SkipSpace(line[from..])
  {
    pos := from;
    while pos < |line| && (IsSpace(line[pos]) || (commas && line[pos] == ','))
      invariant from <= pos <= |line|
      invariant commas ==> SkipBetween(line[from..]) == SkipBetween(line[pos..])
      invariant !commas ==> SkipSpace(line[from..]) == SkipSpace(line[pos..])
    {
      assert line[pos..][1..] == line[pos + 1..];
      pos := pos + 1;
    }
  }

  /** The scan for the end of the key that begins at start. */
  method FindKeyEnd(line: string, start: nat) returns (r: Option<nat>)
    requires start < |line|
    ensures var e := KeyEnd(line[start..], 1);
            r == if e.None? then None else Some(start + e.value)
  {
    ghost var s := line[start..];
    var pos := start;
    while true
      invariant start <= pos < |line| && KeyEnd(s, 1) == KeyEnd(s, pos + 1 - start)
      decreases |line| - pos
    {
      pos := pos + 1;
      if pos == |line| {
        return None;
      }
      assert s[pos - start] == line[pos];
      if IsSpace(line[pos]) {
        break;
      }
      if line[pos] == '=' {
        break;
      }
      if line[pos] == '+' || line[pos] == '!' || line[pos] == ':' {
        assert pos + 1 < |line| ==> s[pos + 1 - start] == line[pos + 1];
        if pos + 1 < |line| && line[pos + 1] == '=' {
          break;
        }
      }
    }
    return Some(pos);
  }

  /** strchr. */
  method FindQuote(line: string, from: nat) returns (r: Option<nat>)
    requires from <= |line|
    ensures r == Quote(line, from)
  {
    var pos := from;
    while pos < |line|
      invariant from <= pos <= |line| && Quote(line, from) == Quote(line, pos)
    {
      if line[pos] == '"' {
        return Some(pos);
      }
      pos := pos + 1;
    }
    return None;
  }

  lemma {:induction false} QuoteShift(line: string, start: nat, i: nat)
    requires start <= |line|
    ensures var q := Quote(line[start..], i);
            Quote(line, start + i) == if q.None? then None else Some(start + q.value)
    decreases |line| - i
  {
    if start + i < |line| {
      assert line[start..][i] == line[start + i];
      if line[start + i] != '"' {
        QuoteShift(line, start, i + 1);
      }
    }
  }

  /** The quoted value after the operator. */
  method ReadQuoted(line: string, from: nat) returns (r: Option<(string, string)>, next: nat)
    requires from <= |line|
    ensures r == QuotedValue(line[from..])
    ensures from <= next <= |line| && (r.Some? ==> line[next..] == r.value.1)
  {
    hide SkipSpace, Quote;
    next := from;
    var pos := SkipSpaces(line, from, false);
    ghost var t := line[pos..];
    assert t == SkipSpace(line[from..]);
    if pos == |line| {
      assert t == "";
      return None, next;
    }
    assert t[0] == line[pos];
    if line[pos] != '"' {
      return None, next;
    }
    var q := FindQuote(line, pos + 1);
    QuoteShift(line, pos, 1);
    if q.None? {
      return None, next;
    }
    assert t[1..q.value - pos] == line[pos + 1..q.value];
    assert t[q.value - pos + 1..] == line[q.value + 1..];
    return Some((line[pos + 1..q.value], line[q.value + 1..])), q.value + 1;
  }

  /** The part of get_key behind the key. */
  method ReadAfterKey(line: string, from: nat) returns (r: Option<(Op, string, string)>, next: nat)
    requires from <= |line|
    ensures r == AfterKey(line[from..])
    ensures from <= next <= |line| && (r.Some? ==> line[next..] == r.value.2)
  {
    hide SkipSpace, Operator, QuotedValue;
    next := from;
    var pos := SkipSpaces(line, from, false);
    var (op, n) := Operator(line[pos..]);
    OperatorFits(line[pos..]);
    if op == UNSET {
      return None, next;
    }
    assert line[pos..][n..] == line[pos + n..];
    var v, after := ReadQuoted(line, pos + n);
    if v.None? {
      return None, next;
    }
    return Some((op, v.value.0, v.value.1)), after;
  }

  /** get_key with its line pointer; next is where the pointer goes on success. */
  method GetKeyAt(line: string, from: nat) returns (r: Option<Token>, next: nat)
    requires from <= |line|
    ensures r == GetKey(line[from..])
    ensures from <= next <= |line| && (r.Some? ==> line[next..] == r.value.rest)
  {
    hide SkipBetween, AfterKey, KeyEnd;
    next := from;
    var start := SkipSpaces(line, from, true);
    if start == |line| {
      return None, next;
    }
    var e := FindKeyEnd(line, start);
    if e.None? {
      return None, next;
    }
    assert line[start..][e.value - start..] == line[e.value..];
    assert line[start..][..e.value - start] == line[start..e.value];
    var a, after := ReadAfterKey(line, e.value);
    if a.None? {
      return None, next;
    }
    return Some(Token(line[start..e.value], a.value.0, a.value.1, a.value.2)), after;
  }
}
