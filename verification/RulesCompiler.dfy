/** One line of a rules file becomes a rule: a header of keys with offsets, and the strings they
    point to, one behind the other (add_to_rules in udev_rules_parse.c). */
module RulesCompiler {
  import opened Basics
  import opened RuleText
  import DbRecord

  const LINE_SIZE: nat := 512
  const PAIRS_MAX: nat := 5

  datatype Slot =
    | ACTION | DEVPATH | KERNEL | SUBSYSTEM | DRIVER | KERNELS | SUBSYSTEMS | DRIVERS
    | PROGRAM | RESULT | IMPORT | TEST | RUN | WAIT_FOR_SYSFS | LABEL | GOTO
    | NAME | SYMLINK | OWNER | GROUP

  datatype PairKind = ATTR | ATTRS | ENV

  datatype Key = Key(op: Op, off: nat)

  datatype PairKey = PairKey(key: Key, nameOff: nat)

  /** struct udev_rule without its string area. A slot that is not in single is unset, with
      offset 0. MODE, OPTIONS and the attributes of IMPORT, TEST and NAME are kept as text, in the
      order in which they occur. */
  datatype Header = Header(
    single: map<Slot, Key>, attr: seq<PairKey>, attrs: seq<PairKey>, env: seq<PairKey>,
    hints: seq<(Slot, string)>, mode: Option<(Op, string)>, options: seq<string>, bufsize: nat)

  datatype Rule = Rule(header: Header, data: string)

  /** A rule under construction. */
  datatype Build = Build(rule: Rule, valid: bool, rewritten: bool)

  /** Whether user and group names are resolved when the rules are read, and to what. */
  datatype Config = Config(resolve: bool, uid: string -> nat, gid: string -> nat)

  const EMPTY_RULE: Rule := Rule(Header(map[], [], [], [], [], None, [], 0), "")

  function Pairs(h: Header, kind: PairKind): seq<PairKey> {
    match kind
    case ATTR => h.attr
    case ATTRS => h.attrs
    case ENV => h.env
  }

  // ---------------------------------------------------------------- keys

  function Up(c: char): char {
    if 'a' <= c <= 'z' then (c as int - 32) as char else c
  }

  function Upper(s: string): (r: string)
    ensures |r| == |s| && forall i :: 0 <= i < |s| ==> r[i] == Up(s[i])
  {
    seq(|s|, i requires 0 <= i < |s| => Up(s[i]))
  }

  function FindChar(s: string, c: char, i: nat): (r: Option<nat>)
    ensures r.Some? ==> i <= r.value < |s| && s[r.value] == c && forall k :: i <= k < r.value ==> s[k] != c
    ensures r.None? ==> forall k :: i <= k < |s| ==> s[k] != c
    decreases |s| - i
  {
    if i >= |s| then None else if s[i] == c then Some(i) else FindChar(s, c, i + 1)
  }

  /** get_key_attribute: the text between the first '{' and the next '}'. */
  function Attribute(s: string): (r: Option<string>)
    ensures r.Some? ==> |r.value| + 2 <= |s|
  {
    var open := FindChar(s, '{', 0);
    if open.None? then None
    else
      var close := FindChar(s, '}', open.value + 1);
      if close.None? then None else Some(s[open.value + 1..close.value])
  }

  datatype KeyClass =
    | Single(slot: Slot)
    | Pair(kind: PairKind, attr: Option<string>)
    | ModeKey
    | OptionsKey
    | Unknown

  predicate StartsWith(key: string, prefix: string) {
    prefix <= Upper(key)
  }

  function Classify(key: string): KeyClass {
    var k := Upper(key);
    if k == "ACTION" then Single(ACTION)
    else if k == "DEVPATH" then Single(DEVPATH)
    else if k == "KERNEL" then Single(KERNEL)
    else if k == "SUBSYSTEM" then Single(SUBSYSTEM)
    else if k == "DRIVER" then Single(DRIVER)
    else if StartsWith(key, "ATTR{") then Pair(ATTR, Attribute(key[4..]))
    else if k == "KERNELS" || k == "ID" then Single(KERNELS)
    else if k == "SUBSYSTEMS" || k == "BUS" then Single(SUBSYSTEMS)
    else if k == "DRIVERS" then Single(DRIVERS)
    else if StartsWith(key, "ATTRS{") || StartsWith(key, "SYSFS{") then Pair(ATTRS, Attribute(key[5..]))
    else if StartsWith(key, "ENV{") then Pair(ENV, Attribute(key[3..]))
    else ClassifyMore(key)
  }

  function ClassifyMore(key: string): KeyClass {
    var k := Upper(key);
    if k == "PROGRAM" then Single(PROGRAM)
    else if k == "RESULT" then Single(RESULT)
    else if StartsWith(key, "IMPORT") then Single(IMPORT)
    else if StartsWith(key, "TEST") then Single(TEST)
    else if k == "RUN" then Single(RUN)
    else if k == "WAIT_FOR_SYSFS" then Single(WAIT_FOR_SYSFS)
    else if k == "LABEL" then Single(LABEL)
    else if k == "GOTO" then Single(GOTO)
    else if StartsWith(key, "NAME") then Single(NAME)
    else if k == "SYMLINK" then Single(SYMLINK)
    else if k == "OWNER" then Single(OWNER)
    else if k == "GROUP" then Single(GROUP)
    else if k == "MODE" then ModeKey
    else if k == "OPTIONS" then OptionsKey
    else Unknown
  }

  /** Keys that can only be compared. */
  predicate MatchOnly(slot: Slot) {
    slot in {ACTION, DEVPATH, KERNEL, SUBSYSTEM, DRIVER, KERNELS, SUBSYSTEMS, DRIVERS, RESULT}
  }

  predicate Matches(op: Op) {
    op == MATCH || op == NOMATCH
  }

  /** strtoul takes the whole string. */
  predicate IsNumber(s: string) {
    var t := SkipSpace(s);
    var u := if t != "" && t[0] in "+-" then t[1..] else t;
    if u != "" && DbRecord.IsDigit(u[0]) then DbRecord.ScanDigits(u, 0).1 == "" else s == ""
  }

  predicate Resolves(value: string, cfg: Config) {
    cfg.resolve && '$' !in value && '%' !in value && !IsNumber(value)
  }

  /** Blanks up to a, an optional sign up to b, and nothing but digits from there on. */
  predicate NumeralAt(s: string, a: nat, b: nat) {
    && a <= b <= a + 1 && b < |s|
    && (forall i :: 0 <= i < a ==> IsSpace(s[i]))
    && (b == a + 1 ==> s[a] == '+' || s[a] == '-')
    && (forall i :: b <= i < |s| ==> '0' <= s[i] <= '9')
  }

  ghost predicate Numeral(s: string) {
    s == "" || exists a: nat, b: nat :: NumeralAt(s, a, b)
  }

  lemma {:induction false} SkipSpaceFrom(s: string)
    ensures var t := SkipSpace(s);
            && s[|s| - |t|..] == t && (forall i :: 0 <= i < |s| - |t| ==> IsSpace(s[i]))
            && (t != "" ==> !IsSpace(t[0]))
  {
    if s != "" && IsSpace(s[0]) {
      SkipSpaceFrom(s[1..]);
      var t := SkipSpace(s[1..]);
      assert s[1..][|s| - 1 - |t|..] == s[|s| - |t|..];
      assert forall i :: 0 < i < |s| - |t| ==> s[i] == s[1..][i - 1];
    }
  }

  lemma {:induction false} SkipSpaceTo(s: string, a: nat)
    requires a < |s| && !IsSpace(s[a]) && forall i :: 0 <= i < a ==> IsSpace(s[i])
    ensures SkipSpace(s) == s[a..]
    decreases a
  {
    if a > 0 {
      assert s[1..][a - 1..] == s[a..];
      SkipSpaceTo(s[1..], a - 1);
    }
  }

  lemma {:induction false} AllDigits(s: string, b: nat, acc: nat)
    requires b <= |s|
    ensures DbRecord.ScanDigits(s[b..], acc).1 == "" <==> forall i :: b <= i < |s| ==> '0' <= s[i] <= '9'
    decreases |s| - b
  {
    if b < |s| {
      assert s[b..][0] == s[b] && s[b..][1..] == s[b + 1..];
      if DbRecord.IsDigit(s[b]) {
        AllDigits(s, b + 1, 10 * acc + (s[b] as int - '0' as int));
      } else {
        assert !('0' <= s[b] <= '9');
      }
    }
  }

  /** Where strtoul begins to look for digits. */
  function DigitsFrom(s: string): (n: nat)
    ensures n <= |s|
  {
    var t := SkipSpace(s);
    if t != "" && t[0] in "+-" then |s| - |t| + 1 else |s| - |t|
  }

  lemma NumberDigits(s: string)
    ensures IsNumber(s) <==>
            s == "" || (DigitsFrom(s) < |s| && forall i :: DigitsFrom(s) <= i < |s| ==> '0' <= s[i] <= '9')
  {
    var b := DigitsFrom(s);
    var t := SkipSpace(s);
    var u := if t != "" && t[0] in "+-" then t[1..] else t;
    SkipSpaceFrom(s);
    assert u == s[b..];
    AllDigits(s, b, 0);
    hide SkipSpace, DbRecord.ScanDigits;
    assert b < |s| ==> u[0] == s[b];
  }

  lemma NumberMeaning(s: string)
    ensures IsNumber(s) <==> Numeral(s)
  {
    NumberDigits(s);
    SkipSpaceFrom(s);
    hide IsNumber;
    var a, b := |s| - |SkipSpace(s)|, DigitsFrom(s);
    if s != "" && IsNumber(s) {
      assert NumeralAt(s, a, b);
    }
    if s != "" && Numeral(s) {
      var a': nat, b': nat :| NumeralAt(s, a', b');
      NumeralStarts(s, a', b');
    }
  }

  lemma NumeralStarts(s: string, a: nat, b: nat)
    requires NumeralAt(s, a, b)
    ensures DigitsFrom(s) == b
  {
    assert !IsSpace(s[a]);
    SkipSpaceTo(s, a);
    hide SkipSpace;
  }

  /** A user or group name that is looked up when the rules are read. */
  ghost predicate LookedUp(value: string, cfg: Config) {
    cfg.resolve && (forall i :: 0 <= i < |value| ==> value[i] != '$' && value[i] != '%') && !Numeral(value)
  }

  /** What stands for a value in a rule: the number of a user that is looked up, or of a group; one
      text for the three names of buses; the value as it is written otherwise. */
  ghost predicate StandsFor(stored: string, slot: Slot, value: string, cfg: Config) {
    match slot
    case OWNER => stored == if LookedUp(value, cfg) then DbRecord.Decimal(cfg.uid(value)) else value
    case GROUP => stored == if LookedUp(value, cfg) then DbRecord.Decimal(cfg.gid(value)) else value
    case SUBSYSTEM => stored == if value in {"bus", "class", "subsystem"} then "subsystem|class|bus" else value
    case _ => stored == value
  }

  lemma StoredStandsFor(slot: Slot, value: string, cfg: Config)
    ensures StandsFor(StoredValue(slot, value, cfg), slot, value, cfg)
  {
    NumberMeaning(value);
    hide IsNumber, Numeral;
  }

  /** The value that is stored for a key. */
  function StoredValue(slot: Slot, value: string, cfg: Config): string {
    if slot == SUBSYSTEM && (value == "subsystem" || value == "bus" || value == "class") then "subsystem|class|bus"
    else if slot == OWNER && Resolves(value, cfg) then DbRecord.Decimal(cfg.uid(value))
    else if slot == GROUP && Resolves(value, cfg) then DbRecord.Decimal(cfg.gid(value))
    else value
  }

  // ---------------------------------------------------------------- building a rule

  function AddKey(r: Rule, slot: Slot, op: Op, value: string): Rule {
    Rule(r.header.(single := r.header.single[slot := Key(op, |r.data|)]), r.data + value + "\0")
  }

  function WithPairs(h: Header, kind: PairKind, pairs: seq<PairKey>): Header {
    match kind
    case ATTR => h.(attr := pairs)
    case ATTRS => h.(attrs := pairs)
    case ENV => h.(env := pairs)
  }

  function AddPair(r: Rule, kind: PairKind, op: Op, attr: string, value: string): Option<Rule> {
    var pairs := Pairs(r.header, kind);
    if |pairs| >= PAIRS_MAX then None
    else
      var p := PairKey(Key(op, |r.data|), |r.data| + |value| + 1);
      Some(Rule(WithPairs(r.header, kind, pairs + [p]), r.data + value + "\0" + attr + "\0"))
  }

  function WithHint(r: Rule, slot: Slot, hint: Option<string>): Rule {
    if hint.None? then r else r.(header := r.header.(hints := r.header.hints + [(slot, hint.value)]))
  }

  /** The attribute of an IMPORT, TEST or NAME key. */
  function Hint(slot: Slot, key: string): Option<string> {
    if slot == IMPORT && |key| >= 6 then Attribute(key[6..])
    else if slot == TEST && |key| >= 4 then Attribute(key[4..])
    else if slot == NAME && |key| >= 4 then Attribute(key[4..])
    else None
  }

  /** One turn of the loop over the keys of a line; None makes the line invalid. */
  function ApplyToken(b: Build, t: Token, cfg: Config): Option<Build> {
    match Classify(t.key)
    case Single(slot) =>
      if MatchOnly(slot) && !Matches(t.op) then None
      else
        var v := StoredValue(slot, t.value, cfg);
        var r := WithHint(AddKey(b.rule, slot, t.op, v), slot, Hint(slot, t.key));
        Some(Build(r, b.valid || slot != NAME, b.rewritten || v != t.value))
    case Pair(kind, attr) =>
      if (kind == ATTRS && !Matches(t.op)) || attr.None? then None
      else
        var r := AddPair(b.rule, kind, t.op, attr.value, t.value);
        if r.None? then None else Some(Build(r.value, true, b.rewritten))
    case ModeKey =>
      Some(Build(b.rule.(header := b.rule.header.(mode := Some((t.op, t.value)))), true, b.rewritten))
    case OptionsKey =>
      Some(Build(b.rule.(header := b.rule.header.(options := b.rule.header.options + [t.value])), true, b.rewritten))
    case Unknown => Some(b)
  }

  /** All keys of a line. A line that stops making sense keeps the keys before that point. */
  function Compile(b: Build, line: string, cfg: Config): Option<Build>
    decreases |line|
  {
    TokenTakes(line);
    var t := GetKey(line);
    if t.None? then Some(b)
    else
      var b1 := ApplyToken(b, t.value, cfg);
      if b1.None? then None else Compile(b1.value, t.value.rest, cfg)
  }

  function CompileLine(line: string, cfg: Config): Option<Rule> {
    var b := Compile(Build(EMPTY_RULE, false, false), line, cfg);
    if b.None? || !b.value.valid then None else Some(b.value.rule)
  }

  // ---------------------------------------------------------------- the room a line takes

  /** The room one key takes in the string area: the value that is stored, the attribute of a
      pair, and their terminators. */
  function TokenRoom(t: Token, cfg: Config): nat {
    match Classify(t.key)
    case Single(slot) => |StoredValue(slot, t.value, cfg)| + 1
    case Pair(_, attr) => if attr.Some? then |t.value| + 1 + |attr.value| + 1 else 0
    case _ => 0
  }

  function Room(line: string, cfg: Config): nat
    decreases |line|
  {
    TokenTakes(line);
    var t := GetKey(line);
    if t.None? then 0 else TokenRoom(t.value, cfg) + Room(t.value.rest, cfg)
  }

  lemma TokenTakesRoom(b: Build, t: Token, cfg: Config)
    ensures var b1 := ApplyToken(b, t, cfg);
            b1.Some? ==> |b1.value.rule.data| == |b.rule.data| + TokenRoom(t, cfg)
  {
    hide StoredValue, Hint, Classify;
  }

  /** The strings of a line that is accepted take exactly its room. */
  lemma {:induction false} StringsTakeRoom(b: Build, line: string, cfg: Config)
    ensures var b1 := Compile(b, line, cfg);
            b1.Some? ==> |b1.value.rule.data| == |b.rule.data| + Room(line, cfg)
    decreases |line|
  {
    TokenTakes(line);
    var t := GetKey(line);
    hide GetKey, ApplyToken, TokenRoom;
    if t.Some? {
      TokenTakesRoom(b, t.value, cfg);
      var b1 := ApplyToken(b, t.value, cfg);
      if b1.Some? {
        StringsTakeRoom(b1.value, t.value.rest, cfg);
      }
    }
  }

  /** At no time during the loop over the keys do the strings leave the area, whether or not the
      line is accepted in the end. */
  predicate StaysInside(b: Build, line: string, cfg: Config)
    decreases |line|
  {
    TokenTakes(line);
    var t := GetKey(line);
    |b.rule.data| <= LINE_SIZE &&
    (t.Some? ==>
       var b1 := ApplyToken(b, t.value, cfg);
       b1.Some? ==> StaysInside(b1.value, t.value.rest, cfg))
  }

  /** A line stays inside the area if its room does; an accepted one only if. */
  lemma {:induction false} InsideMeaning(b: Build, line: string, cfg: Config)
    ensures |b.rule.data| + Room(line, cfg) <= LINE_SIZE ==> StaysInside(b, line, cfg)
    ensures Compile(b, line, cfg).Some? ==>
              (StaysInside(b, line, cfg) <==> |b.rule.data| + Room(line, cfg) <= LINE_SIZE)
    decreases |line|
  {
    TokenTakes(line);
    var t := GetKey(line);
    hide GetKey, ApplyToken, TokenRoom;
    if t.Some? {
      TokenTakesRoom(b, t.value, cfg);
      var b1 := ApplyToken(b, t.value, cfg);
      if b1.Some? {
        InsideMeaning(b1.value, t.value.rest, cfg);
      }
    }
  }

  /** No key of the line has a value that is replaced by another. */
  predicate NothingReplaced(line: string, cfg: Config)
    decreases |line|
  {
    TokenTakes(line);
    var t := GetKey(line);
    t.Some? ==>
      && (Classify(t.value.key).Single? ==>
            StoredValue(Classify(t.value.key).slot, t.value.value, cfg) == t.value.value)
      && NothingReplaced(t.value.rest, cfg)
  }

  /** Then the line's room is at most its length. */
  lemma {:induction false} PlainLineFits(line: string, cfg: Config)
    requires NothingReplaced(line, cfg)
    ensures Room(line, cfg) <= |line|
    decreases |line|
  {
    TokenTakes(line);
    var t := GetKey(line);
    if t.Some? {
      ClassifiedAttr(t.value.key);
      hide GetKey, Classify, StoredValue;
      PlainLineFits(t.value.rest, cfg);
    }
  }

  // ---------------------------------------------------------------- the string area is large enough

  lemma TokenGrows(b: Build, t: Token, cfg: Config)
    requires t.key != ""
    ensures var b1 := ApplyToken(b, t, cfg);
            b1.Some? && !b1.value.rewritten ==>
              !b.rewritten && |b1.value.rule.data| <= |b.rule.data| + |t.key| + |t.value|
  {
    hide StoredValue, Hint;
    ClassifiedAttr(t.key);
    hide Classify;
  }

  lemma ClassifiedAttr(key: string)
    ensures var c := Classify(key);
            c.Pair? && c.attr.Some? ==> |c.attr.value| + 2 <= |key|
  {
  }

  /** Unless a value was replaced by another one, the strings of a rule take no more room than
      the line they come from, whatever the line looks like. */
  lemma {:induction false} StringsFit(b: Build, line: string, cfg: Config)
    ensures var b1 := Compile(b, line, cfg);
            b1.Some? && !b1.value.rewritten ==>
              !b.rewritten && |b1.value.rule.data| <= |b.rule.data| + |line|
    decreases |line|
  {
    TokenTakes(line);
    var t := GetKey(line);
    hide GetKey, ApplyToken;
    if t.Some? {
      TokenGrows(b, t.value, cfg);
      var b1 := ApplyToken(b, t.value, cfg);
      if b1.Some? {
        StringsFit(b1.value, t.value.rest, cfg);
      }
    }
  }

  // ---------------------------------------------------------------- rewritten values

  const BUS_KEY: string := "SUBSYSTEM==\"bus\""

  function BusKeys(n: nat): string {
    if n == 0 then "" else BUS_KEY + BusKeys(n - 1)
  }

  /** Replaced values are why the condition is there: each SUBSYSTEM=="bus" takes 16 characters
      of the line and 20 of the string area. */
  lemma {:induction false} ReplacedValuesGrow(b: Build, n: nat, cfg: Config)
    ensures |BusKeys(n)| == 16 * n
    ensures var b1 := Compile(b, BusKeys(n), cfg);
            b1.Some? && |b1.value.rule.data| == |b.rule.data| + 20 * n
    decreases n
  {
    hide ApplyToken, Compile;
    if n == 0 {
      EmptyLine();
      NoTokens(b, cfg);
    } else {
      BusKeyGrows(b, BusKeys(n - 1), cfg);
      var b1 := ApplyToken(b, Token("SUBSYSTEM", MATCH, "bus", BusKeys(n - 1)), cfg);
      ReplacedValuesGrow(b1.value, n - 1, cfg);
    }
  }

  lemma NoTokens(b: Build, cfg: Config)
    requires GetKey("").None?
    ensures Compile(b, "", cfg) == Some(b)
  {
  }

  lemma BusKeyGrows(b: Build, rest: string, cfg: Config)
    ensures var b1 := ApplyToken(b, Token("SUBSYSTEM", MATCH, "bus", rest), cfg);
            && b1.Some? && |b1.value.rule.data| == |b.rule.data| + 20
            && Compile(b, BUS_KEY + rest, cfg) == Compile(b1.value, rest, cfg)
  {
    assert PrintKey("SUBSYSTEM", MATCH, "bus") == BUS_KEY;
    GetKeyReadsBack("SUBSYSTEM", MATCH, "bus", rest);
    ClassifyKey1(SUBSYSTEM);
    NoHint(SUBSYSTEM, None);
    hide GetKey, Classify, Hint;
  }

  /** A line that parse_file accepts can so outgrow the area a rule is built in. */
  lemma LineOutgrowsArea(cfg: Config)
    ensures exists line :: |line| < LINE_SIZE &&
              var b := Compile(Build(EMPTY_RULE, false, false), line, cfg);
              b.Some? && b.value.rewritten && |b.value.rule.data| > LINE_SIZE
  {
    var b := Build(EMPTY_RULE, false, false);
    ReplacedValuesGrow(b, 31, cfg);
    StringsFit(b, BusKeys(31), cfg);
    assert |BusKeys(31)| < LINE_SIZE;
  }

  // ---------------------------------------------------------------- printed lines

  /** A key, in braces behind it the attribute of an IMPORT, TEST or NAME; a pair; a mode; options. */
  datatype Item =
    | KeyItem(slot: Slot, hint: Option<string>, op: Op, value: string)
    | PairItem(kind: PairKind, op: Op, attr: string, value: string)
    | ModeItem(op: Op, value: string)
    | OptionsItem(op: Op, value: string)

  function KeyText(slot: Slot): (s: string)
    ensures s != ""
  {
    match slot
    case ACTION => "ACTION"
    case DEVPATH => "DEVPATH"
    case KERNEL => "KERNEL"
    case SUBSYSTEM => "SUBSYSTEM"
    case DRIVER => "DRIVER"
    case KERNELS => "KERNELS"
    case SUBSYSTEMS => "SUBSYSTEMS"
    case DRIVERS => "DRIVERS"
    case PROGRAM => "PROGRAM"
    case RESULT => "RESULT"
    case IMPORT => "IMPORT"
    case TEST => "TEST"
    case RUN => "RUN"
    case WAIT_FOR_SYSFS => "WAIT_FOR_SYSFS"
    case LABEL => "LABEL"
    case GOTO => "GOTO"
    case NAME => "NAME"
    case SYMLINK => "SYMLINK"
    case OWNER => "OWNER"
    case GROUP => "GROUP"
  }

  function PairText(kind: PairKind, attr: string): string {
    match kind
    case ATTR => "ATTR{" + attr + "}"
    case ATTRS => "ATTRS{" + attr + "}"
    case ENV => "ENV{" + attr + "}"
  }

  function HintText(hint: Option<string>): string {
    if hint.None? then "" else "{" + hint.value + "}"
  }

  function TokenKey(i: Item): string {
    match i
    case KeyItem(slot, hint, _, _) => KeyText(slot) + HintText(hint)
    case PairItem(kind, _, attr, _) => PairText(kind, attr)
    case ModeItem(_, _) => "MODE"
    case OptionsItem(_, _) => "OPTIONS"
  }

  predicate TakesHint(slot: Slot) {
    slot in {IMPORT, TEST, NAME}
  }

  predicate AttrOk(attr: string) {
    '}' !in attr && '\0' !in attr
  }

  /** An item that can be written in a rule line. */
  predicate ItemOk(i: Item) {
    && i.op != UNSET && ValueOk(i.value) && KeyOk(TokenKey(i))
    && match i
       case KeyItem(slot, hint, _, _) => hint.Some? ==> TakesHint(slot) && AttrOk(hint.value)
       case PairItem(_, _, attr, _) => AttrOk(attr)
       case _ => true
  }

  /** Keys that say what a device is like, and RESULT, can only be compared. */
  predicate Allowed(i: Item) {
    match i
    case KeyItem(slot, _, op, _) =>
      slot in {ACTION, DEVPATH, KERNEL, SUBSYSTEM, DRIVER, KERNELS, SUBSYSTEMS, DRIVERS, RESULT} ==>
        op == MATCH || op == NOMATCH
    case PairItem(kind, op, _, _) => kind == ATTRS ==> op == MATCH || op == NOMATCH
    case _ => true
  }

  lemma {:induction false} UpperFixed(s: string)
    requires forall i :: 0 <= i < |s| ==> !('a' <= s[i] <= 'z')
    ensures Upper(s) == s
  {
  }

  lemma KeyTextIsUpper(slot: Slot)
    ensures Upper(KeyText(slot)) == KeyText(slot)
  {
    UpperFixed(KeyText(slot));
  }

  lemma ClassifyKey1(slot: Slot)
    requires slot in {ACTION, DEVPATH, KERNEL, SUBSYSTEM, DRIVER, KERNELS, SUBSYSTEMS, DRIVERS, PROGRAM, RESULT}
    ensures Classify(KeyText(slot)) == Single(slot)
  {
    KeyTextIsUpper(slot);
    hide Upper;
    var k := KeyText(slot);
    assert |k| >= 6;
    assert k[4] != '{' && k[5] != '{';
  }

  lemma ClassifyKey2(slot: Slot)
    requires slot in {IMPORT, TEST, RUN, WAIT_FOR_SYSFS, LABEL, GOTO, NAME, SYMLINK, OWNER, GROUP}
    ensures Classify(KeyText(slot)) == Single(slot)
  {
    KeyTextIsUpper(slot);
    KeyBegins(slot);
    NotEarly(KeyText(slot));
    LateKey(slot);
    hide Upper, Classify, ClassifyMore, KeyText;
  }

  lemma KeyBegins(slot: Slot)
    requires slot in {IMPORT, TEST, RUN, WAIT_FOR_SYSFS, LABEL, GOTO, NAME, SYMLINK, OWNER, GROUP}
    ensures var k := KeyText(slot);
            && |k| >= 3 && k[0] in "ITRWLGNSO" && (k[0] == 'S' ==> k[1] == 'Y' && k[2] == 'M')
            && (k[0] == 'I' ==> |k| == 6)
  {
  }

  lemma LateKey(slot: Slot)
    requires slot in {IMPORT, TEST, RUN, WAIT_FOR_SYSFS, LABEL, GOTO, NAME, SYMLINK, OWNER, GROUP}
    requires Upper(KeyText(slot)) == KeyText(slot)
    ensures ClassifyMore(KeyText(slot)) == Single(slot)
  {
    hide Upper;
    var k := KeyText(slot);
    assert |k| >= 3 && k[0] in "ITRWLGNSO";
  }

  /** Keys that the first half of the tests lets pass. */
  lemma NotEarly(k: string)
    requires |k| >= 3 && k[0] in "ITRWLGNSOM" && Upper(k) == k
    requires k[0] == 'S' ==> k[1] == 'Y' && k[2] == 'M'
    requires k[0] == 'I' ==> |k| == 6
    ensures Classify(k) == ClassifyMore(k)
  {
    hide ClassifyMore, Upper;
  }

  lemma AttributeReadsBack(attr: string)
    requires '}' !in attr
    ensures Attribute("{" + attr + "}") == Some(attr)
  {
    var s := "{" + attr + "}";
    assert forall k :: 1 <= k <= |attr| ==> s[k] == attr[k - 1];
    assert s[|attr| + 1] == '}';
    assert FindChar(s, '{', 0) == Some(0);
    var c := FindChar(s, '}', 1);
    assert c == Some(|attr| + 1);
    assert s[1..|attr| + 1] == attr;
  }

  /** A key with an attribute behind it is classified as the key. */
  lemma ClassifyHinted(slot: Slot, attr: string)
    requires TakesHint(slot)
    ensures Classify(KeyText(slot) + "{" + attr + "}") == Single(slot)
  {
    var key := KeyText(slot) + "{" + attr + "}";
    var k := Upper(key);
    var n := |KeyText(slot)|;
    assert k[..n] == KeyText(slot) && k[n] == '{';
    hide Upper;
    HintedNotEarly(key, n);
    HintedMore(slot, key);
    hide Classify;
  }

  lemma HintedNotEarly(key: string, n: nat)
    requires 4 <= n < |key| && |Upper(key)| == |key| && Upper(key)[n] == '{' && Upper(key)[0] in "ITN"
    requires Upper(key)[0] == 'I' ==> Upper(key)[1] == 'M'
    ensures Classify(key) == ClassifyMore(key)
  {
    hide ClassifyMore, Upper;
  }

  lemma HintedMore(slot: Slot, key: string)
    requires TakesHint(slot) && KeyText(slot) <= Upper(key) && |KeyText(slot)| < |key|
    requires Upper(key)[|KeyText(slot)|] == '{'
    ensures ClassifyMore(key) == Single(slot)
  {
    var k := Upper(key);
    hide Upper;
    if slot == IMPORT {
      assert k[0] == 'I';
    } else if slot == TEST {
      assert k[0] == 'T';
    } else {
      assert k[0] == 'N';
    }
  }

  lemma ClassifyMode()
    ensures Classify("MODE") == ModeKey && Classify("OPTIONS") == OptionsKey
  {
    UpperFixed("MODE");
    UpperFixed("OPTIONS");
    var m, o := "MODE", "OPTIONS";
    assert m[0] == 'M' && o[0] == 'O';
    NotEarly(m);
    NotEarly(o);
    hide Upper, Classify;
  }

  lemma ClassifyPair(kind: PairKind, attr: string)
    requires '}' !in attr
    ensures Classify(PairText(kind, attr)) == Pair(kind, Some(attr))
  {
    var key := PairText(kind, attr);
    var n := match kind case ATTR => 4 case ATTRS => 5 case ENV => 3;
    AttributeReadsBack(attr);
    assert key[n..] == "{" + attr + "}";
    UpperPrefix(kind, attr);
    PairPrefix(kind, key, n);
    hide Upper, Attribute, Classify;
  }

  /** What begins like a key with an attribute is classified as one. */
  lemma PairPrefix(kind: PairKind, key: string, n: nat)
    requires n == (match kind case ATTR => 4 case ATTRS => 5 case ENV => 3)
    requires (match kind case ATTR => "ATTR{" case ATTRS => "ATTRS{" case ENV => "ENV{") <= Upper(key)
    ensures Classify(key) == Pair(kind, Attribute(key[n..]))
  {
    var k := Upper(key);
    hide Upper, Attribute, ClassifyMore;
    match kind {
      case ATTR => assert k[0] == 'A' && k[4] == '{';
      case ATTRS => assert k[0] == 'A' && k[4] == 'S' && k[5] == '{';
      case ENV => assert k[0] == 'E';
    }
  }

  lemma UpperPrefix(kind: PairKind, attr: string)
    ensures var n := match kind case ATTR => 4 case ATTRS => 5 case ENV => 3;
            var name := match kind case ATTR => "ATTR{" case ATTRS => "ATTRS{" case ENV => "ENV{";
            |Upper(PairText(kind, attr))| > n && Upper(PairText(kind, attr))[..n + 1] == name
  {
  }

  /** What an item adds to the rule; None makes the line invalid. */
  function AddItem(b: Build, i: Item, cfg: Config): Option<Build> {
    if !Allowed(i) then None
    else
      match i
      case KeyItem(slot, hint, op, value) =>
        var v := StoredValue(slot, value, cfg);
        Some(Build(WithHint(AddKey(b.rule, slot, op, v), slot, hint), b.valid || slot != NAME, b.rewritten || v != value))
      case PairItem(kind, op, attr, value) =>
        var r := AddPair(b.rule, kind, op, attr, value);
        if r.None? then None else Some(Build(r.value, true, b.rewritten))
      case ModeItem(op, value) =>
        Some(Build(b.rule.(header := b.rule.header.(mode := Some((op, value)))), true, b.rewritten))
      case OptionsItem(_, value) =>
        Some(Build(b.rule.(header := b.rule.header.(options := b.rule.header.options + [value])), true, b.rewritten))
  }

  function AddItems(b: Build, items: seq<Item>, cfg: Config): Option<Build>
    decreases |items|
  {
    if items == [] then Some(b)
    else
      var b1 := AddItem(b, items[0], cfg);
      if b1.None? then None else AddItems(b1.value, items[1..], cfg)
  }

  function PrintItem(i: Item): string
    requires i.op != UNSET
  {
    PrintKey(TokenKey(i), i.op, i.value)
  }

  predicate Printable(items: seq<Item>) {
    forall k :: 0 <= k < |items| ==> items[k].op != UNSET
  }

  /** The items of a line, separated by a comma and a blank. */
  function PrintItems(items: seq<Item>, first: bool): string
    requires Printable(items)
  {
    if items == [] then ""
    else (if first then "" else ", ") + PrintItem(items[0]) + PrintItems(items[1..], false)
  }

  /** The attribute written behind a key is the one found there. */
  lemma NoHint(slot: Slot, hint: Option<string>)
    requires hint.Some? ==> TakesHint(slot) && '}' !in hint.value
    ensures Hint(slot, KeyText(slot) + HintText(hint)) == hint
  {
    var key := KeyText(slot) + HintText(hint);
    assert key[|KeyText(slot)|..] == HintText(hint);
    if hint.Some? {
      AttributeReadsBack(hint.value);
    }
  }

  lemma ClassifyKey(slot: Slot, hint: Option<string>)
    requires hint.Some? ==> TakesHint(slot)
    ensures Classify(KeyText(slot) + HintText(hint)) == Single(slot)
  {
    hide Classify, KeyText;
    if hint.Some? {
      assert KeyText(slot) + HintText(hint) == KeyText(slot) + "{" + hint.value + "}";
      ClassifyHinted(slot, hint.value);
    } else {
      assert KeyText(slot) + HintText(hint) == KeyText(slot);
      if MatchOnly(slot) || slot == PROGRAM {
        ClassifyKey1(slot);
      } else {
        ClassifyKey2(slot);
      }
    }
  }

  lemma ApplyPrinted(b: Build, i: Item, rest: string, cfg: Config)
    requires ItemOk(i)
    ensures ApplyToken(b, Token(TokenKey(i), i.op, i.value, rest), cfg) == AddItem(b, i, cfg)
  {
    hide Classify, KeyText, Hint, HintText, StoredValue, PairText;
    match i {
      case KeyItem(slot, hint, op, value) =>
        ClassifyKey(slot, hint);
        NoHint(slot, hint);
      case PairItem(kind, op, attr, value) =>
        ClassifyPair(kind, attr);
      case _ =>
        ClassifyMode();
    }
  }

  /** Length of the key's name, up to the brace if there is one. */
  function NameLength(i: Item): (n: nat)
    ensures n <= |TokenKey(i)|
  {
    match i
    case KeyItem(slot, _, _, _) => |KeyText(slot)|
    case PairItem(ATTR, _, _, _) => 4
    case PairItem(ATTRS, _, _, _) => 5
    case PairItem(ENV, _, _, _) => 3
    case ModeItem(_, _) => 4
    case OptionsItem(_, _) => 7
  }

  /** key is the item's key with some letters of its name in lower case. */
  predicate Spells(key: string, i: Item) {
    && Upper(key) == Upper(TokenKey(i))
    && key[NameLength(i)..] == TokenKey(i)[NameLength(i)..]
  }

  lemma SameClass(key: string, key': string, n: nat)
    requires Upper(key) == Upper(key') && n <= |key| && key[n..] == key'[n..]
    requires match Classify(key)
             case Single(slot) => true
             case Pair(ATTR, _) => n == 4
             case Pair(ATTRS, _) => n == 5
             case Pair(ENV, _) => n == 3
             case _ => true
    ensures Classify(key') == Classify(key)
  {
    SameClassMore(key, key');
    hide Upper, ClassifyMore, Attribute;
    assert forall p :: StartsWith(key', p) <==> StartsWith(key, p);
    hide StartsWith;
  }

  lemma SameClassMore(key: string, key': string)
    requires Upper(key) == Upper(key')
    ensures ClassifyMore(key') == ClassifyMore(key)
  {
    hide Upper;
    assert forall p :: StartsWith(key', p) <==> StartsWith(key, p);
    hide StartsWith;
  }

  /** Capital and small letters of a key's name are the same. */
  lemma SpellingIgnored(b: Build, i: Item, key: string, rest: string, cfg: Config)
    requires ItemOk(i) && Spells(key, i)
    ensures ApplyToken(b, Token(key, i.op, i.value, rest), cfg) == AddItem(b, i, cfg)
  {
    var usual := TokenKey(i);
    ApplyPrinted(b, i, rest, cfg);
    ItemClass(i);
    hide Classify, ApplyToken, AddItem, Hint, StoredValue;
    assert |key| == |usual|;
    SameClass(usual, key, NameLength(i));
    if i.KeyItem? {
      SameHint(i, key);
    }
    hide Upper, KeyText, HintText, PairText, TokenKey, NameLength, ItemOk, Spells;
    SameEffect(b, Token(usual, i.op, i.value, rest), key, cfg);
  }

  /** A key matters only by its class and its attribute. */
  lemma SameEffect(b: Build, t: Token, key: string, cfg: Config)
    requires Classify(key) == Classify(t.key)
    requires Classify(t.key).Single? ==> Hint(Classify(t.key).slot, key) == Hint(Classify(t.key).slot, t.key)
    ensures ApplyToken(b, t.(key := key), cfg) == ApplyToken(b, t, cfg)
  {
    hide Classify, Hint, StoredValue, AddKey, AddPair, WithHint;
  }

  lemma ItemClass(i: Item)
    requires ItemOk(i)
    ensures var c := Classify(TokenKey(i));
            match i
            case KeyItem(slot, _, _, _) => c == Single(slot)
            case PairItem(kind, _, attr, _) => c == Pair(kind, Some(attr))
            case ModeItem(_, _) => c == ModeKey
            case OptionsItem(_, _) => c == OptionsKey
  {
    hide Classify, KeyText, HintText, PairText;
    match i {
      case KeyItem(slot, hint, op, value) => ClassifyKey(slot, hint);
      case PairItem(kind, op, attr, value) => ClassifyPair(kind, attr);
      case _ => ClassifyMode();
    }
  }

  lemma SameHint(i: Item, key: string)
    requires i.KeyItem? && Spells(key, i)
    ensures Hint(i.slot, key) == Hint(i.slot, TokenKey(i))
  {
    assert |key| == |Upper(key)| == |TokenKey(i)|;
    hide Upper, Attribute, HintText;
  }

  /** Older names of three keys. */
  lemma OlderNames(attr: string)
    requires '}' !in attr
    ensures Classify("ID") == Single(KERNELS) && Classify("BUS") == Single(SUBSYSTEMS)
    ensures Classify("SYSFS{" + attr + "}") == Pair(ATTRS, Some(attr))
  {
    var id, bus, sysfs := "ID", "BUS", "SYSFS{" + attr + "}";
    UpperFixed(id);
    UpperFixed(bus);
    AttributeReadsBack(attr);
    assert sysfs[5..] == "{" + attr + "}";
    assert |Upper(sysfs)| > 5 && Upper(sysfs)[..6] == "SYSFS{";
    hide Upper, Attribute, ClassifyMore;
    SysfsClass(sysfs);
    hide Classify;
    ShortClass(id);
    ShortClass(bus);
  }

  lemma SysfsClass(key: string)
    requires "SYSFS{" <= Upper(key)
    ensures Classify(key) == Pair(ATTRS, Attribute(key[5..]))
  {
    hide Upper, Attribute, ClassifyMore;
    assert Upper(key)[0] == 'S' && Upper(key)[1] == 'Y';
  }

  lemma ShortClass(key: string)
    requires Upper(key) == key && (key == "ID" || key == "BUS")
    ensures Classify(key) == Single(if key == "ID" then KERNELS else SUBSYSTEMS)
  {
    hide Upper, Attribute, ClassifyMore;
    assert |key| <= 3;
  }

  /** Compiling a printed line adds its items, one after the other. */
  lemma {:induction false} CompilesPrinted(b: Build, items: seq<Item>, first: bool, cfg: Config)
    requires LineOk(items)
    ensures Compile(b, PrintItems(items, first), cfg) == AddItems(b, items, cfg)
    decreases |items|
  {
    hide GetKey, ApplyToken, AddItem, KeyOk, ValueOk, TokenKey, PrintKey, StoredValue;
    var line := PrintItems(items, first);
    if items == [] {
      EmptyLine();
    } else {
      var i := items[0];
      var rest := PrintItems(items[1..], false);
      assert ItemOk(i);
      GetKeyReadsBack(TokenKey(i), i.op, i.value, rest);
      assert line == (if first then "" else ", ") + PrintItem(i) + rest;
      assert first ==> line == PrintItem(i) + rest;
      ApplyPrinted(b, i, rest, cfg);
      var b1 := AddItem(b, i, cfg);
      if b1.Some? {
        assert forall k :: 0 <= k < |items[1..]| ==> items[1..][k] == items[k + 1];
        CompilesPrinted(b1.value, items[1..], false, cfg);
      }
    }
  }

  lemma EmptyLine()
    ensures GetKey("") == None
  {
  }

  // ---------------------------------------------------------------- what a rule means

  /** The last operator and value given for a slot. */
  function LastOf(items: seq<Item>, slot: Slot): Option<(Op, string)> {
    if items == [] then None
    else
      var i := items[|items| - 1];
      if i.KeyItem? && i.slot == slot then Some((i.op, i.value)) else LastOf(items[..|items| - 1], slot)
  }

  /** The pairs of one kind, in order: operator, attribute, value. */
  function PairsOf(items: seq<Item>, kind: PairKind): seq<(Op, string, string)> {
    if items == [] then []
    else
      var i := items[|items| - 1];
      PairsOf(items[..|items| - 1], kind)
      + (if i.PairItem? && i.kind == kind then [(i.op, i.attr, i.value)] else [])
  }

  /** The attributes written behind IMPORT, TEST and NAME, in order. */
  function HintsOf(items: seq<Item>): seq<(Slot, string)> {
    if items == [] then []
    else
      var i := items[|items| - 1];
      HintsOf(items[..|items| - 1]) + (if i.KeyItem? && i.hint.Some? then [(i.slot, i.hint.value)] else [])
  }

  /** The last mode given, with its operator. */
  function LastMode(items: seq<Item>): Option<(Op, string)> {
    if items == [] then None
    else
      var i := items[|items| - 1];
      if i.ModeItem? then Some((i.op, i.value)) else LastMode(items[..|items| - 1])
  }

  function OptionsOf(items: seq<Item>): seq<string> {
    if items == [] then []
    else
      var i := items[|items| - 1];
      OptionsOf(items[..|items| - 1]) + (if i.OptionsItem? then [i.value] else [])
  }

  /** A NUL-terminated string stands at off. */
  predicate HasString(data: string, off: nat, v: string) {
    off + |v| < |data| && data[off..off + |v|] == v && data[off + |v|] == '\0'
  }

  predicate PairIs(data: string, k: PairKey, p: (Op, string, string)) {
    k.key.op == p.0 && HasString(data, k.nameOff, p.1) && HasString(data, k.key.off, p.2)
  }

  /** What stands for the value is at off. */
  ghost predicate HasValue(data: string, off: nat, slot: Slot, value: string, cfg: Config) {
    exists stored :: StandsFor(stored, slot, value, cfg) && HasString(data, off, stored)
  }

  ghost predicate SlotIs(h: Header, data: string, slot: Slot, v: Option<(Op, string)>, cfg: Config) {
    if v.None? then slot !in h.single
    else
      && slot in h.single && h.single[slot].op == v.value.0
      && HasValue(data, h.single[slot].off, slot, v.value.1, cfg)
  }

  predicate PairsAre(data: string, keys: seq<PairKey>, pairs: seq<(Op, string, string)>) {
    |keys| == |pairs| && forall j :: 0 <= j < |keys| ==> PairIs(data, keys[j], pairs[j])
  }

  /** Header and strings say what the items say. */
  ghost predicate RuleMeans(h: Header, data: string, items: seq<Item>, cfg: Config) {
    && (forall slot :: SlotIs(h, data, slot, LastOf(items, slot), cfg))
    && (forall kind :: PairsAre(data, Pairs(h, kind), PairsOf(items, kind)))
    && h.hints == HintsOf(items) && h.mode == LastMode(items) && h.options == OptionsOf(items)
  }

  lemma StringStays(data: string, more: string, off: nat, v: string)
    requires HasString(data, off, v)
    ensures HasString(data + more, off, v)
  {
    assert (data + more)[off..off + |v|] == data[off..off + |v|];
  }

  lemma StringAdded(data: string, v: string, more: string)
    ensures HasString(data + v + "\0" + more, |data|, v)
  {
    var s := data + v + "\0" + more;
    assert s[|data|..|data| + |v|] == v;
  }

  lemma ValueStays(data: string, more: string, off: nat, slot: Slot, value: string, cfg: Config)
    requires HasValue(data, off, slot, value, cfg)
    ensures HasValue(data + more, off, slot, value, cfg)
  {
    hide StandsFor, HasString;
    var stored :| StandsFor(stored, slot, value, cfg) && HasString(data, off, stored);
    StringStays(data, more, off, stored);
  }

  lemma PairsStay(data: string, more: string, keys: seq<PairKey>, pairs: seq<(Op, string, string)>)
    requires PairsAre(data, keys, pairs)
    ensures PairsAre(data + more, keys, pairs)
  {
    forall j | 0 <= j < |keys|
      ensures PairIs(data + more, keys[j], pairs[j])
    {
      assert PairIs(data, keys[j], pairs[j]);
      StringStays(data, more, keys[j].nameOff, pairs[j].1);
      StringStays(data, more, keys[j].key.off, pairs[j].2);
    }
  }

  lemma SlotStays(h: Header, data: string, more: string, slot: Slot, v: Option<(Op, string)>, cfg: Config)
    requires SlotIs(h, data, slot, v, cfg)
    ensures SlotIs(h, data + more, slot, v, cfg)
  {
    if v.Some? {
      ValueStays(data, more, h.single[slot].off, slot, v.value.1, cfg);
    }
  }

  /** What one more item changes about the meaning of a list. */
  lemma OneMore(items: seq<Item>, i: Item)
    ensures forall slot :: LastOf(items + [i], slot) ==
              if i.KeyItem? && i.slot == slot then Some((i.op, i.value)) else LastOf(items, slot)
    ensures forall kind :: PairsOf(items + [i], kind) ==
              if i.PairItem? && i.kind == kind then PairsOf(items, kind) + [(i.op, i.attr, i.value)] else PairsOf(items, kind)
    ensures HintsOf(items + [i]) ==
              if i.KeyItem? && i.hint.Some? then HintsOf(items) + [(i.slot, i.hint.value)] else HintsOf(items)
    ensures LastMode(items + [i]) == if i.ModeItem? then Some((i.op, i.value)) else LastMode(items)
    ensures OptionsOf(items + [i]) == if i.OptionsItem? then OptionsOf(items) + [i.value] else OptionsOf(items)
  {
    assert (items + [i])[..|items|] == items;
  }

  lemma KeyItemMeans(r: Rule, items: seq<Item>, i: Item, cfg: Config)
    requires RuleMeans(r.header, r.data, items, cfg) && i.KeyItem?
    ensures var r' := WithHint(AddKey(r, i.slot, i.op, StoredValue(i.slot, i.value, cfg)), i.slot, i.hint);
            RuleMeans(r'.header, r'.data, items + [i], cfg)
  {
    var v := StoredValue(i.slot, i.value, cfg);
    hide StoredValue;
    var r' := WithHint(AddKey(r, i.slot, i.op, v), i.slot, i.hint);
    var more := v + "\0";
    assert r'.data == r.data + more;
    OneMore(items, i);
    hide LastOf, PairsOf, HintsOf, LastMode, OptionsOf, PairsAre, SlotIs;
    forall slot
      ensures SlotIs(r'.header, r'.data, slot, LastOf(items + [i], slot), cfg)
    {
      assert SlotIs(r.header, r.data, slot, LastOf(items, slot), cfg);
      SlotAfter(r, slot, LastOf(items, slot), i, cfg);
    }
    forall kind
      ensures PairsAre(r'.data, Pairs(r'.header, kind), PairsOf(items + [i], kind))
    {
      assert PairsAre(r.data, Pairs(r.header, kind), PairsOf(items, kind));
      PairsStay(r.data, more, Pairs(r.header, kind), PairsOf(items, kind));
      KeyPairs(r, i.slot, i.op, v, i.hint, kind);
    }
  }

  /** A key concerns no pairs. */
  lemma KeyPairs(r: Rule, slot: Slot, op: Op, v: string, hint: Option<string>, kind: PairKind)
    ensures Pairs(WithHint(AddKey(r, slot, op, v), slot, hint).header, kind) == Pairs(r.header, kind)
  {
  }

  /** Any slot once one key has been added. */
  lemma SlotAfter(r: Rule, slot: Slot, v: Option<(Op, string)>, i: Item, cfg: Config)
    requires SlotIs(r.header, r.data, slot, v, cfg) && i.KeyItem?
    ensures var r' := WithHint(AddKey(r, i.slot, i.op, StoredValue(i.slot, i.value, cfg)), i.slot, i.hint);
            SlotIs(r'.header, r'.data, slot, if slot == i.slot then Some((i.op, i.value)) else v, cfg)
  {
    var stored := StoredValue(i.slot, i.value, cfg);
    var r' := WithHint(AddKey(r, i.slot, i.op, stored), i.slot, i.hint);
    assert r'.data == r.data + (stored + "\0");
    NewValueIs(r.data, i, cfg);
    SlotStays(r.header, r.data, stored + "\0", slot, v, cfg);
    hide StoredValue, HasValue;
  }

  lemma NewValueIs(data: string, i: Item, cfg: Config)
    requires i.KeyItem?
    ensures HasValue(data + (StoredValue(i.slot, i.value, cfg) + "\0"), |data|, i.slot, i.value, cfg)
  {
    var v := StoredValue(i.slot, i.value, cfg);
    StoredStandsFor(i.slot, i.value, cfg);
    StringAdded(data, v, "");
    assert data + v + "\0" + "" == data + (v + "\0");
    hide StoredValue, StandsFor, HasString;
  }

  lemma PairItemMeans(r: Rule, items: seq<Item>, i: Item, cfg: Config)
    requires RuleMeans(r.header, r.data, items, cfg) && i.PairItem?
    requires |Pairs(r.header, i.kind)| < PAIRS_MAX
    ensures var r' := AddPair(r, i.kind, i.op, i.attr, i.value).value; RuleMeans(r'.header, r'.data, items + [i], cfg)
  {
    var r' := AddPair(r, i.kind, i.op, i.attr, i.value).value;
    assert r'.data == r.data + (i.value + "\0" + i.attr + "\0");
    OneMore(items, i);
    forall slot
      ensures SlotIs(r'.header, r'.data, slot, LastOf(items + [i], slot), cfg)
    {
      assert SlotIs(r.header, r.data, slot, LastOf(items, slot), cfg);
      SlotStays(r.header, r.data, i.value + "\0" + i.attr + "\0", slot, LastOf(items, slot), cfg);
    }
    forall kind
      ensures PairsAre(r'.data, Pairs(r'.header, kind), PairsOf(items + [i], kind))
    {
      assert PairsAre(r.data, Pairs(r.header, kind), PairsOf(items, kind));
      PairsAfter(r, kind, PairsOf(items, kind), i);
    }
    hide LastOf, PairsOf, HintsOf, LastMode, OptionsOf, SlotIs, PairsAre;
  }

  /** The pairs of any kind once one more has been added. */
  lemma PairsAfter(r: Rule, kind: PairKind, pairs: seq<(Op, string, string)>, i: Item)
    requires PairsAre(r.data, Pairs(r.header, kind), pairs) && i.PairItem?
    requires |Pairs(r.header, i.kind)| < PAIRS_MAX
    ensures var r' := AddPair(r, i.kind, i.op, i.attr, i.value).value;
            PairsAre(r'.data, Pairs(r'.header, kind),
                     if kind == i.kind then pairs + [(i.op, i.attr, i.value)] else pairs)
  {
    PairsThen(r, kind, i);
    hide PairsAre, AddPair, Pairs;
    var more := i.value + "\0" + i.attr + "\0";
    var keys := Pairs(r.header, kind);
    PairsStay(r.data, more, keys, pairs);
    if kind == i.kind {
      PairAdded(r.data, keys, pairs, i);
    } else {
      assert keys + [] == keys;
    }
  }

  lemma PairsThen(r: Rule, kind: PairKind, i: Item)
    requires i.PairItem? && |Pairs(r.header, i.kind)| < PAIRS_MAX
    ensures var r' := AddPair(r, i.kind, i.op, i.attr, i.value);
            && r'.Some? && r'.value.data == r.data + (i.value + "\0" + i.attr + "\0")
            && Pairs(r'.value.header, kind) ==
                 Pairs(r.header, kind)
                 + (if kind == i.kind then [PairKey(Key(i.op, |r.data|), |r.data| + |i.value| + 1)] else [])
  {
  }

  lemma PairAdded(data: string, keys: seq<PairKey>, pairs: seq<(Op, string, string)>, i: Item)
    requires i.PairItem?
    requires PairsAre(data + (i.value + "\0" + i.attr + "\0"), keys, pairs)
    ensures PairsAre(data + (i.value + "\0" + i.attr + "\0"),
                     keys + [PairKey(Key(i.op, |data|), |data| + |i.value| + 1)], pairs + [(i.op, i.attr, i.value)])
  {
    NewPairIs(data, i);
    hide PairIs;
  }

  lemma OtherItemMeans(r: Rule, items: seq<Item>, i: Item, cfg: Config)
    requires RuleMeans(r.header, r.data, items, cfg) && (i.ModeItem? || i.OptionsItem?)
    ensures var r' := AddItem(Build(r, false, false), i, cfg).value.rule; RuleMeans(r'.header, r'.data, items + [i], cfg)
  {
    var r' := AddItem(Build(r, false, false), i, cfg).value.rule;
    OneMore(items, i);
    hide LastOf, PairsOf, HintsOf, LastMode, OptionsOf, HasString, PairsAre;
    forall slot
      ensures SlotIs(r'.header, r'.data, slot, LastOf(items + [i], slot), cfg)
    {
      assert SlotIs(r.header, r.data, slot, LastOf(items, slot), cfg);
    }
    forall kind
      ensures PairsAre(r'.data, Pairs(r'.header, kind), PairsOf(items + [i], kind))
    {
      assert PairsAre(r.data, Pairs(r.header, kind), PairsOf(items, kind));
    }
  }

  /** An item that is added adds its meaning. */
  lemma ItemMeans(b: Build, items: seq<Item>, i: Item, cfg: Config)
    requires RuleMeans(b.rule.header, b.rule.data, items, cfg)
    ensures var b1 := AddItem(b, i, cfg);
            && (b1.Some? ==> RuleMeans(b1.value.rule.header, b1.value.rule.data, items + [i], cfg))
            && (b1.Some? <==> Allowed(i) && (i.PairItem? ==> |PairsOf(items, i.kind)| < PAIRS_MAX))
  {
    if i.PairItem? {
      assert PairsAre(b.rule.data, Pairs(b.rule.header, i.kind), PairsOf(items, i.kind));
      PairFits(b.rule, i);
    }
    hide RuleMeans, AddKey, AddPair, WithHint, PairsOf, Allowed;
    match i {
      case KeyItem(_, _, _, _) => KeyItemMeans(b.rule, items, i, cfg);
      case PairItem(_, _, _, _) =>
        if AddItem(b, i, cfg).Some? {
          PairItemMeans(b.rule, items, i, cfg);
        }
      case _ => OtherItemMeans(b.rule, items, i, cfg);
    }
  }

  lemma NewPairIs(data: string, i: Item)
    requires i.PairItem?
    ensures PairIs(data + (i.value + "\0" + i.attr + "\0"),
                   PairKey(Key(i.op, |data|), |data| + |i.value| + 1), (i.op, i.attr, i.value))
  {
    var s := data + (i.value + "\0" + i.attr + "\0");
    StringAdded(data, i.value, i.attr + "\0");
    assert s == data + i.value + "\0" + (i.attr + "\0");
    StringAdded(data + i.value + "\0", i.attr, "");
    assert s == data + i.value + "\0" + i.attr + "\0" + "";
  }

  lemma {:induction false} ItemsMean(b: Build, done: seq<Item>, items: seq<Item>, cfg: Config)
    requires RuleMeans(b.rule.header, b.rule.data, done, cfg)
    ensures var b1 := AddItems(b, items, cfg);
            b1.Some? ==> RuleMeans(b1.value.rule.header, b1.value.rule.data, done + items, cfg)
    decreases |items|
  {
    hide RuleMeans, AddItem;
    if items == [] {
      assert done + items == done;
    } else {
      var i := items[0];
      var b1 := AddItem(b, i, cfg);
      assert done + items == done + [i] + items[1..];
      ItemMeans(b, done, i, cfg);
      if b1.Some? {
        ItemsMean(b1.value, done + [i], items[1..], cfg);
      }
    }
  }

  lemma PairFits(r: Rule, i: Item)
    requires i.PairItem?
    ensures AddPair(r, i.kind, i.op, i.attr, i.value).Some? <==> |Pairs(r.header, i.kind)| < PAIRS_MAX
  {
  }

  lemma EmptyMeans(cfg: Config)
    ensures RuleMeans(EMPTY_RULE.header, "", [], cfg)
  {
  }

  /** Items that can be written in a line. */
  predicate LineOk(items: seq<Item>) {
    Printable(items) && forall k :: 0 <= k < |items| ==> ItemOk(items[k])
  }

  /** Items that make a rule: each is allowed, no kind of pair occurs too often, and one of them
      is more than a name. */
  predicate RuleOk(items: seq<Item>) {
    && (forall k :: 0 <= k < |items| ==> Allowed(items[k]))
    && |PairsOf(items, ATTR)| <= PAIRS_MAX && |PairsOf(items, ATTRS)| <= PAIRS_MAX && |PairsOf(items, ENV)| <= PAIRS_MAX
    && (exists k :: 0 <= k < |items| && MoreThanName(items[k]))
  }

  lemma {:induction false} PairsOfPrefix(items: seq<Item>, n: nat, kind: PairKind)
    requires n <= |items|
    ensures |PairsOf(items[..n], kind)| <= |PairsOf(items, kind)|
    decreases |items| - n
  {
    if n == |items| {
      assert items[..n] == items;
    } else {
      PairsOfPrefix(items, n + 1, kind);
      assert items[..n + 1][..n] == items[..n];
    }
  }

  predicate MoreThanName(i: Item) {
    !(i.KeyItem? && i.slot == NAME)
  }

  lemma ItemFlags(b: Build, i: Item, cfg: Config)
    ensures var b1 := AddItem(b, i, cfg);
            b1.Some? ==> b1.value.valid == (b.valid || MoreThanName(i))
  {
  }

  /** From item n on, everything is allowed and no kind of pair is one too many. */
  ghost predicate GoesOn(all: seq<Item>, n: nat) {
    (forall k :: n <= k < |all| ==> Allowed(all[k])) && forall kind :: |PairsOf(all, kind)| <= PAIRS_MAX
  }

  lemma {:induction false} ItemsAccepted(b: Build, all: seq<Item>, n: nat, cfg: Config)
    requires n <= |all| && RuleMeans(b.rule.header, b.rule.data, all[..n], cfg)
    requires forall kind :: |PairsOf(all[..n], kind)| <= PAIRS_MAX
    ensures var b1 := AddItems(b, all[n..], cfg);
            && (b1.Some? <==> GoesOn(all, n))
            && (b1.Some? ==> (b1.value.valid <==> b.valid || exists k :: n <= k < |all| && MoreThanName(all[k])))
    decreases |all| - n
  {
    hide RuleMeans, AddItem, PairsOf, Allowed;
    if n == |all| {
      assert all[..n] == all;
    } else {
      var i := all[n];
      var b1 := AddItem(b, i, cfg);
      assert all[n..][0] == i && all[n..][1..] == all[n + 1..];
      assert all[..n + 1] == all[..n] + [i];
      ItemMeans(b, all[..n], i, cfg);
      ItemFlags(b, i, cfg);
      OneMore(all[..n], i);
      if b1.Some? {
        ItemsAccepted(b1.value, all, n + 1, cfg);
      } else if i.PairItem? {
        PairsOfPrefix(all, n + 1, i.kind);
      }
    }
  }

  lemma RuleOkMeaning(items: seq<Item>)
    ensures RuleOk(items) <==> GoesOn(items, 0) && exists k :: 0 <= k < |items| && MoreThanName(items[k])
  {
    if RuleOk(items) {
      forall kind
        ensures |PairsOf(items, kind)| <= PAIRS_MAX
      {
        match kind {
          case ATTR =>
          case ATTRS =>
          case ENV =>
        }
      }
    }
    hide PairsOf, Allowed;
  }

  /** A printed line is accepted exactly when its items make a rule; the rule compiled from it then
      means what was printed, and its strings take the line's room. */
  lemma CompileLineOfPrinted(items: seq<Item>, cfg: Config)
    requires LineOk(items)
    ensures var r := CompileLine(PrintItems(items, true), cfg);
            && (r.Some? <==> RuleOk(items))
            && (r.Some? ==>
                  && RuleMeans(r.value.header, r.value.data, items, cfg)
                  && |r.value.data| == Room(PrintItems(items, true), cfg))
  {
    hide RuleMeans, Compile, AddItems, ItemOk, PrintItems, PairsOf, Allowed;
    var b := Build(EMPTY_RULE, false, false);
    var line := PrintItems(items, true);
    EmptyMeans(cfg);
    NoPairs();
    assert items[..0] == [] && items[0..] == items && [] + items == items;
    CompilesPrinted(b, items, true, cfg);
    ItemsAccepted(b, items, 0, cfg);
    RuleOkMeaning(items);
    ItemsMean(b, [], items, cfg);
    StringsTakeRoom(b, line, cfg);
    hide RuleOk, GoesOn, Room;
  }

  lemma NoPairs()
    ensures forall kind :: PairsOf([], kind) == []
  {
  }
}
