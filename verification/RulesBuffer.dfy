/** All rules in one buffer, each padded to the alignment of size_t, and the walk over them
    (packing part of add_to_rules, udev_rules_iter_init/next/label in udev_rules_parse.c). The
    header of a rule is laid over the bytes of the buffer; it is modelled as a typed value at its
    offset. */
module RulesBuffer {
  import opened Basics
  import opened RuleText
  import opened RulesCompiler

  /** sizeof(struct udev_rule) and sizeof(size_t), 64-bit. */
  const HEADER: nat := 752
  const ALIGN: nat := 8

  datatype Packed = Packed(buf: string, headers: map<nat, Header>)

  const NOTHING: Packed := Packed("", map[])

  function Zeros(n: nat): (s: string)
    ensures |s| == n
  {
    seq(n, _ => '\0')
  }

  function Padding(size: nat): (n: nat)
    ensures n < ALIGN && (size + n) % ALIGN == 0
  {
    PaddingAligns(size, size / ALIGN, size % ALIGN);
    (ALIGN - size % ALIGN) % ALIGN
  }

  lemma PaddingAligns(size: nat, q: nat, m: nat)
    requires size == ALIGN * q + m && m < ALIGN
    ensures (size + (ALIGN - m) % ALIGN) % ALIGN == 0
  {
    if m == 0 {
      assert (ALIGN - m) % ALIGN == 0;
    } else {
      assert (ALIGN - m) % ALIGN == ALIGN - m;
      assert size + (ALIGN - m) == ALIGN * (q + 1);
    }
  }

  /** The string area of a rule with its padding. */
  function Area(r: Rule): (s: string)
    ensures (HEADER + |s|) % ALIGN == 0 && r.data <= s
  {
    r.data + Zeros(Padding(HEADER + |r.data|))
  }

  function FinalHeader(r: Rule): Header {
    r.header.(bufsize := |Area(r)|)
  }

  function Append(p: Packed, r: Rule): Packed {
    Packed(p.buf + Zeros(HEADER) + Area(r), p.headers[|p.buf| := FinalHeader(r)])
  }

  function Pack(rules: seq<Rule>): Packed {
    if rules == [] then NOTHING else Append(Pack(rules[..|rules| - 1]), rules[|rules| - 1])
  }

  /** There is a rule at offset at, and all of it lies in the buffer. */
  predicate RuleAt(p: Packed, at: nat) {
    at in p.headers && at + HEADER + p.headers[at].bufsize <= |p.buf|
  }

  function After(p: Packed, at: nat): nat
    requires RuleAt(p, at)
  {
    at + HEADER + p.headers[at].bufsize
  }

  /** From offset at the buffer is a chain of rules up to its end. */
  predicate Chain(p: Packed, at: nat)
    decreases |p.buf| - at
  {
    at == |p.buf| || (RuleAt(p, at) && Chain(p, After(p, at)))
  }

  /** The offsets the walk visits. */
  function Offsets(p: Packed, at: nat): seq<nat>
    requires Chain(p, at)
    decreases |p.buf| - at
  {
    if at == |p.buf| then [] else [at] + Offsets(p, After(p, at))
  }

  // ---------------------------------------------------------------- packing and walking

  lemma {:induction false} AppendKeepsChain(p: Packed, r: Rule, at: nat)
    requires Chain(p, at) && at <= |p.buf|
    ensures Chain(Append(p, r), at)
    ensures Offsets(Append(p, r), at) == Offsets(p, at) + [|p.buf|]
    decreases |p.buf| - at
  {
    var p' := Append(p, r);
    if at == |p.buf| {
      assert After(p', at) == |p'.buf|;
      assert Offsets(p', |p'.buf|) == [];
    } else {
      assert After(p', at) == After(p, at);
      AppendKeepsChain(p, r, After(p, at));
    }
  }

  /** The strings of a rule in the buffer. */
  function AreaAt(p: Packed, at: nat): string
    requires RuleAt(p, at)
  {
    p.buf[at + HEADER..After(p, at)]
  }

  /** Rule r stands at an aligned offset, with its header and strings. */
  predicate PackedAt(p: Packed, at: nat, r: Rule) {
    at % ALIGN == 0 && RuleAt(p, at) && p.headers[at] == FinalHeader(r) && AreaAt(p, at) == Area(r)
  }

  lemma PackedStays(p: Packed, last: Rule, at: nat, r: Rule)
    requires PackedAt(p, at, r) && at < |p.buf|
    ensures PackedAt(Append(p, last), at, r)
  {
  }

  lemma PackedLast(p: Packed, r: Rule)
    requires |p.buf| % ALIGN == 0
    ensures PackedAt(Append(p, r), |p.buf|, r) && |Append(p, r).buf| % ALIGN == 0
  {
  }

  /** The walk over packed rules meets them all, in order, each at an aligned offset and each
      with its header and strings. */
  lemma {:induction false} WalkMeetsAllRules(rules: seq<Rule>)
    ensures var p := Pack(rules);
            && Chain(p, 0) && |Offsets(p, 0)| == |rules| && |p.buf| % ALIGN == 0
            && forall k :: 0 <= k < |rules| ==> PackedAt(p, Offsets(p, 0)[k], rules[k])
    decreases |rules|
  {
    hide Append, PackedAt;
    if rules != [] {
      var front, last := rules[..|rules| - 1], rules[|rules| - 1];
      WalkMeetsAllRules(front);
      var p := Pack(front);
      AppendKeepsChain(p, last, 0);
      OffsetsAreOld(p, 0);
      PackedLast(p, last);
      var offs := Offsets(p, 0);
      forall k | 0 <= k < |rules|
        ensures PackedAt(Pack(rules), Offsets(Pack(rules), 0)[k], rules[k])
      {
        if k < |front| {
          assert front[k] == rules[k];
          PackedStays(p, last, offs[k], rules[k]);
        }
      }
    }
  }

  /** Visited offsets lie in the buffer and increase. */
  lemma {:induction false} OffsetsAreOld(p: Packed, at: nat)
    requires Chain(p, at) && at <= |p.buf|
    ensures forall k :: 0 <= k < |Offsets(p, at)| ==> at <= Offsets(p, at)[k] < |p.buf|
    ensures forall j, k :: 0 <= j < k < |Offsets(p, at)| ==> Offsets(p, at)[j] < Offsets(p, at)[k]
    decreases |p.buf| - at
  {
    if at < |p.buf| {
      OffsetsAreOld(p, After(p, at));
    }
  }

  // ---------------------------------------------------------------- from text to rules

  function Compiled(lines: seq<string>, cfg: Config): seq<Rule> {
    if lines == [] then []
    else
      var r := CompileLine(lines[|lines| - 1], cfg);
      Compiled(lines[..|lines| - 1], cfg) + (if r.None? then [] else [r.value])
  }

  function PrintRules(rules: seq<seq<Item>>): (lines: seq<string>)
    requires forall k :: 0 <= k < |rules| ==> Printable(rules[k])
    ensures |lines| == |rules|
  {
    seq(|rules|, k requires 0 <= k < |rules| => PrintItems(rules[k], true))
  }

  predicate RulesOk(rules: seq<seq<Item>>) {
    forall k :: 0 <= k < |rules| ==> LineOk(rules[k]) && RuleOk(rules[k])
  }

  lemma {:induction false} CompiledRules(rules: seq<seq<Item>>, cfg: Config)
    requires RulesOk(rules)
    ensures var rs := Compiled(PrintRules(rules), cfg);
            |rs| == |rules| &&
            forall k :: 0 <= k < |rules| ==>
              RuleMeans(rs[k].header, rs[k].data, rules[k], cfg) && |rs[k].data| == Room(PrintItems(rules[k], true), cfg)
    decreases |rules|
  {
    hide ItemOk, RuleOk, RuleMeans, CompileLine, PrintItems, Room;
    if rules != [] {
      var front, last := rules[..|rules| - 1], rules[|rules| - 1];
      assert PrintRules(rules)[..|rules| - 1] == PrintRules(front);
      assert LineOk(last) && RuleOk(last);
      CompiledRules(front, cfg);
      CompileLineOfPrinted(last, cfg);
    }
  }

  /** Padding moves no string. */
  lemma MeaningInArea(r: Rule, items: seq<Item>, cfg: Config)
    requires RuleMeans(r.header, r.data, items, cfg)
    ensures RuleMeans(FinalHeader(r), Area(r), items, cfg)
  {
    var more := Zeros(Padding(HEADER + |r.data|));
    var h := FinalHeader(r);
    forall slot
      ensures SlotIs(h, Area(r), slot, LastOf(items, slot), cfg)
    {
      assert SlotIs(r.header, r.data, slot, LastOf(items, slot), cfg);
      if LastOf(items, slot).Some? {
        ValueStays(r.data, more, r.header.single[slot].off, slot, LastOf(items, slot).value.1, cfg);
      }
    }
    forall kind
      ensures PairsAre(Area(r), Pairs(h, kind), PairsOf(items, kind))
    {
      assert PairsAre(r.data, Pairs(r.header, kind), PairsOf(items, kind));
      PairsStay(r.data, more, Pairs(r.header, kind), PairsOf(items, kind));
    }
  }

  /** If the line is a printed one, ok says that its items make a rule, and then the rule at offset
      at means them. */
  ghost predicate LineSays(ok: bool, line: string, p: Packed, at: nat, cfg: Config) {
    forall items :: LineOk(items) && PrintItems(items, true) == line ==>
      (ok <==> RuleOk(items)) && (ok ==> RuleAt(p, at) && RuleMeans(p.headers[at], AreaAt(p, at), items, cfg))
  }

  lemma AppendedSays(p: Packed, line: string, cfg: Config)
    ensures var r := CompileLine(line, cfg);
            LineSays(r.Some?, line, if r.Some? then Append(p, r.value) else p, |p.buf|, cfg)
  {
    hide ItemOk, RuleOk, RuleMeans, CompileLine, PrintItems, Area, Room;
    var r := CompileLine(line, cfg);
    if r.Some? {
      AppendedLast(p, r.value);
    }
    hide Append, RuleAt, AreaAt, FinalHeader;
    forall items | LineOk(items) && PrintItems(items, true) == line
      ensures r.Some? <==> RuleOk(items)
      ensures r.Some? ==> RuleMeans(FinalHeader(r.value), Area(r.value), items, cfg)
    {
      CompileLineOfPrinted(items, cfg);
      if r.Some? {
        MeaningInArea(r.value, items, cfg);
      }
    }
  }

  lemma AppendedLast(p: Packed, r: Rule)
    ensures var p', at := Append(p, r), |p.buf|;
            RuleAt(p', at) && p'.headers[at] == FinalHeader(r) && AreaAt(p', at) == Area(r)
  {
  }

  /** Compiling and then walking is the identity: rules printed as lines, compiled and packed are
      met again in order, aligned, each meaning what was printed, with every string at its
      offset; and a rule fits the area it is built in exactly when its line's room does. */
  lemma CompileThenWalk(rules: seq<seq<Item>>, cfg: Config)
    requires RulesOk(rules)
    ensures var p := Pack(Compiled(PrintRules(rules), cfg));
            && Chain(p, 0) && |Offsets(p, 0)| == |rules|
            && forall k :: 0 <= k < |rules| ==>
                 var at := Offsets(p, 0)[k];
                 && at % ALIGN == 0 && RuleAt(p, at) && RuleMeans(p.headers[at], AreaAt(p, at), rules[k], cfg)
                 && (|AreaAt(p, at)| <= LINE_SIZE <==> Room(PrintItems(rules[k], true), cfg) <= LINE_SIZE)
  {
    hide RuleOk, RuleMeans, Compiled, PrintItems, PrintRules, Offsets, Chain, Pack, Room;
    CompiledRules(rules, cfg);
    var rs := Compiled(PrintRules(rules), cfg);
    WalkMeetsAllRules(rs);
    var p := Pack(rs);
    forall k | 0 <= k < |rules|
      ensures var at := Offsets(p, 0)[k];
              && at % ALIGN == 0 && RuleAt(p, at) && RuleMeans(p.headers[at], AreaAt(p, at), rules[k], cfg)
              && (|AreaAt(p, at)| <= LINE_SIZE <==> Room(PrintItems(rules[k], true), cfg) <= LINE_SIZE)
    {
      MeaningInArea(rs[k], rules[k], cfg);
      AreaFits(rs[k]);
    }
  }

  /** The padding never makes the difference. */
  lemma AreaFits(r: Rule)
    ensures |Area(r)| <= LINE_SIZE <==> |r.data| <= LINE_SIZE
  {
    assert LINE_SIZE % ALIGN == 0 && HEADER % ALIGN == 0;
  }

  /** The padded rule of an accepted line fits the area it is built in exactly when the room of the
      line's keys does, and so do its strings at all times while they are added; a line in which
      no value is replaced always fits if it is short enough to be read. */
  lemma LineFits(line: string, cfg: Config)
    ensures var r := CompileLine(line, cfg);
            r.Some? ==>
              && (|Area(r.value)| <= LINE_SIZE <==> Room(line, cfg) <= LINE_SIZE)
              && (StaysInside(Build(EMPTY_RULE, false, false), line, cfg) <==> Room(line, cfg) <= LINE_SIZE)
    ensures NothingReplaced(line, cfg) && |line| < LINE_SIZE ==> Room(line, cfg) <= LINE_SIZE
  {
    var b := Build(EMPTY_RULE, false, false);
    StringsTakeRoom(b, line, cfg);
    InsideMeaning(b, line, cfg);
    if NothingReplaced(line, cfg) {
      PlainLineFits(line, cfg);
    }
    if CompileLine(line, cfg).Some? {
      AreaFits(CompileLine(line, cfg).value);
    }
    hide Compile, Room, StaysInside, NothingReplaced, Area;
  }

  // ---------------------------------------------------------------- labels

  /** The string at an offset of a rule's area, up to its terminator or the end of the buffer. */
  function CString(s: string): (r: string)
    ensures r <= s && '\0' !in r
  {
    if s == "" || s[0] == '\0' then "" else [s[0]] + CString(s[1..])
  }

  function StringOf(p: Packed, at: nat, off: nat): string {
    if at + HEADER + off <= |p.buf| then CString(p.buf[at + HEADER + off..]) else ""
  }

  /** Offset of a slot's value; 0 if the slot is unset. */
  function OffsetOf(h: Header, slot: Slot): nat {
    if slot in h.single then h.single[slot].off else 0
  }

  /** What udev_rules_iter_label compares: the label, or the first string of a rule without one. */
  function LabelOf(p: Packed, at: nat): string
    requires at in p.headers
  {
    StringOf(p, at, OffsetOf(p.headers[at], LABEL))
  }

  /** Where the walk goes on after a GOTO. */
  function FindLabel(p: Packed, at: nat, goal: string): (r: nat)
    requires Chain(p, at)
    ensures Chain(p, r)
    ensures at <= |p.buf| ==> at <= r <= |p.buf|
    decreases |p.buf| - at
  {
    if at == |p.buf| || LabelOf(p, at) == goal then at else FindLabel(p, After(p, at), goal)
  }

  /** The first rule from at on that really has this label. */
  function LabelledAt(p: Packed, at: nat, goal: string): nat
    requires Chain(p, at)
    decreases |p.buf| - at
  {
    if at == |p.buf| || (LABEL in p.headers[at].single && LabelOf(p, at) == goal) then at
    else LabelledAt(p, After(p, at), goal)
  }

  /** An unlabelled rule is taken for the target because its first string is the label. */
  predicate Mistaken(p: Packed, at: nat, goal: string)
    requires at in p.headers
  {
    LABEL !in p.headers[at].single && LabelOf(p, at) == goal
  }

  lemma {:induction false} LabelledLater(p: Packed, at: nat, goal: string)
    requires Chain(p, at) && at <= |p.buf|
    ensures at <= LabelledAt(p, at, goal) <= |p.buf|
    decreases |p.buf| - at
  {
    if at < |p.buf| {
      LabelledLater(p, After(p, at), goal);
    }
  }

  /** No rule before the labelled one is mistaken for it. */
  predicate NoMistake(p: Packed, at: nat, goal: string)
    requires Chain(p, at)
    decreases |p.buf| - at
  {
    || at == |p.buf|
    || (LABEL in p.headers[at].single && LabelOf(p, at) == goal)
    || (!Mistaken(p, at, goal) && NoMistake(p, After(p, at), goal))
  }

  lemma {:induction false} FoundIfNoMistake(p: Packed, at: nat, goal: string)
    requires Chain(p, at) && at <= |p.buf|
    ensures FindLabel(p, at, goal) <= LabelledAt(p, at, goal)
    ensures FindLabel(p, at, goal) == LabelledAt(p, at, goal) <==> NoMistake(p, at, goal)
    decreases |p.buf| - at
  {
    hide LabelOf;
    if at < |p.buf| {
      LabelledLater(p, After(p, at), goal);
      FoundIfNoMistake(p, After(p, at), goal);
    }
  }

  /** The rule that visit k would come to before the labelled one is not mistaken for it. */
  lemma {:induction false} NotMistakenAt(p: Packed, at: nat, goal: string, k: nat)
    requires Chain(p, at) && at <= |p.buf| && NoMistake(p, at, goal)
    requires k < |Offsets(p, at)| && Offsets(p, at)[k] < LabelledAt(p, at, goal)
    ensures RuleAt(p, Offsets(p, at)[k]) && !Mistaken(p, Offsets(p, at)[k], goal)
    decreases k
  {
    hide LabelOf;
    OffsetsAreOld(p, at);
    if k > 0 {
      assert Offsets(p, at)[k] == Offsets(p, After(p, at))[k - 1];
      NotMistakenAt(p, After(p, at), goal, k - 1);
    }
  }

  /** The first mistaken rule. */
  lemma {:induction false} MistakeFound(p: Packed, at: nat, goal: string) returns (k: nat)
    requires Chain(p, at) && at <= |p.buf| && !NoMistake(p, at, goal)
    ensures k < |Offsets(p, at)| && Offsets(p, at)[k] < LabelledAt(p, at, goal)
    ensures RuleAt(p, Offsets(p, at)[k]) && Mistaken(p, Offsets(p, at)[k], goal)
    decreases |p.buf| - at
  {
    hide LabelOf;
    if Mistaken(p, at, goal) {
      LabelledLater(p, After(p, at), goal);
      k := 0;
    } else {
      k := MistakeFound(p, After(p, at), goal);
      k := k + 1;
    }
  }

  /** GOTO leads to the labelled rule exactly when no rule without a label that comes first has
      the label's text as its first string. */
  lemma GotoFindsLabel(p: Packed, at: nat, goal: string)
    requires Chain(p, at) && at <= |p.buf|
    ensures FindLabel(p, at, goal) == LabelledAt(p, at, goal) <==>
            forall k :: 0 <= k < |Offsets(p, at)| && Offsets(p, at)[k] < LabelledAt(p, at, goal) ==>
              RuleAt(p, Offsets(p, at)[k]) && !Mistaken(p, Offsets(p, at)[k], goal)
    ensures FindLabel(p, at, goal) <= LabelledAt(p, at, goal)
  {
    FoundIfNoMistake(p, at, goal);
    hide FindLabel, LabelledAt, Offsets, Mistaken, RuleAt, NoMistake, Chain;
    if NoMistake(p, at, goal) {
      forall k: nat | k < |Offsets(p, at)| && Offsets(p, at)[k] < LabelledAt(p, at, goal)
        ensures RuleAt(p, Offsets(p, at)[k]) && !Mistaken(p, Offsets(p, at)[k], goal)
      {
        NotMistakenAt(p, at, goal, k);
      }
    } else {
      var k := MistakeFound(p, at, goal);
    }
  }

  /** A rule with one key. */
  function OneKey(slot: Slot, op: Op, value: string): seq<Item> {
    [KeyItem(slot, None, op, value)]
  }

  lemma OneKeyCompiled(slot: Slot, op: Op, value: string, cfg: Config)
    requires ItemOk(KeyItem(slot, None, op, value)) && Allowed(KeyItem(slot, None, op, value))
    requires slot !in {NAME, OWNER, GROUP, SUBSYSTEM}
    ensures CompileLine(PrintItems(OneKey(slot, op, value), true), cfg) == Some(AddKey(EMPTY_RULE, slot, op, value))
  {
    var items := OneKey(slot, op, value);
    var b := Build(EMPTY_RULE, false, false);
    assert op != UNSET && Printable(items);
    hide PrintItems, ItemOk, Compile, AddKey;
    CompilesPrinted(b, items, true, cfg);
    var b1 := AddItem(b, items[0], cfg).value;
    assert AddItems(b, items, cfg) == AddItems(b1, items[1..], cfg);
    assert items[1..] == [] && AddItems(b1, [], cfg) == Some(b1);
  }

  /** KERNEL=="x" and, in the next line, LABEL="x". */
  function MistakenLines(): seq<string> {
    [PrintItems(OneKey(KERNEL, MATCH, "x"), true), PrintItems(OneKey(LABEL, ASSIGN, "x"), true)]
  }

  lemma MistakenCompiled(cfg: Config)
    ensures Compiled(MistakenLines(), cfg) == [AddKey(EMPTY_RULE, KERNEL, MATCH, "x"), AddKey(EMPTY_RULE, LABEL, ASSIGN, "x")]
  {
    MistakenItemsOk();
    hide PrintItems, CompileLine, AddKey, Compiled, ItemOk;
    OneKeyCompiled(KERNEL, MATCH, "x", cfg);
    OneKeyCompiled(LABEL, ASSIGN, "x", cfg);
    CompiledTwo(MistakenLines()[0], MistakenLines()[1], cfg);
  }

  lemma MistakenItemsOk()
    ensures ItemOk(KeyItem(KERNEL, None, MATCH, "x")) && ItemOk(KeyItem(LABEL, None, ASSIGN, "x"))
  {
    var k, l := "KERNEL", "LABEL";
    assert k + "" == k && l + "" == l;
  }

  lemma CompiledTwo(l1: string, l2: string, cfg: Config)
    requires CompileLine(l1, cfg).Some? && CompileLine(l2, cfg).Some?
    ensures Compiled([l1, l2], cfg) == [CompileLine(l1, cfg).value, CompileLine(l2, cfg).value]
  {
    hide CompileLine;
    var lines := [l1, l2];
    assert lines[..1] == [l1] && [l1][..0] == [];
    assert Compiled([], cfg) == [];
    assert Compiled([l1], cfg) == [CompileLine(l1, cfg).value];
  }

  lemma {:induction false} CStringEnds(v: string, more: string)
    requires '\0' !in v
    ensures CString(v + "\0" + more) == v
  {
    var s := v + "\0" + more;
    if v == "" {
      assert s[0] == '\0';
    } else {
      assert s[0] == v[0] && s[1..] == v[1..] + "\0" + more;
      CStringEnds(v[1..], more);
    }
  }

  /** The label compared at a rule whose area starts with x, if the label's offset is 0. */
  lemma FirstStringIsLabel(p: Packed, at: nat, x: string, more: string)
    requires at in p.headers && OffsetOf(p.headers[at], LABEL) == 0 && '\0' !in x
    requires at + HEADER <= |p.buf| && p.buf[at + HEADER..] == x + "\0" + more
    ensures LabelOf(p, at) == x
  {
    CStringEnds(x, more);
  }

  /** Two rules with the same one string: where they are, and what their areas start with. */
  lemma TwoRules(r1: Rule, r2: Rule, x: string)
    requires r1.data == x + "\0" && r2.data == x + "\0"
    ensures var p1 := Append(NOTHING, r1); var p := Append(p1, r2); var at := |p1.buf|;
            && Chain(p, 0) && RuleAt(p, 0) && After(p, 0) == at < |p.buf| && RuleAt(p, at)
            && p.headers[0] == FinalHeader(r1) && p.headers[at] == FinalHeader(r2)
            && (exists more :: p.buf[HEADER..] == x + "\0" + more)
            && (exists more :: p.buf[at + HEADER..] == x + "\0" + more)
  {
    var p1 := Append(NOTHING, r1);
    var p := Append(p1, r2);
    var at := |p1.buf|;
    AppendKeepsChain(NOTHING, r1, 0);
    AppendKeepsChain(p1, r2, 0);
    hide Chain;
    var pad := Zeros(Padding(HEADER + |r1.data|));
    var more := pad + (Zeros(HEADER) + Area(r2));
    assert p.buf == (NOTHING.buf + Zeros(HEADER)) + (x + "\0" + more);
    assert p.buf[HEADER..] == x + "\0" + more;
    var pad2 := Zeros(Padding(HEADER + |r2.data|));
    assert p.buf == (p1.buf + Zeros(HEADER)) + (x + "\0" + pad2);
    assert p.buf[at + HEADER..] == x + "\0" + pad2;
  }

  /** A rule file in which the search for a label stops too early: at the first rule, whose first
      string is the label's text, and not at the second, which has the label. */
  lemma GotoMistakesARule(cfg: Config)
    ensures var p := Pack(Compiled(MistakenLines(), cfg));
            && Chain(p, 0) && 0 < |p.buf| && FindLabel(p, 0, "x") == 0
            && LABEL !in p.headers[0].single && LabelledAt(p, 0, "x") == After(p, 0) < |p.buf|
  {
    MistakenCompiled(cfg);
    var r1, r2 := AddKey(EMPTY_RULE, KERNEL, MATCH, "x"), AddKey(EMPTY_RULE, LABEL, ASSIGN, "x");
    PackTwo(r1, r2);
    assert r1.data == "x" + "\0" && r2.data == "x" + "\0";
    assert LABEL !in r1.header.single && LABEL in r2.header.single && r2.header.single[LABEL].off == 0;
    hide Compiled, MistakenLines, Pack, AddKey;
    SecondIsLabelled(r1, r2, "x");
  }

  lemma SecondIsLabelled(r1: Rule, r2: Rule, x: string)
    requires r1.data == x + "\0" && r2.data == x + "\0" && '\0' !in x
    requires LABEL !in r1.header.single && LABEL in r2.header.single && r2.header.single[LABEL].off == 0
    ensures var p := Append(Append(NOTHING, r1), r2);
            && Chain(p, 0) && 0 < |p.buf| && FindLabel(p, 0, x) == 0 && RuleAt(p, 0)
            && LABEL !in p.headers[0].single && LabelledAt(p, 0, x) == After(p, 0) < |p.buf|
  {
    TwoRules(r1, r2, x);
    var p1 := Append(NOTHING, r1);
    var p := Append(p1, r2);
    var at := |p1.buf|;
    assert LABEL !in FinalHeader(r1).single && LABEL in FinalHeader(r2).single && FinalHeader(r2).single[LABEL].off == 0;
    hide Append, Chain, FinalHeader, LabelOf, FindLabel, LabelledAt;
    var more1 :| p.buf[HEADER..] == x + "\0" + more1;
    var more2 :| p.buf[at + HEADER..] == x + "\0" + more2;
    FirstStringIsLabel(p, 0, x, more1);
    FirstStringIsLabel(p, at, x, more2);
    SecondHasLabel(p, at, x);
  }

  lemma SecondHasLabel(p: Packed, at: nat, goal: string)
    requires Chain(p, 0) && RuleAt(p, 0) && After(p, 0) == at < |p.buf| && RuleAt(p, at)
    requires LabelOf(p, 0) == goal && LabelOf(p, at) == goal
    requires LABEL !in p.headers[0].single && LABEL in p.headers[at].single
    ensures FindLabel(p, 0, goal) == 0 && LabelledAt(p, 0, goal) == at
  {
    hide LabelOf;
  }

  lemma PackTwo(r1: Rule, r2: Rule)
    ensures Pack([r1, r2]) == Append(Append(NOTHING, r1), r2)
  {
    hide Append;
    var rules := [r1, r2];
    assert rules[..1] == [r1] && [r1][..0] == [];
    assert Pack([]) == NOTHING;
    assert Pack([r1]) == Append(NOTHING, r1);
  }

  // ---------------------------------------------------------------- the iterator

  class Rules {
    var p: Packed
    var current: nat
    const cfg: Config

    ghost predicate Valid()
      reads this
    {
      Chain(p, current) && Chain(p, 0) && current <= |p.buf|
    }

    constructor (cfg: Config)
      ensures Valid() && p == NOTHING && current == 0 && this.cfg == cfg
    {
      p, current := NOTHING, 0;
      this.cfg := cfg;
    }

    /** The loop over the keys of a line. */
    method CompileKeys(line: string) returns (b: Option<Build>)
      ensures b == Compile(Build(EMPTY_RULE, false, false), line, cfg)
    {
      hide GetKey, ApplyToken;
      var build := Build(EMPTY_RULE, false, false);
      var linepos := 0;
      assert line[0..] == line;
      while true
        invariant linepos <= |line|
        invariant Compile(Build(EMPTY_RULE, false, false), line, cfg) == Compile(build, line[linepos..], cfg)
        decreases |line| - linepos
      {
        var t, next := GetKeyAt(line, linepos);
        TokenTakes(line[linepos..]);
        if t.None? {
          return Some(build);
        }
        var b1 := ApplyToken(build, t.value, cfg);
        if b1.None? {
          return None;
        }
        build := b1.value;
        linepos := next;
      }
    }

    /** add_to_rules. */
    method AddToRules(line: string) returns (ok: bool)
      requires Valid() && current == 0
      modifies this`p
      ensures Valid()
      ensures var r := CompileLine(line, cfg);
              ok == r.Some? && p == if r.Some? then Append(old(p), r.value) else old(p)
      ensures LineSays(ok, line, p, |old(p.buf)|, cfg)
    {
      AppendedSays(p, line, cfg);
      hide Compile, LineSays, Append;
      var b := CompileKeys(line);
      if b.None? || !b.value.valid {
        return false;
      }
      AppendRule(b.value.rule);
      return true;
    }

    /** The packing: padded to the alignment, behind the rules before. */
    method AppendRule(r: Rule)
      requires Valid() && current == 0
      modifies this`p
      ensures Valid() && p == Append(old(p), r)
    {
      var ruleSize := HEADER + |r.data|;
      var padding := (ALIGN - ruleSize % ALIGN) % ALIGN;
      ruleSize := ruleSize + padding;
      AppendKeepsChain(p, r, 0);
      p := Packed(p.buf + Zeros(HEADER) + (r.data + Zeros(padding)),
                  p.headers[|p.buf| := r.header.(bufsize := |r.data| + padding)]);
    }

    method IterInit()
      requires Valid()
      modifies this`current
      ensures Valid() && current == 0
    {
      current := 0;
    }

    /** udev_rules_iter_next: the rule at the position, which moves behind it. */
    method IterNext() returns (at: Option<nat>)
      requires Valid()
      modifies this`current
      ensures Valid()
      ensures at == if old(current) == |p.buf| then None else Some(old(current))
      ensures at.Some? ==> RuleAt(p, at.value) && current == After(p, at.value) && current > old(current)
      ensures at.None? ==> current == old(current)
    {
      if current >= |p.buf| {
        return None;
      }
      at := Some(current);
      current := current + HEADER + p.headers[current].bufsize;
    }

    /** udev_rules_iter_label: moves to the rule with the label, without passing it. */
    method IterLabel(goal: string) returns (at: Option<nat>)
      requires Valid()
      modifies this`current
      ensures Valid() && current == FindLabel(p, old(current), goal) && current >= old(current)
      ensures at == if current == |p.buf| then None else Some(current)
    {
      hide LabelOf;
      while current < |p.buf|
        invariant Valid() && current >= old(current)
        invariant FindLabel(p, old(current), goal) == FindLabel(p, current, goal)
        decreases |p.buf| - current
      {
        if LabelOf(p, current) == goal {
          return Some(current);
        }
        current := current + HEADER + p.headers[current].bufsize;
      }
      return None;
    }
  }
}
