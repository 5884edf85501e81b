/** What the rules do to a device, said without the functions that apply them: the texts found in a
    rule, the words of a list of links, the setting that each operator makes, where the walk goes
    on and where it ends. RulesWalkModel takes the steps; here they are shown to mean this. */
module RulesEffect {
  import opened Basics
  import opened RuleText
  import opened RulesCompiler
  import opened RulesBuffer
  import opened RulesWalkModel
  import DbRecord

  // ---------------------------------------------------------------- texts in a rule

  /** word stands in s at position i. */
  predicate OccursAt(s: string, word: string, i: nat) {
    i + |word| <= |s| && s[i..i + |word|] == word
  }

  lemma OccursLater(s: string, word: string, i: nat)
    requires s != ""
    ensures OccursAt(s, word, i + 1) <==> OccursAt(s[1..], word, i)
  {
    if i + 1 + |word| <= |s| {
      assert s[1..][i..i + |word|] == s[i + 1..i + 1 + |word|];
    }
  }

  lemma NowhereLater(s: string, word: string)
    requires s != "" && !(word <= s)
    ensures (forall i: nat :: !OccursAt(s, word, i)) <==> forall i: nat :: !OccursAt(s[1..], word, i)
  {
    assert !OccursAt(s, word, 0);
    if i: nat :| OccursAt(s[1..], word, i) {
      OccursLater(s, word, i);
    }
    if i: nat :| OccursAt(s, word, i) {
      OccursLater(s, word, i - 1);
    }
  }

  lemma {:induction false} ContainsMeaning(s: string, word: string)
    ensures Contains(s, word) <==> exists i: nat :: OccursAt(s, word, i)
  {
    if word <= s {
      assert OccursAt(s, word, 0);
    } else if s != "" {
      NowhereLater(s, word);
      ContainsMeaning(s[1..], word);
      hide OccursAt;
    }
  }

  /** The first place where word stands in s. */
  ghost predicate FirstAt(s: string, word: string, i: nat) {
    OccursAt(s, word, i) && forall j: nat :: j < i ==> !OccursAt(s, word, j)
  }

  lemma FirstLater(s: string, word: string, i: nat)
    requires s != "" && FirstAt(s, word, i) && !(word <= s)
    ensures i > 0 && FirstAt(s[1..], word, i - 1)
  {
    assert i != 0;
    OccursLater(s, word, i - 1);
    forall j: nat | j < i - 1
      ensures !OccursAt(s[1..], word, j)
    {
      OccursLater(s, word, j);
    }
  }

  lemma {:induction false} BehindMeaning(s: string, word: string)
    ensures Behind(s, word).None? <==> forall i: nat :: !OccursAt(s, word, i)
    ensures forall i: nat :: FirstAt(s, word, i) ==> Behind(s, word) == Some(s[i + |word|..])
  {
    if word <= s {
      assert OccursAt(s, word, 0);
    } else if s != "" {
      BehindMeaning(s[1..], word);
      NowhereLater(s, word);
      hide OccursAt;
      forall i: nat | FirstAt(s, word, i)
        ensures Behind(s, word) == Some(s[i + |word|..])
      {
        assert OccursAt(s, word, i);
        FirstLater(s, word, i);
        OccursInside(s, word, i);
        assert s[1..][i - 1 + |word|..] == s[i + |word|..];
      }
    }
  }

  lemma OccursInside(s: string, word: string, i: nat)
    requires OccursAt(s, word, i)
    ensures i + |word| <= |s|
  {
  }

  /** One of the options given contains the word. */
  ghost predicate Mentions(h: Header, word: string) {
    exists k, i: nat :: 0 <= k < |h.options| && OccursAt(h.options[k], word, i)
  }

  /** The attribute of a NAME key contains the word. */
  ghost predicate NameHints(h: Header, word: string) {
    exists k, i: nat :: 0 <= k < |h.hints| && h.hints[k].0 == NAME && OccursAt(h.hints[k].1, word, i)
  }

  lemma OptionMeaning(h: Header, word: string)
    ensures HasOption(h, word) <==> Mentions(h, word)
  {
    forall k | 0 <= k < |h.options|
      ensures Contains(h.options[k], word) <==> exists i: nat :: OccursAt(h.options[k], word, i)
    {
      ContainsMeaning(h.options[k], word);
    }
    hide Contains, OccursAt;
  }

  lemma HintMeaning(h: Header, word: string)
    ensures HasHint(h, NAME, word) <==> NameHints(h, word)
  {
    forall k | 0 <= k < |h.hints|
      ensures Contains(h.hints[k].1, word) <==> exists i: nat :: OccursAt(h.hints[k].1, word, i)
    {
      ContainsMeaning(h.hints[k].1, word);
    }
    hide Contains, OccursAt;
  }

  /** In the last of the options that has it, priority stands first at position i. */
  ghost predicate PriorityAt(options: seq<string>, k: nat, i: nat) {
    && k < |options| && FirstAt(options[k], "link_priority=", i)
    && forall l, j: nat :: k < l < |options| ==> !OccursAt(options[l], "link_priority=", j)
  }

  lemma {:induction false} PriorityMeaning(options: seq<string>)
    ensures (forall l, j: nat :: 0 <= l < |options| ==> !OccursAt(options[l], "link_priority=", j)) ==>
              LinkPriority(options) == 0
    ensures forall k: nat, i: nat :: PriorityAt(options, k, i) ==>
              LinkPriority(options) == DbRecord.Atoi(options[k][i + 14..])
    decreases |options|
  {
    if options != [] {
      var front, last := options[..|options| - 1], options[|options| - 1];
      BehindMeaning(last, "link_priority=");
      PriorityMeaning(front);
      hide Behind, OccursAt, DbRecord.Atoi;
      forall k: nat, i: nat | PriorityAt(options, k, i)
        ensures LinkPriority(options) == DbRecord.Atoi(options[k][i + 14..])
      {
        if k < |front| {
          assert forall l, j: nat :: k < l < |front| ==> !OccursAt(front[l], "link_priority=", j);
          assert front[k] == options[k];
          assert PriorityAt(front, k, i);
        }
      }
    }
  }

  // ---------------------------------------------------------------- modes

  function OctalText(n: nat): (s: string)
    ensures s != "" && forall i :: 0 <= i < |s| ==> '0' <= s[i] <= '7'
  {
    if n < 8 then [('0' as int + n) as char] else OctalText(n / 8) + [('0' as int + n % 8) as char]
  }

  lemma {:induction false} OctalAppend(s: string, c: char, rest: string, acc: nat)
    requires forall i :: 0 <= i < |s| ==> '0' <= s[i] <= '7'
    requires '0' <= c <= '7' && (rest == "" || !('0' <= rest[0] <= '7'))
    ensures Octal(s + [c] + rest, acc) == 8 * Octal(s, acc) + (c as int - '0' as int)
  {
    if s == "" {
      assert (s + [c] + rest)[1..] == rest;
    } else {
      assert (s + [c] + rest)[1..] == s[1..] + [c] + rest;
      OctalAppend(s[1..], c, rest, 8 * acc + (s[0] as int - '0' as int));
    }
  }

  /** A mode written in octal is the mode that is read, whatever follows its digits. */
  lemma {:induction false} OctalReadsBack(n: nat, rest: string)
    requires rest == "" || !('0' <= rest[0] <= '7')
    ensures Octal(OctalText(n) + rest, 0) == n
    decreases n
  {
    if n < 8 {
      var c := ('0' as int + n) as char;
      assert OctalText(n) + rest == "" + [c] + rest;
      OctalAppend("", c, rest, 0);
    } else {
      OctalReadsBack(n / 8, "");
      assert OctalText(n / 8) + "" == OctalText(n / 8);
      OctalAppend(OctalText(n / 8), ('0' as int + n % 8) as char, rest, 0);
    }
  }

  // ---------------------------------------------------------------- the words of a text

  predicate Blank(s: string) {
    forall i :: 0 <= i < |s| ==> IsSpace(s[i])
  }

  /** A word has no blank inside it and does not begin with white space. */
  predicate IsWord(s: string) {
    s != "" && !IsSpace(s[0]) && ' ' !in s
  }

  /** White space that ends a word begins with a blank. */
  predicate IsGap(s: string) {
    s != "" && s[0] == ' ' && Blank(s)
  }

  /** Words with white space before, between and behind them. */
  function Spread(gaps: seq<string>, words: seq<string>): string
    requires |gaps| == |words| + 1
    decreases |words|
  {
    if words == [] then gaps[0] else gaps[0] + (words[0] + Spread(gaps[1..], words[1..]))
  }

  predicate SpreadOk(gaps: seq<string>, words: seq<string>) {
    && |gaps| == |words| + 1 && Blank(gaps[0])
    && (forall k :: 0 <= k < |words| ==> IsWord(words[k]))
    && (forall k :: 1 <= k < |words| ==> IsGap(gaps[k]))
    && (words != [] ==> gaps[|words|] == "" || IsGap(gaps[|words|]))
  }

  lemma {:induction false} SkipBlank(gap: string, s: string)
    requires Blank(gap) && (s == "" || !IsSpace(s[0]))
    ensures SkipSpace(gap + s) == s
  {
    if gap == "" {
      assert gap + s == s;
    } else {
      assert (gap + s)[1..] == gap[1..] + s;
      SkipBlank(gap[1..], s);
    }
  }

  lemma {:induction false} NoBlankIn(s: string, i: nat, e: nat)
    requires i <= e <= |s| && (e < |s| ==> s[e] == ' ') && forall k :: i <= k < e ==> s[k] != ' '
    ensures FindChar(s, ' ', i) == if e < |s| then Some(e) else None
    decreases e - i
  {
    if i < e {
      NoBlankIn(s, i + 1, e);
    }
  }

  lemma FirstWord(gap: string, word: string, rest: string)
    requires Blank(gap) && IsWord(word) && (rest == "" || rest[0] == ' ')
    ensures Words(gap + (word + rest)) == [word] + (if rest == "" then [] else Words(rest[1..]))
  {
    var t := word + rest;
    SkipBlank(gap, t);
    assert forall k :: 0 <= k < |word| ==> t[k] == word[k];
    NoBlankIn(t, 0, |word|);
    assert t[..|word|] == word;
    if rest == "" {
      assert t == word;
    } else {
      assert t[|word| + 1..] == rest[1..];
    }
  }

  lemma {:induction false} WordsOfBlank(gap: string)
    requires Blank(gap)
    ensures Words(gap) == []
  {
    SkipBlank(gap, "");
    assert gap + "" == gap;
  }

  /** The words found in a text are the words it was made of, whatever white space is around them. */
  lemma {:induction false} WordsReadBack(gaps: seq<string>, words: seq<string>)
    requires SpreadOk(gaps, words)
    ensures Words(Spread(gaps, words)) == words
    decreases |words|
  {
    if words == [] {
      WordsOfBlank(gaps[0]);
    } else {
      var rest := Spread(gaps[1..], words[1..]);
      SpreadBegins(gaps, words);
      FirstWord(gaps[0], words[0], rest);
      hide Words;
      if rest != "" {
        var gaps' := [gaps[1][1..]] + gaps[2..];
        SpreadShortened(gaps, words);
        WordsReadBack(gaps', words[1..]);
      }
      assert words == [words[0]] + words[1..];
    }
  }

  lemma SpreadShortened(gaps: seq<string>, words: seq<string>)
    requires SpreadOk(gaps, words) && words != [] && gaps[1] != ""
    ensures var gaps', rest := [gaps[1][1..]] + gaps[2..], Spread(gaps[1..], words[1..]);
            SpreadOk(gaps', words[1..]) && rest != "" && rest[1..] == Spread(gaps', words[1..])
  {
    var gaps' := [gaps[1][1..]] + gaps[2..];
    assert forall k :: 1 <= k < |gaps'| ==> gaps'[k] == gaps[k + 1];
    assert gaps[1..][1..] == gaps'[1..];
  }

  lemma SpreadBegins(gaps: seq<string>, words: seq<string>)
    requires SpreadOk(gaps, words) && words != []
    ensures var rest := Spread(gaps[1..], words[1..]);
            && (rest == "" ==> words[1..] == [])
            && (rest != "" ==> gaps[1] != "" && rest[0] == gaps[1][0] == ' ')
  {
    var g, w := gaps[1..], words[1..];
    assert g[0] == gaps[1];
    if w != [] {
      assert IsGap(gaps[1]);
    }
  }

  // ---------------------------------------------------------------- lists without doubles

  /** A list after names have been added one by one: the old entries stay in front; every name is
      there once; those that are new stand in the order in which they first occur. */
  ghost predicate Added(list: seq<string>, names: seq<string>, list': seq<string>) {
    && list <= list'
    && (forall x :: x in list' <==> x in list || x in names)
    && (forall i, j :: |list| <= i < |list'| && 0 <= j < i ==> list'[j] != list'[i])
    && (forall i, j, l :: |list| <= i < j < |list'| && 0 <= l < |names| && names[l] == list'[j] ==>
          list'[i] in names[..l])
  }

  lemma {:induction false} AddNamesMeaning(list: seq<string>, names: seq<string>)
    ensures Added(list, names, AddNames(list, names))
    decreases |names|
  {
    if names != [] {
      var n, rest := names[0], names[1..];
      var list1 := DbRecord.AddName(list, n);
      AddNamesMeaning(list1, rest);
      assert names == [n] + rest;
      hide AddNames;
      AddedFirst(list, n, rest, AddNames(list1, rest));
    }
  }

  lemma AddedFirst(list: seq<string>, n: string, rest: seq<string>, list': seq<string>)
    requires Added(if n in list then list else list + [n], rest, list')
    ensures Added(list, [n] + rest, list')
  {
    var names := [n] + rest;
    var list1 := if n in list then list else list + [n];
    assert list <= list1 <= list';
    assert forall x :: x in list' <==> x in list || x in names;
    forall i, j | |list| <= i < |list'| && 0 <= j < i
      ensures list'[j] != list'[i]
    {
      if i < |list1| {
        assert list'[i] == n && list'[j] == list[j];
      }
    }
    forall i, j, l | |list| <= i < j < |list'| && 0 <= l < |names| && names[l] == list'[j]
      ensures list'[i] in names[..l]
    {
      AddedInOrder(list1, n, rest, list', i, j, l);
    }
  }

  lemma AddedInOrder(list: seq<string>, n: string, rest: seq<string>, list': seq<string>, i: nat, j: nat, l: nat)
    requires Added(list, rest, list') && n in list
    requires i < j < |list'| && |list| <= j && (i < |list| ==> list'[i] == n)
    requires l < |rest| + 1 && ([n] + rest)[l] == list'[j]
    ensures list'[i] in ([n] + rest)[..l]
  {
    NotFirst(list, list', n, j);
    assert l > 0 && rest[l - 1] == list'[j];
    assert ([n] + rest)[..l] == [n] + rest[..l - 1];
  }

  lemma NotFirst(list: seq<string>, list': seq<string>, n: string, j: nat)
    requires list <= list' && n in list && |list| <= j < |list'|
    requires forall i, j :: |list| <= i < |list'| && 0 <= j < i ==> list'[j] != list'[i]
    ensures list'[j] != n
  {
    var k :| 0 <= k < |list| && list[k] == n;
    assert list'[k] == n;
  }

  // ---------------------------------------------------------------- what applying a rule does

  /** The operator and the text that a rule has for a key. */
  ghost predicate Says(p: Packed, at: nat, slot: Slot, op: Op, value: string) {
    at in p.headers && slot in p.headers[at].single && p.headers[at].single[slot].op == op
    && value == StringOf(p, at, p.headers[at].single[slot].off)
  }

  predicate Unsaid(p: Packed, at: nat, slot: Slot) {
    at in p.headers && (slot !in p.headers[at].single || p.headers[at].single[slot].op == UNSET)
  }

  /** The options of a rule, for a device m that becomes d. */
  ghost predicate OptionsTaken(h: Header, m: Device, d: Device) {
    && (d.ignoreRemove <==> m.ignoreRemove || Mentions(h, "ignore_remove") || NameHints(h, "ignore_remove"))
    && d.partitions == (if m.mainBlock && (Mentions(h, "all_partitions") || NameHints(h, "all_partitions")) then 15
                        else m.partitions)
    && (!Mentions(h, "link_priority=") ==> d.linkPriority == m.linkPriority)
    && (forall k: nat, i: nat :: PriorityAt(h.options, k, i) ==>
          var n := DbRecord.Atoi(h.options[k][i + 14..]);
          d.linkPriority == if n != 0 then n else m.linkPriority)
  }

  /** A mode of 0 is no mode. */
  ghost predicate ModeTaken(h: Header, m: Device, d: Device) {
    if m.modeFinal || h.mode.None? || Octal(SkipSpace(h.mode.value.1), 0) == 0 then
      d.mode == m.mode && d.modeFinal == m.modeFinal
    else
      d.mode == Octal(SkipSpace(h.mode.value.1), 0) && (d.modeFinal <==> h.mode.value.0 == ASSIGN_FINAL)
  }

  /** A setting with one value: final is whether it was final before, text what is set. */
  predicate OneTaken(final: bool, op: Op, before: string, text: string, after: string, finalAfter: bool) {
    if final then after == before && finalAfter
    else after == text && (finalAfter <==> op == ASSIGN_FINAL)
  }

  /** A list: "=" and ":=" begin anew, any other operator adds to what is there. */
  ghost predicate ListTaken(final: bool, op: Op, before: seq<string>, names: seq<string>, after: seq<string>,
                            finalAfter: bool) {
    if final then after == before && finalAfter
    else Added(if op == ASSIGN || op == ASSIGN_FINAL then [] else before, names, after)
         && (finalAfter <==> op == ASSIGN_FINAL)
  }

  /** The device while a rule is being applied: the settings up to a key are those of d, the others
      still those of m. */
  function UpToMode(m: Device, d: Device): Device {
    m.(ignoreRemove := d.ignoreRemove, linkPriority := d.linkPriority, partitions := d.partitions,
       mode := d.mode, modeFinal := d.modeFinal)
  }

  function UpToOwner(m: Device, d: Device): Device {
    UpToMode(m, d).(owner := d.owner, ownerFinal := d.ownerFinal)
  }

  function UpToGroup(m: Device, d: Device): Device {
    UpToOwner(m, d).(group := d.group, groupFinal := d.groupFinal)
  }

  function UpToLinks(m: Device, d: Device): Device {
    UpToGroup(m, d).(symlinks := d.symlinks, symlinkFinal := d.symlinkFinal)
  }

  ghost predicate OwnerTaken(p: Packed, at: nat, env: Env, m: Device, d: Device) {
    && (Unsaid(p, at, OWNER) ==> d.owner == m.owner && d.ownerFinal == m.ownerFinal)
    && (forall op, v :: Says(p, at, OWNER, op, v) && op != UNSET ==>
          OneTaken(m.ownerFinal, op, m.owner, env.text(at, OWNER, v, UpToMode(m, d)), d.owner, d.ownerFinal))
  }

  ghost predicate GroupTaken(p: Packed, at: nat, env: Env, m: Device, d: Device) {
    && (Unsaid(p, at, GROUP) ==> d.group == m.group && d.groupFinal == m.groupFinal)
    && (forall op, v :: Says(p, at, GROUP, op, v) && op != UNSET ==>
          OneTaken(m.groupFinal, op, m.group, env.text(at, GROUP, v, UpToOwner(m, d)), d.group, d.groupFinal))
  }

  /** The links are the words of the text. */
  ghost predicate LinksTaken(p: Packed, at: nat, env: Env, m: Device, d: Device) {
    && (Unsaid(p, at, SYMLINK) ==> d.symlinks == m.symlinks && d.symlinkFinal == m.symlinkFinal)
    && (forall op, v :: Says(p, at, SYMLINK, op, v) && op != UNSET ==>
          ListTaken(m.symlinkFinal, op, m.symlinks, Words(env.text(at, SYMLINK, v, UpToGroup(m, d))),
                    d.symlinks, d.symlinkFinal))
  }

  /** The name is set by any of the three assigning operators. */
  ghost predicate NameTaken(p: Packed, at: nat, env: Env, m: Device, d: Device) {
    && (!SetsName(p, at) ==> d.name == m.name)
    && (forall op, v :: Says(p, at, NAME, op, v) && SetsName(p, at) ==>
          d.name == env.text(at, NAME, v, UpToLinks(m, d)))
  }

  predicate SetsName(p: Packed, at: nat) {
    at in p.headers && NAME in p.headers[at].single &&
    var op := p.headers[at].single[NAME].op;
    op != UNSET && op != MATCH && op != NOMATCH
  }

  /** One program, as it stands in the rule. */
  ghost predicate RunTaken(p: Packed, at: nat, m: Device, d: Device) {
    && (Unsaid(p, at, RUN) ==> d.runList == m.runList && d.runFinal == m.runFinal)
    && (forall op, v :: Says(p, at, RUN, op, v) && op != UNSET ==>
          ListTaken(m.runFinal, op, m.runList, [v], d.runList, d.runFinal))
  }

  /** Everything a rule does to a device m that matches it, and nothing else. */
  ghost predicate Applied(p: Packed, at: nat, env: Env, m: Device, d: Device) {
    && at in p.headers
    && d == UpToLinks(m, d).(name := d.name, runList := d.runList, runFinal := d.runFinal)
    && OptionsTaken(p.headers[at], m, d) && ModeTaken(p.headers[at], m, d)
    && OwnerTaken(p, at, env, m, d) && GroupTaken(p, at, env, m, d) && LinksTaken(p, at, env, m, d)
    && NameTaken(p, at, env, m, d) && RunTaken(p, at, m, d)
  }

  lemma OptionsApplied(h: Header, m: Device)
    ensures OptionsTaken(h, m, ApplyOptions(m, h))
  {
    OptionMeaning(h, "ignore_remove");
    OptionMeaning(h, "all_partitions");
    HintMeaning(h, "ignore_remove");
    HintMeaning(h, "all_partitions");
    PriorityMeaning(h.options);
    NoPriority(h);
    hide HasOption, HasHint, LinkPriority, Mentions, NameHints, PriorityAt, DbRecord.Atoi;
  }

  lemma NoPriority(h: Header)
    ensures !Mentions(h, "link_priority=") ==> LinkPriority(h.options) == 0
  {
    PriorityMeaning(h.options);
    hide LinkPriority, PriorityAt, OccursAt;
  }

  lemma SaysOp(p: Packed, at: nat, slot: Slot)
    requires at in p.headers
    ensures Unsaid(p, at, slot) <==> OpOf(p.headers[at], slot) == UNSET
    ensures forall op, v :: Says(p, at, slot, op, v) ==> OpOf(p.headers[at], slot) == op && ValueOf(p, at, slot) == v
  {
    hide StringOf;
  }

  lemma NamingMeaning(p: Packed, at: nat)
    requires at in p.headers
    ensures Naming(p.headers[at]) <==> SetsName(p, at)
  {
  }

  lemma ModeApplied(h: Header, m: Device)
    ensures ModeTaken(h, m, ApplyMode(m, h))
  {
    hide Octal, SkipSpace;
  }

  lemma OwnerApplied(p: Packed, at: nat, env: Env, m: Device)
    requires at in p.headers
    ensures var d := ApplyOwner(m, p, at, env);
            && (Unsaid(p, at, OWNER) ==> d == m)
            && (forall op, v :: Says(p, at, OWNER, op, v) && op != UNSET ==>
                  OneTaken(m.ownerFinal, op, m.owner, env.text(at, OWNER, v, m), d.owner, d.ownerFinal))
  {
    SaysOp(p, at, OWNER);
    hide Says, Unsaid, OpOf, ValueOf, StringOf;
  }

  lemma GroupApplied(p: Packed, at: nat, env: Env, m: Device)
    requires at in p.headers
    ensures var d := ApplyGroup(m, p, at, env);
            && (Unsaid(p, at, GROUP) ==> d == m)
            && (forall op, v :: Says(p, at, GROUP, op, v) && op != UNSET ==>
                  OneTaken(m.groupFinal, op, m.group, env.text(at, GROUP, v, m), d.group, d.groupFinal))
  {
    SaysOp(p, at, GROUP);
    hide Says, Unsaid, OpOf, ValueOf, StringOf;
  }

  lemma LinksApplied(p: Packed, at: nat, env: Env, m: Device)
    requires at in p.headers
    ensures var d := ApplySymlinks(m, p, at, env);
            && (Unsaid(p, at, SYMLINK) ==> d == m)
            && (forall op, v :: Says(p, at, SYMLINK, op, v) && op != UNSET ==>
                  ListTaken(m.symlinkFinal, op, m.symlinks, Words(env.text(at, SYMLINK, v, m)),
                            d.symlinks, d.symlinkFinal))
  {
    SaysOp(p, at, SYMLINK);
    var op := OpOf(p.headers[at], SYMLINK);
    AddNamesMeaning(if op == ASSIGN || op == ASSIGN_FINAL then [] else m.symlinks,
                    Words(env.text(at, SYMLINK, ValueOf(p, at, SYMLINK), m)));
    hide Says, Unsaid, OpOf, ValueOf, Added, AddNames, Words;
  }

  lemma RunApplied(p: Packed, at: nat, m: Device)
    requires at in p.headers
    ensures RunTaken(p, at, m, ApplyRun(m, p, at))
  {
    SaysOp(p, at, RUN);
    var op, v := OpOf(p.headers[at], RUN), ValueOf(p, at, RUN);
    RunMeans(m, op, v);
    hide Says, Unsaid, OpOf, ValueOf, ListTaken;
  }

  lemma RunMeans(m: Device, op: Op, v: string)
    ensures var after := if m.runFinal then m.runList
                         else DbRecord.AddName(if op == ASSIGN || op == ASSIGN_FINAL then [] else m.runList, v);
            ListTaken(m.runFinal, op, m.runList, [v], after, m.runFinal || op == ASSIGN_FINAL)
  {
    AddOneMeaning(if op == ASSIGN || op == ASSIGN_FINAL then [] else m.runList, v);
    hide DbRecord.AddName, Added;
  }

  lemma AddOneMeaning(list: seq<string>, name: string)
    ensures Added(list, [name], DbRecord.AddName(list, name))
  {
    AddNamesMeaning(list, [name]);
    assert [name][1..] == [];
    assert AddNames(DbRecord.AddName(list, name), []) == DbRecord.AddName(list, name);
    hide DbRecord.AddName, Added;
    assert AddNames(list, [name]) == AddNames(DbRecord.AddName(list, [name][0]), [name][1..]);
  }

  lemma NameApplied(p: Packed, at: nat, env: Env, m: Device)
    requires at in p.headers
    ensures var d := ApplyName(m, p, at, env);
            && (!SetsName(p, at) ==> d == m)
            && (forall op, v :: Says(p, at, NAME, op, v) && SetsName(p, at) ==> d.name == env.text(at, NAME, v, m))
  {
    SaysOp(p, at, NAME);
    NamingMeaning(p, at);
    hide Says, Naming, SetsName, ValueOf;
  }

  /** Each key finds the device as the keys before it left it. */
  lemma Stages(m: Device, p: Packed, at: nat, env: Env)
    requires at in p.headers
    ensures var d := Apply(m, p, at, env);
            && UpToMode(m, d) == ApplyMode(ApplyOptions(m, p.headers[at]), p.headers[at])
            && UpToOwner(m, d) == ApplyOwner(UpToMode(m, d), p, at, env)
            && UpToGroup(m, d) == ApplyGroup(UpToOwner(m, d), p, at, env)
            && UpToLinks(m, d) == ApplySymlinks(UpToGroup(m, d), p, at, env)
            && UpToLinks(m, d).(name := d.name) == ApplyName(UpToLinks(m, d), p, at, env)
            && d == ApplyRun(UpToLinks(m, d).(name := d.name), p, at)
  {
    var d1 := ApplyMode(ApplyOptions(m, p.headers[at]), p.headers[at]);
    var d2 := ApplyOwner(d1, p, at, env);
    var d3 := ApplyGroup(d2, p, at, env);
    var d4 := ApplySymlinks(d3, p, at, env);
    var d5 := ApplyName(d4, p, at, env);
    var d := ApplyRun(d5, p, at);
    hide ApplyOptions, ApplyMode, ApplyOwner, ApplyGroup, ApplySymlinks, ApplyName, ApplyRun;
    assert Apply(m, p, at, env) == d;
    hide Apply;
    assert UpToMode(m, d) == d1;
    assert UpToOwner(m, d) == d2;
    assert UpToGroup(m, d) == d3;
    assert UpToLinks(m, d) == d4;
  }

  lemma ApplyMeans1(p: Packed, at: nat, env: Env, m: Device)
    requires at in p.headers
    ensures var d := Apply(m, p, at, env);
            OptionsTaken(p.headers[at], m, d) && ModeTaken(p.headers[at], m, d)
  {
    var h := p.headers[at];
    Stages(m, p, at, env);
    OptionsApplied(h, m);
    ModeApplied(h, ApplyOptions(m, h));
    hide Apply, ApplyMode, ApplyOptions, ApplyOwner, ApplyGroup, ApplySymlinks, ApplyName, ApplyRun;
    hide UpToOwner, UpToGroup, UpToLinks, Mentions, NameHints, PriorityAt, Octal, SkipSpace, DbRecord.Atoi;
  }

  lemma ApplyMeans2(p: Packed, at: nat, env: Env, m: Device)
    requires at in p.headers
    ensures var d := Apply(m, p, at, env); OwnerTaken(p, at, env, m, d) && GroupTaken(p, at, env, m, d)
  {
    Stages(m, p, at, env);
    var d := Apply(m, p, at, env);
    OwnerApplied(p, at, env, UpToMode(m, d));
    GroupApplied(p, at, env, UpToOwner(m, d));
    hide Apply, ApplyMode, ApplyOptions, ApplyOwner, ApplyGroup, ApplySymlinks, ApplyName, ApplyRun;
    hide UpToLinks, Says, Unsaid, OneTaken;
  }

  lemma ApplyMeans3(p: Packed, at: nat, env: Env, m: Device)
    requires at in p.headers
    ensures var d := Apply(m, p, at, env); LinksTaken(p, at, env, m, d)
  {
    Stages(m, p, at, env);
    var d := Apply(m, p, at, env);
    LinksApplied(p, at, env, UpToGroup(m, d));
    hide Apply, ApplyMode, ApplyOptions, ApplyOwner, ApplyGroup, ApplySymlinks, ApplyName, ApplyRun;
    hide Says, Unsaid, ListTaken, Words;
  }

  lemma ApplyMeans4(p: Packed, at: nat, env: Env, m: Device)
    requires at in p.headers
    ensures var d := Apply(m, p, at, env); NameTaken(p, at, env, m, d) && RunTaken(p, at, m, d)
  {
    Stages(m, p, at, env);
    var d := Apply(m, p, at, env);
    NameApplied(p, at, env, UpToLinks(m, d));
    RunApplied(p, at, UpToLinks(m, d).(name := d.name));
    hide Apply, ApplyMode, ApplyOptions, ApplyOwner, ApplyGroup, ApplySymlinks, ApplyName, ApplyRun;
    hide Says, Unsaid, SetsName, ListTaken;
  }

  /** Applying a rule does exactly what its keys say. */
  lemma ApplyMeans(p: Packed, at: nat, env: Env, m: Device)
    requires at in p.headers
    ensures Applied(p, at, env, m, Apply(m, p, at, env))
  {
    var d := Apply(m, p, at, env);
    ApplyMeans1(p, at, env, m);
    ApplyMeans2(p, at, env, m);
    ApplyMeans3(p, at, env, m);
    ApplyMeans4(p, at, env, m);
    Stages(m, p, at, env);
    hide OptionsTaken, ModeTaken, OwnerTaken, GroupTaken, LinksTaken, NameTaken, RunTaken, UpToLinks;
    hide Apply, ApplyMode, ApplyOptions, ApplyOwner, ApplyGroup, ApplySymlinks, ApplyName, ApplyRun;
  }

  // ---------------------------------------------------------------- where the walk goes on

  /** next is the first rule from at on that is found under the label, or the end of the rules. */
  ghost predicate GoesTo(p: Packed, at: nat, goal: string, next: nat) {
    && Chain(p, at) && (next == |p.buf| || next in Offsets(p, at))
    && (next != |p.buf| ==> RuleAt(p, next) && LabelOf(p, next) == goal)
    && forall k :: 0 <= k < |Offsets(p, at)| && Offsets(p, at)[k] < next ==>
         RuleAt(p, Offsets(p, at)[k]) && LabelOf(p, Offsets(p, at)[k]) != goal
  }

  lemma {:induction false} FindLabelMeaning(p: Packed, at: nat, goal: string)
    requires Chain(p, at) && at <= |p.buf|
    ensures GoesTo(p, at, goal, FindLabel(p, at, goal))
    decreases |p.buf| - at
  {
    hide LabelOf;
    if at < |p.buf| && LabelOf(p, at) != goal {
      var next := FindLabel(p, After(p, at), goal);
      FindLabelMeaning(p, After(p, at), goal);
      var offs := Offsets(p, After(p, at));
      assert Offsets(p, at) == [at] + offs;
      forall k | 0 <= k < |Offsets(p, at)| && Offsets(p, at)[k] < next
        ensures RuleAt(p, Offsets(p, at)[k]) && LabelOf(p, Offsets(p, at)[k]) != goal
      {
        assert k > 0 ==> Offsets(p, at)[k] == offs[k - 1];
      }
    } else {
      OffsetsAreOld(p, at);
    }
  }

  /** Where an applied rule leads: behind itself, or to the label that it goes to. */
  ghost predicate LeadsTo(p: Packed, at: nat, next: nat) {
    && RuleAt(p, at)
    && (Unsaid(p, at, GOTO) ==> next == After(p, at))
    && (forall op, v :: Says(p, at, GOTO, op, v) && op != UNSET ==> GoesTo(p, After(p, at), v, next))
  }

  lemma OnwardMeaning(p: Packed, at: nat)
    requires Chain(p, at) && at < |p.buf|
    ensures LeadsTo(p, at, Onward(p, at))
  {
    SaysOp(p, at, GOTO);
    FindLabelMeaning(p, After(p, at), ValueOf(p, at, GOTO));
    hide GoesTo, FindLabel, Says, Unsaid, OpOf, ValueOf;
  }

  /** at is where the walk is after these visits. */
  ghost predicate Over(p: Packed, visits: seq<Visit>, at: nat) {
    if visits == [] then at == 0
    else
      var v := visits[|visits| - 1];
      RuleAt(p, v.at) && if v.applied then LeadsTo(p, v.at, at) else at == After(p, v.at)
  }

  lemma ResumeMeaning(p: Packed, visits: seq<Visit>)
    requires visits != [] ==> Chain(p, visits[|visits| - 1].at) && visits[|visits| - 1].at < |p.buf|
    ensures Over(p, visits, Resume(p, visits))
  {
    if visits != [] {
      OnwardMeaning(p, visits[|visits| - 1].at);
    }
    hide LeadsTo, Onward;
  }

  // ---------------------------------------------------------------- the walk that names

  /** One of the first n visits applied a rule that sets the name. */
  predicate NamedIn(p: Packed, visits: seq<Visit>, n: nat)
    requires n <= |visits|
  {
    exists k :: 0 <= k < n && visits[k].applied && SetsName(p, visits[k].at)
  }

  /** A visit is where the visits before lead to; its rule is applied exactly when it matches the
      device as they left it and does not set a name that is set; and then it does to the device
      what its keys say. */
  ghost predicate VisitMeans(p: Packed, env: Env, d: Device, visits: seq<Visit>, i: nat)
    requires i < |visits|
  {
    var v, b := visits[i], if i == 0 then d else visits[i - 1].dev;
    var passed := SetsName(p, v.at) && NamedIn(p, visits, i);
    var m := if passed then b else b.(ctx := env.matches(v.at, b).1);
    && RuleAt(p, v.at) && Over(p, visits[..i], v.at)
    && (v.applied <==> !passed && env.matches(v.at, b).0)
    && (if v.applied then Applied(p, v.at, env, m, v.dev) else v.dev == m)
  }

  lemma SameNamed(p: Packed, visits: seq<Visit>, n: nat)
    requires n <= |visits| && forall i :: 0 <= i < n ==> visits[i].at in p.headers
    ensures NamedIn(p, visits, n) <==> NamedBefore(p, visits, n)
  {
    forall k | 0 <= k < n
      ensures NamedAt(p, visits, k) <==> visits[k].applied && SetsName(p, visits[k].at)
    {
      NamingMeaning(p, visits[k].at);
    }
    hide Naming, SetsName;
    if NamedIn(p, visits, n) {
      var k :| 0 <= k < n && visits[k].applied && SetsName(p, visits[k].at);
      assert NamedAt(p, visits, k);
    }
  }

  lemma RightMeans(p: Packed, env: Env, d: Device, visits: seq<Visit>, i: nat)
    requires i < |visits| && forall k: nat :: k <= i ==> VisitRight(p, env, d, visits, k)
    ensures VisitMeans(p, env, d, visits, i)
  {
    var v := visits[i];
    assert VisitRight(p, env, d, visits, i);
    assert i > 0 ==> visits[..i][|visits[..i]| - 1] == visits[i - 1];
    ResumeMeaning(p, visits[..i]);
    forall k | 0 <= k < i
      ensures visits[k].at in p.headers
    {
      assert VisitRight(p, env, d, visits, k);
    }
    NamingMeaning(p, v.at);
    SameNamed(p, visits, i);
    var m := Met(p, env, d, visits, i);
    ApplyMeans(p, v.at, env, m);
    hide Apply, Applied, Resume, Over, NamedIn, NamedBefore, Naming, SetsName, FinalsKept, OnlyCollected;
  }

  /** What a walk that names does, from beginning to end. */
  ghost predicate NamesMean(p: Packed, env: Env, d: Device, w: Walk) {
    && (forall i: nat :: i < |w.visits| ==> VisitMeans(p, env, d, w.visits, i))
    && EndMeans(p, env, d, w)
  }

  /** No rule applied so far ends the walk. */
  ghost predicate NoEnd(p: Packed, visits: seq<Visit>) {
    forall i :: 0 <= i < |visits| && visits[i].applied ==>
      && visits[i].at in p.headers && !Mentions(p.headers[visits[i].at], "ignore_device")
      && !Mentions(p.headers[visits[i].at], "last_rule")
  }

  /** The last visit applied a last rule. */
  ghost predicate LastApplied(p: Packed, visits: seq<Visit>) {
    visits != [] &&
    var v := visits[|visits| - 1];
    && v.applied && v.at in p.headers && !Mentions(p.headers[v.at], "ignore_device")
    && Mentions(p.headers[v.at], "last_rule") && NoEnd(p, visits[..|visits| - 1])
  }

  /** The rule at offset at matches the device as the visits left it, and makes it ignored. */
  ghost predicate IgnoredAt(p: Packed, env: Env, d: Device, visits: seq<Visit>, at: nat, d': Device) {
    var b := if visits == [] then d else visits[|visits| - 1].dev;
    && RuleAt(p, at) && Over(p, visits, at) && env.matches(at, b).0
    && Mentions(p.headers[at], "ignore_device")
    && d' == b.(ctx := env.matches(at, b).1, ignoreDevice := true)
  }

  /** The walk ends behind the rules or with a last rule, and a device that was not named then has
      its kernel name; or it ends with a rule that makes the device ignored. */
  ghost predicate EndMeans(p: Packed, env: Env, d: Device, w: Walk) {
    var b := if w.visits == [] then d else w.visits[|w.visits| - 1].dev;
    if w.ended then
      && (LastApplied(p, w.visits) || (NoEnd(p, w.visits) && Over(p, w.visits, |p.buf|)))
      && w.dev == if NamedIn(p, w.visits, |w.visits|) then b else b.(name := d.kernel)
    else
      NoEnd(p, w.visits) &&
      exists at :: IgnoredAt(p, env, d, w.visits, at, w.dev)
                   && !(SetsName(p, at) && NamedIn(p, w.visits, |w.visits|))
  }

  /** The same, before a device without a name gets its kernel name. */
  ghost predicate StopMeans(p: Packed, env: Env, d: Device, w: Walk) {
    if w.ended then
      && (LastApplied(p, w.visits) || (NoEnd(p, w.visits) && Over(p, w.visits, |p.buf|)))
      && w.dev == Before(d, w.visits, |w.visits|)
    else
      NoEnd(p, w.visits) &&
      exists at :: IgnoredAt(p, env, d, w.visits, at, w.dev)
                   && !(SetsName(p, at) && NamedIn(p, w.visits, |w.visits|))
  }

  lemma NoEndGrows(p: Packed, visits: seq<Visit>, v: Visit)
    requires NoEnd(p, visits)
    requires v.applied ==> v.at in p.headers && !HasOption(p.headers[v.at], "ignore_device")
    ensures !v.applied || !HasOption(p.headers[v.at], "last_rule") ==> NoEnd(p, visits + [v])
    ensures v.applied && HasOption(p.headers[v.at], "last_rule") ==> LastApplied(p, visits + [v])
  {
    if v.applied {
      OptionMeaning(p.headers[v.at], "ignore_device");
      OptionMeaning(p.headers[v.at], "last_rule");
    }
    var more := visits + [v];
    assert more[..|more| - 1] == visits;
    hide HasOption, Mentions;
  }

  lemma OnTrackOver(p: Packed, env: Env, d: Device, at: nat, w: Walk)
    requires OnTrack(p, env, d, at, w)
    ensures Over(p, w.visits, at) && w.dev == Before(d, w.visits, |w.visits|)
  {
    ResumeMeaning(p, w.visits);
    hide Over, Resume, AllRight;
  }

  lemma NameSetIn(p: Packed, at: nat, w: Walk)
    requires WalkOk(p, at, w)
    ensures w.nameSet <==> NamedIn(p, w.visits, |w.visits|)
  {
    NameSetMeaning(p, at, w);
    assert forall i :: 0 <= i < |w.visits| ==> w.visits[i].at in p.headers;
    SameNamed(p, w.visits, |w.visits|);
    hide NamedIn, NamedBefore, FinalsKept;
  }

  lemma IgnoreMeans(p: Packed, at: nat, w: Walk, env: Env, d: Device)
    requires Chain(p, at) && at < |p.buf| && WalkOk(p, at, w) && OnTrack(p, env, d, at, w) && NoEnd(p, w.visits)
    requires HasOption(p.headers[at], "ignore_device") && env.matches(at, w.dev).0
    requires !(w.nameSet && Naming(p.headers[at]))
    ensures StopMeans(p, env, d, w.(dev := Ignored(WithContext(w.dev, env.matches(at, w.dev).1))))
  {
    OnTrackOver(p, env, d, at, w);
    NotEnded(p, at, w);
    OptionMeaning(p.headers[at], "ignore_device");
    NamingMeaning(p, at);
    NameSetIn(p, at, w);
    hide OnTrack, WalkOk, Over, HasOption, Mentions, Naming, SetsName, NamedIn, NoEnd, FinalsKept, OnlyCollected;
    assert IgnoredAt(p, env, d, w.visits, at, Ignored(WithContext(w.dev, env.matches(at, w.dev).1)));
  }

  lemma {:induction false} WalkStops(p: Packed, at: nat, w: Walk, env: Env, d: Device)
    requires Chain(p, at) && at <= |p.buf| && WalkOk(p, at, w) && OnTrack(p, env, d, at, w) && NoEnd(p, w.visits)
    ensures StopMeans(p, env, d, WalkNames(p, at, w, env))
    decreases |p.buf| - at
  {
    OnTrackOver(p, env, d, at, w);
    if at < |p.buf| {
      var (next, w1) := NameTurn(p, at, w, env);
      NameTurnKeeps(p, at, w, env);
      NameTurnRight(p, at, w, env, d);
      NameTurnStops(p, at, w, env, d);
      hide WalkOk, NameTurn, OnTrack, NoEnd, StopMeans, Over;
      if next.Some? {
        WalkStops(p, next.value, w1, env, d);
      }
    } else {
      hide OnTrack, WalkOk, Over, NoEnd, Before;
    }
  }

  lemma NameTurnStops(p: Packed, at: nat, w: Walk, env: Env, d: Device)
    requires Chain(p, at) && at < |p.buf| && WalkOk(p, at, w) && OnTrack(p, env, d, at, w) && NoEnd(p, w.visits)
    ensures var (next, w1) := NameTurn(p, at, w, env);
            if next.Some? then NoEnd(p, w1.visits) else StopMeans(p, env, d, w1)
  {
    var h := p.headers[at];
    var (matched, ctx) := env.matches(at, w.dev);
    var m := WithContext(w.dev, ctx);
    if w.nameSet && Naming(h) {
      NoEndGrows(p, w.visits, Visit(at, false, w.dev));
    } else if !matched {
      NoEndGrows(p, w.visits, Visit(at, false, m));
    } else if HasOption(h, "ignore_device") {
      IgnoreMeans(p, at, w, env, d);
    } else {
      var v := Visit(at, true, Apply(m, p, at, env));
      NoEndGrows(p, w.visits, v);
      if HasOption(h, "last_rule") {
        LastStops(p, env, d, w, v, w.nameSet || Naming(h));
      }
    }
    hide Chain, WalkOk, OnTrack, HasOption, Naming, Apply, Onward, NoEnd, LastApplied, StopMeans, FinalsKept, OnlyCollected;
  }

  lemma LastStops(p: Packed, env: Env, d: Device, w: Walk, v: Visit, nameSet: bool)
    requires LastApplied(p, w.visits + [v])
    ensures StopMeans(p, env, d, Visited(w, v, nameSet).(ended := true))
  {
    assert (w.visits + [v])[|w.visits|] == v;
    hide LastApplied, NoEnd, Over, IgnoredAt, NamedIn, SetsName;
  }

  /** What udev_rules_get_name does to the device, for every buffer of rules and every way of
      matching, visit by visit and in the end. */
  lemma GetNameMeans(p: Packed, d: Device, env: Env)
    requires Chain(p, 0)
    ensures NamesMean(p, env, d, GetName(p, d, env))
  {
    var w0 := Walk([], d, false, false);
    var w := GetName(p, d, env);
    assert WalkOk(p, 0, w0) && OnTrack(p, env, d, 0, w0) && NoEnd(p, []);
    WalkStops(p, 0, w0, env, d);
    NamedInTheEnd(p, d, env);
    hide WalkNames, WalkOk, OnTrack, NoEnd, StopMeans, EndMeans, VisitMeans, NamedIn;
    StopIsEnd(p, env, d, WalkNames(p, 0, w0, env), w);
    AllVisitsMean(p, d, env);
  }

  lemma StopIsEnd(p: Packed, env: Env, d: Device, w: Walk, w': Walk)
    requires StopMeans(p, env, d, w) && w.nameSet == NamedIn(p, w.visits, |w.visits|) && w.dev.kernel == d.kernel
    requires w' == if w.ended && !w.nameSet then w.(dev := w.dev.(name := w.dev.kernel)) else w
    ensures EndMeans(p, env, d, w')
  {
    hide NoEnd, Over, LastApplied, IgnoredAt, NamedIn, SetsName;
  }

  lemma AllVisitsMean(p: Packed, d: Device, env: Env)
    requires Chain(p, 0)
    ensures var visits := GetName(p, d, env).visits;
            forall i: nat :: i < |visits| ==> VisitMeans(p, env, d, visits, i)
  {
    GetNameRight(p, d, env);
    var visits := GetName(p, d, env).visits;
    hide VisitMeans, VisitRight, GetName;
    forall i: nat | i < |visits|
      ensures VisitMeans(p, env, d, visits, i)
    {
      RightMeans(p, env, d, visits, i);
    }
  }

  lemma NamedInTheEnd(p: Packed, d: Device, env: Env)
    requires Chain(p, 0)
    ensures var w := WalkNames(p, 0, Walk([], d, false, false), env);
            w.nameSet == NamedIn(p, w.visits, |w.visits|) && w.dev.kernel == d.kernel
  {
    var w0 := Walk([], d, false, false);
    assert WalkOk(p, 0, w0);
    WalkKeeps(p, 0, w0, env);
    var w := WalkNames(p, 0, w0, env);
    SameNamed(p, w.visits, |w.visits|);
    hide WalkNames, WalkOk, NamedIn, FinalsKept;
    if w.nameSet {
      var i :| NamedAt(p, w.visits, i);
      NamedInRange(p, w.visits, i);
    }
  }

  // ---------------------------------------------------------------- the walk that collects programs

  /** A rule with a key for the node is not for this walk. */
  predicate ForNode(p: Packed, at: nat) {
    at in p.headers &&
    !( && Unsaid(p, at, NAME) && Unsaid(p, at, SYMLINK) && Unsaid(p, at, OWNER) && Unsaid(p, at, GROUP)
       && (p.headers[at].mode.None? || p.headers[at].mode.value.0 == UNSET))
  }

  /** The program of a rule is collected, unless the programs are final; nothing else changes. */
  ghost predicate Collected(p: Packed, at: nat, m: Device, d: Device) {
    && d == m.(runList := d.runList)
    && (Unsaid(p, at, RUN) ==> d.runList == m.runList)
    && (forall op, v :: Says(p, at, RUN, op, v) && op != UNSET ==>
          if m.runFinal then d.runList == m.runList
          else Added(if op == ASSIGN || op == ASSIGN_FINAL then [] else m.runList, [v], d.runList))
  }

  ghost predicate RunVisitMeans(p: Packed, env: Env, d: Device, visits: seq<Visit>, i: nat)
    requires i < |visits|
  {
    var v, b := visits[i], if i == 0 then d else visits[i - 1].dev;
    var m := if ForNode(p, v.at) then b else b.(ctx := env.matches(v.at, b).1);
    && RuleAt(p, v.at) && Over(p, visits[..i], v.at)
    && (v.applied <==> !ForNode(p, v.at) && env.matches(v.at, b).0)
    && (if v.applied then Collected(p, v.at, m, v.dev) else v.dev == m)
  }

  /** A program assigned with ":=" ends the walk, if the programs were not final before. */
  ghost predicate EndsRun(p: Packed, d: Device, at: nat) {
    at in p.headers &&
    (Mentions(p.headers[at], "last_rule")
     || (!d.runFinal && RUN in p.headers[at].single && p.headers[at].single[RUN].op == ASSIGN_FINAL))
  }

  ghost predicate RunsOn(p: Packed, d: Device, visits: seq<Visit>) {
    forall i :: 0 <= i < |visits| && visits[i].applied ==>
      && visits[i].at in p.headers && !Mentions(p.headers[visits[i].at], "ignore_device")
      && !EndsRun(p, d, visits[i].at)
  }

  ghost predicate RunsEnd(p: Packed, env: Env, d: Device, w: Walk) {
    var n := |w.visits|;
    if w.ended then
      && w.dev == Before(d, w.visits, n)
      && ((RunsOn(p, d, w.visits) && Over(p, w.visits, |p.buf|))
          || (n > 0 && RunsOn(p, d, w.visits[..n - 1]) && w.visits[n - 1].applied && EndsRun(p, d, w.visits[n - 1].at)))
    else
      RunsOn(p, d, w.visits) && exists at :: !ForNode(p, at) && IgnoredAt(p, env, d, w.visits, at, w.dev)
  }

  /** What a walk that collects programs does, from beginning to end. */
  ghost predicate RunsMean(p: Packed, env: Env, d: Device, w: Walk) {
    && (forall i: nat :: i < |w.visits| ==> RunVisitMeans(p, env, d, w.visits, i))
    && RunsEnd(p, env, d, w)
  }

  lemma ForNodeMeaning(p: Packed, at: nat)
    requires at in p.headers
    ensures NamesDevice(p.headers[at]) <==> ForNode(p, at)
  {
  }

  lemma CollectMeans(p: Packed, at: nat, m: Device)
    requires at in p.headers
    ensures Collected(p, at, m, CollectRun(m, p, at))
  {
    SaysOp(p, at, RUN);
    var op, v := OpOf(p.headers[at], RUN), ValueOf(p, at, RUN);
    RunMeans(m, op, v);
    hide Says, Unsaid, OpOf, ValueOf, Added, DbRecord.AddName;
  }

  lemma RunVisitLocal(p: Packed, env: Env, d: Device, visits: seq<Visit>, v: Visit, i: nat)
    requires i < |visits| && RunVisitMeans(p, env, d, visits, i)
    ensures RunVisitMeans(p, env, d, visits + [v], i)
  {
    var more := visits + [v];
    assert more[i] == visits[i] && more[..i] == visits[..i] && (i > 0 ==> more[i - 1] == visits[i - 1]);
    hide Over, ForNode, Collected;
  }

  /** The walk so far means what it should, and is at offset at. */
  ghost predicate RunTrack(p: Packed, env: Env, d: Device, at: nat, w: Walk) {
    && (forall i: nat :: i < |w.visits| ==> RunVisitMeans(p, env, d, w.visits, i))
    && w.dev == Before(d, w.visits, |w.visits|) && w.dev.runFinal == d.runFinal && !w.ended
    && Over(p, w.visits, at) && RunsOn(p, d, w.visits)
  }

  lemma RunVisitAdded(p: Packed, env: Env, d: Device, at: nat, w: Walk, v: Visit, next: nat)
    requires RunTrack(p, env, d, at, w) && RuleAt(p, at) && v.at == at
    requires v.applied <==> !ForNode(p, at) && env.matches(at, w.dev).0
    requires var m := if ForNode(p, at) then w.dev else w.dev.(ctx := env.matches(at, w.dev).1);
             if v.applied then Collected(p, at, m, v.dev) else v.dev == m
    requires if v.applied then LeadsTo(p, at, next) else next == After(p, at)
    ensures var visits := w.visits + [v];
            && (forall i: nat :: i < |visits| ==> RunVisitMeans(p, env, d, visits, i))
            && v.dev == Before(d, visits, |visits|) && v.dev.runFinal == d.runFinal && Over(p, visits, next)
  {
    var n, visits := |w.visits|, w.visits + [v];
    assert visits[..n] == w.visits && visits[n] == v && (n > 0 ==> visits[n - 1] == w.visits[n - 1]);
    NewRunVisit(p, env, d, at, w, v);
    hide RuleAt, ForNode, LeadsTo, RunsOn, RunVisitMeans;
    forall i: nat | i < |visits|
      ensures RunVisitMeans(p, env, d, visits, i)
    {
      if i < n {
        RunVisitLocal(p, env, d, w.visits, v, i);
      }
    }
  }

  lemma NewRunVisit(p: Packed, env: Env, d: Device, at: nat, w: Walk, v: Visit)
    requires RunTrack(p, env, d, at, w) && RuleAt(p, at) && v.at == at
    requires v.applied <==> !ForNode(p, at) && env.matches(at, w.dev).0
    requires var m := if ForNode(p, at) then w.dev else w.dev.(ctx := env.matches(at, w.dev).1);
             if v.applied then Collected(p, at, m, v.dev) else v.dev == m
    ensures RunVisitMeans(p, env, d, w.visits + [v], |w.visits|)
  {
    var n, visits := |w.visits|, w.visits + [v];
    assert visits[..n] == w.visits && visits[n] == v && (n > 0 ==> visits[n - 1] == w.visits[n - 1]);
    hide RuleAt, ForNode, Collected, Over, RunsOn;
  }

  lemma RunsOnGrows(p: Packed, d: Device, visits: seq<Visit>, v: Visit)
    requires RunsOn(p, d, visits)
    requires v.applied ==> v.at in p.headers && !Mentions(p.headers[v.at], "ignore_device")
    ensures !v.applied || !EndsRun(p, d, v.at) ==> RunsOn(p, d, visits + [v])
    ensures (visits + [v])[..|visits|] == visits && (visits + [v])[|visits|] == v
  {
    hide EndsRun, Mentions;
  }

  lemma StopsMeaning(p: Packed, d: Device, at: nat)
    requires at in p.headers
    ensures StopsRun(d, p.headers[at]) <==> EndsRun(p, d, at)
    ensures HasOption(p.headers[at], "ignore_device") <==> Mentions(p.headers[at], "ignore_device")
  {
    OptionMeaning(p.headers[at], "last_rule");
    OptionMeaning(p.headers[at], "ignore_device");
    hide HasOption, Mentions;
  }

  lemma RunTurnMeans(p: Packed, at: nat, w: Walk, env: Env, d: Device)
    requires Chain(p, at) && at < |p.buf| && RunTrack(p, env, d, at, w)
    ensures var (next, w1) := RunTurn(p, at, w, env);
            if next.Some? then RunTrack(p, env, d, next.value, w1) else RunsMean(p, env, d, w1)
  {
    ForNodeMeaning(p, at);
    StopsMeaning(p, w.dev, at);
    SameEnds(p, w.dev, d, at);
    if ForNode(p, at) {
      RunNotApplied(p, at, w, env, d, Visit(at, false, w.dev));
    } else {
      var (matched, ctx) := env.matches(at, w.dev);
      var m := WithContext(w.dev, ctx);
      StopsMeaning(p, m, at);
      SameEnds(p, m, d, at);
      if !matched {
        RunNotApplied(p, at, w, env, d, Visit(at, false, m));
      } else if HasOption(p.headers[at], "ignore_device") {
        RunIgnored(p, at, w, env, d);
      } else {
        RunApplies(p, at, w, env, d, m);
      }
    }
    hide Chain, RunTrack, RunsMean, ForNode, NamesDevice, HasOption, StopsRun, EndsRun, CollectRun, Onward, Mentions,
      FinalsKept, OnlyCollected;
  }

  lemma SameEnds(p: Packed, m: Device, d: Device, at: nat)
    requires m.runFinal == d.runFinal
    ensures EndsRun(p, m, at) <==> EndsRun(p, d, at)
  {
  }

  lemma RunNotApplied(p: Packed, at: nat, w: Walk, env: Env, d: Device, v: Visit)
    requires Chain(p, at) && at < |p.buf| && RunTrack(p, env, d, at, w) && v.at == at && !v.applied
    requires ForNode(p, at) || !env.matches(at, w.dev).0
    requires v.dev == if ForNode(p, at) then w.dev else w.dev.(ctx := env.matches(at, w.dev).1)
    ensures RunTrack(p, env, d, After(p, at), Visited(w, v, w.nameSet))
  {
    RunVisitAdded(p, env, d, at, w, v, After(p, at));
    RunsOnGrows(p, d, w.visits, v);
    hide Chain, ForNode, RunVisitMeans, RunsOn, Over, After;
  }

  lemma RunIgnored(p: Packed, at: nat, w: Walk, env: Env, d: Device)
    requires Chain(p, at) && at < |p.buf| && RunTrack(p, env, d, at, w)
    requires !ForNode(p, at) && env.matches(at, w.dev).0 && Mentions(p.headers[at], "ignore_device")
    ensures RunsMean(p, env, d, w.(dev := Ignored(WithContext(w.dev, env.matches(at, w.dev).1))))
  {
    hide ForNode, RunVisitMeans, RunsOn, Over, FinalsKept, OnlyCollected, Mentions;
    assert IgnoredAt(p, env, d, w.visits, at, Ignored(WithContext(w.dev, env.matches(at, w.dev).1)));
  }

  lemma RunApplies(p: Packed, at: nat, w: Walk, env: Env, d: Device, m: Device)
    requires Chain(p, at) && at < |p.buf| && RunTrack(p, env, d, at, w)
    requires !ForNode(p, at) && env.matches(at, w.dev).0 && !Mentions(p.headers[at], "ignore_device")
    requires m == w.dev.(ctx := env.matches(at, w.dev).1)
    ensures var w1 := Visited(w, Visit(at, true, CollectRun(m, p, at)), w.nameSet);
            && (EndsRun(p, d, at) ==> RunsMean(p, env, d, w1.(ended := true)))
            && (!EndsRun(p, d, at) ==> RunTrack(p, env, d, Onward(p, at), w1))
  {
    var v := Visit(at, true, CollectRun(m, p, at));
    CollectMeans(p, at, m);
    OnwardMeaning(p, at);
    RunVisitAdded(p, env, d, at, w, v, Onward(p, at));
    RunsOnGrows(p, d, w.visits, v);
    hide Chain, ForNode, RunVisitMeans, RunsOn, Over, Onward, LeadsTo, CollectRun, EndsRun, Collected, Mentions,
      FinalsKept, OnlyCollected;
  }

  lemma {:induction false} WalkRunsMeans(p: Packed, at: nat, w: Walk, env: Env, d: Device)
    requires Chain(p, at) && at <= |p.buf| && RunTrack(p, env, d, at, w)
    ensures RunsMean(p, env, d, WalkRuns(p, at, w, env))
    decreases |p.buf| - at
  {
    if at == |p.buf| {
      hide RunVisitMeans, RunsOn, Over;
    } else {
      RunTurnMeans(p, at, w, env, d);
      hide RunTurn, RunTrack, RunsMean;
      var (next, w1) := RunTurn(p, at, w, env);
      if next.Some? {
        WalkRunsMeans(p, next.value, w1, env, d);
      }
    }
  }

  /** What udev_rules_get_run does to the device, for every buffer of rules and every way of
      matching, visit by visit and in the end. */
  lemma GetRunMeans(p: Packed, d: Device, env: Env)
    requires Chain(p, 0)
    ensures RunsMean(p, env, d, GetRun(p, d, env))
  {
    assert RunTrack(p, env, d, 0, Walk([], d, false, false));
    WalkRunsMeans(p, 0, Walk([], d, false, false), env, d);
    hide WalkRuns, RunsMean;
  }

  /** The device d becomes d' by the rules' settings. */
  ghost predicate NamedByRules(p: Packed, env: Env, d: Device, d': Device) {
    exists w :: NamesMean(p, env, d, w) && w.dev == d'
  }

  ghost predicate RunsByRules(p: Packed, env: Env, d: Device, d': Device) {
    exists w :: RunsMean(p, env, d, w) && w.dev == d'
  }

  lemma NamingMeans(p: Packed, d: Device, env: Env)
    requires Chain(p, 0)
    ensures NamedByRules(p, env, d, GetName(p, d, env).dev)
  {
    GetNameMeans(p, d, env);
    hide NamesMean, GetName;
  }

  lemma CollectingMeans(p: Packed, d: Device, env: Env)
    requires Chain(p, 0)
    ensures RunsByRules(p, env, d, GetRun(p, d, env).dev)
  {
    GetRunMeans(p, d, env);
    hide RunsMean, GetRun;
  }

  // ---------------------------------------------------------------- from the line to the device

  lemma {:induction false} CStringOfPrefix(v: string, s: string)
    requires '\0' !in v && v + "\0" <= s
    ensures CString(s) == v
  {
    var more := s[|v| + 1..];
    assert s == v + "\0" + more;
    CStringEnds(v, more);
  }

  lemma StringInArea(p: Packed, at: nat, off: nat, v: string)
    requires RuleAt(p, at) && HasString(AreaAt(p, at), off, v) && '\0' !in v
    ensures StringOf(p, at, off) == v
  {
    var area := AreaAt(p, at);
    assert area[off..off + |v| + 1] == area[off..off + |v|] + [area[off + |v|]];
    SliceOfSlice(p.buf, at + HEADER, After(p, at), off, v + "\0");
    CStringOfPrefix(v, p.buf[at + HEADER + off..]);
  }

  lemma SliceOfSlice(s: string, a: nat, b: nat, off: nat, v: string)
    requires a <= b <= |s| && off + |v| <= b - a && s[a..b][off..off + |v|] == v
    ensures v <= s[a + off..]
  {
    assert forall i :: 0 <= i < |v| ==> v[i] == s[a..b][off + i] == s[a + off..][i];
  }

  /** A value has no terminator inside it, nor has what stands for it. */
  lemma StandsForText(stored: string, slot: Slot, value: string, cfg: Config)
    requires StandsFor(stored, slot, value, cfg) && '\0' !in value
    ensures '\0' !in stored
  {
    DbRecord.DecimalPlain(cfg.uid(value));
    DbRecord.DecimalPlain(cfg.gid(value));
    hide LookedUp, DbRecord.Decimal;
  }

  /** What the walk finds for a key of a packed rule is the operator of its line and what stands for
      the value there. */
  lemma LineIsSaid(p: Packed, at: nat, items: seq<Item>, cfg: Config, slot: Slot)
    requires RuleAt(p, at) && RuleMeans(p.headers[at], AreaAt(p, at), items, cfg)
    requires forall k :: 0 <= k < |items| ==> ValueOk(items[k].value)
    ensures LastOf(items, slot).None? ==> Unsaid(p, at, slot)
    ensures LastOf(items, slot).Some? ==>
              var (op, value) := LastOf(items, slot).value;
              exists stored :: StandsFor(stored, slot, value, cfg) && Says(p, at, slot, op, stored)
  {
    var area, v := AreaAt(p, at), LastOf(items, slot);
    assert SlotIs(p.headers[at], area, slot, v, cfg);
    hide RuleMeans, StandsFor;
    if v.Some? {
      var (op, value) := v.value;
      LastIsOk(items, slot);
      var off := p.headers[at].single[slot].off;
      var stored :| StandsFor(stored, slot, value, cfg) && HasString(area, off, stored);
      StandsForText(stored, slot, value, cfg);
      hide HasString;
      StringInArea(p, at, off, stored);
      hide RuleAt, AreaAt, StringOf;
      assert Says(p, at, slot, op, stored);
    }
  }

  lemma {:induction false} LastIsOk(items: seq<Item>, slot: Slot)
    requires LastOf(items, slot).Some? && forall k :: 0 <= k < |items| ==> ValueOk(items[k].value)
    ensures '\0' !in LastOf(items, slot).value.1
    decreases |items|
  {
    var i := items[|items| - 1];
    if !(i.KeyItem? && i.slot == slot) {
      LastIsOk(items[..|items| - 1], slot);
    }
  }
}
