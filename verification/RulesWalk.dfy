/** The device that rules are applied to, changed in place: the loops of udev_rules_get_name and
    udev_rules_get_run (udev_rules.c), proved to take the walks of RulesWalkModel. */
module RulesWalk {
  import opened Basics
  import opened RuleText
  import opened RulesCompiler
  import opened RulesBuffer
  import opened RulesEffect
  import opened RulesWalkModel
  import DbRecord

  /** The words of a text are its first word and the words behind the blank. */
  lemma WordTaken(text: string, pos: nat, list: seq<string>)
    requires pos <= |text| && SkipSpace(text[pos..]) == text[pos..]
    ensures var q := FindChar(text[pos..], ' ', 0);
            AddNames(list, Words(text[pos..])) ==
              if q.Some? then
                AddNames(DbRecord.AddName(list, text[pos..pos + q.value]), Words(text[pos + q.value + 1..]))
              else if pos < |text| then DbRecord.AddName(list, text[pos..])
              else list
  {
    var t := text[pos..];
    var q := FindChar(t, ' ', 0);
    hide DbRecord.AddName;
    if q.Some? {
      assert t[..q.value] == text[pos..pos + q.value];
      assert t[q.value + 1..] == text[pos + q.value + 1..];
      var rest := Words(t[q.value + 1..]);
      assert ([t[..q.value]] + rest)[1..] == rest;
    } else if t != "" {
      var none: seq<string> := [];
      assert [t][1..] == none;
      assert AddNames(list, [t]) == AddNames(DbRecord.AddName(list, t), none);
    }
  }

  /** Blanks before a text do not change its words. */
  lemma WordsSkip(s: string)
    ensures SkipSpace(SkipSpace(s)) == SkipSpace(s) && Words(SkipSpace(s)) == Words(s)
  {
    SkipTwice(s);
  }

  lemma {:induction false} SkipTwice(s: string)
    ensures SkipSpace(SkipSpace(s)) == SkipSpace(s)
  {
    if s != "" && IsSpace(s[0]) {
      SkipTwice(s[1..]);
    }
  }

  /** What a loop body tells the loop: the next rule, break, or return. */
  datatype Next = GoOn | Stop | Leave

  ghost predicate Took(turn: (Option<nat>, Walk), next: Next, current: nat, w: Walk) {
    && turn.1 == w
    && turn.0 == (if next == GoOn then Some(current) else None)
    && (next == Stop <==> w.ended)
  }

  class Udevice {
    const kernel: string
    const mainBlock: bool
    var name: string
    var symlinks: seq<string>
    var symlinkFinal: bool
    var owner: string
    var ownerFinal: bool
    var group: string
    var groupFinal: bool
    var mode: nat
    var modeFinal: bool
    var runList: seq<string>
    var runFinal: bool
    var ignoreDevice: bool
    var ignoreRemove: bool
    var linkPriority: int
    var partitions: nat
    var ctx: nat

    function Value(): Device
      reads this
    {
      Device(kernel, mainBlock, name, symlinks, symlinkFinal, owner, ownerFinal, group, groupFinal, mode,
             modeFinal, runList, runFinal, ignoreDevice, ignoreRemove, linkPriority, partitions, ctx)
    }

    constructor (d: Device)
      ensures Value() == d
    {
      kernel, mainBlock := d.kernel, d.mainBlock;
      name, symlinks, symlinkFinal := d.name, d.symlinks, d.symlinkFinal;
      owner, ownerFinal, group, groupFinal := d.owner, d.ownerFinal, d.group, d.groupFinal;
      mode, modeFinal := d.mode, d.modeFinal;
      runList, runFinal := d.runList, d.runFinal;
      ignoreDevice, ignoreRemove := d.ignoreDevice, d.ignoreRemove;
      linkPriority, partitions, ctx := d.linkPriority, d.partitions, d.ctx;
    }

    method SetOptions(h: Header)
      modifies this`ignoreRemove, this`linkPriority, this`partitions
      ensures Value() == ApplyOptions(old(Value()), h)
    {
      hide HasOption, HasHint, LinkPriority, Partitions, IgnoresRemove;
      if IgnoresRemove(h) {
        ignoreRemove := true;
      }
      if LinkPriority(h.options) != 0 {
        linkPriority := LinkPriority(h.options);
      }
      if Partitions(h) != 0 && mainBlock {
        partitions := Partitions(h);
      }
    }

    method SetMode(h: Header)
      modifies this`mode, this`modeFinal
      ensures Value() == ApplyMode(old(Value()), h)
    {
      hide ModeOf, ModeOp;
      if !modeFinal && ModeOf(h) != 0 {
        if ModeOp(h) == ASSIGN_FINAL {
          modeFinal := true;
        }
        mode := ModeOf(h);
      }
    }

    method SetOwner(p: Packed, at: nat, env: Env)
      requires at in p.headers
      modifies this`owner, this`ownerFinal
      ensures Value() == ApplyOwner(old(Value()), p, at, env)
    {
      hide OpOf, ValueOf;
      var op := OpOf(p.headers[at], OWNER);
      if !ownerFinal && op != UNSET {
        owner := env.text(at, OWNER, ValueOf(p, at, OWNER), Value());
        if op == ASSIGN_FINAL {
          ownerFinal := true;
        }
      }
    }

    method SetGroup(p: Packed, at: nat, env: Env)
      requires at in p.headers
      modifies this`group, this`groupFinal
      ensures Value() == ApplyGroup(old(Value()), p, at, env)
    {
      hide OpOf, ValueOf;
      var op := OpOf(p.headers[at], GROUP);
      if !groupFinal && op != UNSET {
        group := env.text(at, GROUP, ValueOf(p, at, GROUP), Value());
        if op == ASSIGN_FINAL {
          groupFinal := true;
        }
      }
    }

    /** Cuts the text at its blanks and adds each piece that is not yet there. */
    method AddLinks(text: string)
      modifies this`symlinks
      ensures symlinks == AddNames(old(symlinks), Words(text)) && Added(old(symlinks), Words(text), symlinks)
    {
      AddNamesMeaning(symlinks, Words(text));
      hide Words, SkipSpace, FindChar, AddNames, DbRecord.AddName, Added;
      assert text[0..] == text;
      var pos := PastBlanks(text, 0);
      WordTaken(text, pos, symlinks);
      var next := FindChar(text[pos..], ' ', 0);
      while next.Some?
        invariant pos <= |text| && SkipSpace(text[pos..]) == text[pos..]
        invariant next == FindChar(text[pos..], ' ', 0)
        invariant AddNames(symlinks, Words(text[pos..])) == AddNames(old(symlinks), Words(text))
        decreases |text| - pos
      {
        WordTaken(text, pos, symlinks);
        var end := pos + next.value;
        symlinks := DbRecord.AddToList(symlinks, text[pos..end]);
        pos := PastBlanks(text, end + 1);
        next := FindChar(text[pos..], ' ', 0);
      }
      WordTaken(text, pos, symlinks);
      if pos < |text| {
        symlinks := DbRecord.AddToList(symlinks, text[pos..]);
      }
    }

    method SetLinks(p: Packed, at: nat, env: Env)
      requires at in p.headers
      modifies this`symlinks, this`symlinkFinal
      ensures Value() == ApplySymlinks(old(Value()), p, at, env)
    {
      hide OpOf, ValueOf, AddNames, Words;
      var op := OpOf(p.headers[at], SYMLINK);
      if !symlinkFinal && op != UNSET {
        var text := env.text(at, SYMLINK, ValueOf(p, at, SYMLINK), Value());
        if op == ASSIGN_FINAL {
          symlinkFinal := true;
        }
        if op == ASSIGN || op == ASSIGN_FINAL {
          symlinks := [];
        }
        AddLinks(text);
      }
    }

    method SetName(p: Packed, at: nat, env: Env)
      requires at in p.headers
      modifies this`name
      ensures Value() == ApplyName(old(Value()), p, at, env)
    {
      if Naming(p.headers[at]) {
        name := env.text(at, NAME, ValueOf(p, at, NAME), Value());
      }
    }

    method AddRun(p: Packed, at: nat)
      requires at in p.headers
      modifies this`runList, this`runFinal
      ensures Value() == ApplyRun(old(Value()), p, at)
    {
      hide OpOf, ValueOf;
      var op := OpOf(p.headers[at], RUN);
      if !runFinal && op != UNSET {
        if op == ASSIGN_FINAL {
          runFinal := true;
        }
        if op == ASSIGN || op == ASSIGN_FINAL {
          runList := [];
        }
        runList := DbRecord.AddToList(runList, ValueOf(p, at, RUN));
      }
    }

    /** What a matching rule does in udev_rules_get_name. */
    method ApplyRule(p: Packed, at: nat, env: Env)
      requires at in p.headers
      modifies this
      ensures Value() == Apply(old(Value()), p, at, env)
      ensures Applied(p, at, env, old(Value()), Value())
    {
      ApplyMeans(p, at, env, Value());
      hide ApplyOptions, ApplyMode, ApplyOwner, ApplyGroup, ApplySymlinks, ApplyRun, ApplyName, Applied;
      SetOptions(p.headers[at]);
      SetMode(p.headers[at]);
      SetOwner(p, at, env);
      SetGroup(p, at, env);
      SetLinks(p, at, env);
      SetName(p, at, env);
      AddRun(p, at);
    }

    /** match_rule, with what it changes about the device. */
    method MatchRule(at: nat, env: Env) returns (matched: bool)
      modifies this`ctx
      ensures matched == env.matches(at, old(Value())).0
      ensures Value() == WithContext(old(Value()), env.matches(at, old(Value())).1)
    {
      var (m, after) := env.matches(at, Value());
      ctx := after;
      return m;
    }

    /** A rule that matches, in the loop that names. */
    method NameByMatch(rules: Rules, at: nat, nameSet: bool, env: Env, ghost w: Walk)
      returns (next: Next, named: bool, ghost w1: Walk)
      requires rules.Valid() && Chain(rules.p, at) && at < |rules.p.buf| && rules.current == After(rules.p, at)
      requires w.nameSet == nameSet && !w.ended
      modifies this, rules`current
      ensures rules.Valid() && Took(NameMatched(rules.p, at, w, old(Value()), env), next, rules.current, w1)
      ensures w1.dev == Value() && w1.nameSet == named
    {
      var h := rules.p.headers[at];
      hide Apply, Applied, HasOption, Naming, Onward, Chain, FinalsKept, OnlyCollected;
      named := nameSet;
      if HasOption(h, "ignore_device") {
        ignoreDevice := true;
        return Leave, named, w.(dev := Value());
      }
      ApplyRule(rules.p, at, env);
      named := nameSet || Naming(h);
      w1 := Visited(w, Visit(at, true, Value()), named);
      if HasOption(h, "last_rule") {
        return Stop, named, w1.(ended := true);
      }
      FollowGoto(rules, at);
      next := GoOn;
    }

    /** The body of the loop that names. */
    method NameByRule(rules: Rules, at: nat, nameSet: bool, env: Env, ghost w: Walk)
      returns (next: Next, named: bool, ghost w1: Walk)
      requires rules.Valid() && Chain(rules.p, at) && at < |rules.p.buf| && rules.current == After(rules.p, at)
      requires w.dev == Value() && w.nameSet == nameSet && !w.ended
      modifies this, rules`current
      ensures rules.Valid() && Took(NameTurn(rules.p, at, w, env), next, rules.current, w1)
      ensures w1.dev == Value() && w1.nameSet == named
    {
      var h := rules.p.headers[at];
      hide Naming, Chain, FinalsKept, OnlyCollected, NameMatched;
      if nameSet && Naming(h) {
        return GoOn, nameSet, Visited(w, Visit(at, false, w.dev), true);
      }
      var matched := MatchRule(at, env);
      hide WithContext;
      if !matched {
        return GoOn, nameSet, Visited(w, Visit(at, false, Value()), nameSet);
      }
      next, named, w1 := NameByMatch(rules, at, nameSet, env, w);
    }

    /** udev_rules_get_name. */
    method GetName(rules: Rules, env: Env)
      requires rules.Valid()
      modifies this, rules`current
      ensures rules.Valid()
      ensures Value() == RulesWalkModel.GetName(rules.p, old(Value()), env).dev
      ensures NamedByRules(rules.p, env, old(Value()), Value())
    {
      NamingMeans(rules.p, Value(), env);
      hide Chain, NamedByRules, RulesWalkModel.GetName;
      ApplyRules(rules, env);
    }

    /** Its loop, and the name of a device that no rule has named. */
    method ApplyRules(rules: Rules, env: Env)
      requires rules.Valid()
      modifies this, rules`current
      ensures rules.Valid()
      ensures Value() == RulesWalkModel.GetName(rules.p, old(Value()), env).dev
    {
      hide NameTurn, Chain;
      var nameSet := false;
      rules.IterInit();
      ghost var w := Walk([], Value(), false, false);
      ghost var whole := WalkNames(rules.p, 0, w, env);
      while true
        invariant rules.Valid() && !w.ended
        invariant w.dev == Value() && w.nameSet == nameSet
        invariant WalkNames(rules.p, rules.current, w, env) == whole
        decreases |rules.p.buf| - rules.current
      {
        var at := rules.IterNext();
        if at.None? {
          w := w.(ended := true);
          break;
        }
        var next;
        next, nameSet, w := NameByRule(rules, at.value, nameSet, env, w);
        if next == Leave {
          return;
        }
        if next == Stop {
          break;
        }
      }
      if !nameSet {
        name := kernel;
      }
    }

    /** A rule that matches, in the loop that collects programs. */
    method CollectByMatch(rules: Rules, at: nat, ghost w: Walk) returns (next: Next, ghost w1: Walk)
      requires rules.Valid() && Chain(rules.p, at) && at < |rules.p.buf| && rules.current == After(rules.p, at)
      requires !w.ended
      modifies this`runList, this`ignoreDevice, rules`current
      ensures rules.Valid() && Took(RunMatched(rules.p, at, w, old(Value())), next, rules.current, w1)
      ensures w1.dev == Value()
    {
      var h := rules.p.headers[at];
      hide HasOption, OpOf, ValueOf, Onward, Chain, FinalsKept, OnlyCollected;
      if HasOption(h, "ignore_device") {
        ignoreDevice := true;
        return Leave, w.(dev := Value());
      }
      Collect(rules.p, at);
      w1 := Visited(w, Visit(at, true, Value()), w.nameSet);
      if (!runFinal && OpOf(h, RUN) == ASSIGN_FINAL) || HasOption(h, "last_rule") {
        return Stop, w1.(ended := true);
      }
      FollowGoto(rules, at);
      next := GoOn;
    }

    method Collect(p: Packed, at: nat)
      requires at in p.headers
      modifies this`runList
      ensures Value() == CollectRun(old(Value()), p, at)
    {
      hide OpOf, ValueOf;
      var op := OpOf(p.headers[at], RUN);
      if !runFinal && op != UNSET {
        if op == ASSIGN || op == ASSIGN_FINAL {
          runList := [];
        }
        runList := DbRecord.AddToList(runList, ValueOf(p, at, RUN));
      }
    }

    /** The body of the loop that collects programs. */
    method RunByRule(rules: Rules, at: nat, env: Env, ghost w: Walk) returns (next: Next, ghost w1: Walk)
      requires rules.Valid() && Chain(rules.p, at) && at < |rules.p.buf| && rules.current == After(rules.p, at)
      requires w.dev == Value() && !w.ended
      modifies this`runList, this`ignoreDevice, this`ctx, rules`current
      ensures rules.Valid() && Took(RunTurn(rules.p, at, w, env), next, rules.current, w1)
      ensures w1.dev == Value()
    {
      var h := rules.p.headers[at];
      hide NamesDevice, Chain, FinalsKept, OnlyCollected, RunMatched;
      if NamesDevice(h) {
        return GoOn, Visited(w, Visit(at, false, w.dev), w.nameSet);
      }
      var matched := MatchRule(at, env);
      hide WithContext;
      if !matched {
        return GoOn, Visited(w, Visit(at, false, Value()), w.nameSet);
      }
      next, w1 := CollectByMatch(rules, at, w);
    }

    /** udev_rules_get_run. */
    method GetRun(rules: Rules, env: Env)
      requires rules.Valid()
      modifies this`runList, this`ignoreDevice, this`ctx, rules`current
      ensures rules.Valid()
      ensures Value() == RulesWalkModel.GetRun(rules.p, old(Value()), env).dev
      ensures RunsByRules(rules.p, env, old(Value()), Value())
    {
      CollectingMeans(rules.p, Value(), env);
      hide RunTurn, Chain, RunsByRules;
      rules.IterInit();
      ghost var w := Walk([], Value(), false, false);
      ghost var whole := WalkRuns(rules.p, 0, w, env);
      while true
        invariant rules.Valid() && !w.ended && w.dev == Value()
        invariant WalkRuns(rules.p, rules.current, w, env) == whole
        decreases |rules.p.buf| - rules.current
      {
        var at := rules.IterNext();
        if at.None? {
          return;
        }
        var next;
        next, w := RunByRule(rules, at.value, env, w);
        if next != GoOn {
          return;
        }
      }
    }
  }

  /** After an applied rule: forward to the label if the rule has a GOTO. */
  method FollowGoto(rules: Rules, at: nat)
    requires rules.Valid() && Chain(rules.p, at) && at < |rules.p.buf| && rules.current == After(rules.p, at)
    modifies rules`current
    ensures rules.Valid() && rules.current == Onward(rules.p, at)
  {
    if OpOf(rules.p.headers[at], GOTO) != UNSET {
      var _ := rules.IterLabel(ValueOf(rules.p, at, GOTO));
    }
  }

  /** Over the blanks from a position on. */
  method PastBlanks(text: string, from: nat) returns (pos: nat)
    requires from <= |text|
    ensures from <= pos <= |text| && text[pos..] == SkipSpace(text[from..])
    ensures SkipSpace(text[pos..]) == text[pos..] && Words(text[pos..]) == Words(text[from..])
  {
    pos := from;
    while pos < |text| && IsSpace(text[pos])
      invariant from <= pos <= |text|
      invariant SkipSpace(text[from..]) == SkipSpace(text[pos..])
    {
      pos := pos + 1;
    }
    WordsSkip(text[from..]);
  }
}
