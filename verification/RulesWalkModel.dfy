/** Applying the packed rules to a device: udev_rules_get_name and udev_rules_get_run
    (udev_rules.c). Whether a rule matches, and what formats are filled in, stays open: both come
    from an environment that may depend on the rule and on everything known about the device. */
module RulesWalkModel {
  import opened Basics
  import opened RuleText
  import opened RulesCompiler
  import opened RulesBuffer
  import DbRecord

  /** The part of struct udevice that rules decide. ctx stands for what matching itself changes:
      imported variables, program results. */
  datatype Device = Device(
    kernel: string, mainBlock: bool, name: string, symlinks: seq<string>, symlinkFinal: bool,
    owner: string, ownerFinal: bool, group: string, groupFinal: bool, mode: nat, modeFinal: bool,
    runList: seq<string>, runFinal: bool, ignoreDevice: bool, ignoreRemove: bool,
    linkPriority: int, partitions: nat, ctx: nat)

  /** matches: does the rule at this offset match, and what does ctx become; text: a value with
      its formats filled in and its characters replaced. */
  datatype Env = Env(matches: (nat, Device) -> (bool, nat), text: (nat, Slot, string, Device) -> string)

  const DEFAULT_PARTITIONS: nat := 15

  // ---------------------------------------------------------------- reading a rule

  predicate Contains(s: string, sub: string)
    decreases |s|
  {
    sub <= s || (s != "" && Contains(s[1..], sub))
  }

  predicate HasOption(h: Header, option: string) {
    exists k :: 0 <= k < |h.options| && Contains(h.options[k], option)
  }

  predicate HasHint(h: Header, slot: Slot, word: string) {
    exists k :: 0 <= k < |h.hints| && h.hints[k].0 == slot && Contains(h.hints[k].1, word)
  }

  /** strtol with base 8, for the digits of a mode. */
  function Octal(s: string, acc: nat): nat {
    if s != "" && '0' <= s[0] <= '7' then Octal(s[1..], 8 * acc + (s[0] as int - '0' as int)) else acc
  }

  function ModeOf(h: Header): nat {
    if h.mode.Some? then Octal(SkipSpace(h.mode.value.1), 0) else 0
  }

  function OpOf(h: Header, slot: Slot): Op {
    if slot in h.single then h.single[slot].op else UNSET
  }

  function ModeOp(h: Header): Op {
    if h.mode.Some? then h.mode.value.0 else UNSET
  }

  /** The text behind the first occurrence of word in s. */
  function Behind(s: string, word: string): Option<string>
    decreases |s|
  {
    if word <= s then Some(s[|word|..]) else if s == "" then None else Behind(s[1..], word)
  }

  /** The last link_priority option given. */
  function LinkPriority(options: seq<string>): int {
    if options == [] then 0
    else
      var t := Behind(options[|options| - 1], "link_priority=");
      if t.Some? then DbRecord.Atoi(t.value) else LinkPriority(options[..|options| - 1])
  }

  function Partitions(h: Header): nat {
    if HasOption(h, "all_partitions") || HasHint(h, NAME, "all_partitions") then DEFAULT_PARTITIONS else 0
  }

  predicate IgnoresRemove(h: Header) {
    HasOption(h, "ignore_remove") || HasHint(h, NAME, "ignore_remove")
  }

  /** The rule sets the node name. */
  predicate Naming(h: Header) {
    OpOf(h, NAME) in {ASSIGN, ASSIGN_FINAL, ADD}
  }

  function ValueOf(p: Packed, at: nat, slot: Slot): string
    requires at in p.headers
  {
    StringOf(p, at, OffsetOf(p.headers[at], slot))
  }

  // ---------------------------------------------------------------- applying a rule

  /** The link names in a text, separated by blanks. */
  function Words(s: string): seq<string>
    decreases |s|
  {
    var t := SkipSpace(s);
    if t == "" then []
    else
      var q := FindChar(t, ' ', 0);
      if q.None? then [t] else [t[..q.value]] + Words(t[q.value + 1..])
  }

  function AddNames(list: seq<string>, names: seq<string>): seq<string>
    decreases |names|
  {
    if names == [] then list else AddNames(DbRecord.AddName(list, names[0]), names[1..])
  }

  predicate Resets(op: Op) {
    op == ASSIGN || op == ASSIGN_FINAL
  }

  function ApplyOptions(d: Device, h: Header): (d': Device)
    ensures d' == d.(ignoreRemove := d'.ignoreRemove, linkPriority := d'.linkPriority, partitions := d'.partitions)
  {
    d.(ignoreRemove := d.ignoreRemove || IgnoresRemove(h),
       linkPriority := if LinkPriority(h.options) != 0 then LinkPriority(h.options) else d.linkPriority,
       partitions := if Partitions(h) != 0 && d.mainBlock then Partitions(h) else d.partitions)
  }

  function ApplyMode(d: Device, h: Header): (d': Device)
    ensures d' == d.(mode := d'.mode, modeFinal := d'.modeFinal) && (d.modeFinal ==> d' == d)
    ensures ModeOp(h) == ASSIGN_FINAL && ModeOf(h) != 0 ==> d'.modeFinal
  {
    if d.modeFinal || ModeOf(h) == 0 then d
    else d.(mode := ModeOf(h), modeFinal := ModeOp(h) == ASSIGN_FINAL)
  }

  function ApplyOwner(d: Device, p: Packed, at: nat, env: Env): (d': Device)
    requires at in p.headers
    ensures d' == d.(owner := d'.owner, ownerFinal := d'.ownerFinal) && (d.ownerFinal ==> d' == d)
    ensures OpOf(p.headers[at], OWNER) == ASSIGN_FINAL ==> d'.ownerFinal
  {
    var op := OpOf(p.headers[at], OWNER);
    if d.ownerFinal || op == UNSET then d
    else d.(owner := env.text(at, OWNER, ValueOf(p, at, OWNER), d), ownerFinal := op == ASSIGN_FINAL)
  }

  function ApplyGroup(d: Device, p: Packed, at: nat, env: Env): (d': Device)
    requires at in p.headers
    ensures d' == d.(group := d'.group, groupFinal := d'.groupFinal) && (d.groupFinal ==> d' == d)
    ensures OpOf(p.headers[at], GROUP) == ASSIGN_FINAL ==> d'.groupFinal
  {
    var op := OpOf(p.headers[at], GROUP);
    if d.groupFinal || op == UNSET then d
    else d.(group := env.text(at, GROUP, ValueOf(p, at, GROUP), d), groupFinal := op == ASSIGN_FINAL)
  }

  function ApplySymlinks(d: Device, p: Packed, at: nat, env: Env): (d': Device)
    requires at in p.headers
    ensures d' == d.(symlinks := d'.symlinks, symlinkFinal := d'.symlinkFinal) && (d.symlinkFinal ==> d' == d)
    ensures OpOf(p.headers[at], SYMLINK) == ASSIGN_FINAL ==> d'.symlinkFinal
  {
    var op := OpOf(p.headers[at], SYMLINK);
    if d.symlinkFinal || op == UNSET then d
    else
      var links := Words(env.text(at, SYMLINK, ValueOf(p, at, SYMLINK), d));
      d.(symlinkFinal := op == ASSIGN_FINAL, symlinks := AddNames(if Resets(op) then [] else d.symlinks, links))
  }

  function ApplyRun(d: Device, p: Packed, at: nat): (d': Device)
    requires at in p.headers
    ensures d' == d.(runList := d'.runList, runFinal := d'.runFinal) && (d.runFinal ==> d' == d)
    ensures OpOf(p.headers[at], RUN) == ASSIGN_FINAL ==> d'.runFinal
  {
    var op := OpOf(p.headers[at], RUN);
    if d.runFinal || op == UNSET then d
    else d.(runFinal := op == ASSIGN_FINAL,
            runList := DbRecord.AddName(if Resets(op) then [] else d.runList, ValueOf(p, at, RUN)))
  }

  function ApplyName(d: Device, p: Packed, at: nat, env: Env): (d': Device)
    requires at in p.headers
    ensures d' == d.(name := d'.name)
  {
    if Naming(p.headers[at]) then d.(name := env.text(at, NAME, ValueOf(p, at, NAME), d)) else d
  }

  /** Everything a matching rule does to the device, in the order of the source. */
  function Apply(d: Device, p: Packed, at: nat, env: Env): Device
    requires at in p.headers
  {
    var d1 := ApplyMode(ApplyOptions(d, p.headers[at]), p.headers[at]);
    var d2 := ApplyGroup(ApplyOwner(d1, p, at, env), p, at, env);
    ApplyRun(ApplyName(ApplySymlinks(d2, p, at, env), p, at, env), p, at)
  }

  /** One visited rule: where it is, whether it was applied, and the device after it. */
  datatype Visit = Visit(at: nat, applied: bool, dev: Device)

  /** ended: the walk came to its end, rather than to a rule that ignores the device. */
  datatype Walk = Walk(visits: seq<Visit>, dev: Device, nameSet: bool, ended: bool)

  /** Where the walk goes on after an applied rule. */
  function Onward(p: Packed, at: nat): nat
    requires Chain(p, at) && at < |p.buf|
    ensures Chain(p, Onward(p, at)) && at < Onward(p, at) <= |p.buf|
  {
    var h := p.headers[at];
    if OpOf(h, GOTO) != UNSET then FindLabel(p, After(p, at), ValueOf(p, at, GOTO)) else After(p, at)
  }

  /** The walk with one more visit. */
  function Visited(w: Walk, v: Visit, nameSet: bool): Walk {
    w.(visits := w.visits + [v], dev := v.dev, nameSet := nameSet)
  }

  function WithContext(d: Device, ctx: nat): (d': Device)
    ensures FinalsKept(d, d') && OnlyCollected(d, d') && d'.runFinal == d.runFinal && d'.name == d.name
  {
    d.(ctx := ctx)
  }

  function Ignored(d: Device): (d': Device)
    ensures FinalsKept(d, d') && OnlyCollected(d, d') && d'.name == d.name
  {
    d.(ignoreDevice := true)
  }

  /** A rule that matches, in the walk that names: where the walk goes on, if it does. */
  function NameMatched(p: Packed, at: nat, w: Walk, d: Device, env: Env): (r: (Option<nat>, Walk))
    requires Chain(p, at) && at < |p.buf|
    ensures r.0.Some? ==> Chain(p, r.0.value) && at < r.0.value <= |p.buf|
  {
    var h := p.headers[at];
    if HasOption(h, "ignore_device") then (None, w.(dev := Ignored(d)))
    else
      var w1 := Visited(w, Visit(at, true, Apply(d, p, at, env)), w.nameSet || Naming(h));
      if HasOption(h, "last_rule") then (None, w1.(ended := true)) else (Some(Onward(p, at)), w1)
  }

  /** One rule of the walk that names. */
  function NameTurn(p: Packed, at: nat, w: Walk, env: Env): (r: (Option<nat>, Walk))
    requires Chain(p, at) && at < |p.buf|
    ensures r.0.Some? ==> Chain(p, r.0.value) && at < r.0.value <= |p.buf|
  {
    if w.nameSet && Naming(p.headers[at]) then (Some(After(p, at)), Visited(w, Visit(at, false, w.dev), true))
    else
      var (matched, ctx) := env.matches(at, w.dev);
      var d := WithContext(w.dev, ctx);
      if matched then NameMatched(p, at, w, d, env)
      else (Some(After(p, at)), Visited(w, Visit(at, false, d), w.nameSet))
  }

  function WalkNames(p: Packed, at: nat, w: Walk, env: Env): Walk
    requires Chain(p, at) && at <= |p.buf|
    decreases |p.buf| - at
  {
    if at == |p.buf| then w.(ended := true)
    else
      var (next, w1) := NameTurn(p, at, w, env);
      if next.None? then w1 else WalkNames(p, next.value, w1, env)
  }

  /** udev_rules_get_name: a device no rule names gets its kernel name. */
  function GetName(p: Packed, d: Device, env: Env): Walk
    requires Chain(p, 0)
  {
    var w := WalkNames(p, 0, Walk([], d, false, false), env);
    if w.ended && !w.nameSet then w.(dev := w.dev.(name := w.dev.kernel)) else w
  }

  // ---------------------------------------------------------------- what the walk keeps

  /** Offsets of visited rules increase, so no layout of GOTO and LABEL makes a loop. */
  predicate Increasing(visits: seq<Visit>) {
    forall i, j :: 0 <= i < j < |visits| ==> visits[i].at < visits[j].at
  }

  predicate AllBelow(visits: seq<Visit>, at: nat) {
    forall i :: 0 <= i < |visits| ==> visits[i].at < at
  }

  /** What d2 has of d1 once d1 has final settings. */
  predicate FinalsKept(d1: Device, d2: Device) {
    && (d1.modeFinal ==> d2.modeFinal && d2.mode == d1.mode)
    && (d1.ownerFinal ==> d2.ownerFinal && d2.owner == d1.owner)
    && (d1.groupFinal ==> d2.groupFinal && d2.group == d1.group)
    && (d1.symlinkFinal ==> d2.symlinkFinal && d2.symlinks == d1.symlinks)
    && (d1.runFinal ==> d2.runFinal && d2.runList == d1.runList)
  }

  lemma FinalsTransitive(d1: Device, d2: Device, d3: Device)
    requires FinalsKept(d1, d2) && FinalsKept(d2, d3)
    ensures FinalsKept(d1, d3)
  {
  }

  /** The device just before the name is set. */
  function BeforeName(d: Device, p: Packed, at: nat, env: Env): Device
    requires at in p.headers
  {
    var d1 := ApplyMode(ApplyOptions(d, p.headers[at]), p.headers[at]);
    ApplySymlinks(ApplyGroup(ApplyOwner(d1, p, at, env), p, at, env), p, at, env)
  }

  lemma BeforeNameKeeps(d: Device, p: Packed, at: nat, env: Env)
    requires at in p.headers
    ensures var d' := BeforeName(d, p, at, env);
            FinalsKept(d, d') && d'.name == d.name && d'.kernel == d.kernel
    ensures Apply(d, p, at, env) == ApplyRun(ApplyName(BeforeName(d, p, at, env), p, at, env), p, at)
  {
    hide ApplyOptions, ApplyMode, ApplyOwner, ApplyGroup, ApplySymlinks;
  }

  lemma ApplyKeepsFinals(d: Device, p: Packed, at: nat, env: Env)
    requires at in p.headers
    ensures FinalsKept(d, Apply(d, p, at, env)) && Apply(d, p, at, env).kernel == d.kernel
    ensures !Naming(p.headers[at]) ==> Apply(d, p, at, env).name == d.name
  {
    BeforeNameKeeps(d, p, at, env);
    hide ApplyRun, Apply, BeforeName;
  }

  /** After ":=" the setting is final; for a mode only if the mode is not 0. */
  lemma AssignFinalIsFinal(d: Device, p: Packed, at: nat, env: Env)
    requires at in p.headers
    ensures var d' := Apply(d, p, at, env); var h := p.headers[at];
            && (ModeOp(h) == ASSIGN_FINAL && ModeOf(h) != 0 ==> d'.modeFinal)
            && (OpOf(h, OWNER) == ASSIGN_FINAL ==> d'.ownerFinal)
            && (OpOf(h, GROUP) == ASSIGN_FINAL ==> d'.groupFinal)
            && (OpOf(h, SYMLINK) == ASSIGN_FINAL ==> d'.symlinkFinal)
            && (OpOf(h, RUN) == ASSIGN_FINAL ==> d'.runFinal)
  {
    hide ApplyOptions, ApplyMode, ApplyOwner, ApplyGroup, ApplySymlinks, ApplyRun, ApplyName, OpOf, ModeOp, ModeOf;
  }

  /** The state a walk is in when it is about to look at offset at. */
  ghost predicate WalkOk(p: Packed, at: nat, w: Walk) {
    && Increasing(w.visits) && AllBelow(w.visits, at) && !w.ended
    && (forall i :: 0 <= i < |w.visits| ==> FinalsKept(w.visits[i].dev, w.dev))
    && (forall i :: 0 <= i < |w.visits| ==> w.visits[i].at in p.headers)
    && (w.nameSet <==> exists i :: NamedAt(p, w.visits, i))
    && (forall i :: NamedAt(p, w.visits, i) ==>
          w.visits[i].dev.name == w.dev.name && forall j :: NamedAt(p, w.visits, j) ==> i == j)
    && (forall i, j :: 0 <= i < j < |w.visits| ==> FinalsKept(w.visits[i].dev, w.visits[j].dev))
  }

  /** Visit i applied a rule that sets the name. */
  predicate NamedAt(p: Packed, visits: seq<Visit>, i: int) {
    0 <= i < |visits| && visits[i].applied && visits[i].at in p.headers && Naming(p.headers[visits[i].at])
  }

  lemma VisitAdded(p: Packed, at: nat, w: Walk, v: Visit, nameSet: bool, next: nat)
    requires WalkOk(p, at, w) && v.at == at && at in p.headers && at < next
    requires FinalsKept(w.dev, v.dev)
    requires v.applied && Naming(p.headers[at]) ==> !w.nameSet && nameSet
    requires !(v.applied && Naming(p.headers[at])) ==> nameSet == w.nameSet && v.dev.name == w.dev.name
    ensures WalkOk(p, next, w.(visits := w.visits + [v], dev := v.dev, nameSet := nameSet))
  {
    var visits := w.visits + [v];
    assert forall i :: 0 <= i < |w.visits| ==> visits[i] == w.visits[i];
    assert visits[|w.visits|] == v;
    forall i
      ensures NamedAt(p, visits, i) <==>
              NamedAt(p, w.visits, i) || (i == |w.visits| && v.applied && Naming(p.headers[at]))
    {
    }
    hide NamedAt, Naming;
    forall i | 0 <= i < |visits|
      ensures FinalsKept(visits[i].dev, v.dev)
    {
      if i < |w.visits| {
        FinalsTransitive(w.visits[i].dev, w.dev, v.dev);
      }
    }
    hide FinalsKept;
    forall i, j | 0 <= i < j < |visits|
      ensures FinalsKept(visits[i].dev, visits[j].dev)
    {
      if j < |w.visits| {
        assert FinalsKept(w.visits[i].dev, w.visits[j].dev);
      }
    }
    if nameSet && w.nameSet {
      var i :| NamedAt(p, w.visits, i);
      assert NamedAt(p, visits, i);
    }
    if nameSet && !w.nameSet {
      assert NamedAt(p, visits, |w.visits|);
    }
    forall i | NamedAt(p, visits, i)
      ensures visits[i].dev.name == v.dev.name && forall j :: NamedAt(p, visits, j) ==> i == j
    {
      NamedInRange(p, visits, i);
      if i < |w.visits| {
        assert NamedAt(p, w.visits, i);
      }
    }
    assert Increasing(visits) && AllBelow(visits, next);
  }

  lemma NamedInRange(p: Packed, visits: seq<Visit>, i: int)
    requires NamedAt(p, visits, i)
    ensures 0 <= i < |visits|
  {
  }

  /** What is known about a finished walk. */
  ghost predicate WalkDone(p: Packed, w: Walk) {
    && Increasing(w.visits)
    && (forall i :: 0 <= i < |w.visits| ==> w.visits[i].at in p.headers)
    && (forall i :: 0 <= i < |w.visits| ==> FinalsKept(w.visits[i].dev, w.dev))
    && (forall i, j :: 0 <= i < j < |w.visits| ==> FinalsKept(w.visits[i].dev, w.visits[j].dev))
    && (w.nameSet <==> exists i :: NamedAt(p, w.visits, i))
    && (forall i :: NamedAt(p, w.visits, i) ==>
          w.visits[i].dev.name == w.dev.name && forall j :: NamedAt(p, w.visits, j) ==> i == j)
  }

  lemma OkIsDone(p: Packed, at: nat, w: Walk, d: Device, ended: bool)
    requires WalkOk(p, at, w) && FinalsKept(w.dev, d) && d.name == w.dev.name
    ensures WalkDone(p, w.(dev := d, ended := ended))
  {
    forall i | 0 <= i < |w.visits|
      ensures FinalsKept(w.visits[i].dev, d)
    {
      assert FinalsKept(w.visits[i].dev, w.dev);
    }
  }

  lemma NameTurnKeeps(p: Packed, at: nat, w: Walk, env: Env)
    requires Chain(p, at) && at < |p.buf| && WalkOk(p, at, w)
    ensures var (next, w1) := NameTurn(p, at, w, env);
            && (next.Some? ==> WalkOk(p, next.value, w1))
            && (next.None? ==> WalkDone(p, w1))
            && w1.dev.kernel == w.dev.kernel
  {
    var h := p.headers[at];
    var (matched, ctx) := env.matches(at, w.dev);
    var d := WithContext(w.dev, ctx);
    FinalsSame(w.dev);
    FinalsTransitive(w.dev, d, Ignored(d));
    hide WalkOk, WalkDone, Apply, Onward, Naming, HasOption, FinalsKept, WithContext, Ignored, OnlyCollected, Chain;
    KernelKept(w.dev, d);
    KernelKept(d, Ignored(d));
    if w.nameSet && Naming(h) {
      VisitAdded(p, at, w, Visit(at, false, w.dev), true, After(p, at));
    } else if !matched {
      VisitAdded(p, at, w, Visit(at, false, d), w.nameSet, After(p, at));
    } else if HasOption(h, "ignore_device") {
      NotEnded(p, at, w);
      OkIsDone(p, at, w, Ignored(d), false);
    } else {
      var d1 := Apply(d, p, at, env);
      ApplyKeepsFinals(d, p, at, env);
      FinalsTransitive(w.dev, d, d1);
      VisitAdded(p, at, w, Visit(at, true, d1), w.nameSet || Naming(h), Onward(p, at));
      if HasOption(h, "last_rule") {
        FinalsSame(d1);
        OkIsDone(p, Onward(p, at), Visited(w, Visit(at, true, d1), w.nameSet || Naming(h)), d1, true);
      }
    }
  }

  lemma FinalsSame(d: Device)
    ensures FinalsKept(d, d)
  {
  }

  lemma KernelKept(d1: Device, d2: Device)
    requires OnlyCollected(d1, d2)
    ensures d2.kernel == d1.kernel
  {
  }

  lemma {:induction false} WalkKeeps(p: Packed, at: nat, w: Walk, env: Env)
    requires Chain(p, at) && at <= |p.buf| && WalkOk(p, at, w)
    ensures WalkDone(p, WalkNames(p, at, w, env))
    ensures WalkNames(p, at, w, env).dev.kernel == w.dev.kernel
    decreases |p.buf| - at
  {
    if at == |p.buf| {
      FinalsSame(w.dev);
      OkIsDone(p, at, w, w.dev, true);
    } else {
      NameTurnKeeps(p, at, w, env);
      hide WalkOk, WalkDone, NameTurn;
      var (next, w1) := NameTurn(p, at, w, env);
      if next.Some? {
        WalkKeeps(p, next.value, w1, env);
      }
    }
  }

  lemma NotEnded(p: Packed, at: nat, w: Walk)
    requires WalkOk(p, at, w)
    ensures !w.ended
  {
  }

  // ---------------------------------------------------------------- which rules are applied

  /** The device as visit i found it. */
  function Before(d: Device, visits: seq<Visit>, i: nat): Device
    requires i <= |visits|
  {
    if i == 0 then d else visits[i - 1].dev
  }

  predicate NamedBefore(p: Packed, visits: seq<Visit>, i: nat) {
    exists k :: 0 <= k < i && NamedAt(p, visits, k)
  }

  /** Where the walk goes on after its visits so far. */
  function Resume(p: Packed, visits: seq<Visit>): nat
    requires visits != [] ==> Chain(p, visits[|visits| - 1].at) && visits[|visits| - 1].at < |p.buf|
  {
    if visits == [] then 0
    else
      var v := visits[|visits| - 1];
      if v.applied then Onward(p, v.at) else After(p, v.at)
  }

  /** Visit i applied its rule exactly if it should: the rule matches the device as it is by then,
      and does not name a device that has been named. */
  predicate AppliedRight(p: Packed, env: Env, d: Device, visits: seq<Visit>, i: nat)
    requires i < |visits|
  {
    visits[i].at in p.headers &&
    (visits[i].applied <==>
     env.matches(visits[i].at, Before(d, visits, i)).0
     && !(Naming(p.headers[visits[i].at]) && NamedBefore(p, visits, i)))
  }

  /** The device as the rule of visit i finds it: matched against, unless the rule is passed over. */
  function Met(p: Packed, env: Env, d: Device, visits: seq<Visit>, i: nat): Device
    requires i < |visits| && visits[i].at in p.headers
  {
    var b := Before(d, visits, i);
    if Naming(p.headers[visits[i].at]) && NamedBefore(p, visits, i) then b
    else WithContext(b, env.matches(visits[i].at, b).1)
  }

  /** Visit i is at the offset that the visits before lead to, applied its rule exactly if it
      should, and left the device as the rule says. */
  predicate VisitRight(p: Packed, env: Env, d: Device, visits: seq<Visit>, i: nat)
    requires i < |visits|
  {
    && Chain(p, visits[i].at) && visits[i].at < |p.buf|
    && (i > 0 ==> Chain(p, visits[i - 1].at) && visits[i - 1].at < |p.buf|)
    && visits[i].at == Resume(p, visits[..i])
    && AppliedRight(p, env, d, visits, i)
    && var m := Met(p, env, d, visits, i);
       visits[i].dev == if visits[i].applied then Apply(m, p, visits[i].at, env) else m
  }

  ghost predicate AllRight(p: Packed, env: Env, d: Device, visits: seq<Visit>) {
    forall i: nat :: i < |visits| ==> VisitRight(p, env, d, visits, i)
  }

  lemma NamedBeforeLocal(p: Packed, visits: seq<Visit>, v: Visit, i: nat)
    requires i <= |visits|
    ensures NamedBefore(p, visits + [v], i) <==> NamedBefore(p, visits, i)
  {
    assert forall k :: 0 <= k < i ==> (visits + [v])[k] == visits[k];
    assert forall k :: 0 <= k < i ==> (NamedAt(p, visits + [v], k) <==> NamedAt(p, visits, k));
  }

  lemma VisitRightLocal(p: Packed, env: Env, d: Device, visits: seq<Visit>, v: Visit, i: nat)
    requires i < |visits| && VisitRight(p, env, d, visits, i)
    ensures VisitRight(p, env, d, visits + [v], i)
  {
    var more := visits + [v];
    NamedBeforeLocal(p, visits, v, i);
    assert more[i] == visits[i] && more[..i] == visits[..i] && (i > 0 ==> more[i - 1] == visits[i - 1]);
    assert Before(d, more, i) == Before(d, visits, i);
    hide NamedBefore, Naming, Apply, Chain, WithContext;
  }

  lemma AllRightGrows(p: Packed, env: Env, d: Device, visits: seq<Visit>, v: Visit)
    requires AllRight(p, env, d, visits)
    requires VisitRight(p, env, d, visits + [v], |visits|)
    ensures AllRight(p, env, d, visits + [v])
  {
    hide VisitRight;
    forall i: nat | i < |visits|
      ensures VisitRight(p, env, d, visits + [v], i)
    {
      VisitRightLocal(p, env, d, visits, v, i);
    }
  }

  lemma NameSetMeaning(p: Packed, at: nat, w: Walk)
    requires WalkOk(p, at, w)
    ensures w.nameSet <==> NamedBefore(p, w.visits, |w.visits|)
  {
    if w.nameSet {
      var i :| NamedAt(p, w.visits, i);
      NamedInRange(p, w.visits, i);
    }
  }

  /** The walk so far is right, and at is where it goes on. */
  ghost predicate OnTrack(p: Packed, env: Env, d: Device, at: nat, w: Walk) {
    && AllRight(p, env, d, w.visits) && w.dev == Before(d, w.visits, |w.visits|)
    && (w.visits != [] ==> Chain(p, w.visits[|w.visits| - 1].at) && w.visits[|w.visits| - 1].at < |p.buf|)
    && at == Resume(p, w.visits)
  }

  lemma NewVisitRight(p: Packed, env: Env, d: Device, at: nat, w: Walk, v: Visit)
    requires Chain(p, at) && at < |p.buf| && OnTrack(p, env, d, at, w) && v.at == at
    requires w.nameSet <==> NamedBefore(p, w.visits, |w.visits|)
    requires v.applied <==> env.matches(at, w.dev).0 && !(Naming(p.headers[at]) && w.nameSet)
    requires var m := if Naming(p.headers[at]) && w.nameSet then w.dev
                      else WithContext(w.dev, env.matches(at, w.dev).1);
             v.dev == if v.applied then Apply(m, p, at, env) else m
    ensures VisitRight(p, env, d, w.visits + [v], |w.visits|)
  {
    var n, more := |w.visits|, w.visits + [v];
    assert at in p.headers;
    assert n > 0 ==> more[n - 1] == w.visits[n - 1];
    hide Chain, Naming, Apply, WithContext, NamedBefore, AllRight, Onward;
    NamedBeforeLocal(p, w.visits, v, n);
    assert more[..n] == w.visits && more[n] == v;
    assert Before(d, more, n) == w.dev;
    assert Met(p, env, d, more, n) == if Naming(p.headers[at]) && w.nameSet then w.dev
                                      else WithContext(w.dev, env.matches(at, w.dev).1);
    hide Met, Before;
  }

  lemma VisitOnTrack(p: Packed, env: Env, d: Device, at: nat, w: Walk, v: Visit, nameSet: bool, next: nat)
    requires Chain(p, at) && at < |p.buf| && OnTrack(p, env, d, at, w) && v.at == at
    requires w.nameSet <==> NamedBefore(p, w.visits, |w.visits|)
    requires v.applied <==> env.matches(at, w.dev).0 && !(Naming(p.headers[at]) && w.nameSet)
    requires var m := if Naming(p.headers[at]) && w.nameSet then w.dev
                      else WithContext(w.dev, env.matches(at, w.dev).1);
             v.dev == if v.applied then Apply(m, p, at, env) else m
    requires next == if v.applied then Onward(p, at) else After(p, at)
    ensures OnTrack(p, env, d, next, Visited(w, v, nameSet))
  {
    NewVisitRight(p, env, d, at, w, v);
    hide Chain, Apply, NamedBefore, VisitRight;
    AllRightGrows(p, env, d, w.visits, v);
    hide AllRight;
    assert (w.visits + [v])[|w.visits|] == v;
  }

  lemma NameTurnRight(p: Packed, at: nat, w: Walk, env: Env, d: Device)
    requires Chain(p, at) && at < |p.buf| && WalkOk(p, at, w) && OnTrack(p, env, d, at, w)
    ensures var (next, w1) := NameTurn(p, at, w, env);
            AllRight(p, env, d, w1.visits) && (next.Some? ==> OnTrack(p, env, d, next.value, w1))
  {
    NameSetMeaning(p, at, w);
    var h := p.headers[at];
    var (matched, ctx) := env.matches(at, w.dev);
    var m := WithContext(w.dev, ctx);
    assert AllRight(p, env, d, w.visits);
    hide Chain, WalkOk, HasOption, Apply, Onward, WithContext, Ignored, AllRight, NamedBefore, Naming;
    if w.nameSet && Naming(h) {
      VisitOnTrack(p, env, d, at, w, Visit(at, false, w.dev), true, After(p, at));
    } else if !matched {
      VisitOnTrack(p, env, d, at, w, Visit(at, false, m), w.nameSet, After(p, at));
    } else {
      VisitOnTrack(p, env, d, at, w, Visit(at, true, Apply(m, p, at, env)), w.nameSet || Naming(h), Onward(p, at));
    }
  }

  lemma {:induction false} WalkRight(p: Packed, at: nat, w: Walk, env: Env, d: Device)
    requires Chain(p, at) && at <= |p.buf| && WalkOk(p, at, w) && OnTrack(p, env, d, at, w)
    ensures AllRight(p, env, d, WalkNames(p, at, w, env).visits)
    decreases |p.buf| - at
  {
    if at < |p.buf| {
      NameTurnKeeps(p, at, w, env);
      NameTurnRight(p, at, w, env, d);
      hide WalkOk, NameTurn, AllRight, WalkDone, OnTrack;
      var (next, w1) := NameTurn(p, at, w, env);
      if next.Some? {
        WalkRight(p, next.value, w1, env, d);
      }
    }
  }

  lemma GetNameRight(p: Packed, d: Device, env: Env)
    requires Chain(p, 0)
    ensures AllRight(p, env, d, GetName(p, d, env).visits)
  {
    var w0 := Walk([], d, false, false);
    assert WalkOk(p, 0, w0);
    assert OnTrack(p, env, d, 0, w0);
    WalkRight(p, 0, w0, env, d);
    hide WalkNames, WalkOk, AllRight;
  }

  /** A visited rule is applied exactly when it matches the device as the visits before left it,
      and does not name a device that one of them has named: so the name comes from the first
      matching rule that sets one. */
  lemma AppliedWhenMatching(p: Packed, d: Device, env: Env, i: nat)
    requires Chain(p, 0) && i < |GetName(p, d, env).visits|
    ensures var v := GetName(p, d, env).visits;
            && v[i].at in p.headers
            && (v[i].applied <==>
                env.matches(v[i].at, Before(d, v, i)).0
                && !(Naming(p.headers[v[i].at]) && exists k :: 0 <= k < i && NamedAt(p, v, k)))
  {
    GetNameRight(p, d, env);
    hide GetName;
    assert VisitRight(p, env, d, GetName(p, d, env).visits, i);
  }

  /** The walk starts at the first rule, and each visit stands where the one before leads: behind
      its rule, or at the label of an applied rule with a GOTO. An applied rule leaves the device
      as Apply says, one that is not leaves it as matching did. */
  lemma VisitsFollow(p: Packed, d: Device, env: Env, i: nat)
    requires Chain(p, 0) && i < |GetName(p, d, env).visits|
    ensures VisitRight(p, env, d, GetName(p, d, env).visits, i)
  {
    GetNameRight(p, d, env);
    hide GetName, VisitRight;
  }

  // ---------------------------------------------------------------- theorems

  /** For every buffer of rules and every way of matching: the rules visited have increasing
      offsets; a setting made final at some visit is the same at every later visit and in the
      end; at most one visit sets the name; and the name in the end is the one it set, or the
      kernel name if none did and no rule made the device ignored. */
  lemma NamesAreDecidedOnce(p: Packed, d: Device, env: Env)
    requires Chain(p, 0)
    ensures var w := GetName(p, d, env);
            && (forall i, j :: 0 <= i < j < |w.visits| ==> w.visits[i].at < w.visits[j].at)
            && (forall i, j :: 0 <= i < j < |w.visits| ==> FinalsKept(w.visits[i].dev, w.visits[j].dev))
            && (forall i :: 0 <= i < |w.visits| ==> FinalsKept(w.visits[i].dev, w.dev))
            && (forall i, j :: NamedAt(p, w.visits, i) && NamedAt(p, w.visits, j) ==> i == j)
            && (forall i :: NamedAt(p, w.visits, i) ==> w.dev.name == w.visits[i].dev.name)
            && (w.ended && (forall i :: !NamedAt(p, w.visits, i)) ==> w.dev.name == d.kernel)
  {
    var w0 := Walk([], d, false, false);
    assert WalkOk(p, 0, w0);
    WalkKeeps(p, 0, w0, env);
    hide NamedAt, WalkNames;
  }

  /** A naming rule gives the device the text of its own NAME value, filled in for the device as
      the rule's other settings left it. */
  lemma NameIsText(d: Device, p: Packed, at: nat, env: Env)
    requires at in p.headers && Naming(p.headers[at])
    ensures Apply(d, p, at, env).name == env.text(at, NAME, ValueOf(p, at, NAME), BeforeName(d, p, at, env))
  {
    BeforeNameKeeps(d, p, at, env);
    hide BeforeName, Apply, ApplyRun;
  }

  /** The name in the end is the text of the NAME value of the rule that decided it, filled in for
      the device as that rule found it. */
  lemma DecidedNameIsText(p: Packed, d: Device, env: Env, i: nat)
    requires Chain(p, 0) && NamedAt(p, GetName(p, d, env).visits, i)
    ensures var w := GetName(p, d, env); var at := w.visits[i].at;
            w.dev.name == env.text(at, NAME, ValueOf(p, at, NAME),
                                   BeforeName(Met(p, env, d, w.visits, i), p, at, env))
  {
    NamesAreDecidedOnce(p, d, env);
    var w := GetName(p, d, env);
    NamedInRange(p, w.visits, i);
    VisitsFollow(p, d, env, i);
    var at := w.visits[i].at;
    NameIsText(Met(p, env, d, w.visits, i), p, at, env);
    hide GetName, Apply, BeforeName, Met, FinalsKept;
  }

  /** The settings that a rule makes for good. */
  predicate MadeFinal(h: Header, d: Device, d': Device) {
    && (ModeOp(h) == ASSIGN_FINAL && ModeOf(h) != 0 ==> d'.mode == d.mode)
    && (OpOf(h, OWNER) == ASSIGN_FINAL ==> d'.owner == d.owner)
    && (OpOf(h, GROUP) == ASSIGN_FINAL ==> d'.group == d.group)
    && (OpOf(h, SYMLINK) == ASSIGN_FINAL ==> d'.symlinks == d.symlinks)
    && (OpOf(h, RUN) == ASSIGN_FINAL ==> d'.runList == d.runList)
  }

  lemma FinalIsMade(m: Device, p: Packed, at: nat, env: Env, d: Device)
    requires at in p.headers && FinalsKept(Apply(m, p, at, env), d)
    ensures MadeFinal(p.headers[at], Apply(m, p, at, env), d)
  {
    AssignFinalIsFinal(m, p, at, env);
    hide Apply, OpOf, ModeOp, ModeOf;
  }

  /** After a rule with ":=" was applied, the mode, owner, group, links or programs it assigns are
      the same at every later visit and in the end, whatever rules follow. (A mode of 0 assigns
      nothing.) */
  lemma FinalSettingsStay(p: Packed, d: Device, env: Env, i: nat)
    requires Chain(p, 0) && i < |GetName(p, d, env).visits| && GetName(p, d, env).visits[i].applied
    ensures var w := GetName(p, d, env); var v := w.visits[i];
            && v.at in p.headers
            && MadeFinal(p.headers[v.at], v.dev, w.dev)
            && forall j :: i <= j < |w.visits| ==> MadeFinal(p.headers[v.at], v.dev, w.visits[j].dev)
  {
    NamesAreDecidedOnce(p, d, env);
    VisitsFollow(p, d, env, i);
    var w := GetName(p, d, env);
    var at, m := w.visits[i].at, Met(p, env, d, w.visits, i);
    FinalsSame(w.visits[i].dev);
    hide GetName, Met, Apply, MadeFinal, FinalsKept, NamedAt;
    FinalIsMade(m, p, at, env, w.dev);
    forall j | i <= j < |w.visits|
      ensures MadeFinal(p.headers[at], w.visits[i].dev, w.visits[j].dev)
    {
      FinalIsMade(m, p, at, env, w.visits[j].dev);
    }
  }

  // ---------------------------------------------------------------- collecting programs

  /** Rules that get_run passes over. */
  predicate NamesDevice(h: Header) {
    OpOf(h, NAME) != UNSET || OpOf(h, SYMLINK) != UNSET || ModeOp(h) != UNSET
    || OpOf(h, OWNER) != UNSET || OpOf(h, GROUP) != UNSET
  }

  /** d2 differs from d1 at most in the programs, ignore_device and the matching context, and not
      in the programs if those are final. */
  predicate OnlyCollected(d1: Device, d2: Device) {
    && d2 == d1.(runList := d2.runList, ignoreDevice := d2.ignoreDevice, ctx := d2.ctx)
    && (d1.runFinal ==> d2.runList == d1.runList)
  }

  lemma OnlyCollectedTwice(d1: Device, d2: Device, d3: Device)
    requires OnlyCollected(d1, d2) && OnlyCollected(d2, d3)
    ensures OnlyCollected(d1, d3)
  {
  }

  function CollectRun(d: Device, p: Packed, at: nat): (d': Device)
    requires at in p.headers
    ensures OnlyCollected(d, d')
  {
    var op := OpOf(p.headers[at], RUN);
    if d.runFinal || op == UNSET then d
    else d.(runList := DbRecord.AddName(if Resets(op) then [] else d.runList, ValueOf(p, at, RUN)))
  }

  /** A rule that matches, in the walk that collects. */
  function RunMatched(p: Packed, at: nat, w: Walk, d: Device): (r: (Option<nat>, Walk))
    requires Chain(p, at) && at < |p.buf|
    ensures r.0.Some? ==> Chain(p, r.0.value) && at < r.0.value <= |p.buf|
  {
    var h := p.headers[at];
    if HasOption(h, "ignore_device") then (None, w.(dev := Ignored(d)))
    else
      var w1 := Visited(w, Visit(at, true, CollectRun(d, p, at)), w.nameSet);
      if StopsRun(d, h) then (None, w1.(ended := true)) else (Some(Onward(p, at)), w1)
  }

  /** One rule of the walk that collects: where it goes on, if it does. */
  function RunTurn(p: Packed, at: nat, w: Walk, env: Env): (r: (Option<nat>, Walk))
    requires Chain(p, at) && at < |p.buf|
    ensures r.0.Some? ==> Chain(p, r.0.value) && at < r.0.value <= |p.buf|
  {
    if NamesDevice(p.headers[at]) then (Some(After(p, at)), Visited(w, Visit(at, false, w.dev), w.nameSet))
    else
      var (matched, ctx) := env.matches(at, w.dev);
      var d := WithContext(w.dev, ctx);
      if matched then RunMatched(p, at, w, d)
      else (Some(After(p, at)), Visited(w, Visit(at, false, d), w.nameSet))
  }

  /** Nothing is collected behind a rule that assigns the programs for good, or a last rule. */
  predicate StopsRun(d: Device, h: Header) {
    (!d.runFinal && OpOf(h, RUN) == ASSIGN_FINAL) || HasOption(h, "last_rule")
  }

  lemma RunTurnKeeps(p: Packed, at: nat, w: Walk, env: Env)
    requires Chain(p, at) && at < |p.buf|
    ensures var w1 := RunTurn(p, at, w, env).1;
            && (w1.visits == w.visits || (|w1.visits| == |w.visits| + 1 && w1.visits[..|w.visits|] == w.visits
                                          && w1.visits[|w.visits|].at == at))
            && OnlyCollected(w.dev, w1.dev)
  {
    var h := p.headers[at];
    OnlySame(w.dev);
    hide NamesDevice, HasOption, StopsRun, Onward, CollectRun, Chain, OnlyCollected, WithContext, Ignored;
    var (matched, ctx) := env.matches(at, w.dev);
    var d := WithContext(w.dev, ctx);
    OnlyCollectedTwice(w.dev, d, Ignored(d));
    OnlyCollectedTwice(w.dev, d, CollectRun(d, p, at));
  }

  lemma OnlySame(d: Device)
    ensures OnlyCollected(d, d)
  {
  }

  function WalkRuns(p: Packed, at: nat, w: Walk, env: Env): Walk
    requires Chain(p, at) && at <= |p.buf|
    decreases |p.buf| - at
  {
    if at == |p.buf| then w.(ended := true)
    else
      var (next, w1) := RunTurn(p, at, w, env);
      if next.None? then w1 else WalkRuns(p, next.value, w1, env)
  }

  /** udev_rules_get_run. */
  function GetRun(p: Packed, d: Device, env: Env): Walk
    requires Chain(p, 0)
  {
    WalkRuns(p, 0, Walk([], d, false, false), env)
  }

  /** Collecting programs changes nothing that names or protects the node, visits rules in
      increasing order, and leaves a final run list alone. */
  lemma {:induction false} RunsOnlyCollect(p: Packed, at: nat, w: Walk, env: Env)
    requires Chain(p, at) && at <= |p.buf| && Increasing(w.visits) && AllBelow(w.visits, at)
    ensures var w' := WalkRuns(p, at, w, env); Increasing(w'.visits) && OnlyCollected(w.dev, w'.dev)
    decreases |p.buf| - at
  {
    OnlySame(w.dev);
    if at < |p.buf| {
      RunTurnKeeps(p, at, w, env);
      var (next, w1) := RunTurn(p, at, w, env);
      OneMoreVisit(w.visits, w1.visits, at, if next.Some? then next.value else at + 1);
      hide RunTurn, OnlyCollected, Increasing, AllBelow;
      if next.Some? {
        RunsOnlyCollect(p, next.value, w1, env);
        OnlyCollectedTwice(w.dev, w1.dev, WalkRuns(p, at, w, env).dev);
      }
    }
  }

  lemma OneMoreVisit(v: seq<Visit>, v': seq<Visit>, at: nat, next: nat)
    requires Increasing(v) && AllBelow(v, at) && at < next
    requires v' == v || (|v'| == |v| + 1 && v'[..|v|] == v && v'[|v|].at == at)
    ensures Increasing(v') && AllBelow(v', next)
  {
    assert forall i :: 0 <= i < |v| ==> v'[i] == v[i] || v'[..|v|][i] == v[i];
    if v' != v {
      assert forall i :: 0 <= i < |v| ==> v'[i] == v'[..|v|][i];
    }
  }

  /** No rule applied so far had ":=" for its programs. */
  predicate NoFinalRun(p: Packed, visits: seq<Visit>, n: nat)
    requires n <= |visits|
  {
    forall i :: 0 <= i < n && visits[i].applied ==>
      visits[i].at in p.headers && OpOf(p.headers[visits[i].at], RUN) != ASSIGN_FINAL
  }

  lemma TurnIsNotFinal(p: Packed, at: nat, w: Walk, env: Env)
    requires Chain(p, at) && at < |p.buf| && !w.dev.runFinal && NoFinalRun(p, w.visits, |w.visits|)
    ensures var (next, w1) := RunTurn(p, at, w, env);
            && (next.Some? ==> NoFinalRun(p, w1.visits, |w1.visits|))
            && (w1.visits == [] || NoFinalRun(p, w1.visits, |w1.visits| - 1))
  {
    hide NamesDevice, HasOption, ValueOf, Onward, OpOf, CollectRun, OnlyCollected, WithContext, Ignored;
  }

  lemma ButTheLast(p: Packed, visits: seq<Visit>)
    requires NoFinalRun(p, visits, |visits|)
    ensures visits == [] || NoFinalRun(p, visits, |visits| - 1)
  {
  }

  /** A ":=" among the programs is the last rule applied. */
  lemma {:induction false} FinalRunIsLast(p: Packed, at: nat, w: Walk, env: Env)
    requires Chain(p, at) && at <= |p.buf| && !w.dev.runFinal && NoFinalRun(p, w.visits, |w.visits|)
    ensures var v := WalkRuns(p, at, w, env).visits; v == [] || NoFinalRun(p, v, |v| - 1)
    decreases |p.buf| - at
  {
    hide NoFinalRun, RunTurn;
    if at == |p.buf| {
      ButTheLast(p, w.visits);
    } else {
      TurnIsNotFinal(p, at, w, env);
      RunTurnKeeps(p, at, w, env);
      var (next, w1) := RunTurn(p, at, w, env);
      if next.Some? {
        FinalRunIsLast(p, next.value, w1, env);
      }
    }
  }
}
