/** Links under the device root are relative: node_symlink (udev_node.c) turns the path of a node
    into a target relative to the link, and sysfs_resolve_link (udev_sysfs.c) turns a relative
    target back into a path. */
module RelativeLink {
  import opened Basics

  const UP: string := "../"

  /** strlcat into a buffer of the given size. */
  function StrLCat(dst: string, src: string, size: nat): string {
    if |dst| + 1 >= size then dst
    else (dst + src)[..if |dst| + |src| < size then |dst| + |src| else size - 1]
  }

  function Slashes(s: string): nat {
    if s == "" then 0 else (if s[0] == '/' then 1 else 0) + Slashes(s[1..])
  }

  function Ups(n: nat): (s: string)
    ensures |s| == 3 * n
  {
    if n == 0 then "" else UP + Ups(n - 1)
  }

  /** Where the two paths stop agreeing. */
  function Common(a: string, b: string): (i: nat)
    ensures i <= |a| && i <= |b| && a[..i] == b[..i]
    ensures i < |a| && i < |b| ==> a[i] != b[i]
  {
    if a == "" || b == "" || a[0] != b[0] then 0
    else
      var i := Common(a[1..], b[1..]);
      assert a[..i + 1] == [a[0]] + a[1..][..i] && b[..i + 1] == [b[0]] + b[1..][..i];
      i + 1
  }

  /** The position behind the last '/' of s, 0 if there is none. */
  function Tail(s: string): (t: nat)
    ensures t <= |s| && '/' !in s[t..]
    ensures t > 0 ==> s[t - 1] == '/'
  {
    if s == "" then 0
    else if s[|s| - 1] == '/' then |s|
    else
      var t := Tail(s[..|s| - 1]);
      assert s[t..] == s[..|s| - 1][t..] + [s[|s| - 1]];
      t
  }

  function TailOf(node: string, slink: string): (t: nat)
    ensures t <= |node|
  {
    Tail(node[..Common(node, slink)])
  }

  /** The relative target before the size of the buffer is considered. */
  function Target(node: string, slink: string): string {
    Ups(Slashes(slink[Common(node, slink)..])) + node[TailOf(node, slink)..]
  }

  function Fitting(s: string, size: nat): string
    requires size > 0
  {
    if |s| < size then s else s[..size - 1]
  }

  // ---------------------------------------------------------------- resolving

  function Back(t: string): nat {
    if UP <= t then 1 + Back(t[3..]) else 0
  }

  /** strrchr for '/'. */
  function LastSlash(s: string): (r: Option<nat>)
    ensures r.Some? ==> r.value < |s| && s[r.value] == '/' && '/' !in s[r.value + 1..]
    ensures r.None? ==> '/' !in s
  {
    if s == "" then None
    else if s[|s| - 1] == '/' then Some(|s| - 1)
    else
      var r := LastSlash(s[..|s| - 1]);
      assert s == s[..|s| - 1] + [s[|s| - 1]];
      assert r.Some? ==> s[r.value + 1..] == s[..|s| - 1][r.value + 1..] + [s[|s| - 1]];
      r
  }

  /** s without its last n components. */
  function Strip(s: string, n: nat): Option<string>
    decreases n
  {
    if n == 0 then Some(s)
    else
      var p := LastSlash(s);
      if p.None? then None else Strip(s[..p.value], n - 1)
  }

  function Resolve(path: string, target: string): Option<string>
    requires 3 * Back(target) <= |target|
  {
    var base := Strip(path, Back(target) + 1);
    if base.None? then None
    else Some(StrLCat(StrLCat(base.value, "/", PATH_SIZE), target[3 * Back(target)..], PATH_SIZE))
  }

  // ---------------------------------------------------------------- counting

  lemma {:induction false} SlashesAppend(a: string, b: string)
    ensures Slashes(a + b) == Slashes(a) + Slashes(b)
  {
    if a == "" {
      assert a + b == b;
    } else {
      assert (a + b)[1..] == a[1..] + b;
      SlashesAppend(a[1..], b);
    }
  }

  lemma {:induction false} NoSlashes(s: string)
    requires '/' !in s
    ensures Slashes(s) == 0
  {
    if s != "" {
      NoSlashes(s[1..]);
    }
  }

  lemma {:induction false} BackBound(t: string)
    ensures 3 * Back(t) <= |t|
  {
    if UP <= t {
      BackBound(t[3..]);
    }
  }

  lemma BackOfUp(t: string)
    ensures Back(UP + t) == 1 + Back(t)
  {
    assert (UP + t)[..3] == UP && (UP + t)[3..] == t;
  }

  lemma {:induction false} BackOfUps(n: nat, t: string)
    ensures Back(Ups(n) + t) == n + Back(t)
  {
    if n == 0 {
      assert Ups(n) + t == t;
    } else {
      BackOfUps(n - 1, t);
      Regroup3(UP, Ups(n - 1), t);
      hide Ups;
      BackOfUp(Ups(n - 1) + t);
    }
  }

  /** The last slash and what is behind it. */
  lemma LastPiece(s: string, p: nat)
    requires p < |s| && s[p] == '/' && '/' !in s[p + 1..]
    ensures Slashes(s[p..]) == 1 && Slashes(s) == Slashes(s[..p]) + 1
  {
    NoSlashes(s[p + 1..]);
    assert s[p..][1..] == s[p + 1..];
    assert s == s[..p] + s[p..];
    SlashesAppend(s[..p], s[p..]);
  }

  lemma SlashesFrom(s: string, k: nat, p: nat)
    requires k <= p <= |s|
    ensures s[..p][..k] == s[..k] && Slashes(s[k..]) == Slashes(s[..p][k..]) + Slashes(s[p..])
  {
    assert s[k..] == s[..p][k..] + s[p..];
    SlashesAppend(s[..p][k..], s[p..]);
  }

  /** Stripping n components cuts before the n-th '/' from the end. */
  lemma {:induction false} StripCuts(s: string, n: nat)
    requires n > 0
    ensures Strip(s, n).Some? <==> n <= Slashes(s)
    ensures Strip(s, n).Some? ==>
              var p := |Strip(s, n).value|;
              p < |s| && Strip(s, n).value == s[..p] && s[p] == '/' && Slashes(s[p..]) == n
    decreases n
  {
    hide Slashes, LastSlash;
    var q := LastSlash(s);
    if q.None? {
      NoSlashes(s);
    } else {
      var p := q.value;
      LastPiece(s, p);
      if n > 1 {
        StripCuts(s[..p], n - 1);
        if Strip(s[..p], n - 1).Some? {
          SlashesFrom(s, |Strip(s[..p], n - 1).value|, p);
        }
      }
    }
  }

  lemma EqualBelow(a: string, b: string, k: nat)
    requires k <= |a| && k <= |b| && a[..k] == b[..k]
    ensures forall i :: 0 <= i < k ==> a[i] == b[i]
  {
    assert forall i :: 0 <= i < k ==> a[i] == a[..k][i] && b[i] == b[..k][i];
  }

  lemma SlashFirst(s: string)
    requires s != "" && s[0] == '/'
    ensures Slashes(s) == 1 + Slashes(s[1..])
  {
  }

  /** More slashes behind an earlier position. */
  lemma SlashesDecrease(s: string, p: nat, q: nat)
    requires p <= q <= |s|
    ensures Slashes(s[q..]) <= Slashes(s[p..])
    ensures p < q && s[p] == '/' ==> Slashes(s[q..]) < Slashes(s[p..])
  {
    assert s[p..] == s[p..q] + s[q..];
    SlashesAppend(s[p..q], s[q..]);
  }

  // ---------------------------------------------------------------- the round trip

  predicate PathOk(s: string) {
    s != "" && s[0] == '/' && |s| < PATH_SIZE
  }

  lemma TailFacts(node: string, slink: string)
    requires PathOk(node) && PathOk(slink)
    ensures var i, t := Common(node, slink), TailOf(node, slink);
            && 1 <= t <= i && t <= |slink| && slink[..t] == node[..t] && slink[t - 1] == '/' && node[t - 1] == '/'
            && Slashes(slink[t - 1..]) == 1 + Slashes(slink[i..])
  {
    hide Common, Tail, Slashes;
    var i, t := Common(node, slink), TailOf(node, slink);
    EqualBelow(node, slink, i);
    assert node[..i][0] == '/';
    assert t >= 1 by {
      assert node[..i][0..] == node[..i];
    }
    assert node[t - 1] == node[..i][t - 1];
    var between := slink[t..i];
    assert between == node[..i][t..] by {
      assert forall j :: t <= j < i ==> node[..i][j] == slink[j];
    }
    assert slink[t - 1..][1..] == between + slink[i..];
    SlashFirst(slink[t - 1..]);
    SlashesAppend(between, slink[i..]);
    NoSlashes(between);
  }

  lemma Appended(base: string, rest: string)
    requires |base| < PATH_SIZE
    ensures var r := StrLCat(StrLCat(base, "/", PATH_SIZE), rest, PATH_SIZE);
            && |r| <= |base| + 1 + |rest|
            && (|base| + 1 + |rest| < PATH_SIZE ==> r == base + "/" + rest)
            && (|base| + 1 < PATH_SIZE ==> |base| + 1 <= |r| && r[..|base| + 1] == base + "/")
  {
  }

  /** Where the paths part, seen from the end of the link: cutting at that '/' leaves the common
      directory; cutting more components leaves less. */
  lemma CutAtTail(node: string, slink: string, k: nat)
    requires PathOk(node) && PathOk(slink) && k > Slashes(slink[Common(node, slink)..])
    ensures var n, t := Slashes(slink[Common(node, slink)..]), TailOf(node, slink);
            1 <= t <= |slink| && slink[..t] == node[..t] && slink[..t] == slink[..t - 1] + "/"
            && (k == n + 1 ==> Strip(slink, k).Some?)
            && (Strip(slink, k).Some? ==> |Strip(slink, k).value| <= t - 1 && Strip(slink, k).value <= slink
                                          && (k == n + 1 ==> |Strip(slink, k).value| == t - 1))
  {
    hide Common, Tail, TailOf, Slashes, Strip;
    var i, t := Common(node, slink), TailOf(node, slink);
    var n := Slashes(slink[i..]);
    TailFacts(node, slink);
    StripCuts(slink, k);
    SlashesDecrease(slink, 0, t - 1);
    assert slink[0..] == slink;
    if Strip(slink, k).Some? {
      var p := |Strip(slink, k).value|;
      if p >= t - 1 {
        SlashesDecrease(slink, t - 1, p);
      } else {
        SlashesDecrease(slink, p, t - 1);
      }
    }
  }

  /** When the target fits and what follows the "../" steps does not itself start with "../",
      resolving it at the link gives the node. */
  lemma ResolvesToNode(node: string, slink: string)
    requires PathOk(node) && PathOk(slink)
    requires !(UP <= node[TailOf(node, slink)..])
    ensures 3 * Back(Target(node, slink)) <= |Target(node, slink)|
    ensures Resolve(slink, Target(node, slink)) == Some(node)
  {
    hide Common, Tail, TailOf, Slashes, Strip, Ups, StrLCat;
    var t := TailOf(node, slink);
    var n := Slashes(slink[Common(node, slink)..]);
    BackOfUps(n, node[t..]);
    BackBound(Target(node, slink));
    CutAtTail(node, slink, n + 1);
    assert Back(node[t..]) == 0;
    assert Target(node, slink)[3 * n..] == node[t..];
    assert Strip(slink, n + 1).value == slink[..t - 1];
    Appended(slink[..t - 1], node[t..]);
    assert node == node[..t] + node[t..];
  }

  /** A target whose rest starts with "../" goes up too far, and a shortened rest falls short. */
  lemma TooFarUp(node: string, slink: string, rest: string)
    requires PathOk(node) && PathOk(slink)
    requires rest <= node[TailOf(node, slink)..]
    requires rest != node[TailOf(node, slink)..] || UP <= rest
    ensures var t := Ups(Slashes(slink[Common(node, slink)..])) + rest;
            3 * Back(t) <= |t| && Resolve(slink, t) != Some(node)
  {
    hide Common, Tail, TailOf, Slashes, Strip, Ups, StrLCat;
    var t := TailOf(node, slink);
    var n := Slashes(slink[Common(node, slink)..]);
    var target := Ups(n) + rest;
    BackOfUps(n, rest);
    BackBound(rest);
    BackBound(target);
    var b := Back(rest);
    CutAtTail(node, slink, n + b + 1);
    if Strip(slink, n + b + 1).Some? {
      assert target[3 * (n + b)..] == rest[3 * b..];
      Appended(Strip(slink, n + b + 1).value, rest[3 * b..]);
    }
  }

  /** What keeps the link's own path beyond the place where the paths part is not the node. */
  lemma PastTheParting(node: string, slink: string, p: nat, r: string)
    requires Common(node, slink) <= p < |slink| && slink[p] == '/'
    requires p + 1 <= |r| && r[..p + 1] == slink[..p] + "/"
    ensures r != node
  {
    assert slink[..p + 1] == slink[..p] + "/";
    EqualBelow(slink, r, p + 1);
  }

  /** A target cut off inside its "../" steps stays below the place where the paths part. */
  lemma NotUpEnough(node: string, slink: string, target: string)
    requires PathOk(node) && PathOk(slink)
    requires target <= Ups(Slashes(slink[Common(node, slink)..]))
    requires |target| < 3 * Slashes(slink[Common(node, slink)..])
    ensures 3 * Back(target) <= |target| && Resolve(slink, target) != Some(node)
  {
    hide Common, Slashes, Strip, Ups, StrLCat, LastSlash, Back;
    var i := Common(node, slink);
    BackBound(target);
    var b := Back(target);
    StripCuts(slink, b + 1);
    if Strip(slink, b + 1).Some? {
      hide Resolve;
      var p := |Strip(slink, b + 1).value|;
      if p < i {
        SlashesDecrease(slink, p, i);
        assert false;
      }
      StaysBeyond(node, slink, target, p);
    }
  }

  lemma StaysBeyond(node: string, slink: string, target: string, p: nat)
    requires PathOk(slink) && Common(node, slink) <= p < |slink| && slink[p] == '/'
    requires 3 * Back(target) <= |target| && Strip(slink, Back(target) + 1) == Some(slink[..p])
    ensures Resolve(slink, target) != Some(node)
  {
    hide Common, Strip, StrLCat, Back;
    Appended(slink[..p], target[3 * Back(target)..]);
    PastTheParting(node, slink, p, Resolve(slink, target).value);
  }

  /** The link made for a node leads back to the node exactly when the target fits its buffer
      and the node's name below the common directory does not start with "../". */
  lemma RelativeRoundTrip(node: string, slink: string)
    requires PathOk(node) && PathOk(slink)
    ensures var t := Fitting(Target(node, slink), PATH_SIZE);
            && 3 * Back(t) <= |t|
            && (Resolve(slink, t) == Some(node) <==>
                |Target(node, slink)| < PATH_SIZE && !(UP <= node[TailOf(node, slink)..]))
  {
    var n := Slashes(slink[Common(node, slink)..]);
    var rest := node[TailOf(node, slink)..];
    var t := Fitting(Target(node, slink), PATH_SIZE);
    if |Target(node, slink)| < PATH_SIZE {
      if UP <= rest {
        TooFarUp(node, slink, rest);
      } else {
        ResolvesToNode(node, slink);
      }
    } else if 3 * n <= PATH_SIZE - 1 {
      var k := PATH_SIZE - 1 - 3 * n;
      assert t == Ups(n) + rest[..k];
      TooFarUp(node, slink, rest[..k]);
    } else {
      assert t == Ups(n)[..PATH_SIZE - 1];
      NotUpEnough(node, slink, t);
    }
  }

  /** In particular, a normalised node path (no component "..") gets through if the target fits. */
  lemma NormalisedRoundTrip(node: string, slink: string)
    requires PathOk(node) && PathOk(slink) && |Target(node, slink)| < PATH_SIZE
    requires forall k :: 0 < k <= |node| && node[k - 1] == '/' ==> !(UP <= node[k..])
    ensures 3 * Back(Target(node, slink)) <= |Target(node, slink)|
    ensures Resolve(slink, Target(node, slink)) == Some(node)
  {
    var t := TailOf(node, slink);
    TailFacts(node, slink);
    assert node[t - 1] == '/';
    RelativeRoundTrip(node, slink);
  }

  // ---------------------------------------------------------------- the loops

  lemma EmptyTarget()
    ensures Slashes("") == 0 && Ups(0) == "" && Fitting("", PATH_SIZE) == ""
  {
  }

  lemma SlashesStep(s: string, c: nat, i: nat)
    requires c <= i < |s|
    ensures Slashes(s[c..i + 1]) == Slashes(s[c..i]) + (if s[i] == '/' then 1 else 0)
  {
    assert s[c..i + 1] == s[c..i] + [s[i]];
    SlashesAppend(s[c..i], [s[i]]);
  }

  /** The first loop: how far the paths agree, and the end of the last directory they share. */
  method CommonTail(node: string, slink: string) returns (i: nat, tail: nat)
    ensures i == Common(node, slink) && tail == TailOf(node, slink)
  {
    hide Common;
    i, tail := 0, 0;
    while i < |node| && i < |slink| && node[i] == slink[i]
      invariant i <= |node| && i <= |slink| && node[..i] == slink[..i]
      invariant tail == Tail(node[..i])
    {
      assert node[..i + 1][..i] == node[..i];
      if node[i] == '/' {
        tail := i + 1;
      }
      i := i + 1;
    }
    CommonUnique(node, slink, i);
  }

  /** The second loop: one "../" for each directory left in the path of the link. */
  method AppendUps(slink: string, c: nat) returns (target: string)
    requires c <= |slink|
    ensures target == Fitting(Ups(Slashes(slink[c..])), PATH_SIZE)
  {
    hide StrLCat, Fitting, Slashes, Ups;
    EmptyTarget();
    target := "";
    ghost var k := 0;
    var i := c;
    assert slink[c..i] == "";
    while i < |slink|
      invariant c <= i <= |slink| && k == Slashes(slink[c..i])
      invariant target == Fitting(Ups(k), PATH_SIZE)
    {
      SlashesStep(slink, c, i);
      if slink[i] == '/' {
        FittingAppend(Ups(k), UP);
        UpsAppend(k);
        target := StrLCat(target, UP, PATH_SIZE);
        k := k + 1;
      }
      i := i + 1;
    }
    assert slink[c..i] == slink[c..];
  }

  method BuildTarget(node: string, slink: string) returns (target: string)
    ensures target == Fitting(Target(node, slink), PATH_SIZE)
  {
    hide StrLCat, Fitting, Slashes, Ups, TailOf, Common;
    var i, tail := CommonTail(node, slink);
    target := AppendUps(slink, i);
    FittingAppend(Ups(Slashes(slink[i..])), node[tail..]);
    target := StrLCat(target, node[tail..], PATH_SIZE);
  }

  lemma CommonUnique(a: string, b: string, i: nat)
    requires i <= |a| && i <= |b| && a[..i] == b[..i]
    requires i == |a| || i == |b| || a[i] != b[i]
    ensures Common(a, b) == i
  {
    EqualBelow(a, b, i);
    EqualBelow(a, b, Common(a, b));
  }

  lemma FittingAppend(a: string, b: string)
    ensures StrLCat(Fitting(a, PATH_SIZE), b, PATH_SIZE) == Fitting(a + b, PATH_SIZE)
  {
  }

  lemma {:induction false} UpsAppend(n: nat)
    ensures Ups(n) + UP == Ups(n + 1)
  {
    if n > 0 {
      UpsAppend(n - 1);
      assert UP + Ups(n - 1) + UP == UP + (Ups(n - 1) + UP);
    }
  }

  method ResolveLink(path: string, target: string) returns (r: Option<string>)
    ensures 3 * Back(target) <= |target|
    ensures r == Resolve(path, target)
  {
    BackBound(target);
    var back := 0;
    while UP <= target[back * 3..]
      invariant back * 3 <= |target| && Back(target) == back + Back(target[back * 3..])
      decreases |target| - back * 3
    {
      assert target[back * 3..][3..] == target[(back + 1) * 3..];
      back := back + 1;
    }
    var devpath := path;
    var i := 0;
    while i <= back
      invariant i <= back + 1 && Strip(path, back + 1) == Strip(devpath, back + 1 - i)
    {
      var pos := LastSlash(devpath);
      if pos.None? {
        return None;
      }
      devpath := devpath[..pos.value];
      i := i + 1;
    }
    devpath := StrLCat(devpath, "/", PATH_SIZE);
    devpath := StrLCat(devpath, target[back * 3..], PATH_SIZE);
    return Some(devpath);
  }
}
