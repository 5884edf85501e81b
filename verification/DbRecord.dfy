/** A device's entry in the udev database: the text file that udev_db_add_device writes and
    udev_db_get_device reads back line by line with buf_get_line, and the short form, a symlink
    whose target is the node name. */
module DbRecord {
  import opened Basics

  const NAME_SIZE: nat := 256
  const INT_LIMIT: int := 0x8000_0000
  const UINT_LIMIT: int := 0x1_0000_0000
  const LONG_LIMIT: int := 0x8000_0000_0000_0000

  /** The stored part of a struct udevice. */
  datatype Record = Record(
    name: string, symlinks: seq<string>, major: nat, minor: nat,
    priority: int, partitions: int, ignoreRemove: int, env: seq<string>)

  const EMPTY: Record := Record("", [], 0, 0, 0, 0, 0, [])

  // ---------------------------------------------------------------- numbers

  predicate IsDigit(c: char) {
    '0' <= c <= '9'
  }

  function Digit(n: nat): (c: char)
    requires n < 10
    ensures IsDigit(c) && c as int - '0' as int == n
  {
    ('0' as int + n) as char
  }

  /** printf "%u". */
  function Decimal(n: nat): (s: string)
    ensures s != ""
  {
    if n < 10 then [Digit(n)] else Decimal(n / 10) + [Digit(n % 10)]
  }

  /** Reads the digits at the start of s onto the value so far; what is left is the rest. */
  function ScanDigits(s: string, acc: nat): (nat, string) {
    if s == "" || !IsDigit(s[0]) then (acc, s)
    else ScanDigits(s[1..], 10 * acc + (s[0] as int - '0' as int))
  }

  /** strtol on a 64-bit machine: the largest or smallest long stands for what is out of range. */
  function StrToL(s: string): int {
    var t := SkipSpace(s);
    var n := if t == "" then 0
             else if t[0] == '-' then 0 - ScanDigits(t[1..], 0).0
             else if t[0] == '+' then ScanDigits(t[1..], 0).0
             else ScanDigits(t, 0).0;
    if n >= LONG_LIMIT then LONG_LIMIT - 1 else if n < -LONG_LIMIT then -LONG_LIMIT else n
  }

  /** The lower 32 bits of a number as an int. */
  function ToInt(n: int): (r: int)
    ensures -INT_LIMIT <= r < INT_LIMIT && (n - r) % UINT_LIMIT == 0
  {
    var m := n % UINT_LIMIT;
    if m < INT_LIMIT then m else m - UINT_LIMIT
  }

  /** atoi: what strtol returns, cut to an int. */
  function Atoi(s: string): int {
    ToInt(StrToL(s))
  }

  /** sscanf "%u:%u", for the text a device number is stored as. */
  function ScanDevice(s: string): Option<(nat, nat)> {
    if s == "" || !IsDigit(s[0]) then None
    else
      var (major, rest) := ScanDigits(s, 0);
      if |rest| < 2 || rest[0] != ':' || !IsDigit(rest[1]) then None
      else Some((major, ScanDigits(rest[1..], 0).0))
  }

  lemma {:induction false} ScanDecimal(n: nat, rest: string)
    requires rest == "" || !IsDigit(rest[0])
    ensures ScanDigits(Decimal(n) + rest, 0) == (n, rest)
    ensures IsDigit(Decimal(n)[0])
  {
    ScanDecimalAt(n, rest, 0);
    assert ScanDigits(rest, n) == (n, rest);
  }

  function PowerOf10(n: nat): nat {
    if n < 10 then 10 else 10 * PowerOf10(n / 10)
  }

  /** The digits of n, read onto acc, shift acc by their number and add n. */
  lemma {:induction false} ScanDecimalAt(n: nat, rest: string, acc: nat)
    ensures ScanDigits(Decimal(n) + rest, acc) == ScanDigits(rest, acc * PowerOf10(n) + n)
    ensures IsDigit(Decimal(n)[0])
  {
    if n < 10 {
      assert ([Digit(n)] + rest)[1..] == rest;
    } else {
      var tail := [Digit(n % 10)] + rest;
      assert Decimal(n) + rest == Decimal(n / 10) + tail;
      ScanDecimalAt(n / 10, tail, acc);
      assert tail[1..] == rest;
      var high := acc * PowerOf10(n / 10) + n / 10;
      assert 10 * high + n % 10 == acc * PowerOf10(n) + n by {
        assert 10 * (acc * PowerOf10(n / 10)) == acc * (10 * PowerOf10(n / 10));
      }
    }
  }

  /** An int printed as unsigned is read back with its sign. */
  lemma AtoiDecimal(n: int)
    requires -INT_LIMIT <= n < INT_LIMIT
    ensures Atoi(Decimal(n % UINT_LIMIT)) == n
  {
    var u := n % UINT_LIMIT;
    ScanDecimal(u, "");
    assert Decimal(u) + "" == Decimal(u);
    assert SkipSpace(Decimal(u)) == Decimal(u);
    hide SkipSpace, ScanDigits, Decimal;
    assert StrToL(Decimal(u)) == u;
    hide StrToL;
    SignedAgain(n);
  }

  /** A number written with or without a sign, whatever follows its digits. */
  lemma AtoiSigned(n: nat, sign: string, rest: string)
    requires n < INT_LIMIT && (rest == "" || !IsDigit(rest[0])) && sign in {"", "+", "-"}
    ensures Atoi(sign + Decimal(n) + rest) == if sign == "-" then 0 - n else n
  {
    var t, s := Decimal(n) + rest, sign + Decimal(n) + rest;
    ScanDecimal(n, rest);
    assert t[0] == Decimal(n)[0];
    assert s == sign + t;
    hide Decimal;
    SignedText(sign, t, n);
    SmallIsItself(if sign == "-" then 0 - n else n);
    hide StrToL, ToInt;
  }

  lemma SignedText(sign: string, t: string, n: nat)
    requires sign in {"", "+", "-"} && t != "" && IsDigit(t[0]) && ScanDigits(t, 0).0 == n < INT_LIMIT
    ensures StrToL(sign + t) == if sign == "-" then 0 - n else n
  {
    var s := sign + t;
    if sign == "" {
      assert s == t;
    } else {
      assert s[0] == sign[0] && s[1..] == t;
    }
    assert SkipSpace(s) == s;
    hide SkipSpace, ScanDigits;
  }

  lemma SmallIsItself(n: int)
    requires -INT_LIMIT <= n < INT_LIMIT
    ensures ToInt(n) == n
  {
    assert n % UINT_LIMIT == if n >= 0 then n else n + UINT_LIMIT;
  }

  lemma SignedAgain(n: int)
    requires -INT_LIMIT <= n < INT_LIMIT
    ensures ToInt(n % UINT_LIMIT) == n
  {
    assert n % UINT_LIMIT == if n >= 0 then n else n + UINT_LIMIT;
  }

  lemma ScanDeviceDecimal(major: nat, minor: nat)
    ensures ScanDevice(Decimal(major) + ":" + Decimal(minor)) == Some((major, minor))
  {
    var rest := ":" + Decimal(minor);
    assert Decimal(major) + ":" + Decimal(minor) == Decimal(major) + rest;
    ScanDecimal(major, rest);
    ScanDecimal(minor, "");
    assert Decimal(minor) + "" == Decimal(minor);
    assert rest[1..] == Decimal(minor);
  }

  // ---------------------------------------------------------------- lines

  /** buf_get_line: characters up to the next newline that no backslash precedes. */
  function LineLength(s: string, escape: bool): (n: nat)
    ensures n <= |s|
  {
    if s == "" || (!escape && s[0] == '\n') then 0
    else 1 + LineLength(s[1..], s[0] == '\\')
  }

  /** Is the newline written behind s the first one that ends the line? */
  predicate Survives(s: string, escape: bool) {
    if s == "" then !escape
    else !(s[0] == '\n' && !escape) && Survives(s[1..], s[0] == '\\')
  }

  lemma {:induction false} LineEndsAtText(s: string, rest: string, escape: bool)
    ensures LineLength(s + "\n" + rest, escape) == |s| <==> Survives(s, escape)
    ensures !Survives(s, escape) && s != "" && s[|s| - 1] == '\\' && '\n' !in s ==>
              LineLength(s + "\n" + rest, escape) > |s|
  {
    if s == "" {
      assert (s + "\n" + rest)[0] == '\n';
    } else {
      assert (s + "\n" + rest)[1..] == s[1..] + "\n" + rest;
      LineEndsAtText(s[1..], rest, s[0] == '\\');
      if |s| > 1 {
        assert s[1..][|s| - 2] == s[|s| - 1];
      } else {
        assert s[1..] + "\n" + rest == "\n" + rest;
      }
    }
  }

  /** A field is read back whole exactly when each newline in it follows a backslash and its
      last character is not a backslash. */
  lemma {:induction false} SurvivesMeaning(s: string, escape: bool)
    ensures Survives(s, escape) <==>
            && (if s == "" then !escape else s[|s| - 1] != '\\')
            && (s != "" && s[0] == '\n' ==> escape)
            && (forall i :: 1 <= i < |s| && s[i] == '\n' ==> s[i - 1] == '\\')
  {
    if s != "" {
      SurvivesMeaning(s[1..], s[0] == '\\');
      assert |s| > 1 ==> s[1..][|s| - 2] == s[|s| - 1];
      assert forall i :: 1 <= i < |s[1..]| ==> s[1..][i] == s[i + 1] && s[1..][i - 1] == s[i];
      if Survives(s, escape) {
        forall i | 1 <= i < |s| && s[i] == '\n'
          ensures s[i - 1] == '\\'
        {
          assert s[1..][i - 1] == '\n';
        }
      }
      if |s| > 1 && s[1] == '\n' {
        assert s[1..][0] == '\n';
      }
    }
  }

  function Line(key: char, text: string): string {
    [key, ':'] + text + "\n"
  }

  /** What is kept of a line: the text behind its key, as far as the buffers reach. */
  function Field(line: string): string
    requires |line| >= 2
  {
    line[2..if |line| > PATH_SIZE then PATH_SIZE else |line|]
  }

  /** name_list_add without sorting: no doubles. */
  function AddName(list: seq<string>, name: string): seq<string> {
    if name in list then list else list + [name]
  }

  predicate IsKey(c: char) {
    c in "NMSLARE"
  }

  /** One line of the file. A key without room for its ':' is not a line the writer makes;
      None stands for it, and for a device number that cannot be read. */
  function ApplyLine(r: Record, line: string): Option<Record> {
    if line == "" || !IsKey(line[0]) then Some(r)
    else if |line| < 2 then None
    else
      var text := Field(line);
      match line[0]
      case 'N' => Some(r.(name := text))
      case 'M' =>
        var dev := ScanDevice(text);
        if dev.None? then None else Some(r.(major := dev.value.0, minor := dev.value.1))
      case 'S' => Some(r.(symlinks := AddName(r.symlinks, text)))
      case 'L' => Some(r.(priority := Atoi(text)))
      case 'A' => Some(r.(partitions := Atoi(text)))
      case 'R' => Some(r.(ignoreRemove := Atoi(text)))
      case _ => Some(r.(env := AddName(r.env, text)))
  }

  function Rest(s: string): (t: string)
    requires s != ""
    ensures |t| < |s|
  {
    var n := LineLength(s, false);
    if n < |s| then s[n + 1..] else ""
  }

  function ParseLines(r: Record, s: string): Option<Record>
    decreases |s|
  {
    if s == "" then Some(r)
    else
      var r1 := ApplyLine(r, s[..LineLength(s, false)]);
      if r1.None? then None else ParseLines(r1.value, Rest(s))
  }

  /** udev_db_get_device on a file: an entry without a node name counts as missing. */
  function Parse(text: string): Option<Record> {
    var r := ParseLines(EMPTY, text);
    if r.None? || r.value.name == "" then None else r
  }

  function Lines(key: char, texts: seq<string>): string {
    if texts == [] then "" else Line(key, texts[0]) + Lines(key, texts[1..])
  }

  /** Written when not zero, as an unsigned 32-bit number. */
  function NumberLine(key: char, n: int): string {
    if n != 0 then Line(key, Decimal(n % UINT_LIMIT)) else ""
  }

  /** udev_db_add_device, file form. */
  function Print(r: Record): string {
    Line('N', r.name) + Lines('S', r.symlinks) + Line('M', Decimal(r.major) + ":" + Decimal(r.minor))
    + NumberLine('L', r.priority) + NumberLine('A', r.partitions) + NumberLine('R', r.ignoreRemove)
    + Lines('E', r.env)
  }

  /** The file of a record with one link, one variable and small numbers. */
  lemma FileLooksSo(r: Record)
    requires |r.symlinks| == 1 && |r.env| == 1
    requires 0 < r.priority < INT_LIMIT && 0 < r.partitions < INT_LIMIT && r.ignoreRemove == 1
    ensures Print(r) ==
              ("N:" + r.name + "\n") + ("S:" + r.symlinks[0] + "\n")
              + ("M:" + (Decimal(r.major) + ":" + Decimal(r.minor)) + "\n")
              + ("L:" + Decimal(r.priority) + "\n") + ("A:" + Decimal(r.partitions) + "\n") + "R:1\n"
              + ("E:" + r.env[0] + "\n")
  {
    OneLine('S', r.symlinks);
    OneLine('E', r.env);
    assert Decimal(1) == "1";
    hide Decimal;
    assert NumberLine('R', r.ignoreRemove) == "R:1\n";
    hide Lines;
  }

  lemma OneLine(key: char, texts: seq<string>)
    requires |texts| == 1
    ensures Lines(key, texts) == Line(key, texts[0])
  {
    assert texts[1..] == [];
    assert Lines(key, texts) == Line(key, texts[0]) + Lines(key, []);
  }

  // ---------------------------------------------------------------- round trip

  predicate FieldOk(s: string) {
    |s| + 2 <= PATH_SIZE && Survives(s, false)
  }

  predicate Distinct(list: seq<string>) {
    forall i, j :: 0 <= i < j < |list| ==> list[i] != list[j]
  }

  predicate NumberOk(n: int) {
    -INT_LIMIT <= n < INT_LIMIT
  }

  predicate Storable(r: Record) {
    && r.name != "" && FieldOk(r.name)
    && (forall i :: 0 <= i < |r.symlinks| ==> FieldOk(r.symlinks[i])) && Distinct(r.symlinks)
    && (forall i :: 0 <= i < |r.env| ==> FieldOk(r.env[i])) && Distinct(r.env)
    && NumberOk(r.priority) && NumberOk(r.partitions) && NumberOk(r.ignoreRemove)
    && r.major < UINT_LIMIT && r.minor < UINT_LIMIT
  }

  /** The plain case: no newline, no backslash at the end. */
  lemma PlainFieldOk(s: string)
    requires |s| + 2 <= PATH_SIZE && '\n' !in s && (s == "" || s[|s| - 1] != '\\')
    ensures FieldOk(s)
  {
    SurvivesMeaning(s, false);
  }

  lemma ReadsLine(r: Record, key: char, text: string, rest: string)
    requires Survives(text, false) && |text| + 2 <= PATH_SIZE && IsKey(key)
    ensures ParseLines(r, Line(key, text) + rest) ==
            (var r1 := ApplyLine(r, [key, ':'] + text); if r1.None? then None else ParseLines(r1.value, rest))
    ensures Field([key, ':'] + text) == text
  {
    var s := Line(key, text) + rest;
    var line := [key, ':'] + text;
    assert line[1..] == ":" + text && line[1..][1..] == text;
    assert Survives(line, false);
    assert s == line + "\n" + rest;
    LineEndsAtText(line, rest, false);
    assert s[..|line|] == line;
    assert s[|line| + 1..] == rest;
  }

  lemma {:induction false} DecimalPlain(n: nat)
    ensures forall i :: 0 <= i < |Decimal(n)| ==> IsDigit(Decimal(n)[i])
    ensures n < UINT_LIMIT ==> |Decimal(n)| <= 10
  {
    if n >= 10 {
      DecimalPlain(n / 10);
      if n < 10_000_000_000 {
        DecimalLength(n, 10);
      }
    }
  }

  function TenTo(k: nat): nat {
    if k == 0 then 1 else 10 * TenTo(k - 1)
  }

  lemma {:induction false} DecimalLength(n: nat, k: nat)
    requires 1 <= k && n < TenTo(k)
    ensures |Decimal(n)| <= k
  {
    if n >= 10 {
      DecimalLength(n / 10, k - 1);
    }
  }

  lemma NumberFieldOk(n: nat)
    requires n < UINT_LIMIT
    ensures FieldOk(Decimal(n))
  {
    DecimalPlain(n);
    PlainFieldOk(Decimal(n));
  }

  lemma DeviceFieldOk(major: nat, minor: nat)
    requires major < UINT_LIMIT && minor < UINT_LIMIT
    ensures FieldOk(Decimal(major) + ":" + Decimal(minor))
  {
    DecimalPlain(major);
    DecimalPlain(minor);
    var s := Decimal(major) + ":" + Decimal(minor);
    assert s[|s| - 1] == Decimal(minor)[|Decimal(minor)| - 1];
    PlainFieldOk(s);
  }

  lemma FirstIsNew(list: seq<string>, more: seq<string>)
    requires Distinct(list + more) && more != []
    ensures more[0] !in list
  {
    assert (list + more)[|list|] == more[0];
    assert forall i :: 0 <= i < |list| ==> (list + more)[i] == list[i];
  }

  lemma {:induction false} ReadsSymlinks(r: Record, links: seq<string>, rest: string)
    requires Distinct(r.symlinks + links) && forall i :: 0 <= i < |links| ==> FieldOk(links[i])
    ensures ParseLines(r, Lines('S', links) + rest) == ParseLines(r.(symlinks := r.symlinks + links), rest)
    decreases |links|
  {
    hide ParseLines, Line, Survives;
    if links == [] {
      assert Lines('S', links) + rest == rest && r.symlinks + links == r.symlinks;
    } else {
      var tail := Lines('S', links[1..]) + rest;
      assert Lines('S', links) + rest == Line('S', links[0]) + tail;
      ReadsLine(r, 'S', links[0], tail);
      FirstIsNew(r.symlinks, links);
      var r1 := r.(symlinks := r.symlinks + [links[0]]);
      assert r1.symlinks + links[1..] == r.symlinks + links;
      ReadsSymlinks(r1, links[1..], rest);
    }
  }

  lemma {:induction false} ReadsEnv(r: Record, env: seq<string>, rest: string)
    requires Distinct(r.env + env) && forall i :: 0 <= i < |env| ==> FieldOk(env[i])
    ensures ParseLines(r, Lines('E', env) + rest) == ParseLines(r.(env := r.env + env), rest)
    decreases |env|
  {
    hide ParseLines, Line, Survives;
    if env == [] {
      assert Lines('E', env) + rest == rest && r.env + env == r.env;
    } else {
      var tail := Lines('E', env[1..]) + rest;
      assert Lines('E', env) + rest == Line('E', env[0]) + tail;
      ReadsLine(r, 'E', env[0], tail);
      FirstIsNew(r.env, env);
      var r1 := r.(env := r.env + [env[0]]);
      assert r1.env + env[1..] == r.env + env;
      ReadsEnv(r1, env[1..], rest);
    }
  }

  lemma ReadsNumber(r: Record, key: char, n: int, rest: string)
    requires NumberOk(n) && key in "LAR"
    requires key == 'L' ==> r.priority == 0
    requires key == 'A' ==> r.partitions == 0
    requires key == 'R' ==> r.ignoreRemove == 0
    ensures ParseLines(r, NumberLine(key, n) + rest) ==
            ParseLines(if key == 'L' then r.(priority := n)
                       else if key == 'A' then r.(partitions := n) else r.(ignoreRemove := n), rest)
  {
    hide ParseLines, Line, Survives, Decimal;
    if n == 0 {
      assert NumberLine(key, n) + rest == rest;
    } else {
      NumberFieldOk(n % UINT_LIMIT);
      ReadsLine(r, key, Decimal(n % UINT_LIMIT), rest);
      AtoiDecimal(n);
    }
  }

  /** Reading back the file written for a device gives the same record. */
  lemma ParsePrint(r: Record)
    requires Storable(r)
    ensures Parse(Print(r)) == Some(r)
  {
    hide ParseLines, Line, Lines, NumberLine, Survives, Decimal, ScanDevice;
    var t6 := Lines('E', r.env) + "";
    var t5 := NumberLine('R', r.ignoreRemove) + t6;
    var t4 := NumberLine('A', r.partitions) + t5;
    var t3 := NumberLine('L', r.priority) + t4;
    var dev := Decimal(r.major) + ":" + Decimal(r.minor);
    var t2 := Line('M', dev) + t3;
    var t1 := Lines('S', r.symlinks) + t2;
    assert Print(r) == Line('N', r.name) + t1;
    var r1 := EMPTY.(name := r.name);
    ReadsLine(EMPTY, 'N', r.name, t1);
    assert r1.symlinks + r.symlinks == r.symlinks;
    ReadsSymlinks(r1, r.symlinks, t2);
    var r2 := r1.(symlinks := r.symlinks);
    DeviceFieldOk(r.major, r.minor);
    ReadsLine(r2, 'M', dev, t3);
    ScanDeviceDecimal(r.major, r.minor);
    var r3 := r2.(major := r.major, minor := r.minor);
    ReadsNumber(r3, 'L', r.priority, t4);
    var r4 := r3.(priority := r.priority);
    ReadsNumber(r4, 'A', r.partitions, t5);
    var r5 := r4.(partitions := r.partitions);
    ReadsNumber(r5, 'R', r.ignoreRemove, t6);
    var r6 := r5.(ignoreRemove := r.ignoreRemove);
    assert r6.env + r.env == r.env;
    ReadsEnv(r6, r.env, "");
    ReadsEnd(r);
  }

  lemma ReadsEnd(r: Record)
    ensures ParseLines(r, "") == Some(r)
  {
  }

  /** What is read back depends on every field: two devices are never stored alike. */
  lemma PrintInjective(r: Record, r': Record)
    requires Storable(r) && Storable(r') && Print(r) == Print(r')
    ensures r == r'
  {
    ParsePrint(r);
    ParsePrint(r');
  }

  // ---------------------------------------------------------------- the loops

  method BufGetLine(buf: string, cur: nat) returns (n: nat)
    requires cur <= |buf|
    ensures n == LineLength(buf[cur..], false)
  {
    var escape := false;
    var count := cur;
    while count < |buf|
      invariant cur <= count <= |buf|
      invariant LineLength(buf[cur..], false) == count - cur + LineLength(buf[count..], escape)
    {
      if !escape && buf[count] == '\n' {
        break;
      }
      assert buf[count..][1..] == buf[count + 1..];
      if buf[count] == '\\' {
        escape := true;
      } else {
        escape := false;
      }
      count := count + 1;
    }
    return count - cur;
  }

  method AddToList(list: seq<string>, name: string) returns (r: seq<string>)
    ensures r == AddName(list, name)
  {
    var i := 0;
    while i < |list|
      invariant i <= |list| && forall j :: 0 <= j < i ==> list[j] != name
    {
      if list[i] == name {
        return list;
      }
      i := i + 1;
    }
    return list + [name];
  }

  /** The switch on the first character of a line. */
  method ReadLine(udev: Record, line: string) returns (r: Option<Record>)
    ensures r == ApplyLine(udev, line)
  {
    if line == "" || line[0] !in "NMSLARE" {
      return Some(udev);
    }
    if |line| < 2 {
      return None;
    }
    var count := |line|;
    if count > PATH_SIZE {
      count := PATH_SIZE;
    }
    var text := line[2..count];
    match line[0] {
      case 'N' =>
        r := Some(udev.(name := text));
      case 'M' =>
        var dev := ScanDevice(text);
        if dev.None? {
          return None;
        }
        r := Some(udev.(major := dev.value.0, minor := dev.value.1));
      case 'S' =>
        var list := AddToList(udev.symlinks, text);
        r := Some(udev.(symlinks := list));
      case 'L' =>
        r := Some(udev.(priority := Atoi(text)));
      case 'A' =>
        r := Some(udev.(partitions := Atoi(text)));
      case 'R' =>
        r := Some(udev.(ignoreRemove := Atoi(text)));
      case _ =>
        var list := AddToList(udev.env, text);
        r := Some(udev.(env := list));
    }
  }

  method ReadRecord(buf: string) returns (r: Option<Record>)
    ensures r == Parse(buf)
  {
    var udev := EMPTY;
    var cur := 0;
    assert buf[0..] == buf;
    while cur < |buf|
      invariant cur <= |buf| && ParseLines(EMPTY, buf) == ParseLines(udev, buf[cur..])
    {
      var count := BufGetLine(buf, cur);
      assert buf[cur..][..count] == buf[cur..cur + count];
      var u := ReadLine(udev, buf[cur..cur + count]);
      if u.None? {
        return None;
      }
      udev := u.value;
      assert Rest(buf[cur..]) == buf[if cur + count + 1 > |buf| then |buf| else cur + count + 1..];
      cur := if cur + count + 1 > |buf| then |buf| else cur + count + 1;
    }
    assert buf[cur..] == "";
    return if udev.name == "" then None else Some(udev);
  }

  method PrintLines(f: string, key: char, texts: seq<string>) returns (f': string)
    ensures f' == f + Lines(key, texts)
  {
    f' := f;
    var i := 0;
    assert texts[0..] == texts;
    while i < |texts|
      invariant i <= |texts| && f' + Lines(key, texts[i..]) == f + Lines(key, texts)
    {
      assert texts[i..][1..] == texts[i + 1..];
      f' := f' + Line(key, texts[i]);
      i := i + 1;
    }
  }

  method PrintRecord(r: Record) returns (f: string)
    ensures f == Print(r)
  {
    f := Line('N', r.name);
    f := PrintLines(f, 'S', r.symlinks);
    f := f + Line('M', Decimal(r.major) + ":" + Decimal(r.minor));
    f := f + NumberLine('L', r.priority);
    f := f + NumberLine('A', r.partitions);
    f := f + NumberLine('R', r.ignoreRemove);
    f := PrintLines(f, 'E', r.env);
  }
}
