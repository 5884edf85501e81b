/** The three stores that a device event updates: the database (one file or symlink per device),
    the reverse index from names to devices (one empty file per pair), and the nodes and links
    under the device root. A link goes to the device with the highest priority among those that
    claim it (udev_db.c, udev_node.c, udev_device.c). */
module DeviceDbModel {
  import opened Basics
  import opened DbRecord
  import opened PathCoding

  /** A database entry: a symlink to the node name, or a file. */
  datatype Stored = ShortForm(target: string) | TextFile(text: string)

  type Devt = (nat, nat)

  /** What stands under a name in the device root: a device node, or a link to another name. */
  datatype FileNode = Node(devt: Devt) | Link(target: string)

  datatype Store = Store(db: map<string, Stored>, index: set<(string, string)>, dev: map<string, FileNode>)

  /** The device of the current event: its path and what struct udevice holds about it. */
  datatype Device = Device(path: string, rec: Record)

  // ---------------------------------------------------------------- the database

  function ToStored(r: Record): Stored {
    if r.symlinks == [] && r.env == [] && r.partitions == 0 && r.ignoreRemove == 0 then ShortForm(r.name)
    else TextFile(Print(r))
  }

  function ReadBack(st: Stored): Option<Record> {
    match st
    case ShortForm(target) =>
      if target == "" then None
      else Some(EMPTY.(name := target[..if |target| < NAME_SIZE then |target| else NAME_SIZE]))
    case TextFile(text) => Parse(text)
  }

  function Get(s: Store, path: string): Option<Record> {
    if Encode(path) in s.db then ReadBack(s.db[Encode(path)]) else None
  }

  predicate Keepable(r: Record) {
    Storable(r) && |r.name| < NAME_SIZE
  }

  /** Both forms keep the name and the links; only the short form, which no link needs, loses
      the priority. */
  lemma StoredBack(r: Record)
    requires Keepable(r)
    ensures ReadBack(ToStored(r)).Some?
    ensures var b := ReadBack(ToStored(r)).value;
            b.name == r.name && b.symlinks == r.symlinks && (ToStored(r).TextFile? ==> b == r)
  {
    ParsePrint(r);
  }

  function NamesOf(r: Record): seq<string> {
    [r.name] + r.symlinks
  }

  predicate Claims(r: Record, name: string) {
    name == r.name || name in r.symlinks
  }

  function IndexEntry(name: string, path: string): (string, string) {
    (Encode(name), Encode(path))
  }

  function EntriesOf(path: string, r: Record): set<(string, string)> {
    set n | n in NamesOf(r) :: IndexEntry(n, path)
  }

  function DbAdd(s: Store, d: Device): Store {
    s.(db := s.db[Encode(d.path) := ToStored(d.rec)], index := s.index + EntriesOf(d.path, d.rec))
  }

  function DbDelete(s: Store, d: Device): Store {
    s.(db := s.db - {Encode(d.path)}, index := s.index - EntriesOf(d.path, d.rec))
  }

  predicate Indexed(s: Store, name: string, path: string) {
    IndexEntry(name, path) in s.index
  }

  predicate Claimed(s: Store, name: string, path: string) {
    Get(s, path).Some? && Claims(Get(s, path).value, name)
  }

  /** The reverse index is the inverse of the database. */
  ghost predicate IndexExact(s: Store) {
    forall name, path :: Indexed(s, name, path) <==> Claimed(s, name, path)
  }

  /** Every file in the index encodes a name and an absolute path; every database entry can be
      read. */
  ghost predicate WellKeyed(s: Store) {
    && (forall e :: e in s.index ==> IsEncoded(e.0) && IsEncoded(e.1) && SLASH_ESCAPE <= e.1)
    && (forall k :: k in s.db ==> ReadBack(s.db[k]).Some?)
  }

  lemma EntriesMeaning(path: string, r: Record, name: string, path': string)
    ensures IndexEntry(name, path') in EntriesOf(path, r) <==> path' == path && Claims(r, name)
  {
    EncodeInjective(path, path');
    if name in NamesOf(r) {
      assert IndexEntry(name, path) in EntriesOf(path, r);
    }
    if IndexEntry(name, path') in EntriesOf(path, r) {
      var n :| n in NamesOf(r) && IndexEntry(n, path) == IndexEntry(name, path');
      EncodeInjective(n, name);
    }
  }

  predicate Absolute(path: string) {
    path != "" && path[0] == '/'
  }

  lemma EncodedForm(name: string)
    ensures IsEncoded(Encode(name))
    ensures Absolute(name) ==> SLASH_ESCAPE <= Encode(name)
  {
    DecodeEncode(name);
    EncodingsAreExactly(Encode(name));
    if Absolute(name) {
      assert Encode(name)[..4] == SLASH_ESCAPE;
    }
  }

  lemma GetOther(s: Store, s': Store, k: string, path: string)
    requires Encode(path) != k && s'.db - {k} == s.db - {k}
    ensures Get(s', path) == Get(s, path)
  {
    assert Encode(path) in s.db <==> Encode(path) in s.db - {k};
    assert Encode(path) in s'.db <==> Encode(path) in s'.db - {k};
    if Encode(path) in s.db {
      assert (s.db - {k})[Encode(path)] == s.db[Encode(path)];
      assert (s'.db - {k})[Encode(path)] == s'.db[Encode(path)];
    }
  }

  lemma DeleteKeepsIndex(s: Store, d: Device)
    requires IndexExact(s) && WellKeyed(s) && Get(s, d.path) == Some(d.rec)
    ensures IndexExact(DbDelete(s, d)) && WellKeyed(DbDelete(s, d))
    ensures Get(DbDelete(s, d), d.path) == None
    ensures forall path :: path != d.path ==> Get(DbDelete(s, d), path) == Get(s, path)
  {
    var s' := DbDelete(s, d);
    assert s'.db - {Encode(d.path)} == s.db - {Encode(d.path)};
    forall path | path != d.path
      ensures Get(s', path) == Get(s, path)
    {
      EncodeInjective(path, d.path);
      GetOther(s, s', Encode(d.path), path);
    }
    forall name, path
      ensures Indexed(s', name, path) <==> Claimed(s', name, path)
    {
      EntriesMeaning(d.path, d.rec, name, path);
      assert Indexed(s, name, path) <==> Claimed(s, name, path);
    }
  }

  lemma AddKeepsIndex(s: Store, d: Device)
    requires IndexExact(s) && WellKeyed(s) && Get(s, d.path) == None && Keepable(d.rec) && Absolute(d.path)
    ensures IndexExact(DbAdd(s, d)) && WellKeyed(DbAdd(s, d))
    ensures Get(DbAdd(s, d), d.path) == ReadBack(ToStored(d.rec))
    ensures forall path :: path != d.path ==> Get(DbAdd(s, d), path) == Get(s, path)
  {
    var s' := DbAdd(s, d);
    StoredBack(d.rec);
    assert s'.db - {Encode(d.path)} == s.db - {Encode(d.path)};
    forall path | path != d.path
      ensures Get(s', path) == Get(s, path)
    {
      EncodeInjective(path, d.path);
      GetOther(s, s', Encode(d.path), path);
    }
    forall name, path
      ensures Indexed(s', name, path) <==> Claimed(s', name, path)
    {
      EntriesMeaning(d.path, d.rec, name, path);
      assert Indexed(s, name, path) <==> Claimed(s, name, path);
    }
    forall e | e in s'.index
      ensures IsEncoded(e.0) && IsEncoded(e.1) && SLASH_ESCAPE <= e.1
    {
      if e !in s.index {
        var n :| n in NamesOf(d.rec) && e == IndexEntry(n, d.path);
        EncodedForm(n);
        EncodedForm(d.path);
      }
    }
  }

  /** udev_db_get_devices_by_name: the entries of the name's directory, hidden ones left out. */
  function Refs(s: Store, name: string): set<string> {
    set e | e in s.index && e.0 == Encode(name) && e.1 != "" && e.1[0] != '.' :: Decode(e.1)
  }

  /** The directory listing finds exactly the devices indexed under the name. */
  lemma RefsAreIndexed(s: Store, name: string, path: string)
    requires WellKeyed(s)
    ensures path in Refs(s, name) <==> Indexed(s, name, path)
  {
    DecodeEncode(path);
    if Indexed(s, name, path) {
      var e := IndexEntry(name, path);
      assert SLASH_ESCAPE <= e.1;
      assert Decode(e.1) == path;
    }
    if path in Refs(s, name) {
      var e :| e in s.index && e.0 == Encode(name) && e.1 != "" && e.1[0] != '.' && Decode(e.1) == path;
      EncodingsAreExactly(e.1);
      assert e == IndexEntry(name, path);
    }
  }

  // ---------------------------------------------------------------- links

  function PriorityOf(s: Store, own: Device, path: string): int {
    if path == own.path then own.rec.priority
    else if Get(s, path).Some? then Get(s, path).value.priority
    else 0
  }

  function NodeOf(s: Store, own: Device, path: string): string {
    if path == own.path then own.rec.name
    else if Get(s, path).Some? then Get(s, path).value.name
    else ""
  }

  /** t is the node of a device of highest priority among refs; the device of the event wins a
      tie. */
  ghost predicate Best(s: Store, own: Device, refs: set<string>, t: string) {
    && (exists d :: d in refs && NodeOf(s, own, d) == t &&
          forall d' :: d' in refs ==> PriorityOf(s, own, d') <= PriorityOf(s, own, d))
    && ((own.path in refs && forall d' :: d' in refs ==> PriorityOf(s, own, d') <= own.rec.priority)
        ==> t == own.rec.name)
  }

  /** node_symlink: another device's node is not replaced by a link. */
  function NodeSymlink(dev: map<string, FileNode>, node: string, slink: string): map<string, FileNode> {
    if slink in dev && dev[slink].Node? && node in dev && dev[node] != dev[slink] then dev
    else dev[slink := Link(node)]
  }

  /** What update_link may leave under a name. */
  ghost predicate LinkUpdated(s: Store, own: Device, name: string, dev': map<string, FileNode>) {
    if Refs(s, name) == {} then dev' == s.dev - {name}
    else exists t :: Best(s, own, Refs(s, name), t) && dev' == NodeSymlink(s.dev, t, name)
  }

  /** What one update leaves. */
  ghost predicate OneUpdated(s: Store, own: Device, n: string, s': Store) {
    s'.db == s.db && s'.index == s.index && LinkUpdated(s, own, n, s'.dev)
  }

  /** What updates leave for the names of a list, one after the other. */
  ghost predicate LinksUpdated(s: Store, own: Device, names: seq<string>, s': Store)
    decreases |names|
  {
    if names == [] then s' == s
    else
      var last := names[|names| - 1];
      exists m :: LinksUpdated(s, own, names[..|names| - 1], m) && OneUpdated(m, own, last, s')
  }

  /** Device nodes stand under names that are for nodes. */
  predicate NodesOnly(dev: map<string, FileNode>, isNode: string -> bool) {
    forall n :: n in dev && dev[n].Node? ==> isNode(n)
  }

  /** A link name as an update leaves it: gone if no device is indexed under it. */
  ghost predicate Decided(s: Store, own: Device, n: string, s': Store) {
    if Refs(s, n) == {} then n !in s'.dev
    else n in s'.dev && s'.dev[n].Link? && Best(s, own, Refs(s, n), s'.dev[n].target)
  }

  predicate SameAt(dev: map<string, FileNode>, dev': map<string, FileNode>, n: string) {
    (n in dev' <==> n in dev) && (n in dev ==> dev'[n] == dev[n])
  }

  /** Where names are for nodes or for links, the order of the updates does not show: each link
      name of the list is decided, and names outside the list are as before. */
  ghost predicate Updated(s: Store, own: Device, names: seq<string>, s': Store, isNode: string -> bool) {
    && s'.db == s.db && s'.index == s.index && NodesOnly(s'.dev, isNode)
    && (forall n :: n !in names ==> SameAt(s.dev, s'.dev, n))
    && (forall n :: n in names && !isNode(n) ==> Decided(s, own, n, s'))
  }

  lemma SameBest(s: Store, s1: Store, own: Device, n: string, t: string)
    requires s1.db == s.db && s1.index == s.index
    ensures Best(s1, own, Refs(s1, n), t) <==> Best(s, own, Refs(s, n), t)
  {
    assert forall d :: Get(s1, d) == Get(s, d);
    assert forall d :: NodeOf(s1, own, d) == NodeOf(s, own, d) && PriorityOf(s1, own, d) == PriorityOf(s, own, d);
    var refs := Refs(s, n);
    if Best(s, own, refs, t) {
      var d :| d in refs && NodeOf(s, own, d) == t &&
               forall d' :: d' in refs ==> PriorityOf(s, own, d') <= PriorityOf(s, own, d);
      assert NodeOf(s1, own, d) == t;
    }
    if Best(s1, own, refs, t) {
      var d :| d in refs && NodeOf(s1, own, d) == t &&
               forall d' :: d' in refs ==> PriorityOf(s1, own, d') <= PriorityOf(s1, own, d);
      assert NodeOf(s, own, d) == t;
    }
  }

  /** One more update decides one more link name and touches no other name. */
  lemma OneDecides(s: Store, own: Device, m: Store, n: string, s': Store, isNode: string -> bool)
    requires m.db == s.db && m.index == s.index && NodesOnly(m.dev, isNode) && OneUpdated(m, own, n, s')
    ensures NodesOnly(s'.dev, isNode) && forall k :: k != n ==> SameAt(m.dev, s'.dev, k)
    ensures !isNode(n) ==> Decided(s, own, n, s')
  {
    hide Best, Get;
    assert Refs(m, n) == Refs(s, n);
    hide Refs;
    if Refs(m, n) != {} {
      var t :| Best(m, own, Refs(m, n), t) && s'.dev == NodeSymlink(m.dev, t, n);
      SameBest(s, m, own, n, t);
    }
  }

  lemma {:induction false} UpdatesDecide(s: Store, own: Device, names: seq<string>, s': Store, isNode: string -> bool)
    requires LinksUpdated(s, own, names, s') && NodesOnly(s.dev, isNode)
    ensures Updated(s, own, names, s', isNode)
    decreases |names|
  {
    hide Decided, OneUpdated, NodesOnly;
    if names != [] {
      var front, last := names[..|names| - 1], names[|names| - 1];
      assert names == front + [last];
      var m :| LinksUpdated(s, own, front, m) && OneUpdated(m, own, last, s');
      UpdatesDecide(s, own, front, m, isNode);
      OneDecides(s, own, m, last, s', isNode);
      OneKeepsStores(m, own, last, s');
      forall n | n !in names
        ensures SameAt(s.dev, s'.dev, n)
      {
        assert n !in front && n != last;
        assert SameAt(s.dev, m.dev, n) && SameAt(m.dev, s'.dev, n);
      }
      forall n | n in names && !isNode(n)
        ensures Decided(s, own, n, s')
      {
        if n != last {
          SameDecided(s, own, n, m, s');
        }
      }
    }
  }

  lemma OneKeepsStores(s: Store, own: Device, n: string, s': Store)
    requires OneUpdated(s, own, n, s')
    ensures s'.db == s.db && s'.index == s.index
  {
  }

  lemma SameDecided(s: Store, own: Device, n: string, m: Store, s': Store)
    requires Decided(s, own, n, m) && SameAt(m.dev, s'.dev, n)
    ensures Decided(s, own, n, s')
  {
  }

  /** Updates concern neither database nor index, whatever the names are. */
  lemma {:induction false} UpdatesKeepStores(s: Store, own: Device, names: seq<string>, s': Store)
    requires LinksUpdated(s, own, names, s')
    ensures s'.db == s.db && s'.index == s.index
    decreases |names|
  {
    hide OneUpdated;
    if names != [] {
      var m :| LinksUpdated(s, own, names[..|names| - 1], m) && OneUpdated(m, own, names[|names| - 1], s');
      UpdatesKeepStores(s, own, names[..|names| - 1], m);
      OneKeepsStores(m, own, names[|names| - 1], s');
    }
  }

  predicate Wants(s: Store, path: string, link: string) {
    Get(s, path).Some? && link in Get(s, path).value.symlinks
  }

  /** The database has the node and priority of the event's device. */
  predicate OwnStored(s: Store, own: Device) {
    && Get(s, own.path).Some?
    && Get(s, own.path).value.name == own.rec.name && Get(s, own.path).value.priority == own.rec.priority
  }

  /** d claims the link, and no claimant has a higher priority. */
  ghost predicate Highest(s: Store, d: string, link: string) {
    Wants(s, d, link) &&
    forall d' :: Wants(s, d', link) ==> Get(s, d').value.priority <= Get(s, d).value.priority
  }

  /** The link exists exactly when a device claims it, and then it points to the node of a
      claimant of highest priority. */
  ghost predicate LinkRight(s: Store, link: string) {
    && ((link in s.dev && s.dev[link].Link?) <==> exists d :: Wants(s, d, link))
    && (link in s.dev && s.dev[link].Link? ==>
          exists d :: Highest(s, d, link) && Get(s, d).value.name == s.dev[link].target)
  }

  /** Names are either for nodes or for links. */
  ghost predicate Sorted(s: Store, isNode: string -> bool) {
    && NodesOnly(s.dev, isNode)
    && (forall d :: Get(s, d).Some? ==>
          isNode(Get(s, d).value.name) && forall l :: l in Get(s, d).value.symlinks ==> !isNode(l))
  }

  ghost predicate Inv(s: Store, isNode: string -> bool) {
    IndexExact(s) && WellKeyed(s) && Sorted(s, isNode) && forall link :: !isNode(link) ==> LinkRight(s, link)
  }

  // ---------------------------------------------------------------- events

  /** The names of olds that are not in news. */
  function LeftOver(olds: seq<string>, news: seq<string>): seq<string> {
    if olds == [] then []
    else LeftOver(olds[..|olds| - 1], news) + (if olds[|olds| - 1] in news then [] else [olds[|olds| - 1]])
  }

  lemma {:induction false} LeftOverMeaning(olds: seq<string>, news: seq<string>, n: string)
    ensures n in LeftOver(olds, news) <==> n in olds && n !in news
  {
    if olds != [] {
      var front, last := olds[..|olds| - 1], olds[|olds| - 1];
      LeftOverMeaning(front, news, n);
      assert olds == front + [last];
    }
  }

  /** The names whose links an add or change event looks at again, in order. */
  function Touched(own: Device, prev: Option<Record>): seq<string> {
    own.rec.symlinks
    + (if prev.None? then []
       else LeftOver(prev.value.symlinks, own.rec.symlinks)
            + (if prev.value.name != own.rec.name then [prev.value.name] else []))
  }

  lemma TouchedMeaning(own: Device, prev: Option<Record>, n: string)
    ensures n in Touched(own, prev) <==>
            || n in own.rec.symlinks
            || (prev.Some? && (n in prev.value.symlinks || (n == prev.value.name && n != own.rec.name)))
  {
    if prev.Some? {
      LeftOverMeaning(prev.value.symlinks, own.rec.symlinks, n);
    }
  }

  /** The stores when an add or change event gets to the links. */
  function Stored1(s: Store, own: Device, devt: Devt): Store {
    var prev := Get(s, own.path);
    var s1 := if prev.Some? then DbDelete(s, Device(own.path, prev.value)) else s;
    DbAdd(s1.(dev := s1.dev[own.rec.name := Node(devt)]), own)
  }

  ghost predicate AddAllowed(own: Device, isNode: string -> bool) {
    && Absolute(own.path) && Keepable(own.rec) && isNode(own.rec.name)
    && (forall l :: l in own.rec.symlinks ==> !isNode(l))
  }

  lemma SameIndex(s: Store, s': Store)
    requires s'.db == s.db && s'.index == s.index && IndexExact(s) && WellKeyed(s)
    ensures IndexExact(s') && WellKeyed(s')
  {
    forall name, path
      ensures Indexed(s', name, path) <==> Claimed(s', name, path)
    {
      assert Indexed(s, name, path) <==> Claimed(s, name, path);
    }
  }

  /** Database and index when an add or change event gets to the links, whatever its names. */
  lemma AddIndexes(s: Store, own: Device, devt: Devt)
    requires IndexExact(s) && WellKeyed(s) && Absolute(own.path) && Keepable(own.rec)
    ensures var s3 := Stored1(s, own, devt);
            && IndexExact(s3) && WellKeyed(s3)
            && Get(s3, own.path) == ReadBack(ToStored(own.rec))
            && (forall d :: d != own.path ==> Get(s3, d) == Get(s, d))
            && s3.dev == s.dev[own.rec.name := Node(devt)]
  {
    var prev := Get(s, own.path);
    var s1 := if prev.Some? then DbDelete(s, Device(own.path, prev.value)) else s;
    if prev.Some? {
      DeleteKeepsIndex(s, Device(own.path, prev.value));
    }
    var s2 := s1.(dev := s1.dev[own.rec.name := Node(devt)]);
    SameIndex(s1, s2);
    assert forall d :: Get(s2, d) == Get(s1, d);
    AddKeepsIndex(s2, own);
    hide IndexExact, WellKeyed;
    assert DbAdd(s2, own) == Stored1(s, own, devt);
  }

  lemma AddSorted(s: Store, own: Device, devt: Devt, isNode: string -> bool, s3: Store)
    requires Sorted(s, isNode) && AddAllowed(own, isNode)
    requires Get(s3, own.path) == ReadBack(ToStored(own.rec))
    requires forall d :: d != own.path ==> Get(s3, d) == Get(s, d)
    requires s3.dev == s.dev[own.rec.name := Node(devt)]
    ensures Sorted(s3, isNode)
  {
    StoredBack(own.rec);
    hide Get, ReadBack, ToStored;
  }

  lemma RefsAreWants(s: Store, link: string, d: string, isNode: string -> bool)
    requires IndexExact(s) && WellKeyed(s) && Sorted(s, isNode) && !isNode(link)
    ensures d in Refs(s, link) <==> Wants(s, d, link)
  {
    RefsAreIndexed(s, link, d);
    assert Indexed(s, link, d) <==> Claimed(s, link, d);
  }

  /** Among the devices indexed under a link name, those other than the event's device have
      their stored priority and node. */
  lemma BestIsRight(s: Store, own: Device, link: string, t: string, isNode: string -> bool)
    requires IndexExact(s) && WellKeyed(s) && Sorted(s, isNode) && !isNode(link)
    requires Wants(s, own.path, link) ==> OwnStored(s, own)
    requires Best(s, own, Refs(s, link), t)
    ensures exists d :: Highest(s, d, link) && Get(s, d).value.name == t
  {
    forall d
      ensures d in Refs(s, link) <==> Wants(s, d, link)
    {
      RefsAreWants(s, link, d, isNode);
    }
    hide IndexExact, WellKeyed, Sorted, Refs;
    var d :| d in Refs(s, link) && NodeOf(s, own, d) == t &&
             forall d' :: d' in Refs(s, link) ==> PriorityOf(s, own, d') <= PriorityOf(s, own, d);
    forall d' | Wants(s, d', link)
      ensures Get(s, d').value.priority <= Get(s, d).value.priority
    {
      assert d' in Refs(s, link);
      assert PriorityOf(s, own, d') == Get(s, d').value.priority;
    }
    assert Highest(s, d, link);
  }

  /** A link whose claimants have not changed is as right as it was. */
  lemma StaysRight(s: Store, s': Store, link: string)
    requires LinkRight(s, link) && SameAt(s.dev, s'.dev, link)
    requires forall d :: Wants(s', d, link) <==> Wants(s, d, link)
    requires forall d :: Wants(s, d, link) ==> Get(s', d) == Get(s, d)
    ensures LinkRight(s', link)
  {
    if link in s.dev && s.dev[link].Link? {
      var d :| Highest(s, d, link) && Get(s, d).value.name == s.dev[link].target;
      assert Highest(s', d, link);
    }
  }

  /** A link that has been decided is right. */
  lemma DecidedIsRight(s: Store, own: Device, link: string, s': Store, isNode: string -> bool)
    requires IndexExact(s) && WellKeyed(s) && Sorted(s, isNode) && !isNode(link)
    requires Wants(s, own.path, link) ==> OwnStored(s, own)
    requires s'.db == s.db && Decided(s, own, link, s')
    ensures LinkRight(s', link)
  {
    forall d
      ensures d in Refs(s, link) <==> Wants(s', d, link)
    {
      RefsAreWants(s, link, d, isNode);
    }
    assert forall d :: Get(s', d) == Get(s, d);
    if Refs(s, link) != {} {
      BestIsRight(s, own, link, s'.dev[link].target, isNode);
      var d :| Highest(s, d, link) && Get(s, d).value.name == s'.dev[link].target;
      hide IndexExact, WellKeyed, Sorted, Refs, Best;
      assert Highest(s', d, link);
    }
  }

  lemma UpdatedSorted(s: Store, own: Device, names: seq<string>, s': Store, isNode: string -> bool)
    requires IndexExact(s) && WellKeyed(s) && Sorted(s, isNode) && Updated(s, own, names, s', isNode)
    ensures IndexExact(s') && WellKeyed(s') && Sorted(s', isNode)
  {
    SameIndex(s, s');
    assert forall d :: Get(s', d) == Get(s, d);
  }

  /** A successful add or change keeps the index exact and every link right. */
  lemma AddKeeps(s: Store, own: Device, devt: Devt, isNode: string -> bool, s': Store)
    requires Inv(s, isNode) && AddAllowed(own, isNode)
    requires LinksUpdated(Stored1(s, own, devt), own, Touched(own, Get(s, own.path)), s')
    ensures Inv(s', isNode)
  {
    var s3 := Stored1(s, own, devt);
    var names := Touched(own, Get(s, own.path));
    AddIndexes(s, own, devt);
    AddSorted(s, own, devt, isNode, s3);
    StoredBack(own.rec);
    UpdatesDecide(s3, own, names, s', isNode);
    UpdatedSorted(s3, own, names, s', isNode);
    forall link | !isNode(link)
      ensures LinkRight(s', link)
    {
      if link in names {
        DecidedIsRight(s3, own, link, s', isNode);
      } else {
        UntouchedByAdd(s, own, devt, isNode, s', link);
      }
    }
    hide IndexExact, WellKeyed, Sorted, LinkRight, Updated, Touched, Stored1, ReadBack, ToStored;
  }

  lemma UntouchedByAdd(s: Store, own: Device, devt: Devt, isNode: string -> bool, s': Store, link: string)
    requires Inv(s, isNode) && AddAllowed(own, isNode) && !isNode(link)
    requires Updated(Stored1(s, own, devt), own, Touched(own, Get(s, own.path)), s', isNode)
    requires link !in Touched(own, Get(s, own.path))
    ensures LinkRight(s', link)
  {
    var s3 := Stored1(s, own, devt);
    AddIndexes(s, own, devt);
    StoredBack(own.rec);
    assert forall d :: Get(s', d) == Get(s3, d);
    TouchedMeaning(own, Get(s, own.path), link);
    hide Touched;
    assert !Wants(s, own.path, link) && !Wants(s3, own.path, link);
    assert SameAt(s3.dev, s'.dev, link) && link != own.rec.name;
    hide IndexExact, WellKeyed, Sorted, LinkRight, Updated, Touched, Stored1, ReadBack, ToStored, Get;
    StaysRight(s, s', link);
  }

  /** The device just processed wins ties: a link it wants points to it unless another claimant
      has a strictly higher priority. */
  lemma OwnWinsTies(s: Store, own: Device, devt: Devt, isNode: string -> bool, s': Store, link: string)
    requires Inv(s, isNode) && AddAllowed(own, isNode) && link in own.rec.symlinks
    requires LinksUpdated(Stored1(s, own, devt), own, Touched(own, Get(s, own.path)), s')
    ensures link in s'.dev && s'.dev[link].Link?
    ensures s'.dev[link].target == own.rec.name
            || exists d :: d != own.path && Wants(s, d, link) && own.rec.priority < Get(s, d).value.priority
  {
    var s3 := Stored1(s, own, devt);
    AddIndexes(s, own, devt);
    AddSorted(s, own, devt, isNode, s3);
    StoredBack(own.rec);
    UpdatesDecide(s3, own, Touched(own, Get(s, own.path)), s', isNode);
    assert Wants(s3, own.path, link);
    RefsAreWants(s3, link, own.path, isNode);
    TouchedMeaning(own, Get(s, own.path), link);
    assert Decided(s3, own, link, s');
    hide Inv, AddAllowed, Stored1, IndexExact, WellKeyed, Sorted, ReadBack, ToStored, Refs, Best, Updated, Touched, LinksUpdated;
    var t := s'.dev[link].target;
    BestOrBeaten(s3, own, Refs(s3, link), t);
    if t != own.rec.name {
      var d :| d in Refs(s3, link) && PriorityOf(s3, own, d) > own.rec.priority;
      RefsAreWants(s3, link, d, isNode);
      assert Wants(s, d, link);
    }
  }

  lemma BestOrBeaten(s: Store, own: Device, refs: set<string>, t: string)
    requires Best(s, own, refs, t) && own.path in refs
    ensures t == own.rec.name || exists d :: d in refs && PriorityOf(s, own, d) > own.rec.priority
  {
  }

  /** Node names that two devices share are another matter than links: updating a node name that
      the event's device has given up but another device still has replaces that device's node by
      a link to itself. */
  lemma SharedNodeIsLost(s: Store, own: Device, n: string, dev': map<string, FileNode>)
    requires IndexExact(s) && WellKeyed(s)
    requires exists d :: Claimed(s, n, d)
    requires forall d :: Claimed(s, n, d) ==> d != own.path && Get(s, d).value.name == n
    requires LinkUpdated(s, own, n, dev')
    ensures n in dev' && dev'[n] == Link(n)
  {
    forall d
      ensures d in Refs(s, n) <==> Claimed(s, n, d)
    {
      RefsAreIndexed(s, n, d);
      assert Indexed(s, n, d) <==> Claimed(s, n, d);
    }
    var d :| Claimed(s, n, d);
    assert d in Refs(s, n);
    var t :| Best(s, own, Refs(s, n), t) && dev' == NodeSymlink(s.dev, t, n);
    assert t == n;
  }

  // ---------------------------------------------------------------- removing

  /** How many links in a row a path lookup follows. */
  const MAX_LINKS: nat := 40

  /** stat: links are followed to a node, at most limit of them. */
  function Stat(dev: map<string, FileNode>, name: string, limit: nat): Option<Devt>
    decreases limit
  {
    if name !in dev then None
    else if dev[name].Node? then Some(dev[name].devt)
    else if limit == 0 then None
    else Stat(dev, dev[name].target, limit - 1)
  }

  /** udev_node_remove: the node stays if it is another device by now. */
  function NodeRemoved(dev: map<string, FileNode>, name: string, devt: Devt): map<string, FileNode> {
    var st := Stat(dev, name, MAX_LINKS);
    if st.None? || (devt != (0, 0) && st.value != devt) then dev else dev - {name}
  }

  /** The device number a remove event works with: that of the record, if the record has one. */
  function RemovedDevt(s: Store, path: string, devt: Devt): Devt
    requires Get(s, path).Some?
  {
    if s.db[Encode(path)].TextFile? then (Get(s, path).value.major, Get(s, path).value.minor) else devt
  }

  function Removed1(s: Store, path: string, devt: Devt): Store
    requires Get(s, path).Some?
  {
    var r := Get(s, path).value;
    var s1 := DbDelete(s, Device(path, r));
    s1.(dev := NodeRemoved(s1.dev, r.name, RemovedDevt(s, path, devt)))
  }

  lemma RemoveStores(s: Store, path: string, devt: Devt)
    requires IndexExact(s) && WellKeyed(s) && Get(s, path).Some?
    ensures var s1 := DbDelete(s, Device(path, Get(s, path).value)); var s2 := Removed1(s, path, devt);
            && IndexExact(s1) && WellKeyed(s1) && IndexExact(s2) && WellKeyed(s2)
            && Get(s1, path) == None && Get(s2, path) == None
            && (forall d :: d != path ==> Get(s1, d) == Get(s, d) && Get(s2, d) == Get(s, d))
            && forall n :: n != Get(s, path).value.name ==> SameAt(s.dev, s2.dev, n)
  {
    var r := Get(s, path).value;
    DeleteKeepsIndex(s, Device(path, r));
    var s1 := DbDelete(s, Device(path, r));
    var s2 := Removed1(s, path, devt);
    SameIndex(s1, s2);
    assert forall d :: Get(s2, d) == Get(s1, d);
    hide IndexExact, WellKeyed;
  }

  lemma RemoveSorted(s: Store, path: string, devt: Devt, isNode: string -> bool)
    requires Inv(s, isNode) && Get(s, path).Some?
    ensures Sorted(DbDelete(s, Device(path, Get(s, path).value)), isNode) && Sorted(Removed1(s, path, devt), isNode)
  {
    RemoveStores(s, path, devt);
    var s2 := Removed1(s, path, devt);
    hide IndexExact, WellKeyed, LinkRight;
    assert forall n :: n in s2.dev ==> n in s.dev && s2.dev[n] == s.dev[n];
  }

  /** A remove event that is not suppressed keeps the index exact and every link right. */
  lemma RemoveKeeps(s: Store, path: string, devt: Devt, isNode: string -> bool, s': Store)
    requires Inv(s, isNode) && Get(s, path).Some?
    requires var r := Get(s, path).value; LinksUpdated(Removed1(s, path, devt), Device(path, r), r.symlinks, s')
    ensures Inv(s', isNode)
  {
    var r := Get(s, path).value;
    var own := Device(path, r);
    var s2 := Removed1(s, path, devt);
    RemoveStores(s, path, devt);
    RemoveSorted(s, path, devt, isNode);
    UpdatesDecide(s2, own, r.symlinks, s', isNode);
    UpdatedSorted(s2, own, r.symlinks, s', isNode);
    forall link | !isNode(link)
      ensures LinkRight(s', link)
    {
      if link in r.symlinks {
        DecidedIsRight(s2, own, link, s', isNode);
      } else {
        assert LinkRight(s, link);
        assert forall d :: Get(s', d) == Get(s2, d);
        assert SameAt(s2.dev, s'.dev, link) && SameAt(s.dev, s2.dev, link);
        StaysRight(s, s', link);
      }
    }
    hide IndexExact, WellKeyed, Sorted, LinkRight, Updated, Removed1;
  }

  /** Another device has the same node and would have the link if this one were gone. */
  ghost predicate Heir(s: Store, path: string, link: string, d: string) {
    && d != path && Wants(s, d, link) && Get(s, path).Some?
    && Get(s, d).value.name == Get(s, path).value.name
    && forall d' :: d' != path && Wants(s, d', link) ==> Get(s, d').value.priority <= Get(s, d).value.priority
  }

  /** With ignore_remove (or ignore_device on remove) the record goes but the links are not
      looked at. That leaves them right exactly when none of them pointed to the node of the
      device, but for those that another device of the same node takes over. */
  lemma SuppressedRemove(s: Store, path: string, isNode: string -> bool)
    requires Inv(s, isNode) && Get(s, path).Some?
    ensures var r := Get(s, path).value;
            Inv(DbDelete(s, Device(path, r)), isNode) <==>
            forall l :: l in r.symlinks && l in s.dev && s.dev[l] == Link(r.name) ==> exists d :: Heir(s, path, l, d)
  {
    var r := Get(s, path).value;
    RemoveStores(s, path, (0, 0));
    RemoveSorted(s, path, (0, 0), isNode);
    var s1 := DbDelete(s, Device(path, r));
    forall l | !isNode(l)
      ensures LinkRight(s1, l) <==>
              (l in r.symlinks && l in s.dev && s.dev[l] == Link(r.name) ==> exists d :: Heir(s, path, l, d))
    {
      if l in r.symlinks && l in s.dev && s.dev[l] == Link(r.name) {
        PointedLink(s, s1, path, l);
      } else {
        assert LinkRight(s, l);
        UnpointedLinkStays(s, s1, path, l);
      }
    }
    assert forall l :: l in r.symlinks ==> !isNode(l);
    hide IndexExact, WellKeyed, Sorted, LinkRight, Heir;
  }

  /** Without a second device of the same node, that is exactly when none of them pointed to it. */
  lemma SuppressedRemoveOfOwnNode(s: Store, path: string, isNode: string -> bool)
    requires Inv(s, isNode) && Get(s, path).Some?
    requires forall d :: Get(s, d).Some? && Get(s, d).value.name == Get(s, path).value.name ==> d == path
    ensures var r := Get(s, path).value;
            Inv(DbDelete(s, Device(path, r)), isNode) <==>
            forall l :: l in r.symlinks && l in s.dev ==> s.dev[l] != Link(r.name)
  {
    SuppressedRemove(s, path, isNode);
    hide Inv, Get;
  }

  lemma PointedLink(s: Store, s1: Store, path: string, l: string)
    requires Get(s, path).Some? && l in s.dev && s.dev[l] == Link(Get(s, path).value.name)
    requires s1.dev == s.dev && Get(s1, path) == None && forall d :: d != path ==> Get(s1, d) == Get(s, d)
    ensures LinkRight(s1, l) <==> exists d :: Heir(s, path, l, d)
  {
    forall d
      ensures Highest(s1, d, l) && Get(s1, d).value.name == s1.dev[l].target <==> Heir(s, path, l, d)
    {
      assert forall d' :: Wants(s1, d', l) <==> d' != path && Wants(s, d', l);
    }
    if d :| Heir(s, path, l, d) {
      assert Wants(s1, d, l) && Highest(s1, d, l);
    }
  }

  lemma UnpointedLinkStays(s: Store, s1: Store, path: string, link: string)
    requires LinkRight(s, link) && Get(s, path).Some?
    requires s1.dev == s.dev && Get(s1, path) == None && forall d :: d != path ==> Get(s1, d) == Get(s, d)
    requires link in Get(s, path).value.symlinks && link in s.dev ==> s.dev[link] != Link(Get(s, path).value.name)
    ensures LinkRight(s1, link)
  {
    if link in s.dev && s.dev[link].Link? {
      var d :| Highest(s, d, link) && Get(s, d).value.name == s.dev[link].target;
      assert d != path;
      assert forall d' :: Wants(s1, d', link) ==> Wants(s, d', link);
      assert Highest(s1, d, link);
    } else {
      forall d
        ensures !Wants(s1, d, link)
      {
        assert !Wants(s, d, link);
      }
    }
  }

  // ---------------------------------------------------------------- names under updates

  /** An update concerns the entry of its own name only. */
  lemma OneTouches(s: Store, own: Device, n: string, s': Store, k: string)
    requires OneUpdated(s, own, n, s') && k != n
    ensures SameAt(s.dev, s'.dev, k)
  {
    hide Best, Refs;
  }

  lemma {:induction false} OutsideStays(s: Store, own: Device, names: seq<string>, s': Store, n: string)
    requires LinksUpdated(s, own, names, s') && n !in names
    ensures SameAt(s.dev, s'.dev, n)
    decreases |names|
  {
    hide OneUpdated;
    if names != [] {
      var last := names[|names| - 1];
      var m :| LinksUpdated(s, own, names[..|names| - 1], m) && OneUpdated(m, own, last, s');
      OutsideStays(s, own, names[..|names| - 1], m, n);
      OneTouches(m, own, last, s', n);
    }
  }

  /** A name that nothing is indexed under is gone after the updates, whatever it was. */
  lemma {:induction false} UnclaimedGoes(s: Store, own: Device, names: seq<string>, s': Store, n: string)
    requires LinksUpdated(s, own, names, s') && n in names && Refs(s, n) == {}
    ensures n !in s'.dev
    decreases |names|
  {
    var front, last := names[..|names| - 1], names[|names| - 1];
    assert names == front + [last];
    var m :| LinksUpdated(s, own, front, m) && OneUpdated(m, own, last, s');
    UpdatesKeepStores(s, own, front, m);
    assert Refs(m, n) == Refs(s, n);
    hide Refs, Best;
    if last != n {
      UnclaimedGoes(s, own, front, m, n);
      OneTouches(m, own, last, s', n);
    }
  }

  /** A node under the name of a link is left alone if every device that could have the link has
      its own node by now, and that is another one. */
  ghost predicate Foreign(s: Store, own: Device, names: seq<string>, l: string) {
    && l in s.dev && s.dev[l].Node? && Refs(s, l) != {}
    && forall t :: Best(s, own, Refs(s, l), t) ==> t !in names && t in s.dev && s.dev[t] != s.dev[l]
  }

  lemma ForeignSpared(s: Store, own: Device, l: string, s': Store)
    requires OneUpdated(s, own, l, s') && Foreign(s, own, [], l)
    ensures SameAt(s.dev, s'.dev, l)
  {
    hide Best, Refs;
  }

  lemma {:induction false} ForeignNodeStays(s: Store, own: Device, names: seq<string>, s': Store, l: string)
    requires LinksUpdated(s, own, names, s') && Foreign(s, own, names, l)
    ensures SameAt(s.dev, s'.dev, l)
    decreases |names|
  {
    if names != [] {
      var front, last := names[..|names| - 1], names[|names| - 1];
      assert names == front + [last];
      var m :| LinksUpdated(s, own, front, m) && OneUpdated(m, own, last, s');
      ForeignNodeStays(s, own, front, m, l);
      if last == l {
        StillForeign(s, own, front, m, l);
        ForeignSpared(m, own, l, s');
      } else {
        OneTouches(m, own, last, s', l);
      }
    }
  }

  lemma StillForeign(s: Store, own: Device, front: seq<string>, m: Store, l: string)
    requires LinksUpdated(s, own, front, m) && Foreign(s, own, front, l) && SameAt(s.dev, m.dev, l)
    ensures Foreign(m, own, [], l)
  {
    UpdatesKeepStores(s, own, front, m);
    assert Refs(m, l) == Refs(s, l);
    hide Refs, LinksUpdated;
    forall t | Best(m, own, Refs(m, l), t)
      ensures t in m.dev && m.dev[t] != m.dev[l]
    {
      SameBest(s, m, own, l, t);
      OutsideStays(s, own, front, m, t);
    }
  }

  // ---------------------------------------------------------------- runs

  datatype Event =
    | AddOrChange(own: Device, devt: Devt, ignoreDevice: bool, mknodOk: bool)
    | Remove(path: string, kernel: string, devt: Devt, ignoreDevice: bool)

  /** udev_device_event for a device with a major number. The order in which a directory lists
      its entries is open, and with it the choice among equal priorities. */
  ghost predicate EventStep(s: Store, e: Event, s': Store) {
    match e
    case AddOrChange(own, devt, ignoreDevice, mknodOk) =>
      var prev := Get(s, own.path);
      if ignoreDevice || own.rec.name == "" then s' == s
      else if !mknodOk then s' == (if prev.Some? then DbDelete(s, Device(own.path, prev.value)) else s)
      else LinksUpdated(Stored1(s, own, devt), own, Touched(own, prev), s')
    case Remove(path, kernel, devt, ignoreDevice) =>
      var r := Get(s, path);
      if r.Some? then
        if r.value.ignoreRemove != 0 || ignoreDevice then s' == DbDelete(s, Device(path, r.value))
        else LinksUpdated(Removed1(s, path, devt), Device(path, r.value), r.value.symlinks, s')
      else if ignoreDevice then s' == s
      else s' == s.(dev := NodeRemoved(s.dev, kernel, devt))
  }

  /** A device with one link, marked ignore_remove. */
  const MARKED: Device := Device("/d", EMPTY.(name := "n", symlinks := ["l"], major := 8, ignoreRemove := 1))

  /** An add and then a remove of such a device, from empty stores: the link stays, pointing to
      the node of a device that is gone, and no device claims it. */
  lemma IgnoredRemoveLeavesLink(isNode: string -> bool) returns (s1: Store, s2: Store)
    requires isNode("n") && !isNode("l")
    ensures EventStep(Store(map[], {}, map[]), AddOrChange(MARKED, (8, 0), false, true), s1) && Inv(s1, isNode)
    ensures EventStep(s1, Remove("/d", "d", (8, 0), false), s2) && !Inv(s2, isNode)
    ensures "l" in s2.dev && s2.dev["l"] == Link("n") && forall d :: Get(s2, d) == None
  {
    hide EventStep, Get, Inv;
    s1 := MarkedComes(isNode);
    s2 := MarkedGoes(s1, isNode);
  }

  lemma MarkedComes(isNode: string -> bool) returns (s1: Store)
    requires isNode("n") && !isNode("l")
    ensures EventStep(Store(map[], {}, map[]), AddOrChange(MARKED, (8, 0), false, true), s1) && Inv(s1, isNode)
    ensures s1.dev == map["n" := Node((8, 0)), "l" := Link("n")]
    ensures Get(s1, "/d") == Some(MARKED.rec) && forall d :: d != "/d" ==> Get(s1, d) == None
  {
    var s0 := Store(map[], {}, map[]);
    MarkedIsKeepable();
    EmptyAgrees(isNode);
    s1 := AddsMarked(s0);
    hide LinksUpdated, Stored1, Get, Inv, Touched, Keepable;
    AddKeeps(s0, MARKED, (8, 0), isNode, s1);
  }

  lemma MarkedGoes(s1: Store, isNode: string -> bool) returns (s2: Store)
    requires Inv(s1, isNode) && s1.dev == map["n" := Node((8, 0)), "l" := Link("n")]
    requires Get(s1, "/d") == Some(MARKED.rec) && forall d :: d != "/d" ==> Get(s1, d) == None
    ensures EventStep(s1, Remove("/d", "d", (8, 0), false), s2) && !Inv(s2, isNode)
    ensures s2.dev == s1.dev && forall d :: Get(s2, d) == None
  {
    s2 := DbDelete(s1, Device("/d", MARKED.rec));
    SuppressedRemoveOfOwnNode(s1, "/d", isNode);
    RemoveStores(s1, "/d", (0, 0));
    hide Get, IndexExact, WellKeyed, Sorted, LinkRight, Removed1;
    assert "l" in MARKED.rec.symlinks && s1.dev["l"] == Link(MARKED.rec.name);
  }

  lemma MarkedIsKeepable()
    ensures Keepable(MARKED.rec)
  {
    PlainFieldOk("n");
    PlainFieldOk("l");
  }

  lemma MarkedStored(s0: Store)
    requires s0 == Store(map[], {}, map[])
    ensures var s3 := Stored1(s0, MARKED, (8, 0));
            && IndexExact(s3) && WellKeyed(s3) && s3.dev == map["n" := Node((8, 0))]
            && Get(s3, "/d") == Some(MARKED.rec) && forall d :: d != "/d" ==> Get(s3, d) == None
  {
    MarkedIsKeepable();
    EmptyAgrees(_ => true);
    AddIndexes(s0, MARKED, (8, 0));
    StoredBack(MARKED.rec);
    assert forall d :: Get(s0, d) == None;
    hide IndexExact, WellKeyed, Stored1, ReadBack, Get, Print;
  }

  /** The only device that claims a link gets it. */
  lemma SoleClaimant(s: Store, own: Device, link: string)
    requires IndexExact(s) && WellKeyed(s)
    requires forall d :: Claimed(s, link, d) <==> d == own.path
    ensures LinkUpdated(s, own, link, NodeSymlink(s.dev, own.rec.name, link))
  {
    forall d
      ensures d in Refs(s, link) <==> d == own.path
    {
      RefsAreIndexed(s, link, d);
      assert Indexed(s, link, d) <==> Claimed(s, link, d);
    }
    hide IndexExact, WellKeyed, Refs, Get;
    assert own.path in Refs(s, link) && NodeOf(s, own, own.path) == own.rec.name;
    assert Best(s, own, Refs(s, link), own.rec.name);
  }

  lemma AddsMarked(s0: Store) returns (s1: Store)
    requires s0 == Store(map[], {}, map[])
    ensures LinksUpdated(Stored1(s0, MARKED, (8, 0)), MARKED, Touched(MARKED, Get(s0, "/d")), s1)
    ensures s1.dev == map["n" := Node((8, 0)), "l" := Link("n")]
    ensures Get(s1, "/d") == Some(MARKED.rec) && forall d :: d != "/d" ==> Get(s1, d) == None
  {
    MarkedStored(s0);
    var s3 := Stored1(s0, MARKED, (8, 0));
    assert Get(s0, "/d") == None;
    assert Touched(MARKED, None) == ["l"];
    s1 := s3.(dev := NodeSymlink(s3.dev, "n", "l"));
    assert forall d :: Get(s1, d) == Get(s3, d);
    hide Stored1, Get, IndexExact, WellKeyed, Touched;
    SoleClaimant(s3, MARKED, "l");
    hide LinkUpdated;
    assert OneUpdated(s3, MARKED, "l", s1);
    assert ["l"][..0] == [];
    assert LinksUpdated(s3, MARKED, [], s3);
  }

  /** Successful events that neither ignore_remove nor ignore_device cuts short, with names for
      nodes kept apart from names for links. */
  ghost predicate Allowed(s: Store, e: Event, isNode: string -> bool) {
    match e
    case AddOrChange(own, devt, ignoreDevice, mknodOk) =>
      ignoreDevice || own.rec.name == "" || (mknodOk && AddAllowed(own, isNode))
    case Remove(path, kernel, devt, ignoreDevice) =>
      isNode(kernel) && !ignoreDevice && (Get(s, path).Some? ==> Get(s, path).value.ignoreRemove == 0)
  }

  lemma EventKeeps(s: Store, e: Event, isNode: string -> bool, s': Store)
    requires Inv(s, isNode) && Allowed(s, e, isNode) && EventStep(s, e, s')
    ensures Inv(s', isNode)
  {
    hide Inv, LinksUpdated, AddAllowed;
    match e {
      case AddOrChange(own, devt, ignoreDevice, mknodOk) =>
        if !ignoreDevice && own.rec.name != "" {
          AddKeeps(s, own, devt, isNode, s');
        }
      case Remove(path, kernel, devt, ignoreDevice) =>
        if Get(s, path).Some? {
          RemoveKeeps(s, path, devt, isNode, s');
        } else {
          NodeRemovalKeeps(s, kernel, devt, isNode);
        }
    }
  }

  lemma NodeRemovalKeeps(s: Store, name: string, devt: Devt, isNode: string -> bool)
    requires Inv(s, isNode) && isNode(name)
    ensures Inv(s.(dev := NodeRemoved(s.dev, name, devt)), isNode)
  {
    var s' := s.(dev := NodeRemoved(s.dev, name, devt));
    SameIndex(s, s');
    assert forall d :: Get(s', d) == Get(s, d);
    forall link | !isNode(link)
      ensures LinkRight(s', link)
    {
      assert SameAt(s.dev, s'.dev, link);
      StaysRight(s, s', link);
    }
    hide IndexExact, WellKeyed, LinkRight;
  }

  /** Through any sequence of allowed events the three stores agree: the index is the inverse of
      the database, and every link points to a claimant of highest priority or does not exist.
      Devices may share a node name, and nodes may be other devices by the time they are removed. */
  lemma {:induction false} StoresAgree(states: seq<Store>, events: seq<Event>, isNode: string -> bool)
    requires |states| == |events| + 1 && states[0] == Store(map[], {}, map[])
    requires forall i :: 0 <= i < |events| ==>
               Allowed(states[i], events[i], isNode) && EventStep(states[i], events[i], states[i + 1])
    ensures Inv(states[|events|], isNode)
    decreases |events|
  {
    hide Inv, EventStep, Allowed;
    var n := |events|;
    if n == 0 {
      EmptyAgrees(isNode);
    } else {
      StoresAgree(states[..n], events[..n - 1], isNode);
      EventKeeps(states[n - 1], events[n - 1], isNode, states[n]);
    }
  }

  /** What any stored device has: an absolute path and a record that can be read back. */
  predicate Storing(e: Event) {
    e.AddOrChange? && !e.ignoreDevice && e.own.rec.name != "" && e.mknodOk ==>
      Absolute(e.own.path) && Keepable(e.own.rec)
  }

  /** Every event keeps the index exact: suppressed ones, failing ones, and those whose names
      collide with others included. */
  lemma IndexKept(s: Store, e: Event, s': Store)
    requires IndexExact(s) && WellKeyed(s) && Storing(e) && EventStep(s, e, s')
    ensures IndexExact(s') && WellKeyed(s')
  {
    hide IndexExact, WellKeyed, Keepable, LinksUpdated;
    match e {
      case AddOrChange(own, devt, ignoreDevice, mknodOk) =>
        if Get(s, own.path).Some? {
          DeleteKeepsIndex(s, Device(own.path, Get(s, own.path).value));
        }
        if !ignoreDevice && own.rec.name != "" && mknodOk {
          AddIndexes(s, own, devt);
          UpdatesKeepStores(Stored1(s, own, devt), own, Touched(own, Get(s, own.path)), s');
          SameIndex(Stored1(s, own, devt), s');
        }
      case Remove(path, kernel, devt, ignoreDevice) =>
        if Get(s, path).Some? {
          RemoveStores(s, path, devt);
          var r := Get(s, path).value;
          if r.ignoreRemove == 0 && !ignoreDevice {
            UpdatesKeepStores(Removed1(s, path, devt), Device(path, r), r.symlinks, s');
            SameIndex(Removed1(s, path, devt), s');
          }
        } else {
          SameIndex(s, s');
        }
    }
  }

  // ---------------------------------------------------------------- what an event does to records and nodes

  /** names lead, link by link, from the first to the last, which is the node of a device. */
  predicate LeadsTo(dev: map<string, FileNode>, names: seq<string>, devt: Devt) {
    && 0 < |names| <= MAX_LINKS + 1
    && (forall i :: 0 <= i < |names| - 1 ==> names[i] in dev && dev[names[i]] == Link(names[i + 1]))
    && names[|names| - 1] in dev && dev[names[|names| - 1]] == Node(devt)
  }

  ghost predicate IsDevice(dev: map<string, FileNode>, name: string, devt: Devt) {
    exists names :: LeadsTo(dev, names, devt) && names[0] == name
  }

  lemma {:induction false} StatFollows(dev: map<string, FileNode>, name: string, limit: nat) returns (names: seq<string>)
    requires Stat(dev, name, limit).Some? && limit <= MAX_LINKS
    ensures LeadsTo(dev, names, Stat(dev, name, limit).value) && names[0] == name && |names| <= limit + 1
    decreases limit
  {
    if dev[name].Node? {
      names := [name];
    } else {
      var rest := StatFollows(dev, dev[name].target, limit - 1);
      names := [name] + rest;
      assert forall i :: 0 < i < |names| ==> names[i] == rest[i - 1];
    }
  }

  lemma {:induction false} FollowedByStat(dev: map<string, FileNode>, names: seq<string>, devt: Devt, limit: nat)
    requires LeadsTo(dev, names, devt) && |names| <= limit + 1
    ensures Stat(dev, names[0], limit) == Some(devt)
    decreases limit
  {
    if |names| > 1 {
      var rest := names[1..];
      assert forall i :: 0 <= i < |rest| ==> rest[i] == names[i + 1];
      FollowedByStat(dev, rest, devt, limit - 1);
    }
  }

  lemma StatMeaning(dev: map<string, FileNode>, name: string, devt: Devt)
    ensures Stat(dev, name, MAX_LINKS) == Some(devt) <==> IsDevice(dev, name, devt)
  {
    if Stat(dev, name, MAX_LINKS) == Some(devt) {
      var names := StatFollows(dev, name, MAX_LINKS);
    }
    if IsDevice(dev, name, devt) {
      var names :| LeadsTo(dev, names, devt) && names[0] == name;
      FollowedByStat(dev, names, devt, MAX_LINKS);
    }
  }

  /** The name is gone if it was a device of that number, or of any number when the number is not
      known; otherwise it is what it was. */
  ghost predicate Unlinked(dev: map<string, FileNode>, name: string, number: Devt, dev': map<string, FileNode>) {
    if exists d :: IsDevice(dev, name, d) && (number == (0, 0) || d == number) then name !in dev'
    else SameAt(dev, dev', name)
  }

  lemma NodeRemovedMeaning(dev: map<string, FileNode>, name: string, number: Devt)
    ensures Unlinked(dev, name, number, NodeRemoved(dev, name, number))
    ensures forall n :: n != name ==> SameAt(dev, NodeRemoved(dev, name, number), n)
  {
    forall d
      ensures Stat(dev, name, MAX_LINKS) == Some(d) <==> IsDevice(dev, name, d)
    {
      StatMeaning(dev, name, d);
    }
    hide Stat, IsDevice;
    var st := Stat(dev, name, MAX_LINKS);
    if st.Some? {
      assert IsDevice(dev, name, st.value);
    }
  }

  /** The entry of a name that is a node, without following links: the common case of Unlinked. */
  lemma NodeUnlinked(dev: map<string, FileNode>, name: string, number: Devt, dev': map<string, FileNode>)
    requires Unlinked(dev, name, number, dev') && name in dev && dev[name].Node?
    ensures name in dev' <==> number != (0, 0) && dev[name].devt != number
    ensures name in dev' ==> dev'[name] == dev[name]
  {
    var d := dev[name].devt;
    assert LeadsTo(dev, [name], d);
    assert IsDevice(dev, name, d);
    forall d' | IsDevice(dev, name, d')
      ensures d' == d
    {
      StatMeaning(dev, name, d');
      StatMeaning(dev, name, d);
    }
  }

  ghost predicate OthersKept(s: Store, path: string, s': Store) {
    forall d :: d != path ==> Get(s', d) == Get(s, d)
  }

  /** Records after an event: the device's own is replaced by the new one (with every field, if
      the file form is needed), or gone after a remove or a failed add; an event that is ignored
      before the database is reached changes nothing; other devices' records stay. */
  ghost predicate RecordsFollow(s: Store, e: Event, s': Store) {
    match e
    case AddOrChange(own, devt, ignoreDevice, mknodOk) =>
      if ignoreDevice || own.rec.name == "" then s' == s
      else
        && OthersKept(s, own.path, s')
        && (!mknodOk ==> Get(s', own.path) == None && s'.dev == s.dev)
        && (mknodOk ==>
              var r := Get(s', own.path);
              && r.Some? && r.value.name == own.rec.name && r.value.symlinks == own.rec.symlinks
              && (own.rec.symlinks != [] || own.rec.env != [] || own.rec.partitions != 0 || own.rec.ignoreRemove != 0 ==>
                    r.value == own.rec))
    case Remove(path, kernel, devt, ignoreDevice) =>
      && OthersKept(s, path, s') && Get(s', path) == None
      && (ignoreDevice || (Get(s, path).Some? && Get(s, path).value.ignoreRemove != 0) ==> s'.dev == s.dev)
  }

  /** No other device has the name as node or link. */
  ghost predicate Unclaimed(s: Store, path: string, n: string) {
    forall d :: d != path ==> !Claimed(s, n, d)
  }

  /** The number a remove knows the device by: the one in its file, or the event's. */
  ghost predicate NumberFor(s: Store, path: string, devt: Devt, number: Devt)
    requires Get(s, path).Some?
  {
    match s.db[Encode(path)]
    case TextFile(_) => number == (Get(s, path).value.major, Get(s, path).value.minor)
    case ShortForm(_) => number == devt
  }

  /** What an add does under a name, where the node name is not one of the device's links. */
  ghost predicate AddedUnder(s: Store, own: Device, devt: Devt, s': Store, n: string) {
    var prev := Get(s, own.path);
    var wasLink := prev.Some? && n in prev.value.symlinks;
    if n in own.rec.symlinks || (n == own.rec.name && wasLink) then true
    else if n == own.rec.name then n in s'.dev && s'.dev[n] == Node(devt)
    else if wasLink || (prev.Some? && n == prev.value.name) then Unclaimed(s, own.path, n) ==> n !in s'.dev
    else SameAt(s.dev, s'.dev, n)
  }

  /** What a remove does under a name, where the node name is not one of the device's links. */
  ghost predicate RemovedUnder(s: Store, path: string, devt: Devt, s': Store, n: string)
    requires Get(s, path).Some?
  {
    var r := Get(s, path).value;
    if n in r.symlinks then Unclaimed(s, path, n) ==> n !in s'.dev
    else if n == r.name then forall number :: NumberFor(s, path, devt, number) ==> Unlinked(s.dev, n, number, s'.dev)
    else SameAt(s.dev, s'.dev, n)
  }

  /** Nodes after an event, where the node name is not the name of a link of the device as well.
      An add leaves the device's node under its name, and takes a node name that the device had
      before away if no device has it. A remove takes the name away if it is the device's node.
      Names that the event does not concern stay. */
  ghost predicate NodesFollow(s: Store, e: Event, s': Store) {
    match e
    case AddOrChange(own, devt, ignoreDevice, mknodOk) =>
      if ignoreDevice || own.rec.name == "" || !mknodOk then s'.dev == s.dev
      else
        forall n :: AddedUnder(s, own, devt, s', n)
    case Remove(path, kernel, devt, ignoreDevice) =>
      var r := Get(s, path);
      if ignoreDevice || (r.Some? && r.value.ignoreRemove != 0) then s'.dev == s.dev
      else if r.None? then
        Unlinked(s.dev, kernel, devt, s'.dev) && forall n :: n != kernel ==> SameAt(s.dev, s'.dev, n)
      else forall n :: RemovedUnder(s, path, devt, s', n)
  }

  lemma NoOtherClaims(s: Store, path: string, s1: Store, n: string)
    requires IndexExact(s1) && WellKeyed(s1) && OthersKept(s, path, s1) && !Claimed(s1, n, path)
    requires Unclaimed(s, path, n)
    ensures Refs(s1, n) == {}
  {
    forall d
      ensures d !in Refs(s1, n)
    {
      RefsAreIndexed(s1, n, d);
      assert Indexed(s1, n, d) <==> Claimed(s1, n, d);
      assert Claimed(s1, n, d) ==> d == path || Claimed(s, n, d);
    }
  }

  lemma AddedRecords(s: Store, own: Device, devt: Devt, s': Store)
    requires IndexExact(s) && WellKeyed(s) && Absolute(own.path) && Keepable(own.rec) && own.rec.name != ""
    requires LinksUpdated(Stored1(s, own, devt), own, Touched(own, Get(s, own.path)), s')
    ensures RecordsFollow(s, AddOrChange(own, devt, false, true), s')
  {
    var s3 := Stored1(s, own, devt);
    AddIndexes(s, own, devt);
    UpdatesKeepStores(s3, own, Touched(own, Get(s, own.path)), s');
    assert forall d :: Get(s', d) == Get(s3, d);
    StoredBack(own.rec);
    hide LinksUpdated, Stored1, IndexExact, WellKeyed, Get, ReadBack, Touched, Print;
  }

  lemma AddedName(s: Store, own: Device, devt: Devt, s': Store, n: string)
    requires IndexExact(s) && WellKeyed(s) && Absolute(own.path) && Keepable(own.rec)
    requires LinksUpdated(Stored1(s, own, devt), own, Touched(own, Get(s, own.path)), s')
    ensures AddedUnder(s, own, devt, s', n)
  {
    var s3, names := Stored1(s, own, devt), Touched(own, Get(s, own.path));
    AddIndexes(s, own, devt);
    StoredBack(own.rec);
    TouchedMeaning(own, Get(s, own.path), n);
    assert Claims(ReadBack(ToStored(own.rec)).value, n) <==> Claims(own.rec, n);
    hide LinksUpdated, Stored1, IndexExact, WellKeyed, ReadBack, Refs, Touched, Get;
    if n !in names {
      OutsideStays(s3, own, names, s', n);
    } else if !Claims(own.rec, n) && Unclaimed(s, own.path, n) {
      assert !Claimed(s3, n, own.path);
      NoOtherClaims(s, own.path, s3, n);
      UnclaimedGoes(s3, own, names, s', n);
    }
  }

  lemma AddedNodes(s: Store, own: Device, devt: Devt, s': Store)
    requires IndexExact(s) && WellKeyed(s) && Absolute(own.path) && Keepable(own.rec) && own.rec.name != ""
    requires LinksUpdated(Stored1(s, own, devt), own, Touched(own, Get(s, own.path)), s')
    ensures NodesFollow(s, AddOrChange(own, devt, false, true), s')
  {
    forall n
      ensures AddedUnder(s, own, devt, s', n)
    {
      AddedName(s, own, devt, s', n);
    }
    hide AddedUnder;
  }

  lemma RemovedRecords(s: Store, path: string, kernel: string, devt: Devt, s': Store)
    requires IndexExact(s) && WellKeyed(s) && Get(s, path).Some? && Get(s, path).value.ignoreRemove == 0
    requires var r := Get(s, path).value; LinksUpdated(Removed1(s, path, devt), Device(path, r), r.symlinks, s')
    ensures RecordsFollow(s, Remove(path, kernel, devt, false), s')
  {
    var r, s2 := Get(s, path).value, Removed1(s, path, devt);
    RemoveStores(s, path, devt);
    UpdatesKeepStores(s2, Device(path, r), r.symlinks, s');
    assert forall d :: Get(s', d) == Get(s2, d);
    hide LinksUpdated, Removed1, IndexExact, WellKeyed, Get;
  }

  lemma RemovedName(s: Store, path: string, devt: Devt, s': Store, n: string)
    requires IndexExact(s) && WellKeyed(s) && Get(s, path).Some?
    requires var r := Get(s, path).value; LinksUpdated(Removed1(s, path, devt), Device(path, r), r.symlinks, s')
    ensures RemovedUnder(s, path, devt, s', n)
  {
    var r, s2 := Get(s, path).value, Removed1(s, path, devt);
    RemoveStores(s, path, devt);
    RemovedNode(s, path, devt);
    hide LinksUpdated, Removed1, IndexExact, WellKeyed, Refs, IsDevice, NumberFor, Get;
    if n !in r.symlinks {
      OutsideStays(s2, Device(path, r), r.symlinks, s', n);
    } else if Unclaimed(s, path, n) {
      assert !Claimed(s2, n, path);
      NoOtherClaims(s, path, s2, n);
      UnclaimedGoes(s2, Device(path, r), r.symlinks, s', n);
    }
  }

  lemma RemovedNodes(s: Store, path: string, kernel: string, devt: Devt, s': Store)
    requires IndexExact(s) && WellKeyed(s) && Get(s, path).Some? && Get(s, path).value.ignoreRemove == 0
    requires var r := Get(s, path).value; LinksUpdated(Removed1(s, path, devt), Device(path, r), r.symlinks, s')
    ensures NodesFollow(s, Remove(path, kernel, devt, false), s')
  {
    forall n
      ensures RemovedUnder(s, path, devt, s', n)
    {
      RemovedName(s, path, devt, s', n);
    }
    hide RemovedUnder;
  }

  lemma RemovedNode(s: Store, path: string, devt: Devt)
    requires Get(s, path).Some?
    ensures var s2, name := Removed1(s, path, devt), Get(s, path).value.name;
            forall number :: NumberFor(s, path, devt, number) ==> Unlinked(s.dev, name, number, s2.dev)
  {
    var r := Get(s, path).value;
    NodeRemovedMeaning(s.dev, r.name, RemovedDevt(s, path, devt));
    hide NodeRemoved, Unlinked;
    forall number | NumberFor(s, path, devt, number)
      ensures number == RemovedDevt(s, path, devt)
    {
    }
  }

  /** What an event does to records and nodes, from every store with an exact index and whatever
      the names are: suppressed and failing events included. */
  lemma EventMeans(s: Store, e: Event, s': Store)
    requires IndexExact(s) && WellKeyed(s) && Storing(e) && EventStep(s, e, s')
    ensures RecordsFollow(s, e, s') && NodesFollow(s, e, s')
  {
    hide LinksUpdated, Keepable;
    match e {
      case AddOrChange(own, devt, ignoreDevice, mknodOk) =>
        var prev := Get(s, own.path);
        if !ignoreDevice && own.rec.name != "" {
          if mknodOk {
            AddedRecords(s, own, devt, s');
            AddedNodes(s, own, devt, s');
            hide RecordsFollow, NodesFollow;
          } else if prev.Some? {
            DeleteKeepsIndex(s, Device(own.path, prev.value));
          }
        }
        hide Stored1, Touched;
      case Remove(path, kernel, devt, ignoreDevice) =>
        if Get(s, path).Some? {
          DeleteKeepsIndex(s, Device(path, Get(s, path).value));
          if Get(s, path).value.ignoreRemove == 0 && !ignoreDevice {
            RemovedRecords(s, path, kernel, devt, s');
            RemovedNodes(s, path, kernel, devt, s');
            hide RecordsFollow, NodesFollow;
          }
        } else {
          NodeRemovedMeaning(s.dev, kernel, devt);
          assert forall d :: Get(s', d) == Get(s, d);
        }
        hide Removed1, NodeRemoved, Unlinked;
    }
    hide Get, IndexExact, WellKeyed, Stored1, Touched;
  }

  lemma SoleClaimantIsBest(s: Store, own: Device, link: string)
    requires IndexExact(s) && WellKeyed(s)
    requires forall d :: Claimed(s, link, d) <==> d == own.path
    ensures Refs(s, link) == {own.path}
    ensures forall t :: Best(s, own, Refs(s, link), t) ==> t == own.rec.name
  {
    forall d
      ensures d in Refs(s, link) <==> d == own.path
    {
      RefsAreIndexed(s, link, d);
      assert Indexed(s, link, d) <==> Claimed(s, link, d);
    }
    hide IndexExact, WellKeyed, Refs, Get;
  }

  lemma AddClaims(s: Store, own: Device, devt: Devt, n: string, d: string)
    requires IndexExact(s) && WellKeyed(s) && Absolute(own.path) && Keepable(own.rec)
    ensures Claimed(Stored1(s, own, devt), n, d) <==> if d == own.path then Claims(own.rec, n) else Claimed(s, n, d)
  {
    AddIndexes(s, own, devt);
    StoredBack(own.rec);
    hide IndexExact, WellKeyed, Stored1, Get, ReadBack, ToStored;
  }

  /** The node of another device stays where the device of an add wants a link. */
  lemma AddSparesNode(s: Store, own: Device, devt: Devt, s': Store, l: string)
    requires IndexExact(s) && WellKeyed(s) && Absolute(own.path) && Keepable(own.rec)
    requires LinksUpdated(Stored1(s, own, devt), own, Touched(own, Get(s, own.path)), s')
    requires own.rec.name !in own.rec.symlinks
    requires Get(s, own.path).Some? ==> own.rec.name !in Get(s, own.path).value.symlinks
    requires l in own.rec.symlinks && Unclaimed(s, own.path, l)
    requires l in s.dev && s.dev[l].Node? && s.dev[l].devt != devt
    ensures SameAt(s.dev, s'.dev, l)
  {
    var s3, names := Stored1(s, own, devt), Touched(own, Get(s, own.path));
    AddIndexes(s, own, devt);
    TouchedMeaning(own, Get(s, own.path), own.rec.name);
    hide LinksUpdated, Stored1, Touched, IndexExact, WellKeyed, Refs, Get, Best;
    forall d
      ensures Claimed(s3, l, d) <==> d == own.path
    {
      AddClaims(s, own, devt, l, d);
    }
    hide Claimed, Unclaimed;
    SoleClaimSpares(s3, own, names, s', l);
  }

  lemma SoleClaimSpares(s: Store, own: Device, names: seq<string>, s': Store, l: string)
    requires IndexExact(s) && WellKeyed(s) && LinksUpdated(s, own, names, s')
    requires forall d :: Claimed(s, l, d) <==> d == own.path
    requires own.rec.name !in names && own.rec.name in s.dev && l in s.dev && s.dev[l].Node?
    requires s.dev[own.rec.name] != s.dev[l]
    ensures SameAt(s.dev, s'.dev, l)
  {
    SoleClaimantIsBest(s, own, l);
    hide IndexExact, WellKeyed, Refs, Get, Best, LinksUpdated, Claimed;
    assert Foreign(s, own, names, l);
    ForeignNodeStays(s, own, names, s', l);
  }

  /** After any sequence of events at all, a device is listed under a name exactly when its record
      has that name as node or link. */
  lemma {:induction false} IndexIsInverse(states: seq<Store>, events: seq<Event>)
    requires |states| == |events| + 1 && states[0] == Store(map[], {}, map[])
    requires forall i :: 0 <= i < |events| ==> Storing(events[i]) && EventStep(states[i], events[i], states[i + 1])
    ensures var s := states[|events|];
            && IndexExact(s) && WellKeyed(s)
            && forall name, path :: path in Refs(s, name) <==> Claimed(s, name, path)
    decreases |events|
  {
    hide EventStep, Storing;
    var n := |events|;
    var s := states[n];
    if n == 0 {
      EmptyAgrees(_ => true);
    } else {
      IndexIsInverse(states[..n], events[..n - 1]);
      IndexKept(states[n - 1], events[n - 1], s);
    }
    forall name, path
      ensures path in Refs(s, name) <==> Claimed(s, name, path)
    {
      RefsAreIndexed(s, name, path);
      assert Indexed(s, name, path) <==> Claimed(s, name, path);
    }
  }

  lemma EmptyAgrees(isNode: string -> bool)
    ensures Inv(Store(map[], {}, map[]), isNode)
  {
  }
}
