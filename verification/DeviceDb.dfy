/** The event handler over the three stores, updated step by step: database files and index
    entries written and removed, links decided by a loop over the devices that a directory
    listing returns in any order. Proved to take the steps of DeviceDbModel. */
module DeviceDb {
  import opened Basics
  import opened DbRecord
  import opened PathCoding
  import opened DeviceDbModel

  function Items(list: seq<string>): set<string> {
    set x | x in list
  }

  lemma ItemsGrow(list: seq<string>, i: nat)
    requires i < |list|
    ensures Items(list[..i + 1]) == Items(list[..i]) + {list[i]}
  {
    assert list[..i + 1] == list[..i] + [list[i]];
  }

  function Entries(path: string, names: seq<string>): set<(string, string)> {
    set n | n in names :: IndexEntry(n, path)
  }

  lemma EntriesGrow(path: string, names: seq<string>, i: nat)
    requires i < |names|
    ensures Entries(path, names[..i + 1]) == Entries(path, names[..i]) + {IndexEntry(names[i], path)}
  {
    assert names[..i + 1] == names[..i] + [names[i]];
  }

  lemma EntriesOfSplit(path: string, r: Record)
    ensures EntriesOf(path, r) == Entries(path, r.symlinks) + {IndexEntry(r.name, path)}
  {
    assert forall n :: n in NamesOf(r) <==> n == r.name || n in r.symlinks;
  }

  /** A record that can be read has a node name. */
  lemma ReadHasName(st: Stored)
    ensures ReadBack(st).Some? ==> ReadBack(st).value.name != ""
  {
  }

  /** Node and priority chosen after the devices of list have been looked at. */
  ghost predicate Chosen(s: Store, own: Device, list: seq<string>, target: string, priority: int) {
    if list == [] then target == ""
    else
      && target != ""
      && (exists d :: d in list && NodeOf(s, own, d) == target && PriorityOf(s, own, d) == priority)
      && (forall d :: d in list ==> PriorityOf(s, own, d) <= priority)
      && (own.path in list && own.rec.priority == priority ==> target == own.rec.name)
  }

  lemma ChosenNext(s: Store, own: Device, list: seq<string>, d: string, target: string, priority: int,
                   target': string, priority': int)
    requires Chosen(s, own, list, target, priority)
    requires NodeOf(s, own, d) != "" && own.rec.name != ""
    requires var wins := target == "" ||
               (if d == own.path then own.rec.priority >= priority else PriorityOf(s, own, d) > priority);
             if wins then target' == NodeOf(s, own, d) && priority' == PriorityOf(s, own, d)
             else target' == target && priority' == priority
    ensures Chosen(s, own, list + [d], target', priority')
  {
    assert forall x :: x in list + [d] <==> x in list || x == d;
    assert d in list + [d];
  }

  lemma ChosenIsBest(s: Store, own: Device, list: seq<string>, target: string, priority: int)
    requires Chosen(s, own, list, target, priority) && list != []
    ensures Best(s, own, Items(list), target)
  {
    var d :| d in list && NodeOf(s, own, d) == target && PriorityOf(s, own, d) == priority;
    assert d in Items(list);
    assert forall x :: x in Items(list) <==> x in list;
    if own.path in Items(list) && forall d' :: d' in Items(list) ==> PriorityOf(s, own, d') <= own.rec.priority {
      assert PriorityOf(s, own, d) <= own.rec.priority;
      assert PriorityOf(s, own, own.path) <= priority;
    }
  }

  /** One more update at the end of a list of them. */
  lemma UpdatedNext(s: Store, own: Device, names: seq<string>, s1: Store, n: string, s2: Store)
    requires LinksUpdated(s, own, names, s1) && OneUpdated(s1, own, n, s2)
    ensures LinksUpdated(s, own, names + [n], s2)
  {
    var more := names + [n];
    assert more[..|more| - 1] == names && more[|more| - 1] == n;
    assert LinksUpdated(s, own, more[..|more| - 1], s1) && OneUpdated(s1, own, n, s2);
  }

  lemma NothingUpdated(s: Store, own: Device)
    ensures LinksUpdated(s, own, [], s)
  {
  }

  lemma LeftOverNext(olds: seq<string>, news: seq<string>, i: nat)
    requires i < |olds|
    ensures LeftOver(olds[..i + 1], news) == LeftOver(olds[..i], news) + (if olds[i] in news then [] else [olds[i]])
  {
    assert olds[..i + 1][..i] == olds[..i];
  }

  class Devices {
    var db: map<string, Stored>
    var index: set<(string, string)>
    var dev: map<string, FileNode>

    ghost function State(): Store
      reads this
    {
      Store(db, index, dev)
    }

    constructor ()
      ensures State() == Store(map[], {}, map[])
    {
      db, index, dev := map[], {}, map[];
    }

    method NameIndex(path: string, name: string, add: bool)
      modifies this`index
      ensures index == if add then old(index) + {IndexEntry(name, path)} else old(index) - {IndexEntry(name, path)}
    {
      if add {
        index := index + {IndexEntry(name, path)};
      } else {
        index := index - {IndexEntry(name, path)};
      }
    }

    /** The devices indexed under a name, in the order the directory happens to have. */
    method GetDevicesByName(name: string) returns (list: seq<string>)
      ensures Items(list) == Refs(State(), name)
    {
      list := [];
      var todo := set e | e in index && e.0 == Encode(name);
      ghost var all := todo;
      assert Refs(State(), name) == set e | e in all && e.1 != "" && e.1[0] != '.' :: Decode(e.1);
      while todo != {}
        invariant todo <= all
        invariant Items(list) == set e | e in all - todo && e.1 != "" && e.1[0] != '.' :: Decode(e.1)
        decreases todo
      {
        ghost var done := all - todo;
        var e :| e in todo;
        todo := todo - {e};
        assert all - todo == done + {e};
        if e.1 != "" && e.1[0] != '.' {
          ghost var before := list;
          list := AddToList(list, Decode(e.1));
          assert Items(list) == Items(before) + {Decode(e.1)};
        }
      }
    }

    method AddLinks(path: string, links: seq<string>)
      modifies this`index
      ensures index == old(index) + Entries(path, links)
    {
      var i := 0;
      while i < |links|
        invariant i <= |links| && index == old(index) + Entries(path, links[..i])
      {
        EntriesGrow(path, links, i);
        NameIndex(path, links[i], true);
        i := i + 1;
      }
      assert links[..i] == links;
    }

    method AddDevice(own: Device)
      modifies this`db, this`index
      ensures State() == DbAdd(old(State()), own)
    {
      hide Print;
      var r := own.rec;
      if r.symlinks == [] && r.env == [] && r.partitions == 0 && r.ignoreRemove == 0 {
        db := db[Encode(own.path) := ShortForm(r.name)];
      } else {
        var text := PrintRecord(r);
        db := db[Encode(own.path) := TextFile(text)];
        AddLinks(own.path, r.symlinks);
      }
      EntriesOfSplit(own.path, r);
      NameIndex(own.path, r.name, true);
    }

    method GetDevice(path: string) returns (r: Option<Record>)
      ensures r == Get(State(), path)
    {
      var f := Encode(path);
      if f !in db {
        return None;
      }
      match db[f] {
        case ShortForm(target) =>
          if target == "" {
            return None;
          }
          var n := |target|;
          if n > NAME_SIZE {
            n := NAME_SIZE;
          }
          assert n == if |target| < NAME_SIZE then |target| else NAME_SIZE;
          return Some(EMPTY.(name := target[..n]));
        case TextFile(text) =>
          r := ReadRecord(text);
      }
    }

    method DeleteDevice(own: Device)
      modifies this`db, this`index
      ensures State() == DbDelete(old(State()), own)
    {
      var r := own.rec;
      db := db - {Encode(own.path)};
      NameIndex(own.path, r.name, false);
      var i := 0;
      while i < |r.symlinks|
        invariant i <= |r.symlinks| && db == old(db) - {Encode(own.path)}
        invariant index == old(index) - {IndexEntry(r.name, own.path)} - Entries(own.path, r.symlinks[..i])
      {
        EntriesGrow(own.path, r.symlinks, i);
        NameIndex(own.path, r.symlinks[i], false);
        i := i + 1;
      }
      assert r.symlinks[..i] == r.symlinks;
      EntriesOfSplit(own.path, r);
    }

    method MakeLink(node: string, slink: string)
      modifies this`dev
      ensures dev == NodeSymlink(old(dev), node, slink)
    {
      if slink in dev && dev[slink].Node? {
        if node in dev && dev[node] != dev[slink] {
          return;
        }
      } else if slink in dev && dev[slink] == Link(node) {
        assert dev[slink := Link(node)] == dev;
        return;
      }
      dev := dev[slink := Link(node)];
    }

    method UpdateLink(own: Device, name: string)
      requires own.rec.name != ""
      requires IndexExact(State()) && WellKeyed(State())
      modifies this`dev
      ensures LinkUpdated(old(State()), own, name, dev)
    {
      ghost var s := State();
      var list := GetDevicesByName(name);
      if |list| == 0 {
        assert Items(list) == {};
        dev := dev - {name};
        return;
      }
      assert list[0] in Items(list);
      var target, priority := "", 0;
      var i := 0;
      while i < |list|
        invariant i <= |list| && State() == s && Chosen(s, own, list[..i], target, priority)
      {
        ghost var target0, priority0 := target, priority;
        assert list[..i + 1] == list[..i] + [list[i]];
        var d := list[i];
        if own.path == d {
          if target == "" || own.rec.priority >= priority {
            priority, target := own.rec.priority, own.rec.name;
          }
        } else {
          var other := GetDevice(d);
          IndexedIsKnown(s, name, d, list);
          if other.Some? {
            if target == "" || other.value.priority > priority {
              priority, target := other.value.priority, other.value.name;
            }
          }
        }
        ChosenNext(s, own, list[..i], d, target0, priority0, target, priority);
        i := i + 1;
      }
      assert list[..i] == list;
      ChosenIsBest(s, own, list, target, priority);
      MakeLink(target, name);
    }

    method NodeAdd(name: string, devt: Devt)
      modifies this`dev
      ensures dev == old(dev)[name := Node(devt)]
    {
      if name in dev && dev[name] == Node(devt) {
        assert dev[name := Node(devt)] == dev;
        return;
      }
      dev := dev[name := Node(devt)];
    }

    method NodeRemove(name: string, devt: Devt) returns (ok: bool)
      modifies this`dev
      ensures dev == NodeRemoved(old(dev), name, devt)
      ensures ok <==> name in old(dev) && name !in dev
      ensures Unlinked(old(dev), name, devt, dev) && forall n :: n != name ==> SameAt(old(dev), dev, n)
    {
      NodeRemovedMeaning(dev, name, devt);
      var st := Stat(dev, name, MAX_LINKS);
      if st.None? {
        return false;
      }
      if devt != (0, 0) && st.value != devt {
        return false;
      }
      dev := dev - {name};
      return true;
    }

    /** udev_node_update_symlinks: the links of the device, then the ones it used to have, then
        its former node name. */
    method UpdateSymlinks(own: Device, prev: Option<Record>)
      requires own.rec.name != "" && IndexExact(State()) && WellKeyed(State())
      modifies this`dev
      ensures LinksUpdated(old(State()), own, Touched(own, prev), State())
    {
      hide LinkUpdated, IndexExact, WellKeyed, LinksUpdated;
      ghost var s := State();
      UpdateOwn(own);
      if prev.None? {
        assert own.rec.symlinks + [] == own.rec.symlinks;
        return;
      }
      ghost var left := LeftOver(prev.value.symlinks, own.rec.symlinks);
      UpdateFormer(own, prev.value.symlinks, s);
      if own.rec.name != prev.value.name {
        UpdateOne(own, prev.value.name, s, own.rec.symlinks + left);
        assert own.rec.symlinks + left + [prev.value.name] == own.rec.symlinks + (left + [prev.value.name]);
      } else {
        assert own.rec.symlinks + left == own.rec.symlinks + (left + []);
      }
    }

    /** The first loop: the links the device has now. */
    method UpdateOwn(own: Device)
      requires own.rec.name != "" && IndexExact(State()) && WellKeyed(State())
      modifies this`dev
      ensures LinksUpdated(old(State()), own, own.rec.symlinks, State())
      ensures IndexExact(State()) && WellKeyed(State())
    {
      hide LinkUpdated, IndexExact, WellKeyed, LinksUpdated;
      ghost var s, links := State(), own.rec.symlinks;
      NothingUpdated(s, own);
      var i := 0;
      assert links[..0] == [];
      while i < |own.rec.symlinks|
        invariant i <= |own.rec.symlinks|
        invariant IndexExact(State()) && WellKeyed(State()) && LinksUpdated(s, own, links[..i], State())
      {
        UpdateOne(own, own.rec.symlinks[i], s, links[..i]);
        assert links[..i + 1] == links[..i] + [links[i]];
        i := i + 1;
      }
      assert links[..i] == links;
    }

    /** The second loop: the links it had before and has no more. */
    method UpdateFormer(own: Device, olds: seq<string>, ghost s: Store)
      requires own.rec.name != "" && IndexExact(State()) && WellKeyed(State())
      requires LinksUpdated(s, own, own.rec.symlinks, State())
      modifies this`dev
      ensures LinksUpdated(s, own, own.rec.symlinks + LeftOver(olds, own.rec.symlinks), State())
      ensures IndexExact(State()) && WellKeyed(State())
    {
      hide LinkUpdated, IndexExact, WellKeyed, LinksUpdated;
      ghost var news := own.rec.symlinks;
      var i := 0;
      assert news + LeftOver(olds[..0], news) == news;
      while i < |olds|
        invariant i <= |olds|
        invariant IndexExact(State()) && WellKeyed(State())
        invariant LinksUpdated(s, own, news + LeftOver(olds[..i], news), State())
      {
        var found := Find(own.rec.symlinks, olds[i]);
        LeftOverNext(olds, news, i);
        ghost var done := news + LeftOver(olds[..i], news);
        if !found {
          UpdateOne(own, olds[i], s, done);
          assert done + [olds[i]] == news + LeftOver(olds[..i + 1], news);
        } else {
          assert done == news + LeftOver(olds[..i + 1], news);
        }
        i := i + 1;
      }
      assert olds[..i] == olds;
    }

    method Find(list: seq<string>, name: string) returns (found: bool)
      ensures found <==> name in list
    {
      var i := 0;
      while i < |list|
        invariant i <= |list| && name !in list[..i]
      {
        if list[i] == name {
          return true;
        }
        i := i + 1;
      }
      return false;
    }

    /** One update, after those of a list of names. */
    method UpdateOne(own: Device, n: string, ghost s: Store, ghost names: seq<string>)
      requires own.rec.name != "" && IndexExact(State()) && WellKeyed(State())
      requires LinksUpdated(s, own, names, State())
      modifies this`dev
      ensures LinksUpdated(s, own, names + [n], State())
      ensures IndexExact(State()) && WellKeyed(State())
    {
      hide LinksUpdated, IndexExact, WellKeyed, LinkUpdated;
      ghost var s1 := State();
      UpdateLink(own, n);
      UpdatedNext(s, own, names, s1, n, State());
      SameIndex(s1, State());
    }

    /** udev_device_event, for a device with a major number; what the rules decided, and whether
        the node could be made, comes with the event. Nothing is asked about the names. */
    method DeviceEvent(e: Event)
      requires IndexExact(State()) && WellKeyed(State()) && Storing(e)
      modifies this
      ensures EventStep(old(State()), e, State())
      ensures RecordsFollow(old(State()), e, State()) && NodesFollow(old(State()), e, State())
      ensures IndexExact(State()) && WellKeyed(State())
    {
      ghost var s := State();
      hide IndexExact, WellKeyed;
      match e {
        case AddOrChange(own, devt, ignoreDevice, mknodOk) =>
          if !ignoreDevice && own.rec.name != "" {
            HandleAdd(own, devt, mknodOk);
          }
        case Remove(path, kernel, devt, ignoreDevice) =>
          var r := GetDevice(path);
          if r.Some? {
            HandleRemove(path, r.value, devt, ignoreDevice);
          } else if !ignoreDevice {
            var ok := NodeRemove(kernel, devt);
          }
      }
      IndexKept(s, e, State());
      EventMeans(s, e, State());
      hide RecordsFollow, NodesFollow, EventStep;
    }

    method HandleAdd(own: Device, devt: Devt, mknodOk: bool)
      requires IndexExact(State()) && WellKeyed(State()) && Storing(AddOrChange(own, devt, false, mknodOk))
      requires own.rec.name != ""
      modifies this
      ensures EventStep(old(State()), AddOrChange(own, devt, false, mknodOk), State())
    {
      ghost var s := State();
      hide IndexExact, WellKeyed, Keepable, LinksUpdated, Touched;
      var prev := GetDevice(own.path);
      if prev.Some? {
        DeleteDevice(Device(own.path, prev.value));
      }
      if !mknodOk {
        return;
      }
      AddIndexes(s, own, devt);
      NodeAdd(own.rec.name, devt);
      AddDevice(own);
      assert State() == Stored1(s, own, devt);
      UpdateSymlinks(own, prev);
    }

    method HandleRemove(path: string, r: Record, devt: Devt, ignoreDevice: bool)
      requires IndexExact(State()) && WellKeyed(State()) && Get(State(), path) == Some(r)
      modifies this
      ensures EventStep(old(State()), Remove(path, "", devt, ignoreDevice), State())
    {
      ghost var s := State();
      var own := Device(path, r);
      var devt' := if db[Encode(path)].TextFile? then (r.major, r.minor) else devt;
      ReadHasName(s.db[Encode(path)]);
      DeleteDevice(own);
      if r.ignoreRemove != 0 || ignoreDevice {
        return;
      }
      RemoveStores(s, path, devt);
      var ok := NodeRemove(r.name, devt');
      assert State() == Removed1(s, path, devt);
      assert Touched(own, None) == r.symlinks;
      UpdateSymlinks(own, None);
    }
  }

  /** A device the listing returns has a record with a node name. */
  lemma IndexedIsKnown(s: Store, name: string, d: string, list: seq<string>)
    requires IndexExact(s) && WellKeyed(s) && Items(list) == Refs(s, name) && d in list
    ensures Get(s, d).Some? && Get(s, d).value.name != ""
  {
    assert d in Items(list);
    RefsAreIndexed(s, name, d);
    assert Indexed(s, name, d) <==> Claimed(s, name, d);
    ReadHasName(s.db[Encode(d)]);
  }
}
