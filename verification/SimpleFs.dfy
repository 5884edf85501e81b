/** The driver itself: superblock fields, inode store and data blocks changed in place by
    scanning loops. Each operation is proved to compute the function of SimpleFsModel that the
    theorems there are about. The in-memory inode a VFS inode carries is passed as a value: it
    equals its slot of the store, because every change is written through. */
module SimpleFs {
  import opened Basics
  import opened SimpleFsModel

  class Disk {
    var count: nat
    var free: array<bool>
    var store: array<Inode>
    var blocks: array<Block>

    ghost predicate Valid()
      reads this, free, store, blocks
    {
      Shape(State())
    }

    ghost function State(): Fs
      reads this, free, store, blocks
    {
      Fs(count, free[..], store[..], blocks[..])
    }

    /** simplefs_inode_search, for a live or just deleted inode. */
    method SearchInode(search: Inode) returns (r: Option<nat>)
      requires Valid()
      ensures r == InodeSearch(store[..], Identity(search), count, 0)
    {
      var tmp := search.no;
      if tmp == 0 {
        tmp := search.deadNo;
      }
      var start, n := 0, 0;
      while store[start].no != tmp && n < count
        invariant n == start <= count
        decreases count - n
        invariant InodeSearch(store[..], tmp, count, 0) == InodeSearch(store[..], tmp, count, start)
      {
        n := n + 1;
        start := start + 1;
      }
      if store[start].no == tmp {
        return Some(start);
      }
      return None;
    }

    method GetDeadInodeNo() returns (found: bool, no: nat, block: nat)
      requires Valid()
      ensures var d := FindDead(store[..], count, 0);
              found == (d < count) && (found ==> no == store[d].deadNo && block == store[d].block)
    {
      found, no, block := false, 0, 0;
      var i := 0;
      while i < count
        invariant i <= count && !found
        invariant FindDead(store[..], count, 0) == FindDead(store[..], count, i)
      {
        if store[i].no == 0 {
          no, block, found := store[i].deadNo, store[i].block, true;
          break;
        }
        i := i + 1;
      }
    }

    method InodeAdd(inode: Inode, exist: bool)
      requires Valid() && (!exist ==> count < MAX_OBJECTS)
      modifies this`count, store
      ensures Valid()
      ensures exist ==>
                var d := FindDeadNo(old(store[..]), count, inode.no, 0);
                count == old(count) && store[..] == if d < count then old(store[..])[d := inode] else old(store[..])
      ensures !exist ==> count == old(count) + 1 && store[..] == old(store[..])[old(count) := inode]
    {
      if exist {
        var i := 0;
        while i < count
          invariant i <= count && store[..] == old(store[..])
          invariant FindDeadNo(store[..], count, inode.no, 0) == FindDeadNo(store[..], count, inode.no, i)
        {
          if store[i].no == 0 && store[i].deadNo == inode.no {
            store[i] := inode;
            break;
          }
          i := i + 1;
        }
      } else {
        store[count] := inode;
        count := count + 1;
      }
    }

    method GetAFreeblock() returns (r: Option<nat>)
      requires Valid()
      modifies free
      ensures Valid()
      ensures var b := FirstFree(old(free[..]), 3);
              if b == MAX_OBJECTS then r == None && free[..] == old(free[..])
              else r == Some(b) && free[..] == old(free[..])[b := false]
    {
      var i := 3;
      while i < MAX_OBJECTS
        invariant 3 <= i <= MAX_OBJECTS && free[..] == old(free[..])
        invariant FirstFree(free[..], 3) == FirstFree(free[..], i)
      {
        if free[i] {
          break;
        }
        i := i + 1;
      }
      if i == MAX_OBJECTS {
        return None;
      }
      free[i] := false;
      return Some(i);
    }

    method GetInode(no: nat) returns (r: Option<Inode>)
      requires Valid()
      ensures r.Some? ==> exists i :: 0 <= i < count && store[i].no == no && r.value == store[i] &&
                                      forall j :: 0 <= j < i ==> store[j].no != no
      ensures r.None? ==> forall j :: 0 <= j < count ==> store[j].no != no
    {
      var i := 0;
      while i < count
        invariant i <= count && forall j :: 0 <= j < i ==> store[j].no != no
      {
        if store[i].no == no {
          return Some(store[i]);
        }
        i := i + 1;
      }
      return None;
    }

    method InodeSave(inode: Inode) returns (ok: bool)
      requires Valid()
      modifies store
      ensures Valid()
      ensures var r := InodeSearch(old(store[..]), Identity(inode), count, 0);
              ok == r.Some? &&
              store[..] == if r.Some? then old(store[..])[r.value := inode] else old(store[..])
    {
      var r := SearchInode(inode);
      if r.None? {
        return false;
      }
      store[r.value] := inode;
      return true;
    }

    method FindRecordNo(block: nat, n: nat, no: nat) returns (k: nat)
      requires Valid() && block < BLOCKS && n <= SLOTS
      ensures k == FindRecord(blocks[block].records, n, no, 0)
    {
      assert BlockShape(State().blocks[block]);
      k := 0;
      while k < n
        invariant k <= n
        invariant FindRecord(blocks[block].records, n, no, 0) == FindRecord(blocks[block].records, n, no, k)
      {
        if blocks[block].records[k].no == no {
          break;
        }
        k := k + 1;
      }
    }

    method SetRecord(block: nat, k: nat, r: Record, junk: Junk)
      requires Valid() && block < BLOCKS && k < SLOTS && JunkShape(junk)
      requires k < |blocks[block].records|
      modifies blocks
      ensures Valid()
      ensures blocks[..] == old(blocks[..])[block := PutRecord(old(blocks[block]), k, r, junk)]
    {
      ghost var fs := State();
      assert BlockShape(fs.blocks[block]);
      blocks[block] := Block(blocks[block].records[k := r], junk.bytes);
      assert State().blocks == fs.blocks[block := PutRecord(fs.blocks[block], k, r, junk)];
      assert forall b :: 0 <= b < BLOCKS && b != block ==> State().blocks[b] == fs.blocks[b];
    }

    /** simplefs_create_fs_object: parent is the in-memory inode of the directory. */
    method CreateFsObject(dir: nat, parent: Inode, name: string, mode: Mode, junk: Junk)
      returns (r: CreateResult)
      requires Valid() && Inv(State()) && IsDir(State(), dir) && HasRoom(State(), dir) && JunkShape(junk)
      requires parent == store[SlotOf(dir)]
      modifies this`count, free, store, blocks
      ensures Valid()
      ensures r == Create(old(State()), dir, name, mode, junk)
      ensures State() == if r.Created? then r.fs else old(State())
    {
      ghost var fs := State();
      ghost var p := SlotOf(dir);
      assert parent.block == p + 2 && parent.size <= SLOTS && Identity(parent) == SlotNo(p) == parent.no;
      assert BlockShape(fs.blocks[p + 2]);
      if count >= MAX_OBJECTS {
        return NoSpace;
      }
      if mode.format == OTHER {
        return InvalidMode;
      }
      var no := count + START_INO - RESERVED_INODES + 1;
      var exist, deadNo, deadBlock := GetDeadInodeNo();
      if exist {
        ReuseInode(dir, parent, name, mode, deadNo, deadBlock, junk);
        r := Created(deadNo, Fs(count, free[..], store[..], blocks[..]));
      } else {
        var b := GetAFreeblock();
        if b.None? {
          return NoSpace;
        }
        NewInode(dir, parent, name, Inode(mode, no, junk.deadNo, b.value, 0), junk);
        r := Created(no, Fs(count, free[..], store[..], blocks[..]));
      }
    }

    /** The part for a deleted inode: its number and block come back, and the name goes into a
        freed record of the directory, or behind the last one. */
    method ReuseInode(dir: nat, parent: Inode, name: string, mode: Mode, deadNo: nat, deadBlock: nat, junk: Junk)
      requires Valid() && Inv(State()) && IsDir(State(), dir) && HasRoom(State(), dir) && JunkShape(junk)
      requires parent == store[SlotOf(dir)] && mode.format != OTHER && count < MAX_OBJECTS
      requires var d := NewSlot(State()); d < count && deadNo == store[d].deadNo && deadBlock == store[d].block
      modifies this`count, store, blocks
      ensures Valid()
      ensures Create(old(State()), dir, name, mode, junk) == Created(deadNo, State())
    {
      ghost var fs := State();
      ghost var p, d := SlotOf(dir), NewSlot(State());
      ReuseFacts(fs, dir);
      assert BlockShape(fs.blocks[p + 2]);
      var samedir := false;
      var z := FindRecordNo(parent.block, parent.size, 0);
      if z < parent.size {
        SetRecord(parent.block, z, Record(name, deadNo), junk);
        samedir := true;
      }
      InodeAdd(Inode(mode, deadNo, junk.deadNo, deadBlock, 0), true);
      if !samedir {
        SetRecord(parent.block, parent.size, Record(name, deadNo), junk);
        var p' := parent.(size := parent.size + 1);
        SavedAt(fs, store[..], count, p, d, store[d]);
        var ok := InodeSave(p');
      }
    }

    /** The part for a fresh inode: the store grows by one slot and the name goes behind the
        last record. */
    method NewInode(dir: nat, parent: Inode, name: string, inode: Inode, junk: Junk)
      requires Valid() && JunkShape(junk) && count < MAX_OBJECTS
      requires parent.block < BLOCKS && parent.size < SLOTS && SlotOf(dir) < count && parent.no != 0
      requires parent == store[SlotOf(dir)] && inode.no != parent.no
      requires forall i :: 0 <= i < count && store[i].no == parent.no ==> i == SlotOf(dir)
      modifies this`count, store, blocks
      ensures Valid()
      ensures count == old(count) + 1 && |old(blocks[..])[parent.block].records| == SLOTS
      ensures store[..] == old(store[..])[old(count) := inode][SlotOf(dir) := parent.(size := parent.size + 1)]
      ensures blocks[..] == old(blocks[..])[parent.block :=
                PutRecord(old(blocks[..])[parent.block], parent.size, Record(name, inode.no), junk)]
    {
      assert BlockShape(State().blocks[parent.block]);
      ghost var p := SlotOf(dir);
      InodeAdd(inode, false);
      SetRecord(parent.block, parent.size, Record(name, inode.no), junk);
      assert store[p].no == parent.no;
      var ok := InodeSave(parent.(size := parent.size + 1));
    }

    method LookupName(dir: nat, parent: Inode, name: string) returns (r: Option<Entry>)
      requires Valid() && Inv(State()) && IsDir(State(), dir) && parent == store[SlotOf(dir)]
      ensures var d := State().store[SlotOf(dir)]; d.block < BLOCKS && d.size <= SLOTS
      ensures r == Lookup(State(), dir, name)
    {
      ghost var p := SlotOf(dir);
      assert BlockShape(State().blocks[p + 2]);
      assert parent == State().store[p] && parent.block == p + 2;
      var k := 0;
      while k < parent.size
        invariant k <= parent.size
        invariant FindName(blocks[parent.block].records, parent.size, name, 0)
               == FindName(blocks[parent.block].records, parent.size, name, k)
      {
        var record := blocks[parent.block].records[k];
        if record.filename == name && record.no != 0 {
          assert Uses(State(), p, k, record.no);
          FindsSlot(State(), SlotOf(record.no));
          var inode := GetInode(record.no);
          return Some(Entry(record.no, inode.value.mode));
        }
        k := k + 1;
      }
      return None;
    }

    /** simplefs_unlink: target is the in-memory inode of the file. */
    method UnlinkFile(dir: nat, parent: Inode, target: Inode, junk: Junk)
      requires Valid() && Inv(State()) && IsDir(State(), dir) && JunkShape(junk)
      requires parent == store[SlotOf(dir)]
      requires LiveNo(State(), target.no) && target == store[SlotOf(target.no)]
      modifies store, blocks
      ensures Valid()
      ensures var d := old(State()).store[SlotOf(dir)]; d.block < BLOCKS && d.size <= SLOTS
      ensures State() == Unlink(old(State()), dir, target.no, junk)
    {
      ghost var fs := State();
      ghost var p := SlotOf(dir);
      assert BlockShape(fs.blocks[p + 2]);
      assert parent == fs.store[p] && parent.block == p + 2;
      FindsSlot(fs, SlotOf(target.no));
      var k := FindRecordNo(parent.block, parent.size, target.no);
      if k < parent.size {
        var dead := target.(deadNo := target.no, no := 0);
        var ok := InodeSave(dead);
        SetRecord(parent.block, k, blocks[parent.block].records[k].(no := 0), junk);
      }
    }

    /** simplefs_write: inode is the in-memory inode of the file. */
    method WriteFile(inode: Inode, pos: nat, data: seq<byte>, junk: Junk)
      requires Valid() && Inv(State()) && IsFile(State(), inode.no) && inode == store[SlotOf(inode.no)]
      requires pos + |data| <= BLOCK_SIZE && JunkShape(junk)
      modifies store, blocks
      ensures Valid()
      ensures old(State()).store[SlotOf(inode.no)].block < BLOCKS
      ensures State() == Write(old(State()), inode.no, pos, data, junk)
    {
      ghost var fs := State();
      ghost var s := SlotOf(inode.no);
      assert inode == fs.store[s] && inode.block == s + 2;
      assert BlockShape(fs.blocks[s + 2]);
      FindsSlot(fs, s);
      var bytes := blocks[inode.block].bytes;
      blocks[inode.block] := Block(junk.records, bytes[..pos] + data + bytes[pos + |data|..]);
      assert State().blocks == fs.blocks[s + 2 := blocks[inode.block]];
      assert forall b :: 0 <= b < BLOCKS && b != s + 2 ==> State().blocks[b] == fs.blocks[b];
      var ok := InodeSave(inode.(size := pos + |data|));
    }
  }

  lemma ReuseFacts(fs: Fs, dir: nat)
    requires Inv(fs) && IsDir(fs, dir) && HasRoom(fs, dir) && NewSlot(fs) < fs.count
    ensures var p, d := SlotOf(dir), NewSlot(fs);
            && p != d && fs.store[p].block == p + 2 && fs.store[p].size <= SLOTS
            && fs.store[d].deadNo == SlotNo(d)
            && FindDeadNo(fs.store, fs.count, SlotNo(d), 0) == d
            && fs.store[p].no == SlotNo(p)
  {
    DeadSlotFound(fs);
  }

  /** With slot d refilled, saving the inode of slot p still finds slot p. */
  lemma SavedAt(fs: Fs, store: seq<Inode>, count: nat, p: nat, d: nat, inode: Inode)
    requires Inv(fs) && count == fs.count && LiveSlot(fs, p) && d < count && d != p
    requires store == fs.store[d := inode] && inode.no == SlotNo(d)
    ensures InodeSearch(store, fs.store[p].no, count, 0) == Some(p)
  {
    var r := InodeSearch(store, fs.store[p].no, count, 0);
    assert store[p].no == SlotNo(p);
    assert r.Some? && r.value <= p;
    SlotNoInjective(d, p);
    SlotNoInjective(r.value, p);
  }
}
