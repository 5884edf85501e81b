/** simplefs: superblock, inode store, directory blocks, and the atomic operations on them
    (simple.c), with the image that mkfs-simplefs.c writes. The operations are functions on the
    state of the disk; SimpleFs.dfy proves that the driver's loops compute them. */
module SimpleFsModel {
  import opened Basics

  const MAX_OBJECTS: nat := 64
  const START_INO: nat := 10
  const RESERVED_INODES: nat := 3
  const ROOTDIR_INO: nat := 1
  const ROOTDIR_BLOCK: nat := 2
  const WELCOME_INO: nat := 2
  const WELCOME_BLOCK: nat := 3
  const FILENAME_MAXLEN: nat := 25
  const BLOCK_SIZE: nat := 4096

  /** sizeof(struct simplefs_inode) and sizeof(struct simplefs_dir_record) are both 40. */
  const SLOTS: nat := 102
  const BLOCKS: nat := 64

  /** From bit 31 on, 1 << i is not a one-bit mask any more. */
  const MASK_LIMIT: nat := 31

  datatype Format = DIRECTORY | REGULAR | OTHER

  datatype Mode = Mode(format: Format, perm: nat)

  /** size is the union of file_size and dir_children_count. */
  datatype Inode = Inode(mode: Mode, no: nat, deadNo: nat, block: nat, size: nat)

  datatype Record = Record(filename: string, no: nat)

  /** A data block, read as directory records or as file bytes. */
  datatype Block = Block(records: seq<Record>, bytes: seq<byte>)

  datatype Fs = Fs(count: nat, free: seq<bool>, store: seq<Inode>, blocks: seq<Block>)

  /** Writing one reading of a block disturbs the other one in a way the model leaves open. */
  datatype Junk = Junk(deadNo: nat, records: seq<Record>, bytes: seq<byte>)

  predicate BlockShape(b: Block) {
    |b.records| == SLOTS && |b.bytes| == BLOCK_SIZE
  }

  predicate JunkShape(j: Junk) {
    |j.records| == SLOTS && |j.bytes| == BLOCK_SIZE
  }

  predicate Shape(fs: Fs) {
    && 2 <= fs.count <= MAX_OBJECTS && |fs.free| == MAX_OBJECTS && |fs.store| == SLOTS && |fs.blocks| == BLOCKS
    && forall b :: 0 <= b < BLOCKS ==> BlockShape(fs.blocks[b])
  }

  // ---------------------------------------------------------------- scans

  /** simplefs_inode_search: also looks at the slot behind the last one. */
  function InodeSearch(store: seq<Inode>, no: nat, count: nat, i: nat): (r: Option<nat>)
    requires i <= count < |store|
    ensures r.Some? ==> i <= r.value <= count && store[r.value].no == no
    ensures r.Some? ==> forall j :: i <= j < r.value ==> store[j].no != no
    ensures r.None? ==> forall j :: i <= j <= count ==> store[j].no != no
    decreases count - i
  {
    if store[i].no == no then Some(i)
    else if i < count then InodeSearch(store, no, count, i + 1)
    else None
  }

  /** The first slot of a deleted inode, or count. */
  function FindDead(store: seq<Inode>, count: nat, i: nat): (r: nat)
    requires i <= count <= |store|
    ensures i <= r <= count && (r < count ==> store[r].no == 0)
    ensures forall j :: i <= j < r ==> store[j].no != 0
    decreases count - i
  {
    if i == count || store[i].no == 0 then i else FindDead(store, count, i + 1)
  }

  /** The slot of the deleted inode that had this number, or count. */
  function FindDeadNo(store: seq<Inode>, count: nat, no: nat, i: nat): (r: nat)
    requires i <= count <= |store|
    ensures i <= r <= count && (r < count ==> store[r].no == 0 && store[r].deadNo == no)
    ensures forall j :: i <= j < r ==> store[j].no != 0 || store[j].deadNo != no
    decreases count - i
  {
    if i == count || (store[i].no == 0 && store[i].deadNo == no) then i
    else FindDeadNo(store, count, no, i + 1)
  }

  /** The first record below n that carries this inode number, or n; 0 finds a freed record. */
  function FindRecord(records: seq<Record>, n: nat, no: nat, i: nat): (r: nat)
    requires i <= n <= |records|
    ensures i <= r <= n && (r < n ==> records[r].no == no)
    ensures forall j :: i <= j < r ==> records[j].no != no
    decreases n - i
  {
    if i == n || records[i].no == no then i else FindRecord(records, n, no, i + 1)
  }

  /** The first record below n in use under this name, or n. */
  function FindName(records: seq<Record>, n: nat, name: string, i: nat): (r: nat)
    requires i <= n <= |records|
    ensures i <= r <= n && (r < n ==> records[r].filename == name && records[r].no != 0)
    ensures forall j :: i <= j < r ==> records[j].filename != name || records[j].no == 0
    decreases n - i
  {
    if i == n || (records[i].filename == name && records[i].no != 0) then i
    else FindName(records, n, name, i + 1)
  }

  /** The first free block from i on, or MAX_OBJECTS. */
  function FirstFree(free: seq<bool>, i: nat): (r: nat)
    requires i <= |free| == MAX_OBJECTS
    ensures i <= r <= MAX_OBJECTS && (r < MAX_OBJECTS ==> free[r])
    ensures forall j :: i <= j < r ==> !free[j]
    decreases MAX_OBJECTS - i
  {
    if i == MAX_OBJECTS || free[i] then i else FirstFree(free, i + 1)
  }

  // ---------------------------------------------------------------- operations

  /** Inode numbers and slots determine each other. */
  function SlotNo(i: nat): nat {
    if i < 2 then i + 1 else i + START_INO - RESERVED_INODES + 1
  }

  function SlotOf(no: nat): nat {
    if no == 0 then SLOTS else if no <= 2 then no - 1 else if no < START_INO then SLOTS else no - 8
  }

  /** An inode identifies itself by its number, or after deletion by its dead number. */
  function Identity(n: Inode): nat {
    if n.no == 0 then n.deadNo else n.no
  }

  predicate LiveSlot(fs: Fs, i: nat) {
    i < fs.count && i < |fs.store| && fs.store[i].no != 0
  }

  predicate DirSlot(fs: Fs, i: nat) {
    LiveSlot(fs, i) && fs.store[i].mode.format == DIRECTORY
  }

  predicate IsDir(fs: Fs, no: nat) {
    DirSlot(fs, SlotOf(no)) && SlotNo(SlotOf(no)) == no
  }

  predicate IsFile(fs: Fs, no: nat) {
    LiveSlot(fs, SlotOf(no)) && SlotNo(SlotOf(no)) == no && fs.store[SlotOf(no)].mode.format == REGULAR
  }

  function PutRecord(b: Block, k: nat, r: Record, junk: Junk): Block
    requires k < |b.records|
  {
    Block(b.records[k := r], junk.bytes)
  }

  datatype CreateResult =
    | Created(no: nat, fs: Fs)
    | NoSpace
    | InvalidMode

  /** Slots of the directory with this inode number, and the room the driver takes for granted:
      the record fits the block, and a new data block lies where its mask has one bit. */
  predicate HasRoom(fs: Fs, dir: nat)
    requires Shape(fs) && IsDir(fs, dir)
  {
    var p := SlotOf(dir);
    var reuse := FindDead(fs.store, fs.count, 0) < fs.count;
    && fs.store[p].size <= SLOTS && fs.store[p].block < BLOCKS
    && (reuse || FirstFree(fs.free, 3) < MASK_LIMIT)
    && (fs.store[p].size < SLOTS
        || (reuse && FindRecord(fs.blocks[fs.store[p].block].records, SLOTS, 0, 0) < SLOTS))
  }

  /** simplefs_create_fs_object. */
  function Create(fs: Fs, dir: nat, name: string, mode: Mode, junk: Junk): CreateResult
    requires Shape(fs) && IsDir(fs, dir) && HasRoom(fs, dir)
  {
    if fs.count >= MAX_OBJECTS then NoSpace
    else if mode.format == OTHER then InvalidMode
    else
      var p := SlotOf(dir);
      var parent := fs.store[p];
      var pb := fs.blocks[parent.block];
      var dead := FindDead(fs.store, fs.count, 0);
      if dead < fs.count then
        var no := fs.store[dead].deadNo;
        var inode := Inode(mode, no, junk.deadNo, fs.store[dead].block, 0);
        var store := fs.store[FindDeadNo(fs.store, fs.count, no, 0) := inode];
        var z := FindRecord(pb.records, parent.size, 0, 0);
        Created(no, fs.(
          store := if z < parent.size then store else store[p := parent.(size := parent.size + 1)],
          blocks := fs.blocks[parent.block := PutRecord(pb, z, Record(name, no), junk)]))
      else
        var no := fs.count + START_INO - RESERVED_INODES + 1;
        var b := FirstFree(fs.free, 3);
        if b == MAX_OBJECTS then NoSpace
        else
          var inode := Inode(mode, no, junk.deadNo, b, 0);
          Created(no, Fs(
            fs.count + 1,
            fs.free[b := false],
            fs.store[fs.count := inode][p := parent.(size := parent.size + 1)],
            fs.blocks[parent.block := PutRecord(pb, parent.size, Record(name, no), junk)]))
  }

  /** simplefs_lookup, and the mode it reads through simplefs_get_inode. */
  datatype Entry = Entry(no: nat, mode: Mode)

  function Lookup(fs: Fs, dir: nat, name: string): (r: Option<Entry>)
    requires Shape(fs) && IsDir(fs, dir)
    requires var d := fs.store[SlotOf(dir)]; d.block < BLOCKS && d.size <= SLOTS
  {
    var d := fs.store[SlotOf(dir)];
    var records := fs.blocks[d.block].records;
    var k := FindName(records, d.size, name, 0);
    if k == d.size then None
    else
      var s := InodeSearch(fs.store, records[k].no, fs.count, 0);
      if s.Some? then Some(Entry(records[k].no, fs.store[s.value].mode)) else None
  }

  /** simplefs_unlink of the file with this inode number. */
  function Unlink(fs: Fs, dir: nat, no: nat, junk: Junk): Fs
    requires Shape(fs) && IsDir(fs, dir)
    requires var d := fs.store[SlotOf(dir)]; d.block < BLOCKS && d.size <= SLOTS
  {
    var d := fs.store[SlotOf(dir)];
    var pb := fs.blocks[d.block];
    var k := FindRecord(pb.records, d.size, no, 0);
    var s := InodeSearch(fs.store, no, fs.count, 0);
    if k == d.size || s.None? then fs
    else fs.(
      store := fs.store[s.value := fs.store[s.value].(no := 0, deadNo := no)],
      blocks := fs.blocks[d.block := PutRecord(pb, k, pb.records[k].(no := 0), junk)])
  }

  /** simplefs_write: the new size is the end of what was written. */
  function Write(fs: Fs, no: nat, pos: nat, data: seq<byte>, junk: Junk): Fs
    requires Shape(fs) && IsFile(fs, no) && fs.store[SlotOf(no)].block < BLOCKS
    requires pos + |data| <= BLOCK_SIZE
  {
    var s := SlotOf(no);
    var b := fs.store[s].block;
    var bytes := fs.blocks[b].bytes;
    fs.(store := fs.store[s := fs.store[s].(size := pos + |data|)],
        blocks := fs.blocks[b := Block(junk.records, bytes[..pos] + data + bytes[pos + |data|..])])
  }

  const WELCOME_BODY: string := "Love is God. God is Love. Anbe Murugan.\n"
  const WELCOME_NAME: string := "vanakkam"

  function WelcomeBytes(): (r: seq<byte>)
    ensures |r| == |WELCOME_BODY| + 1
  {
    seq(|WELCOME_BODY| + 1, i requires 0 <= i => if i < |WELCOME_BODY| then WELCOME_BODY[i] as int % 256 else 0)
  }

  /** The image that mkfs writes over whatever the device held before. */
  function Mkfs(store: seq<Inode>, blocks: seq<Block>, junk: Junk): (fs: Fs)
    requires |store| == SLOTS && |blocks| == BLOCKS && (forall b :: 0 <= b < BLOCKS ==> BlockShape(blocks[b]))
    requires JunkShape(junk)
    ensures Shape(fs)
  {
    var root := Inode(Mode(DIRECTORY, 0), ROOTDIR_INO, junk.deadNo, ROOTDIR_BLOCK, 1);
    var body := WelcomeBytes();
    var welcome := Inode(Mode(REGULAR, 0), WELCOME_INO, 0, WELCOME_BLOCK, |body|);
    assert BlockShape(blocks[ROOTDIR_BLOCK]) && BlockShape(blocks[WELCOME_BLOCK]);
    Fs(2, seq(MAX_OBJECTS, i => i != WELCOME_BLOCK),
       store[0 := root][1 := welcome],
       blocks[ROOTDIR_BLOCK := PutRecord(blocks[ROOTDIR_BLOCK], 0, Record(WELCOME_NAME, WELCOME_INO), junk)]
             [WELCOME_BLOCK := Block(junk.records, body + blocks[WELCOME_BLOCK].bytes[|body|..])])
  }

  // ---------------------------------------------------------------- the store invariant

  predicate Slots(fs: Fs)
    requires Shape(fs)
  {
    && fs.count + 2 <= MASK_LIMIT
    && DirSlot(fs, 0)
    && forall i :: 0 <= i < fs.count ==>
         && Identity(fs.store[i]) == SlotNo(i) && fs.store[i].block == i + 2
         && fs.store[i].mode.format != OTHER
         && (fs.store[i].no == 0 ==> fs.store[i].mode.format == REGULAR)
         && (fs.store[i].mode.format == DIRECTORY ==> fs.store[i].size <= SLOTS)
         && (fs.store[i].mode.format == REGULAR ==> fs.store[i].size <= BLOCK_SIZE)
  }

  predicate FreeMap(fs: Fs)
    requires Shape(fs)
  {
    forall b :: 3 <= b < MASK_LIMIT ==> (fs.free[b] <==> fs.count + 2 <= b)
  }

  function Rec(fs: Fs, i: nat, k: nat): Record
    requires Shape(fs) && i + 2 < BLOCKS && k < SLOTS
  {
    fs.blocks[i + 2].records[k]
  }

  /** Record k of directory slot i is in use. */
  predicate InUse(fs: Fs, i: nat, k: nat)
    requires Shape(fs)
  {
    DirSlot(fs, i) && i + 2 < BLOCKS && k < fs.store[i].size && k < SLOTS && Rec(fs, i, k).no != 0
  }

  /** Record k of directory i is in use for inode no, or under a name. */
  predicate Uses(fs: Fs, i: nat, k: nat, no: nat)
    requires Shape(fs)
  {
    InUse(fs, i, k) && Rec(fs, i, k).no == no
  }

  predicate Names(fs: Fs, i: nat, k: nat, name: string)
    requires Shape(fs)
  {
    InUse(fs, i, k) && Rec(fs, i, k).filename == name
  }

  /** no is the number of a live inode other than the root. */
  predicate LiveNo(fs: Fs, no: nat) {
    0 < SlotOf(no) < SLOTS && LiveSlot(fs, SlotOf(no)) && SlotNo(SlotOf(no)) == no
  }

  /** Every record in use names a live inode other than the root. */
  ghost predicate NamesLive(fs: Fs)
    requires Shape(fs)
  {
    forall i, k, no :: Uses(fs, i, k, no) ==> LiveNo(fs, no)
  }

  /** No inode is named twice, and no name occurs twice in a directory. */
  ghost predicate NamedOnce(fs: Fs)
    requires Shape(fs)
  {
    && (forall no, i, k, i', k' :: Uses(fs, i, k, no) && Uses(fs, i', k', no) ==> i == i' && k == k')
    && (forall name, i, k, k' :: Names(fs, i, k, name) && Names(fs, i, k', name) ==> k == k')
  }

  /** Every live inode but the root has a name. */
  ghost predicate AllNamed(fs: Fs)
    requires Shape(fs)
  {
    forall no: nat :: LiveNo(fs, no) ==> exists i, k :: Uses(fs, i, k, no)
  }

  ghost predicate Inv(fs: Fs) {
    Shape(fs) && Slots(fs) && FreeMap(fs) && NamesLive(fs) && NamedOnce(fs) && AllNamed(fs)
  }

  // ---------------------------------------------------------------- what it all means

  /** The tree of names: what each directory holds, by inode number. */
  type Tree = map<nat, map<string, Entry>>

  /** What directory slot i says about a name. */
  ghost predicate Says(fs: Fs, i: nat, name: string, e: Entry)
    requires Shape(fs)
  {
    LiveNo(fs, e.no) && e.mode == fs.store[SlotOf(e.no)].mode &&
    exists k :: Names(fs, i, k, name) && Uses(fs, i, k, e.no)
  }

  /** The disk holds exactly the directories of the tree, and each holds exactly its names. */
  ghost predicate Represents(fs: Fs, t: Tree)
    requires Shape(fs)
  {
    && (forall d :: d in t <==> IsDir(fs, d))
    && (forall i, name, e :: SlotNo(i) in t ==>
          (Says(fs, i, name, e) <==> name in t[SlotNo(i)] && t[SlotNo(i)][name] == e))
  }

  lemma SlotNumbering(i: nat)
    requires i < SLOTS
    ensures SlotOf(SlotNo(i)) == i
  {
  }

  lemma SlotNoInjective(i: nat, j: nat)
    ensures SlotNo(i) == SlotNo(j) <==> i == j
  {
  }

  lemma FindsSlot(fs: Fs, i: nat)
    requires Shape(fs) && Slots(fs) && LiveSlot(fs, i)
    ensures fs.store[i].no == SlotNo(i)
    ensures InodeSearch(fs.store, SlotNo(i), fs.count, 0) == Some(i)
  {
    var r := InodeSearch(fs.store, SlotNo(i), fs.count, 0);
    assert fs.store[i].no == SlotNo(i);
    assert r.Some?;
    assert r.value <= i;
    assert fs.store[r.value].no == SlotNo(r.value);
  }

  // ---------------------------------------------------------------- creating

  /** fs' is fs with a new inode in slot n, named by record k of directory p. */
  ghost predicate Placed(fs: Fs, fs': Fs, p: nat, n: nat, k: nat, name: string, mode: Mode) {
    && Shape(fs) && Shape(fs')
    && DirSlot(fs, p) && p + 2 < BLOCKS && n <= fs.count && n + 2 < MASK_LIMIT && !LiveSlot(fs, n)
    && k <= fs.store[p].size && k < SLOTS && !InUse(fs, p, k)
    && fs'.count == (if n == fs.count then n + 1 else fs.count)
    && fs'.free == (if n == fs.count then fs.free[n + 2 := false] else fs.free)
    && fs'.store[n].no == SlotNo(n) && fs'.store[n].mode == mode && fs'.store[n].block == n + 2 && fs'.store[n].size == 0
    && fs'.store[p] == fs.store[p].(size := if k < fs.store[p].size then fs.store[p].size else k + 1)
    && (forall i :: 0 <= i < SLOTS && i != n && i != p ==> fs'.store[i] == fs.store[i])
    && (forall b :: 0 <= b < BLOCKS && b != p + 2 ==> fs'.blocks[b] == fs.blocks[b])
    && fs'.blocks[p + 2].records == fs.blocks[p + 2].records[k := Record(name, SlotNo(n))]
  }

  lemma PlacedUses(fs: Fs, fs': Fs, p: nat, n: nat, k: nat, name: string, mode: Mode)
    requires Placed(fs, fs', p, n, k, name, mode)
    ensures forall i: nat, j: nat :: InUse(fs', i, j) <==> (i == p && j == k) || (InUse(fs, i, j) && !(i == p && j == k))
    ensures forall i: nat, j: nat :: InUse(fs', i, j) && !(i == p && j == k) ==> Rec(fs', i, j) == Rec(fs, i, j)
    ensures Rec(fs', p, k) == Record(name, SlotNo(n))
  {
    assert fs'.blocks[p + 2].records[k] == Record(name, SlotNo(n));
    forall i: nat, j: nat
      ensures InUse(fs', i, j) <==> (i == p && j == k) || (InUse(fs, i, j) && !(i == p && j == k))
      ensures InUse(fs', i, j) && !(i == p && j == k) ==> Rec(fs', i, j) == Rec(fs, i, j)
    {
      if i == n {
        assert !InUse(fs', i, j) && !InUse(fs, i, j);
      } else if i == p {
        if j != k && j < SLOTS {
          assert fs'.blocks[p + 2].records[j] == fs.blocks[p + 2].records[j];
        }
      } else if i + 2 < BLOCKS {
        assert fs'.blocks[i + 2] == fs.blocks[i + 2];
      }
    }
  }

  lemma PlacedLive(fs: Fs, fs': Fs, p: nat, n: nat, k: nat, name: string, mode: Mode)
    requires Placed(fs, fs', p, n, k, name, mode) && Slots(fs)
    ensures forall no: nat :: LiveNo(fs', no) <==> LiveNo(fs, no) || no == SlotNo(n)
    ensures !LiveNo(fs, SlotNo(n))
    ensures LiveNo(fs', SlotNo(n)) && SlotOf(SlotNo(n)) == n && n != p
  {
    SlotNumbering(n);
    assert n > 0;
    forall no: nat
      ensures LiveNo(fs', no) <==> LiveNo(fs, no) || no == SlotNo(n)
    {
      if SlotOf(no) < SLOTS && SlotOf(no) != n {
        assert LiveSlot(fs', SlotOf(no)) <==> LiveSlot(fs, SlotOf(no));
      }
    }
  }

  lemma PlacedSlots(fs: Fs, fs': Fs, p: nat, n: nat, k: nat, name: string, mode: Mode)
    requires Placed(fs, fs', p, n, k, name, mode) && Slots(fs) && FreeMap(fs) && mode.format != OTHER
    ensures Slots(fs') && FreeMap(fs')
  {
    assert n != p;
  }

  lemma PlacedKeepsInv(fs: Fs, fs': Fs, p: nat, n: nat, k: nat, name: string, mode: Mode)
    requires Placed(fs, fs', p, n, k, name, mode) && Inv(fs) && mode.format != OTHER
    requires forall j :: !Names(fs, p, j, name)
    ensures Inv(fs')
  {
    PlacedUses(fs, fs', p, n, k, name, mode);
    PlacedLive(fs, fs', p, n, k, name, mode);
    PlacedSlots(fs, fs', p, n, k, name, mode);
    hide Placed, Slots, FreeMap, InUse, LiveNo;
    forall i: nat, j: nat, no: nat
      ensures Uses(fs', i, j, no) <==> (i == p && j == k && no == SlotNo(n)) || (Uses(fs, i, j, no) && !(i == p && j == k))
    {
    }
    forall i: nat, j: nat, m: string
      ensures Names(fs', i, j, m) <==> (i == p && j == k && m == name) || (Names(fs, i, j, m) && !(i == p && j == k))
    {
    }
    assert NamesLive(fs');
    assert NamedOnce(fs');
    forall no: nat | LiveNo(fs', no)
      ensures exists i, j :: Uses(fs', i, j, no)
    {
      if no == SlotNo(n) {
        assert Uses(fs', p, k, no);
      } else {
        var i, j :| Uses(fs, i, j, no);
        assert Uses(fs', i, j, no);
      }
    }
  }

  /** What creating an entry does to the tree. */
  function TreeCreate(t: Tree, dir: nat, name: string, e: Entry): Tree
    requires dir in t
  {
    var t1 := t[dir := t[dir][name := e]];
    if e.mode.format == DIRECTORY then t1[e.no := map[]] else t1
  }

  function TreeUnlink(t: Tree, dir: nat, name: string): Tree
    requires dir in t
  {
    t[dir := t[dir] - {name}]
  }

  lemma PlacedDirs(fs: Fs, fs': Fs, p: nat, n: nat, k: nat, name: string, mode: Mode)
    requires Placed(fs, fs', p, n, k, name, mode) && Slots(fs)
    ensures forall d: nat :: IsDir(fs', d) <==> IsDir(fs, d) || (d == SlotNo(n) && mode.format == DIRECTORY)
    ensures !IsDir(fs, SlotNo(n)) && IsDir(fs, SlotNo(p)) && n != p
    ensures forall no: nat :: LiveNo(fs, no) ==> fs'.store[SlotOf(no)].mode == fs.store[SlotOf(no)].mode
    ensures fs'.store[SlotOf(SlotNo(n))].mode == mode
  {
    SlotNumbering(n);
    SlotNumbering(p);
    assert n != p;
    forall d: nat
      ensures IsDir(fs', d) <==> IsDir(fs, d) || (d == SlotNo(n) && mode.format == DIRECTORY)
    {
      if SlotOf(d) < SLOTS && SlotOf(d) != n {
        assert DirSlot(fs', SlotOf(d)) <==> DirSlot(fs, SlotOf(d));
      }
    }
  }

  lemma PlacedSays(fs: Fs, fs': Fs, p: nat, n: nat, k: nat, name: string, mode: Mode, i: nat, nm: string, e: Entry)
    requires Placed(fs, fs', p, n, k, name, mode) && Inv(fs)
    requires forall j :: !Names(fs, p, j, name)
    ensures Says(fs', i, nm, e) <==>
            if i == p && nm == name then e == Entry(SlotNo(n), mode) else Says(fs, i, nm, e)
  {
    PlacedUses(fs, fs', p, n, k, name, mode);
    PlacedLive(fs, fs', p, n, k, name, mode);
    PlacedDirs(fs, fs', p, n, k, name, mode);
    hide Placed, Slots, FreeMap, InUse, LiveNo;
    if Says(fs, i, nm, e) {
      var j :| Names(fs, i, j, nm) && Uses(fs, i, j, e.no);
      assert Names(fs', i, j, nm) && Uses(fs', i, j, e.no);
    }
    if Says(fs', i, nm, e) {
      var j :| Names(fs', i, j, nm) && Uses(fs', i, j, e.no);
      if !(i == p && j == k) {
        assert Names(fs, i, j, nm) && Uses(fs, i, j, e.no);
      }
    }
    assert Names(fs', p, k, name) && Uses(fs', p, k, SlotNo(n));
  }

  lemma PlacedRepresents(fs: Fs, fs': Fs, p: nat, n: nat, k: nat, name: string, mode: Mode, t: Tree)
    requires Placed(fs, fs', p, n, k, name, mode) && Inv(fs)
    requires Represents(fs, t) && SlotNo(p) in t && name !in t[SlotNo(p)]
    ensures forall j :: !Names(fs, p, j, name)
    ensures Represents(fs', TreeCreate(t, SlotNo(p), name, Entry(SlotNo(n), mode)))
  {
    NoSuchName(fs, p, name, t);
    PlacedDirs(fs, fs', p, n, k, name, mode);
    var t' := TreeCreate(t, SlotNo(p), name, Entry(SlotNo(n), mode));
    forall i: nat, nm: string, e: Entry | SlotNo(i) in t'
      ensures Says(fs', i, nm, e) <==> nm in t'[SlotNo(i)] && t'[SlotNo(i)][nm] == e
    {
      PlacedSays(fs, fs', p, n, k, name, mode, i, nm, e);
      SlotNoInjective(i, n);
      SlotNoInjective(i, p);
      if i == n {
        assert !LiveSlot(fs, n);
        assert forall j :: !Names(fs, n, j, nm);
      }
    }
  }

  lemma NoSuchName(fs: Fs, p: nat, name: string, t: Tree)
    requires Inv(fs) && Represents(fs, t) && SlotNo(p) in t && name !in t[SlotNo(p)]
    ensures forall j :: !Names(fs, p, j, name)
  {
    forall j
      ensures !Names(fs, p, j, name)
    {
      if Names(fs, p, j, name) {
        var no := Rec(fs, p, j).no;
        assert Uses(fs, p, j, no);
        assert Says(fs, p, name, Entry(no, fs.store[SlotOf(no)].mode));
      }
    }
  }

  /** The slot that a new inode takes, and the record that names it. */
  function NewSlot(fs: Fs): nat
    requires Shape(fs)
  {
    FindDead(fs.store, fs.count, 0)
  }

  function NewRecord(fs: Fs, p: nat): nat
    requires Shape(fs) && Slots(fs) && DirSlot(fs, p)
  {
    if NewSlot(fs) < fs.count then FindRecord(fs.blocks[p + 2].records, fs.store[p].size, 0, 0)
    else fs.store[p].size
  }

  lemma DeadSlotFound(fs: Fs)
    requires Shape(fs) && Slots(fs) && NewSlot(fs) < fs.count
    ensures var n := NewSlot(fs);
            fs.store[n].deadNo == SlotNo(n) && FindDeadNo(fs.store, fs.count, SlotNo(n), 0) == n
  {
    var n := NewSlot(fs);
    var r := FindDeadNo(fs.store, fs.count, SlotNo(n), 0);
    assert Identity(fs.store[n]) == SlotNo(n);
    assert r <= n;
    assert Identity(fs.store[r]) == SlotNo(r);
    SlotNoInjective(r, n);
  }

  lemma FreeBlockFound(fs: Fs)
    requires Shape(fs) && Slots(fs) && FreeMap(fs) && FirstFree(fs.free, 3) < MASK_LIMIT
    ensures FirstFree(fs.free, 3) == fs.count + 2
  {
    assert fs.count + 2 == MASK_LIMIT || fs.free[fs.count + 2];
  }

  lemma CreatePlaces(fs: Fs, dir: nat, name: string, mode: Mode, junk: Junk)
    requires Inv(fs) && IsDir(fs, dir) && HasRoom(fs, dir) && JunkShape(junk) && mode.format != OTHER
    ensures var r := Create(fs, dir, name, mode, junk); var p := SlotOf(dir);
            r.Created? && r.no == SlotNo(NewSlot(fs)) && Placed(fs, r.fs, p, NewSlot(fs), NewRecord(fs, p), name, mode)
  {
    var p := SlotOf(dir);
    var n := NewSlot(fs);
    assert fs.store[p].block == p + 2 && fs.store[p].size <= SLOTS;
    assert BlockShape(fs.blocks[p + 2]);
    var k := NewRecord(fs, p);
    if n < fs.count {
      DeadSlotFound(fs);
    } else {
      FreeBlockFound(fs);
    }
    assert n != p;
    var r := Create(fs, dir, name, mode, junk);
    assert r.Created? && r.no == SlotNo(n);
    assert r.fs.store[p] == fs.store[p].(size := if k < fs.store[p].size then fs.store[p].size else k + 1);
  }

  // ---------------------------------------------------------------- deleting

  /** fs' is fs without record k of directory p and without the inode in slot j it names. */
  ghost predicate Removed(fs: Fs, fs': Fs, p: nat, k: nat, j: nat) {
    && Shape(fs) && Shape(fs')
    && InUse(fs, p, k) && Rec(fs, p, k).no == SlotNo(j)
    && 0 < j && LiveSlot(fs, j) && j < SLOTS && fs.store[j].mode.format == REGULAR
    && fs'.count == fs.count && fs'.free == fs.free
    && fs'.store == fs.store[j := fs.store[j].(no := 0, deadNo := SlotNo(j))]
    && (forall b :: 0 <= b < BLOCKS && b != p + 2 ==> fs'.blocks[b] == fs.blocks[b])
    && fs'.blocks[p + 2].records == fs.blocks[p + 2].records[k := fs.blocks[p + 2].records[k].(no := 0)]
  }

  lemma RemovedUses(fs: Fs, fs': Fs, p: nat, k: nat, j: nat)
    requires Removed(fs, fs', p, k, j) && Slots(fs)
    ensures forall i: nat, m: nat :: InUse(fs', i, m) <==> InUse(fs, i, m) && !(i == p && m == k)
    ensures forall i: nat, m: nat :: InUse(fs', i, m) ==> Rec(fs', i, m) == Rec(fs, i, m)
    ensures forall no: nat :: LiveNo(fs', no) <==> LiveNo(fs, no) && no != SlotNo(j)
    ensures forall no: nat :: LiveNo(fs', no) ==> fs'.store[SlotOf(no)] == fs.store[SlotOf(no)]
    ensures forall d: nat :: IsDir(fs', d) <==> IsDir(fs, d)
    ensures Slots(fs') && FreeMap(fs') == FreeMap(fs)
  {
    SlotNumbering(j);
    forall i: nat, m: nat
      ensures InUse(fs', i, m) <==> InUse(fs, i, m) && !(i == p && m == k)
      ensures InUse(fs', i, m) ==> Rec(fs', i, m) == Rec(fs, i, m)
    {
      if i == p {
        assert m < SLOTS ==> fs'.blocks[p + 2].records[m] == if m == k then fs.blocks[p + 2].records[k].(no := 0) else fs.blocks[p + 2].records[m];
      } else if i + 2 < BLOCKS {
        assert fs'.blocks[i + 2] == fs.blocks[i + 2];
      }
    }
  }

  lemma RemovedKeepsInv(fs: Fs, fs': Fs, p: nat, k: nat, j: nat)
    requires Removed(fs, fs', p, k, j) && Inv(fs)
    ensures Inv(fs')
  {
    RemovedUses(fs, fs', p, k, j);
    assert Uses(fs, p, k, SlotNo(j));
    hide Removed, Slots, FreeMap, InUse, LiveNo;
    forall i: nat, m: nat, no: nat
      ensures Uses(fs', i, m, no) <==> Uses(fs, i, m, no) && !(i == p && m == k)
    {
    }
    forall i: nat, m: nat, nm: string
      ensures Names(fs', i, m, nm) <==> Names(fs, i, m, nm) && !(i == p && m == k)
    {
    }
    assert NamedOnce(fs');
    assert NamesLive(fs');
    forall no: nat | LiveNo(fs', no)
      ensures exists i, m :: Uses(fs', i, m, no)
    {
      var i, m :| Uses(fs, i, m, no);
      assert Uses(fs', i, m, no);
    }
  }

  lemma RemovedSays(fs: Fs, fs': Fs, p: nat, k: nat, j: nat, i: nat, nm: string, e: Entry)
    requires Removed(fs, fs', p, k, j) && Inv(fs)
    ensures Says(fs', i, nm, e) <==> Says(fs, i, nm, e) && !(i == p && nm == Rec(fs, p, k).filename)
  {
    RemovedUses(fs, fs', p, k, j);
    assert Uses(fs, p, k, SlotNo(j)) && Names(fs, p, k, Rec(fs, p, k).filename);
    hide Removed, Slots, FreeMap, InUse, LiveNo;
    if Says(fs, i, nm, e) && !(i == p && nm == Rec(fs, p, k).filename) {
      var m :| Names(fs, i, m, nm) && Uses(fs, i, m, e.no);
      assert e.no != SlotNo(j);
      assert Names(fs', i, m, nm) && Uses(fs', i, m, e.no);
    }
    if Says(fs', i, nm, e) {
      var m :| Names(fs', i, m, nm) && Uses(fs', i, m, e.no);
      assert Names(fs, i, m, nm) && Uses(fs, i, m, e.no);
    }
  }

  lemma RemovedRepresents(fs: Fs, fs': Fs, p: nat, k: nat, j: nat, t: Tree)
    requires Removed(fs, fs', p, k, j) && Inv(fs) && Represents(fs, t) && SlotNo(p) in t
    ensures Represents(fs', TreeUnlink(t, SlotNo(p), Rec(fs, p, k).filename))
  {
    RemovedUses(fs, fs', p, k, j);
    var t' := TreeUnlink(t, SlotNo(p), Rec(fs, p, k).filename);
    forall i: nat, nm: string, e: Entry | SlotNo(i) in t'
      ensures Says(fs', i, nm, e) <==> nm in t'[SlotNo(i)] && t'[SlotNo(i)][nm] == e
    {
      RemovedSays(fs, fs', p, k, j, i, nm, e);
      SlotNoInjective(i, p);
    }
  }

  lemma UnlinkRemoves(fs: Fs, dir: nat, name: string, e: Entry, junk: Junk) returns (k: nat)
    requires Inv(fs) && IsDir(fs, dir) && JunkShape(junk)
    requires Says(fs, SlotOf(dir), name, e) && e.mode.format == REGULAR
    ensures Removed(fs, Unlink(fs, dir, e.no, junk), SlotOf(dir), k, SlotOf(e.no))
    ensures Rec(fs, SlotOf(dir), k).filename == name
  {
    var p := SlotOf(dir);
    var j: nat :| Names(fs, p, j, name) && Uses(fs, p, j, e.no);
    FindsSlot(fs, SlotOf(e.no));
    k := FindRecord(fs.blocks[p + 2].records, fs.store[p].size, e.no, 0);
    assert BlockShape(fs.blocks[p + 2]);
    assert fs.blocks[p + 2].records[j].no == e.no;
    assert k <= j;
    assert Uses(fs, p, k, e.no);
    assert k == j;
  }

  // ---------------------------------------------------------------- writing

  lemma WriteKeeps(fs: Fs, no: nat, pos: nat, data: seq<byte>, junk: Junk, t: Tree)
    requires Inv(fs) && Represents(fs, t) && IsFile(fs, no) && JunkShape(junk) && pos + |data| <= BLOCK_SIZE
    ensures Inv(Write(fs, no, pos, data, junk)) && Represents(Write(fs, no, pos, data, junk), t)
  {
    var s := SlotOf(no);
    var fs' := Write(fs, no, pos, data, junk);
    assert BlockShape(fs.blocks[s + 2]);
    forall i: nat, k: nat
      ensures InUse(fs', i, k) <==> InUse(fs, i, k)
      ensures InUse(fs, i, k) ==> Rec(fs', i, k) == Rec(fs, i, k)
    {
      if i + 2 < BLOCKS && i != s {
        assert fs'.blocks[i + 2] == fs.blocks[i + 2];
      }
    }
    assert forall d: nat :: IsDir(fs', d) <==> IsDir(fs, d);
    assert forall n: nat :: LiveNo(fs', n) <==> LiveNo(fs, n);
    assert Slots(fs') && FreeMap(fs');
    WriteFrame(fs, fs', t);
  }

  lemma WriteFrame(fs: Fs, fs': Fs, t: Tree)
    requires Inv(fs) && Represents(fs, t) && Shape(fs') && Slots(fs') && FreeMap(fs')
    requires forall i: nat, k: nat :: InUse(fs', i, k) <==> InUse(fs, i, k)
    requires forall i: nat, k: nat :: InUse(fs, i, k) ==> Rec(fs', i, k) == Rec(fs, i, k)
    requires forall d: nat :: IsDir(fs', d) <==> IsDir(fs, d)
    requires forall n: nat :: LiveNo(fs', n) <==> LiveNo(fs, n)
    requires forall i :: 0 <= i < SLOTS ==> fs'.store[i].mode == fs.store[i].mode
    ensures Inv(fs') && Represents(fs', t)
  {
    hide Slots, FreeMap, InUse, LiveNo, IsDir;
    assert forall i: nat, k: nat, n: nat :: Uses(fs', i, k, n) <==> Uses(fs, i, k, n);
    assert forall i: nat, k: nat, n: string :: Names(fs', i, k, n) <==> Names(fs, i, k, n);
    forall n: nat | LiveNo(fs', n)
      ensures exists i, k :: Uses(fs', i, k, n)
    {
      var i, k :| Uses(fs, i, k, n);
      assert Uses(fs', i, k, n);
    }
    assert Inv(fs');
    forall i: nat, nm: string, e: Entry
      ensures Says(fs', i, nm, e) <==> Says(fs, i, nm, e)
    {
      if LiveNo(fs, e.no) {
        assert SlotOf(e.no) < SLOTS by { LiveInRange(fs, e.no); }
      }
      if Says(fs, i, nm, e) {
        var k :| Names(fs, i, k, nm) && Uses(fs, i, k, e.no);
        assert Names(fs', i, k, nm) && Uses(fs', i, k, e.no);
      }
      if Says(fs', i, nm, e) {
        var k :| Names(fs', i, k, nm) && Uses(fs', i, k, e.no);
        assert Names(fs, i, k, nm) && Uses(fs, i, k, e.no);
      }
    }
  }

  lemma LiveInRange(fs: Fs, no: nat)
    requires LiveNo(fs, no)
    ensures SlotOf(no) < SLOTS
  {
  }

  // ---------------------------------------------------------------- runs

  datatype Op =
    | OpCreate(dir: nat, name: string, mode: Mode, junk: Junk)
    | OpUnlink(dir: nat, name: string, junk: Junk)
    | OpWrite(no: nat, pos: nat, data: seq<byte>, junk: Junk)

  /** What the VFS guarantees before it calls the driver, and the room the driver needs. */
  ghost predicate Granted(fs: Fs, t: Tree, op: Op) {
    Shape(fs) && JunkShape(op.junk) &&
    match op
    case OpCreate(dir, name, mode, junk) =>
      dir in t && name !in t[dir] && |name| < FILENAME_MAXLEN && IsDir(fs, dir) && HasRoom(fs, dir)
    case OpUnlink(dir, name, junk) =>
      dir in t && name in t[dir] && t[dir][name].mode.format == REGULAR
    case OpWrite(no, pos, data, junk) =>
      IsFile(fs, no) && pos + |data| <= BLOCK_SIZE
  }

  /** The disk is as the operations leave it (RunsExtend: that is no further condition). */
  ghost predicate Legal(fs: Fs, t: Tree, op: Op) {
    Inv(fs) && Represents(fs, t) && Granted(fs, t, op)
  }

  ghost function StepFs(fs: Fs, t: Tree, op: Op): Fs
    requires Legal(fs, t, op)
  {
    match op
    case OpCreate(dir, name, mode, junk) =>
      var r := Create(fs, dir, name, mode, junk);
      if r.Created? then r.fs else fs
    case OpUnlink(dir, name, junk) => Unlink(fs, dir, t[dir][name].no, junk)
    case OpWrite(no, pos, data, junk) => Write(fs, no, pos, data, junk)
  }

  ghost function StepTree(fs: Fs, t: Tree, op: Op): Tree
    requires Legal(fs, t, op)
  {
    match op
    case OpCreate(dir, name, mode, junk) =>
      var r := Create(fs, dir, name, mode, junk);
      if r.Created? then TreeCreate(t, dir, name, Entry(r.no, mode)) else t
    case OpUnlink(dir, name, junk) => TreeUnlink(t, dir, name)
    case OpWrite(no, pos, data, junk) => t
  }

  lemma DirInTree(fs: Fs, t: Tree, dir: nat, name: string)
    requires Inv(fs) && Represents(fs, t) && dir in t
    ensures IsDir(fs, dir) && SlotNo(SlotOf(dir)) == dir
    ensures name in t[dir] ==> Says(fs, SlotOf(dir), name, t[dir][name])
  {
  }

  /** Every operation keeps the store invariant, and does to the tree what its name says. */
  lemma StepKeeps(fs: Fs, t: Tree, op: Op)
    requires Legal(fs, t, op)
    ensures Inv(StepFs(fs, t, op)) && Represents(StepFs(fs, t, op), StepTree(fs, t, op))
  {
    hide NamesLive, NamedOnce, AllNamed, FreeMap, Represents, Placed, Removed;
    match op {
      case OpCreate(dir, name, mode, junk) =>
        DirInTree(fs, t, dir, name);
        if mode.format != OTHER {
          CreatePlaces(fs, dir, name, mode, junk);
          var p := SlotOf(dir);
          var r := Create(fs, dir, name, mode, junk);
          PlacedRepresents(fs, r.fs, p, NewSlot(fs), NewRecord(fs, p), name, mode, t);
          PlacedKeepsInv(fs, r.fs, p, NewSlot(fs), NewRecord(fs, p), name, mode);
        }
      case OpUnlink(dir, name, junk) =>
        DirInTree(fs, t, dir, name);
        var e := t[dir][name];
        var k := UnlinkRemoves(fs, dir, name, e, junk);
        RemovedKeepsInv(fs, Unlink(fs, dir, e.no, junk), SlotOf(dir), k, SlotOf(e.no));
        RemovedRepresents(fs, Unlink(fs, dir, e.no, junk), SlotOf(dir), k, SlotOf(e.no), t);
      case OpWrite(no, pos, data, junk) =>
        WriteKeeps(fs, no, pos, data, junk, t);
    }
  }

  ghost predicate LegalRun(fs: Fs, t: Tree, ops: seq<Op>)
    decreases |ops|
  {
    ops != [] ==>
      Legal(fs, t, ops[0]) && LegalRun(StepFs(fs, t, ops[0]), StepTree(fs, t, ops[0]), ops[1..])
  }

  ghost function RunFs(fs: Fs, t: Tree, ops: seq<Op>): Fs
    requires LegalRun(fs, t, ops)
    decreases |ops|
  {
    if ops == [] then fs else RunFs(StepFs(fs, t, ops[0]), StepTree(fs, t, ops[0]), ops[1..])
  }

  ghost function RunTree(fs: Fs, t: Tree, ops: seq<Op>): Tree
    requires LegalRun(fs, t, ops)
    decreases |ops|
  {
    if ops == [] then t else RunTree(StepFs(fs, t, ops[0]), StepTree(fs, t, ops[0]), ops[1..])
  }

  lemma {:induction false} RunKeeps(fs: Fs, t: Tree, ops: seq<Op>)
    requires Inv(fs) && Represents(fs, t) && LegalRun(fs, t, ops)
    ensures Inv(RunFs(fs, t, ops)) && Represents(RunFs(fs, t, ops), RunTree(fs, t, ops))
    decreases |ops|
  {
    hide Inv, Represents, Legal, StepFs, StepTree;
    if ops != [] {
      StepKeeps(fs, t, ops[0]);
      RunKeeps(StepFs(fs, t, ops[0]), StepTree(fs, t, ops[0]), ops[1..]);
    }
  }

  /** A legal run can always go on with an operation the VFS grants: the driver never leaves a
      disk it could not work on. */
  lemma {:induction false} RunsExtend(fs: Fs, t: Tree, ops: seq<Op>, op: Op)
    requires Inv(fs) && Represents(fs, t) && LegalRun(fs, t, ops)
    requires Granted(RunFs(fs, t, ops), RunTree(fs, t, ops), op)
    ensures LegalRun(fs, t, ops + [op])
    decreases |ops|
  {
    hide Inv, Represents, Granted, StepFs, StepTree;
    if ops == [] {
      assert ops + [op] == [op] && [op][1..] == [];
    } else {
      StepKeeps(fs, t, ops[0]);
      assert (ops + [op])[0] == ops[0] && (ops + [op])[1..] == ops[1..] + [op];
      RunsExtend(StepFs(fs, t, ops[0]), StepTree(fs, t, ops[0]), ops[1..], op);
    }
  }

  function MkfsTree(): Tree {
    map[ROOTDIR_INO := map[WELCOME_NAME := Entry(WELCOME_INO, Mode(REGULAR, 0))]]
  }

  lemma MkfsUses(store: seq<Inode>, blocks: seq<Block>, junk: Junk)
    requires |store| == SLOTS && |blocks| == BLOCKS && (forall b :: 0 <= b < BLOCKS ==> BlockShape(blocks[b]))
    requires JunkShape(junk)
    ensures var fs := Mkfs(store, blocks, junk);
            && (forall i: nat, k: nat :: InUse(fs, i, k) <==> i == 0 && k == 0)
            && Rec(fs, 0, 0) == Record(WELCOME_NAME, WELCOME_INO)
            && (forall no: nat :: LiveNo(fs, no) <==> no == WELCOME_INO)
            && (forall d: nat :: IsDir(fs, d) <==> d == ROOTDIR_INO)
            && Slots(fs) && FreeMap(fs)
            && fs.store[1].mode == Mode(REGULAR, 0)
  {
    var fs := Mkfs(store, blocks, junk);
    assert BlockShape(blocks[ROOTDIR_BLOCK]);
    assert fs.blocks[ROOTDIR_BLOCK].records[0] == Record(WELCOME_NAME, WELCOME_INO);
    assert fs.store[0].mode.format == DIRECTORY && fs.store[1].mode.format == REGULAR;
    assert SlotOf(WELCOME_INO) == 1;
  }

  /** The image mkfs writes, over any old contents of the device, is a tree with one file. */
  lemma MkfsIsConsistent(store: seq<Inode>, blocks: seq<Block>, junk: Junk)
    requires |store| == SLOTS && |blocks| == BLOCKS && (forall b :: 0 <= b < BLOCKS ==> BlockShape(blocks[b]))
    requires JunkShape(junk)
    ensures Inv(Mkfs(store, blocks, junk)) && Represents(Mkfs(store, blocks, junk), MkfsTree())
  {
    MkfsUses(store, blocks, junk);
    var fs := Mkfs(store, blocks, junk);
    hide Mkfs, InUse, LiveNo, IsDir, Slots, FreeMap;
    assert Uses(fs, 0, 0, WELCOME_INO) && Names(fs, 0, 0, WELCOME_NAME);
    assert Inv(fs);
    assert SlotOf(WELCOME_INO) == 1;
    forall i: nat, nm: string, e: Entry | SlotNo(i) in MkfsTree()
      ensures Says(fs, i, nm, e) <==> nm in MkfsTree()[SlotNo(i)] && MkfsTree()[SlotNo(i)][nm] == e
    {
      assert i == 0;
    }
  }

  // ---------------------------------------------------------------- theorems

  /** After any legal run from the mkfs image, lookup in a directory finds exactly the names
      created there and not unlinked since, with their inode numbers and modes. */
  lemma LookupIsExact(store: seq<Inode>, blocks: seq<Block>, junk: Junk, ops: seq<Op>, dir: nat, name: string)
    requires |store| == SLOTS && |blocks| == BLOCKS && (forall b :: 0 <= b < BLOCKS ==> BlockShape(blocks[b]))
    requires JunkShape(junk)
    requires LegalRun(Mkfs(store, blocks, junk), MkfsTree(), ops)
    requires dir in RunTree(Mkfs(store, blocks, junk), MkfsTree(), ops)
    ensures var fs := RunFs(Mkfs(store, blocks, junk), MkfsTree(), ops);
            var t := RunTree(Mkfs(store, blocks, junk), MkfsTree(), ops);
            && Shape(fs) && IsDir(fs, dir) && (var d := fs.store[SlotOf(dir)]; d.block < BLOCKS && d.size <= SLOTS)
            && Lookup(fs, dir, name) == if name in t[dir] then Some(t[dir][name]) else None
  {
    MkfsIsConsistent(store, blocks, junk);
    RunKeeps(Mkfs(store, blocks, junk), MkfsTree(), ops);
    LookupFinds(RunFs(Mkfs(store, blocks, junk), MkfsTree(), ops),
                RunTree(Mkfs(store, blocks, junk), MkfsTree(), ops), dir, name);
  }

  lemma LookupFinds(fs: Fs, t: Tree, dir: nat, name: string)
    requires Inv(fs) && Represents(fs, t) && dir in t
    ensures IsDir(fs, dir) && (var d := fs.store[SlotOf(dir)]; d.block < BLOCKS && d.size <= SLOTS)
    ensures Lookup(fs, dir, name) == if name in t[dir] then Some(t[dir][name]) else None
  {
    DirInTree(fs, t, dir, name);
    var i := SlotOf(dir);
    var d := fs.store[i];
    assert BlockShape(fs.blocks[i + 2]);
    var k := FindName(fs.blocks[i + 2].records, d.size, name, 0);
    if k < d.size {
      var no := Rec(fs, i, k).no;
      assert Names(fs, i, k, name) && Uses(fs, i, k, no);
      FindsSlot(fs, SlotOf(no));
      assert Says(fs, i, name, Entry(no, fs.store[SlotOf(no)].mode));
    } else {
      assert forall j: nat :: !Names(fs, i, j, name) by {
        assert forall j: nat :: j < d.size ==> Rec(fs, i, j) == fs.blocks[i + 2].records[j];
      }
    }
  }

  /** Slot identities are distinct, data blocks are distinct and marked used, and every live
      inode but the root is named by exactly one record. */
  lemma StoreIsConsistent(fs: Fs, i: nat, j: nat)
    requires Inv(fs) && i < fs.count && j < fs.count
    ensures Identity(fs.store[i]) == Identity(fs.store[j]) ==> i == j
    ensures fs.store[i].block == fs.store[j].block ==> i == j
    ensures fs.store[i].block < BLOCKS && (fs.store[i].block >= 3 ==> !fs.free[fs.store[i].block])
    ensures LiveSlot(fs, i) && i > 0 ==>
              exists p, k :: Uses(fs, p, k, fs.store[i].no) &&
                             forall p', k' :: Uses(fs, p', k', fs.store[i].no) ==> p' == p && k' == k
  {
    SlotNoInjective(i, j);
    if LiveSlot(fs, i) && i > 0 {
      FindsSlot(fs, i);
      SlotNumbering(i);
      assert LiveNo(fs, SlotNo(i));
      var p, k :| Uses(fs, p, k, SlotNo(i));
    }
  }

  /** The file an operation is aimed at, if any. */
  ghost predicate AimedAt(fs: Fs, t: Tree, op: Op, no: nat)
    requires Legal(fs, t, op)
  {
    match op
    case OpCreate(_, _, _, _) => false
    case OpUnlink(dir, name, _) => t[dir][name].no == no
    case OpWrite(no', _, _, _) => no' == no
  }

  /** No operation changes the inode or the bytes of a file it is not aimed at. */
  lemma OtherFilesUntouched(fs: Fs, t: Tree, op: Op, no: nat)
    requires Legal(fs, t, op) && IsFile(fs, no) && !AimedAt(fs, t, op, no)
    ensures var fs' := StepFs(fs, t, op); var s := SlotOf(no);
            && Shape(fs') && s + 2 < BLOCKS && IsFile(fs', no)
            && fs'.store[s] == fs.store[s] && fs'.blocks[s + 2] == fs.blocks[s + 2]
  {
    StepKeeps(fs, t, op);
    var s := SlotOf(no);
    match op {
      case OpCreate(dir, name, mode, junk) =>
        DirInTree(fs, t, dir, name);
        if mode.format != OTHER {
          CreatePlaces(fs, dir, name, mode, junk);
          assert SlotOf(dir) != s && NewSlot(fs) != s;
        }
      case OpUnlink(dir, name, junk) =>
        DirInTree(fs, t, dir, name);
        var e := t[dir][name];
        var k := UnlinkRemoves(fs, dir, name, e, junk);
        assert SlotOf(dir) != s;
      case OpWrite(no', pos, data, junk) =>
        assert SlotOf(no') != s;
    }
  }

  /** No operation of the run is aimed at the file. */
  ghost predicate NeverAimedAt(fs: Fs, t: Tree, ops: seq<Op>, no: nat)
    requires LegalRun(fs, t, ops)
    decreases |ops|
  {
    ops != [] ==>
      !AimedAt(fs, t, ops[0], no) && NeverAimedAt(StepFs(fs, t, ops[0]), StepTree(fs, t, ops[0]), ops[1..], no)
  }

  /** A file keeps its inode and its bytes through any run of operations on others, whatever is
      created, removed and reused meanwhile. */
  lemma {:induction false} FileKept(fs: Fs, t: Tree, ops: seq<Op>, no: nat)
    requires Inv(fs) && IsFile(fs, no) && LegalRun(fs, t, ops) && NeverAimedAt(fs, t, ops, no)
    ensures var fs' := RunFs(fs, t, ops); var s := SlotOf(no);
            && Shape(fs') && s + 2 < BLOCKS && IsFile(fs', no)
            && fs'.store[s] == fs.store[s] && fs'.blocks[s + 2] == fs.blocks[s + 2]
    decreases |ops|
  {
    hide StepFs, StepTree, Represents, Granted, AimedAt;
    if ops != [] {
      OtherFilesUntouched(fs, t, ops[0], no);
      StepKeeps(fs, t, ops[0]);
      FileKept(StepFs(fs, t, ops[0]), StepTree(fs, t, ops[0]), ops[1..], no);
    }
  }

  /** A write leaves the written bytes behind what was there before them, ends the file where
      it stopped, and changes no name. */
  lemma WriteContents(fs: Fs, t: Tree, no: nat, pos: nat, data: seq<byte>, junk: Junk)
    requires Legal(fs, t, OpWrite(no, pos, data, junk))
    ensures var fs' := Write(fs, no, pos, data, junk); var s := SlotOf(no);
            && s + 2 < BLOCKS && s < SLOTS && |fs.blocks[s + 2].bytes| == BLOCK_SIZE && Represents(fs', t)
            && fs'.store[s].size == pos + |data|
            && |fs'.blocks[s + 2].bytes| == BLOCK_SIZE
            && fs'.blocks[s + 2].bytes[..fs'.store[s].size] == fs.blocks[s + 2].bytes[..pos] + data
  {
    WriteKeeps(fs, no, pos, data, junk, t);
    assert BlockShape(fs.blocks[SlotOf(no) + 2]);
  }
}
