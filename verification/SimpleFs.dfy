/** A small file system on disk: what is on the disk at every moment of every run of creates. */
module SimpleFs {
  import opened Basics

  const MAX_OBJECTS: nat := 64
  const START_INO: nat := 10
  const RESERVED_INODES: nat := 3
  /** Inodes of 32 bytes in a block of 4096. */
  const STORE_SLOTS: nat := 128
  const BLOCK_SIZE: nat := 4096
  /** A name of 255 bytes, padded, and an inode number. */
  const RECORD_SIZE: nat := 264
  /** The records a directory block has room for. */
  const RECORDS: nat := 15

  lemma RoomIff(count: nat)
    ensures (count + 1) * RECORD_SIZE <= BLOCK_SIZE <==> count < RECORDS
  {}

  datatype Mode = NoMode | Dir | Reg | Other

  /** `count` is the union of file size and number of children. */
  datatype Inode = Inode(mode: Mode, no: nat, block: nat, count: nat)
  datatype Record = Record(name: string, no: nat)

  /** `free` is the bit set free_blocks. */
  datatype SuperBlock = SuperBlock(inodesCount: nat, free: set<nat>)

  /** The super block, the inode store and the data blocks, read as directory blocks. */
  datatype Disk = Disk(sb: SuperBlock, store: seq<Inode>, blocks: seq<seq<Record>>)

  const ZERO_INODE := Inode(NoMode, 0, 0, 0)

  /** The number of the inode in store slot k: two are fixed by the format, the rest are counted from 10. */
  function NumberOf(k: nat): nat {
    if k < 2 then k + 1 else k + START_INO - RESERVED_INODES + 1
  }

  function SlotOf(no: nat): nat {
    if no < 10 then if no == 0 then STORE_SLOTS else no - 1 else no - 8
  }

  lemma NumbersAndSlots(k: nat, no: nat)
    ensures SlotOf(NumberOf(k)) == k
    ensures no != 0 && SlotOf(no) >= 2 && no >= 10 ==> NumberOf(SlotOf(no)) == no
  {}

  // ---------------------------------------------------------------- what a disk must satisfy

  /** Some inode below the on-disk count has this number. */
  predicate InStore(d: Disk, no: nat)
    requires d.sb.inodesCount <= |d.store|
  {
    exists j :: 0 <= j < d.sb.inodesCount && d.store[j].no == no
  }

  /**
   * What survives a crash: every inode's block is fixed by the format or marked used, written inodes
   * do not share blocks, and every record that a directory counts names an inode of the store.
   */
  predicate Consistent(d: Disk) {
    && d.sb.inodesCount <= |d.store|
    && (forall k | 0 <= k < d.sb.inodesCount :: d.store[k].block < 3 || d.store[k].block !in d.sb.free)
    && (forall j, k | 0 <= j < k < d.sb.inodesCount ::
          d.store[j].block != d.store[k].block || (d.store[j] == ZERO_INODE && d.store[k] == ZERO_INODE))
    && (forall k | 0 <= k < d.sb.inodesCount && d.store[k].mode.Dir? ::
          && d.store[k].block < |d.blocks| && d.store[k].count <= |d.blocks[d.store[k].block]|
          && forall r | 0 <= r < d.store[k].count :: InStore(d, d.blocks[d.store[k].block][r].no))
  }

  /** No two inodes share a block, slots never written included. */
  predicate StrictlyDisjoint(d: Disk) {
    && d.sb.inodesCount <= |d.store|
    && forall j, k | 0 <= j < k < d.sb.inodesCount :: d.store[j].block != d.store[k].block
  }

  /** The slot holds an inode. */
  predicate Written(i: Inode) {
    i != ZERO_INODE
  }

  /** A written slot k: its number follows from k, its block is a data block and not free. */
  predicate SlotOK(i: Inode, k: nat, free: set<nat>) {
    && i.no == NumberOf(k) && (i.mode.Dir? || i.mode.Reg?)
    && 2 <= i.block < MAX_OBJECTS && (i.block < 3 || i.block !in free)
  }

  predicate StoreOK(store: seq<Inode>, free: set<nat>) {
    && |store| == STORE_SLOTS
    && Written(store[0]) && store[0].mode.Dir?
    && (forall k | 0 <= k < STORE_SLOTS && Written(store[k]) :: SlotOK(store[k], k, free))
    && (forall j, k | 0 <= j < k < STORE_SLOTS && Written(store[j]) && Written(store[k]) ::
          store[j].block != store[k].block)
  }

  /** The record names a written slot below n. */
  predicate Names(store: seq<Inode>, n: nat, r: Record)
    requires n <= |store|
  {
    SlotOf(r.no) < n && store[SlotOf(r.no)].no == r.no
  }

  predicate DirOK(d: Disk, k: nat)
    requires k < |d.store| && d.sb.inodesCount <= |d.store|
  {
    d.store[k].mode.Dir? ==>
      && d.store[k].block < |d.blocks| && d.store[k].count <= |d.blocks[d.store[k].block]|
      && forall r | 0 <= r < d.store[k].count :: Names(d.store, d.sb.inodesCount, d.blocks[d.store[k].block][r])
  }

  /** The invariant behind Consistent; it also covers slots that are written but not yet counted. */
  predicate DiskOK(d: Disk) {
    && 2 <= d.sb.inodesCount <= MAX_OBJECTS
    && |d.blocks| == MAX_OBJECTS && (forall b | 0 <= b < MAX_OBJECTS :: |d.blocks[b]| == RECORDS)
    && StoreOK(d.store, d.sb.free)
    && (forall k | 0 <= k < STORE_SLOTS :: DirOK(d, k))
    && forall k | d.sb.inodesCount <= k < STORE_SLOTS && d.store[k].mode.Dir? :: d.store[k].count == 0
  }

  lemma DiskOKIsConsistent(d: Disk)
    requires DiskOK(d)
    ensures Consistent(d)
  {
    forall k | 0 <= k < d.sb.inodesCount
      ensures d.store[k].block < 3 || d.store[k].block !in d.sb.free
      ensures d.store[k].mode.Dir? ==>
                && d.store[k].block < |d.blocks| && d.store[k].count <= |d.blocks[d.store[k].block]|
                && forall r | 0 <= r < d.store[k].count :: InStore(d, d.blocks[d.store[k].block][r].no)
    {
      assert DirOK(d, k);
      assert Written(d.store[k]) ==> SlotOK(d.store[k], k, d.sb.free);
      if d.store[k].mode.Dir? {
        forall r | 0 <= r < d.store[k].count ensures InStore(d, d.blocks[d.store[k].block][r].no) {
          var rec := d.blocks[d.store[k].block][r];
          assert Names(d.store, d.sb.inodesCount, rec);
          assert d.store[SlotOf(rec.no)].no == rec.no;
        }
      }
    }
    forall j, k | 0 <= j < k < d.sb.inodesCount
      ensures d.store[j].block != d.store[k].block || (d.store[j] == ZERO_INODE && d.store[k] == ZERO_INODE)
    {
      assert Written(d.store[j]) ==> SlotOK(d.store[j], j, d.sb.free);
      assert Written(d.store[k]) ==> SlotOK(d.store[k], k, d.sb.free);
    }
  }

  /** Slots never written all claim block 0: blocks are disjoint exactly when at most one such slot is counted. */
  lemma StrictlyDisjointIff(d: Disk)
    requires DiskOK(d)
    ensures StrictlyDisjoint(d) <==>
            forall j, k | 0 <= j < k < d.sb.inodesCount :: Written(d.store[j]) || Written(d.store[k])
  {
    forall j, k | 0 <= j < k < d.sb.inodesCount
      ensures d.store[j].block == d.store[k].block <==> !Written(d.store[j]) && !Written(d.store[k])
    {
      assert Written(d.store[j]) ==> SlotOK(d.store[j], j, d.sb.free);
      assert Written(d.store[k]) ==> SlotOK(d.store[k], k, d.sb.free);
    }
  }

  // ---------------------------------------------------------------- the format

  function Below(n: nat): (r: set<nat>)
    ensures forall b: nat :: b in r <==> b < n
  {
    if n == 0 then {} else Below(n - 1) + {n - 1}
  }

  /** A freshly formatted, otherwise zeroed image: the root directory with one file in it. */
  predicate IsFormatted(d: Disk) {
    && d.sb == SuperBlock(2, Below(64) - {3})
    && |d.store| == STORE_SLOTS && |d.blocks| == MAX_OBJECTS
    && d.store[0] == Inode(Dir, 1, 2, 1) && d.store[1] == Inode(Reg, 2, 3, 41)
    && (forall k | 2 <= k < STORE_SLOTS :: d.store[k] == ZERO_INODE)
    && (forall b | 0 <= b < MAX_OBJECTS :: |d.blocks[b]| == RECORDS)
    && d.blocks[2][0] == Record("vanakkam", 2)
  }

  lemma FormattedIsOK(d: Disk)
    requires IsFormatted(d)
    ensures DiskOK(d) && StrictlyDisjoint(d)
  {
    assert Names(d.store, 2, d.blocks[2][0]);
    StrictlyDisjointIff(d);
  }

  // ---------------------------------------------------------------- the writes

  /** Marking a block used. */
  lemma FreeBlockTaken(d: Disk, b: nat)
    requires DiskOK(d)
    ensures DiskOK(d.(sb := d.sb.(free := d.sb.free - {b})))
  {
    var d' := d.(sb := d.sb.(free := d.sb.free - {b}));
    forall k | 0 <= k < STORE_SLOTS ensures DirOK(d', k) {
      assert DirOK(d, k);
    }
    forall k | 0 <= k < STORE_SLOTS && Written(d.store[k]) ensures SlotOK(d.store[k], k, d'.sb.free) {
      assert SlotOK(d.store[k], k, d.sb.free);
    }
  }

  /** No slot of the store claims block b. */
  predicate Unclaimed(store: seq<Inode>, b: nat) {
    forall k | 0 <= k < |store| :: store[k].block != b
  }

  /** Writing a new inode into the first slot that is not counted. */
  lemma InodeWritten(d: Disk, i: Inode, n: nat)
    requires DiskOK(d) && 2 <= n < STORE_SLOTS
    requires SlotOK(i, n, d.sb.free) && i.count == 0 && Unclaimed(d.store, i.block)
    ensures DiskOK(d.(store := d.store[n := i]))
  {
    var d' := d.(store := d.store[n := i]);
    forall k | 0 <= k < STORE_SLOTS ensures DirOK(d', k) {
      assert DirOK(d, k);
      if k != n && d.store[k].mode.Dir? {
        forall r | 0 <= r < d.store[k].count ensures Names(d'.store, d.sb.inodesCount, d.blocks[d.store[k].block][r]) {
          var rec := d.blocks[d.store[k].block][r];
          assert Names(d.store, d.sb.inodesCount, rec);
          assert SlotOf(rec.no) == n ==> SlotOK(d.store[n], n, d.sb.free);
        }
      }
    }
    forall k | 0 <= k < STORE_SLOTS && Written(d'.store[k]) ensures SlotOK(d'.store[k], k, d.sb.free) {
      assert k != n ==> SlotOK(d.store[k], k, d.sb.free);
    }
  }

  /** Counting one more slot. */
  lemma SlotCounted(d: Disk)
    requires DiskOK(d) && d.sb.inodesCount < MAX_OBJECTS
    ensures DiskOK(d.(sb := d.sb.(inodesCount := d.sb.inodesCount + 1)))
  {
    var d' := d.(sb := d.sb.(inodesCount := d.sb.inodesCount + 1));
    forall k | 0 <= k < STORE_SLOTS ensures DirOK(d', k) {
      assert DirOK(d, k);
      if d.store[k].mode.Dir? {
        forall r | 0 <= r < d.store[k].count ensures Names(d.store, d'.sb.inodesCount, d.blocks[d.store[k].block][r]) {
          assert Names(d.store, d.sb.inodesCount, d.blocks[d.store[k].block][r]);
        }
      }
    }
  }

  function PutRecord(d: Disk, b: nat, r: nat, rec: Record): Disk
    requires b < |d.blocks| && r < |d.blocks[b]|
  {
    d.(blocks := d.blocks[b := d.blocks[b][r := rec]])
  }

  /** Writing a record behind those that the directory counts disturbs no directory. */
  lemma RecordWritten(d: Disk, ps: nat, rec: Record)
    requires DiskOK(d) && ps < STORE_SLOTS && d.store[ps].mode.Dir? && d.store[ps].count < RECORDS
    ensures d.store[ps].block < |d.blocks|
    ensures DiskOK(PutRecord(d, d.store[ps].block, d.store[ps].count, rec))
    ensures forall k | 0 <= k < STORE_SLOTS ::
              Listing(PutRecord(d, d.store[ps].block, d.store[ps].count, rec), k) == Listing(d, k)
  {
    assert DirOK(d, ps);
    var d' := PutRecord(d, d.store[ps].block, d.store[ps].count, rec);
    forall k | 0 <= k < STORE_SLOTS ensures DirOK(d', k) && Listing(d', k) == Listing(d, k) {
      assert DirOK(d, k);
      if d.store[k].mode.Dir? {
        forall r | 0 <= r < d.store[k].count
          ensures d'.blocks[d.store[k].block][r] == d.blocks[d.store[k].block][r]
          ensures Names(d.store, d.sb.inodesCount, d.blocks[d.store[k].block][r])
        {
        }
      }
    }
  }

  /** The records that the directory in slot k counts; nothing for a slot that is no directory. */
  function Listing(d: Disk, k: nat): seq<Record> {
    if k < |d.store| && d.store[k].mode.Dir? && d.store[k].block < |d.blocks|
       && d.store[k].count <= |d.blocks[d.store[k].block]|
    then d.blocks[d.store[k].block][..d.store[k].count]
    else []
  }

  /** Every directory lists in d' what it lists in d, and possibly more behind it. */
  predicate ListsGrow(d: Disk, d': Disk) {
    forall k | 0 <= k < STORE_SLOTS :: Listing(d, k) <= Listing(d', k)
  }

  lemma SameGrows(d: Disk, d': Disk)
    requires forall k | 0 <= k < STORE_SLOTS :: Listing(d', k) == Listing(d, k)
    ensures ListsGrow(d, d')
  {
    hide Listing;
  }

  lemma GrowsThrough(a: Disk, b: Disk, c: Disk)
    requires ListsGrow(a, b) && ListsGrow(b, c)
    ensures ListsGrow(a, c)
  {
    hide Listing;
    forall k | 0 <= k < STORE_SLOTS ensures Listing(a, k) <= Listing(c, k) {
      assert Listing(a, k) <= Listing(b, k) <= Listing(c, k);
    }
  }

  lemma SuperBlockListsNothing(d: Disk, sb: SuperBlock)
    ensures ListsGrow(d, d.(sb := sb))
  {}

  /** A new inode in the first uncounted slot lists nothing, like what was there before. */
  lemma NewInodeListsNothing(d: Disk, i: Inode)
    requires DiskOK(d) && i.count == 0
    ensures d.sb.inodesCount < |d.store|
    ensures forall k | 0 <= k < STORE_SLOTS :: Listing(d.(store := d.store[d.sb.inodesCount := i]), k) == Listing(d, k)
  {
    var n := d.sb.inodesCount;
    StoreLength(d);
    UncountedIsEmpty(d);
    hide DiskOK;
    var d' := d.(store := d.store[n := i]);
    SameListings(d', d, n);
    EmptyDirectory(d', n);
  }

  /** Counting the record in the parent's inode. */
  lemma RecordCounted(d: Disk, ps: nat, rec: Record)
    requires DiskOK(d) && ps < d.sb.inodesCount && ps < STORE_SLOTS && d.store[ps].mode.Dir? && d.store[ps].count < RECORDS
    requires d.store[ps].block < |d.blocks| && d.blocks[d.store[ps].block][d.store[ps].count] == rec
    requires Names(d.store, d.sb.inodesCount, rec)
    ensures var d' := d.(store := d.store[ps := d.store[ps].(count := d.store[ps].count + 1)]);
            && DiskOK(d')
            && Listing(d', ps) == Listing(d, ps) + [rec]
            && forall k | 0 <= k < STORE_SLOTS && k != ps :: Listing(d', k) == Listing(d, k)
  {
    var p := d.store[ps].(count := d.store[ps].count + 1);
    var d' := d.(store := d.store[ps := p]);
    CountChanges(d.store, d.sb.free, ps, p);
    assert DirOK(d, ps);
    CountLists(d, ps, rec);
    hide StoreOK, Listing;
    forall k | 0 <= k < STORE_SLOTS ensures DirOK(d', k) {
      assert DirOK(d, k);
      if d.store[k].mode.Dir? {
        forall r | 0 <= r < d.store[k].count ensures Names(d'.store, d.sb.inodesCount, d.blocks[d.store[k].block][r]) {
          assert Names(d.store, d.sb.inodesCount, d.blocks[d.store[k].block][r]);
        }
      }
    }
  }

  lemma CountLists(d: Disk, ps: nat, rec: Record)
    requires |d.store| == STORE_SLOTS && ps < STORE_SLOTS && d.store[ps].mode.Dir? && d.store[ps].block < |d.blocks|
    requires d.store[ps].count < |d.blocks[d.store[ps].block]| && d.blocks[d.store[ps].block][d.store[ps].count] == rec
    ensures var d' := d.(store := d.store[ps := d.store[ps].(count := d.store[ps].count + 1)]);
            && Listing(d', ps) == Listing(d, ps) + [rec]
            && forall k | 0 <= k < STORE_SLOTS && k != ps :: Listing(d', k) == Listing(d, k)
  {}

  /** Only the number of children of one directory changes. */
  lemma CountChanges(store: seq<Inode>, free: set<nat>, ps: nat, p: Inode)
    requires StoreOK(store, free) && ps < STORE_SLOTS && store[ps].mode.Dir?
    requires p == store[ps].(count := p.count)
    ensures StoreOK(store[ps := p], free)
  {
    var store' := store[ps := p];
    assert Written(store[ps]) && SlotOK(store[ps], ps, free);
    forall k | 0 <= k < STORE_SLOTS && Written(store'[k]) ensures SlotOK(store'[k], k, free) {
      assert k != ps ==> SlotOK(store[k], k, free);
    }
  }

  // ---------------------------------------------------------------- looking a name up

  function Find(l: seq<Record>, name: string): Option<nat> {
    if l == [] then None
    else if l[0].name == name then Some(l[0].no)
    else Find(l[1..], name)
  }

  /** What was found stays found, with the same inode, when records are added behind. */
  lemma {:induction false} FindStable(l: seq<Record>, more: seq<Record>, name: string)
    ensures Find(l, name).Some? ==> Find(l + more, name) == Find(l, name)
    ensures Find(l, name).None? ==> Find(l + more, name) == Find(more, name)
  {
    if l == [] {
      assert l + more == more;
    } else {
      assert (l + more)[1..] == l[1..] + more;
      FindStable(l[1..], more, name);
    }
  }

  // ---------------------------------------------------------------- the mounted file system

  /** Each inode in memory is a copy of the counted slot that its number stands for. */
  predicate CacheOK(mem: map<nat, Inode>, store: seq<Inode>, n: nat) {
    forall no | no in mem ::
      SlotOf(no) < n && SlotOf(no) < |store| && mem[no] == store[SlotOf(no)] && mem[no].no == no
  }

  lemma CacheHit(mem: map<nat, Inode>, store: seq<Inode>, n: nat, no: nat)
    requires CacheOK(mem, store, n) && no in mem && n <= STORE_SLOTS
    ensures SlotOf(no) < n && SlotOf(no) < |store| && mem[no] == store[SlotOf(no)] && mem[no].no == no && no != 0
  {}

  lemma NewIsNamed(store: seq<Inode>, n: nat, name: string)
    requires n < |store| && store[n].no == NumberOf(n)
    ensures Names(store, n + 1, Record(name, NumberOf(n)))
  {}

  lemma CacheAfterCreate(mem: map<nat, Inode>, store: seq<Inode>, n: nat, dir: nat, parent: Inode, inode: Inode)
    requires CacheOK(mem, store, n) && dir in mem && n < |store| && 2 <= n
    requires parent.no == dir && inode.no == NumberOf(n)
    ensures SlotOf(dir) < n
    ensures CacheOK(mem[dir := parent][inode.no := inode], store[n := inode][SlotOf(dir) := parent], n + 1)
  {}

  /** Overrun: the record would lie across the end of the directory block. */
  datatype Result = Created(no: nat) | NoSpace | Invalid | Overrun

  /** Which of its chances to write the dirty store buffer back the kernel takes during a create. */
  datatype Writebacks = Writebacks(beforeCount: bool, afterCount: bool, afterRecord: bool)

  /**
   * The caches of the kernel above the disk. Super block and data blocks are written through; the
   * inode store has a buffer that may be dirty. `history` holds every state the disk has been in,
   * so a crash can leave any of its elements behind.
   */
  class FileSystem {
    var sb: SuperBlock
    var store: seq<Inode>
    var dirty: bool
    var mem: map<nat, Inode>
    var disk: Disk
    var history: seq<Disk>
    ghost var crashes: nat

    /** What holds whenever the disk may be looked at, in the middle of an operation too. */
    ghost predicate Safe()
      reads this
    {
      && history != [] && history[|history| - 1] == disk
      && (forall i | 0 <= i < |history| :: DiskOK(history[i]))
      && (crashes == 0 ==> forall i | 0 <= i < |history| :: StrictlyDisjoint(history[i]))
      && (forall i, j | 0 <= i <= j < |history| :: ListsGrow(history[i], history[j]))
    }

    /** What holds between operations: nothing is dirty, and the inodes in memory are those of the store. */
    ghost predicate Valid()
      reads this
    {
      && Safe()
      && sb == disk.sb && store == disk.store && !dirty
      && (crashes == 0 ==> forall k | 0 <= k < sb.inodesCount :: Written(store[k]))
      && 1 in mem && CacheOK(mem, store, sb.inodesCount)
    }

    /** Mounting a formatted image. */
    constructor (image: Disk)
      requires IsFormatted(image)
      ensures Valid() && Safe() && crashes == 0 && history == [image] && disk == image && mem == map[1 := image.store[0]]
    {
      FormattedIsOK(image);
      sb, store, disk := image.sb, image.store, image;
      dirty := false;
      mem := map[1 := image.store[0]];
      history, crashes := [image], 0;
    }

    /** Power is lost at some point of the run so far, and the image left behind is mounted again. */
    method CrashAndMount(at: nat)
      requires Safe() && at < |history|
      modifies this
      ensures Valid() && disk == old(history)[at] && mem == map[1 := disk.store[0]]
      ensures history == old(history)[..at + 1] && crashes == old(crashes) + 1
    {
      disk := history[at];
      sb, store, dirty := disk.sb, disk.store, false;
      mem := map[1 := store[0]];
      history := history[..at + 1];
      crashes := crashes + 1;
      assert SlotOK(store[0], 0, sb.free);
    }

    // -------------------------------------------------------------- writes to the disk

    /** One physical write; each one is a possible last state before a crash. */
    method Write(d: Disk)
      requires Safe() && DiskOK(d) && (crashes == 0 ==> StrictlyDisjoint(d)) && ListsGrow(disk, d)
      modifies this`disk, this`history
      ensures Safe() && disk == d && history == old(history) + [d]
    {
      hide ListsGrow, DiskOK, StrictlyDisjoint;
      forall i | 0 <= i < |history| ensures ListsGrow(history[i], d) {
        GrowsThrough(history[i], disk, d);
      }
      assert ListsGrow(d, d) by { SameGrows(d, d); }
      disk := d;
      history := history + [d];
    }

    /** simplefs_sb_sync */
    method SbSync()
      requires Safe()
      requires DiskOK(disk.(sb := sb)) && (crashes == 0 ==> StrictlyDisjoint(disk.(sb := sb)))
      modifies this`disk, this`history
      ensures Safe() && disk == old(disk).(sb := sb) && history == old(history) + [disk]
    {
      SuperBlockListsNothing(disk, sb);
      Write(disk.(sb := sb));
    }

    /** A dirty buffer may be written back by the kernel at any time. */
    method MaybeWriteback(now: bool)
      requires Safe()
      requires dirty ==>
                 && DiskOK(disk.(store := store)) && (crashes == 0 ==> StrictlyDisjoint(disk.(store := store)))
                 && ListsGrow(disk, disk.(store := store))
      modifies this`disk, this`history, this`dirty
      ensures Safe() && old(history) <= history
      ensures if old(dirty) && now then !dirty && disk == old(disk).(store := store)
              else dirty == old(dirty) && disk == old(disk) && history == old(history)
    {
      if now && dirty {
        Write(disk.(store := store));
        dirty := false;
      }
    }

    /** simplefs_sb_get_a_freeblock: the lowest free block from 3 on. */
    method GetFreeBlock() returns (r: Option<nat>)
      requires Valid()
      modifies this`sb, this`disk, this`history
      ensures Safe() && old(history) <= history
      ensures r.None? ==> sb == old(sb) && disk == old(disk) && forall b | 3 <= b < MAX_OBJECTS :: b !in sb.free
      ensures r.Some? ==>
                && 3 <= r.value < MAX_OBJECTS && r.value in old(sb.free)
                && (forall b | 3 <= b < r.value :: b !in old(sb.free))
                && sb == old(sb).(free := old(sb.free) - {r.value}) && disk == old(disk).(sb := sb)
    {
      var i := 3;
      while i < MAX_OBJECTS && i !in sb.free
        invariant 3 <= i <= MAX_OBJECTS
        invariant forall b | 3 <= b < i :: b !in sb.free
      {
        i := i + 1;
      }
      if i == MAX_OBJECTS {
        return None;
      }
      FreeBlockTaken(disk, i);
      sb := sb.(free := sb.free - {i});
      SbSync();
      return Some(i);
    }

    // -------------------------------------------------------------- the inode store

    /** simplefs_inode_add: the store buffer becomes dirty, the super block is written. */
    method InodeAdd(i: Inode, wb: Writebacks)
      requires Safe() && sb == disk.sb && store == disk.store && !dirty
      requires sb.inodesCount < MAX_OBJECTS
      requires SlotOK(i, sb.inodesCount, sb.free) && i.count == 0 && Unclaimed(store, i.block)
      requires crashes == 0 ==> forall k | 0 <= k < sb.inodesCount :: Written(store[k])
      modifies this`sb, this`store, this`dirty, this`disk, this`history
      ensures Safe() && old(history) <= history
      ensures sb == old(sb).(inodesCount := old(sb.inodesCount) + 1) && store == old(store)[old(sb.inodesCount) := i]
      ensures disk.sb == sb && disk.blocks == old(disk.blocks) && (disk.store == old(store) || disk.store == store)
      ensures DiskOK(disk.(store := store)) && (crashes == 0 ==> StrictlyDisjoint(disk.(store := store)))
      ensures forall k | 0 <= k < STORE_SLOTS :: Listing(disk, k) == Listing(disk.(store := store), k) == old(Listing(disk, k))
      ensures !wb.beforeCount ==> old(disk).(sb := sb) in history
    {
      hide DiskOK, StrictlyDisjoint, SlotOK, Unclaimed, ListsGrow;
      var n := sb.inodesCount;
      ghost var before := disk;
      StoreLength(disk);
      AddingIsSafe(disk, i, crashes == 0);
      store := store[n := i];
      sb := sb.(inodesCount := sb.inodesCount + 1);
      dirty := true;
      NewSlotLists(before, i, sb);
      MaybeWriteback(wb.beforeCount);
      assert before.(sb := sb).(store := store) == before.(store := store).(sb := sb);
      SbSync();
      assert disk in history by { assert history[|history| - 1] == disk; }
      ghost var counted := history;
      MaybeWriteback(wb.afterCount);
      assert !wb.beforeCount ==> before.(sb := sb) in counted;
      StaysIn(before.(sb := sb), counted, history);
    }

    /** simplefs_inode_search: the first slot with the number, up to one slot behind the counted ones. */
    method InodeSearch(no: nat) returns (r: Option<nat>)
      requires sb.inodesCount < |store|
      ensures r.Some? ==> r.value <= sb.inodesCount && store[r.value].no == no
      ensures forall k | 0 <= k <= sb.inodesCount && (r.None? || k < r.value) :: store[k].no != no
    {
      var k := 0;
      while store[k].no != no && k < sb.inodesCount
        invariant 0 <= k <= sb.inodesCount
        invariant forall j | 0 <= j < k :: store[j].no != no
        decreases sb.inodesCount - k
      {
        k := k + 1;
      }
      return if store[k].no == no then Some(k) else None;
    }

    /** simplefs_get_inode */
    method GetInode(no: nat) returns (r: Option<Inode>)
      requires sb.inodesCount <= |store|
      ensures r.None? ==> forall k | 0 <= k < sb.inodesCount :: store[k].no != no
      ensures r.Some? ==> exists k :: 0 <= k < sb.inodesCount && r.value == store[k] && store[k].no == no
                                      && forall j | 0 <= j < k :: store[j].no != no
    {
      var i := 0;
      while i < sb.inodesCount
        invariant 0 <= i <= sb.inodesCount
        invariant forall j | 0 <= j < i :: store[j].no != no
      {
        if store[i].no == no {
          return Some(store[i]);
        }
        i := i + 1;
      }
      return None;
    }

    /** simplefs_inode_save: false is -EIO. */
    method InodeSave(i: Inode) returns (ok: bool)
      requires Safe() && sb.inodesCount < |store|
      requires forall k | 0 <= k <= sb.inodesCount && store[k].no == i.no ::
                 && DiskOK(disk.(store := store[k := i]))
                 && (crashes == 0 ==> StrictlyDisjoint(disk.(store := store[k := i])))
                 && ListsGrow(disk, disk.(store := store[k := i]))
      modifies this`store, this`dirty, this`disk, this`history
      ensures Safe() && old(history) <= history
      ensures ok <==> exists k :: 0 <= k <= sb.inodesCount && old(store)[k].no == i.no
      ensures !ok ==> store == old(store) && disk == old(disk)
      ensures ok ==> exists k :: && 0 <= k <= sb.inodesCount && old(store)[k].no == i.no
                                 && store == old(store)[k := i] && disk == old(disk).(store := store) && !dirty
    {
      hide DiskOK, StrictlyDisjoint, ListsGrow;
      var r := InodeSearch(i.no);
      if r.None? {
        return false;
      }
      store := store[r.value := i];
      dirty := true;
      Write(disk.(store := store));
      dirty := false;
      return true;
    }

    // -------------------------------------------------------------- creating and looking up

    /**
     * simplefs_create_fs_object: bitmap, inode store, directory record, parent inode, in that order.
     * Room for the record is not checked; what follows an Overrun is outside the model.
     */
    method Create(dir: nat, name: string, mode: Mode, wb: Writebacks) returns (r: Result)
      requires Valid() && dir in mem && mem[dir].mode.Dir?
      modifies this
      ensures Safe() && (!r.Overrun? ==> Valid()) && old(history) <= history && crashes == old(crashes)
      ensures r == if old(sb.inodesCount) >= MAX_OBJECTS then NoSpace
                   else if !mode.Dir? && !mode.Reg? then Invalid
                   else if forall b | 3 <= b < MAX_OBJECTS :: b !in old(sb.free) then NoSpace
                   else if old(mem[dir].count) >= RECORDS then Overrun
                   else Created(NumberOf(old(sb.inodesCount)))
      ensures r.NoSpace? || r.Invalid? ==> disk == old(disk) && mem == old(mem)
      ensures r.Overrun? ==> forall k | 0 <= k < STORE_SLOTS :: Listing(disk, k) == old(Listing(disk, k))
      ensures r.Created? ==>
                && disk.sb.inodesCount == old(sb.inodesCount) + 1
                && Listing(disk, SlotOf(dir)) == old(Listing(disk, SlotOf(dir))) + [Record(name, r.no)]
                && (forall k | 0 <= k < STORE_SLOTS && k != SlotOf(dir) :: Listing(disk, k) == old(Listing(disk, k)))
                && mem.Keys == old(mem.Keys) + {r.no} && mem[r.no].mode == mode && mem[r.no].count == 0
                && mem[dir] == old(mem[dir]).(count := old(mem[dir].count) + 1)
      ensures r.Created? ==>
                && 3 <= mem[r.no].block < MAX_OBJECTS && sb.free == old(sb.free) - {mem[r.no].block}
                && mem[r.no].block in old(sb.free) && forall b | 3 <= b < mem[r.no].block :: b !in old(sb.free)
      ensures r.Created? && !wb.beforeCount ==> old(disk).(sb := sb) in history
    {
      hide DiskOK, StrictlyDisjoint, Listing, CacheOK, SlotOK, Unclaimed, Names, ListsGrow;
      var count := sb.inodesCount;
      if count >= MAX_OBJECTS {
        return NoSpace;
      }
      if !mode.Dir? && !mode.Reg? {
        return Invalid;
      }
      var no := count + START_INO - RESERVED_INODES + 1;
      ghost var d0 := disk;
      StoreLength(d0);
      var block := GetFreeBlock();
      if block.None? {
        return NoSpace;
      }
      var inode := Inode(mode, no, block.value, 0);
      FreeMeansUnclaimed(d0, block.value);
      NewSlotOK(inode, count, sb.free);
      SameLists(d0, disk);
      r := AddAndLink(dir, name, inode, wb);
    }

    /** The second half: the new inode in its slot, then the record and the parent's count. */
    method AddAndLink(dir: nat, name: string, inode: Inode, wb: Writebacks) returns (r: Result)
      requires Safe() && sb == disk.sb && store == disk.store && !dirty && 2 <= sb.inodesCount < MAX_OBJECTS
      requires SlotOK(inode, sb.inodesCount, sb.free) && inode.count == 0 && Unclaimed(store, inode.block)
      requires crashes == 0 ==> forall k | 0 <= k < sb.inodesCount :: Written(store[k])
      requires 1 in mem && CacheOK(mem, store, sb.inodesCount) && dir in mem && mem[dir].mode.Dir?
      modifies this
      ensures Safe() && (!r.Overrun? ==> Valid()) && old(history) <= history && crashes == old(crashes)
      ensures sb == old(sb).(inodesCount := old(sb.inodesCount) + 1)
      ensures r == if old(mem[dir].count) >= RECORDS then Overrun else Created(inode.no)
      ensures r.Overrun? ==> forall k | 0 <= k < STORE_SLOTS :: Listing(disk, k) == old(Listing(disk, k))
      ensures r.Created? ==>
                && Listing(disk, SlotOf(dir)) == old(Listing(disk, SlotOf(dir))) + [Record(name, r.no)]
                && (forall k | 0 <= k < STORE_SLOTS && k != SlotOf(dir) :: Listing(disk, k) == old(Listing(disk, k)))
                && dir != r.no && SlotOf(dir) < STORE_SLOTS
                && mem == old(mem)[dir := old(mem)[dir].(count := old(mem)[dir].count + 1)][r.no := inode]
      ensures !wb.beforeCount ==> old(disk).(sb := sb) in history
    {
      hide DiskOK, StrictlyDisjoint, Listing, CacheOK, SlotOK, Unclaimed, Names, ListsGrow;
      ghost var d := disk;
      StoreLength(d);
      SlotNumber(inode, sb.inodesCount, sb.free);
      InodeAdd(inode, wb);
      if mem[dir].count >= RECORDS {
        return Overrun;
      }
      ReadyToLink(d, mem, dir, name, inode);
      ghost var added := history;
      Link(dir, name, inode.no, wb);
      StaysIn(d.(sb := sb), added, history);
      mem := mem[inode.no := inode];
      return Created(inode.no);
    }

    /** simplefs_lookup: the first record of that name; its inode is always in the store. */
    method Lookup(dir: nat, name: string) returns (r: Option<nat>)
      requires Valid() && dir in mem && mem[dir].mode.Dir?
      modifies this`mem
      ensures Valid()
      ensures r == Find(Listing(disk, SlotOf(dir)), name)
      ensures r.None? ==> mem == old(mem)
      ensures r.Some? ==> SlotOf(r.value) < |store| && mem == old(mem)[r.value := store[SlotOf(r.value)]]
    {
      hide DiskOK, StrictlyDisjoint, Names, CacheOK;
      var parent := mem[dir];
      StoreLength(disk);
      CacheHit(mem, store, sb.inodesCount, dir);
      ListingOf(disk, SlotOf(dir));
      var records := disk.blocks[parent.block];
      ghost var l := Listing(disk, SlotOf(dir));
      var i := 0;
      assert l[0..] == l;
      while i < parent.count
        invariant 0 <= i <= parent.count && Find(l[i..], name) == Find(l, name)
      {
        var record := records[i];
        assert l[i] == record;
        assert l[i..][1..] == l[i + 1..];
        if record.name == name {
          var inode := GetInode(record.no);
          FoundInode(disk, record, inode);
          CacheFilled(mem, store, sb.inodesCount, record);
          mem := mem[record.no := inode.value];
          return Some(record.no);
        }
        i := i + 1;
      }
      assert l[i..] == [];
      return None;
    }

    /** The directory record, then the parent's inode; the second write also brings the new inode to the disk. */
    method Link(dir: nat, name: string, no: nat, wb: Writebacks)
      requires Safe() && |store| == |disk.store| == STORE_SLOTS && sb.inodesCount < STORE_SLOTS && disk.sb == sb
      requires DiskOK(disk.(store := store)) && (crashes == 0 ==> StrictlyDisjoint(disk.(store := store)))
      requires forall k | 0 <= k < STORE_SLOTS :: Listing(disk, k) == Listing(disk.(store := store), k)
      requires dir in mem && dir != 0 && SlotOf(dir) < sb.inodesCount
      requires store[SlotOf(dir)] == disk.store[SlotOf(dir)] == mem[dir] && mem[dir].no == dir
      requires mem[dir].mode.Dir? && mem[dir].count < RECORDS
      requires Names(store, sb.inodesCount, Record(name, no))
      modifies this`mem, this`store, this`dirty, this`disk, this`history
      ensures Safe() && old(history) <= history
      ensures mem == old(mem)[dir := old(mem)[dir].(count := old(mem)[dir].count + 1)]
      ensures store == old(store)[SlotOf(dir) := mem[dir]] && disk.store == store && disk.sb == sb && !dirty
      ensures && Listing(disk, SlotOf(dir)) == old(Listing(disk, SlotOf(dir))) + [Record(name, no)]
              && forall k | 0 <= k < STORE_SLOTS && k != SlotOf(dir) :: Listing(disk, k) == old(Listing(disk, k))
    {
      hide DiskOK, StrictlyDisjoint, Listing, ListsGrow, Names;
      var parent := mem[dir];
      var rec := Record(name, no);
      ghost var ps, d1 := SlotOf(dir), disk.(store := store);
      RecordIsSafe(disk, store, ps, rec, crashes == 0);
      Write(PutRecord(disk, parent.block, parent.count, rec));
      MaybeWriteback(wb.afterRecord);
      parent := parent.(count := parent.count + 1);
      mem := mem[dir := parent];
      forall k | 0 <= k <= sb.inodesCount && store[k].no == dir ensures k == ps {
        OnlySlot(d1, k);
      }
      assert store[ps].no == dir;
      var ok := InodeSave(parent);
    }
  }

  lemma SlotNumber(i: Inode, n: nat, free: set<nat>)
    requires SlotOK(i, n, free)
    ensures i.no == NumberOf(n) && Written(i)
  {}

  lemma StaysIn(d: Disk, h: seq<Disk>, h': seq<Disk>)
    requires h <= h'
    ensures d in h ==> d in h'
  {}

  lemma SameLists(d: Disk, d': Disk)
    requires d'.store == d.store && d'.blocks == d.blocks
    ensures forall k | 0 <= k < STORE_SLOTS :: Listing(d', k) == Listing(d, k)
  {}

  /** The four disk states around simplefs_inode_add list the same. */
  lemma NewSlotLists(d: Disk, i: Inode, sb': SuperBlock)
    requires DiskOK(d) && i.count == 0 && d.sb.inodesCount < |d.store|
    ensures var d1 := d.(store := d.store[d.sb.inodesCount := i]);
            && ListsGrow(d, d1) && ListsGrow(d.(sb := sb'), d1.(sb := sb'))
            && forall k | 0 <= k < STORE_SLOTS ::
                 Listing(d1, k) == Listing(d1.(sb := sb'), k) == Listing(d.(sb := sb'), k) == Listing(d, k)
  {
    var d1 := d.(store := d.store[d.sb.inodesCount := i]);
    NewInodeListsNothing(d, i);
    SameLists(d, d.(sb := sb'));
    SameLists(d1, d1.(sb := sb'));
    hide Listing;
    SameGrows(d, d1);
    SameGrows(d.(sb := sb'), d1.(sb := sb'));
  }

  /** What Link asks for, after the new inode has been added to the store. */
  lemma ReadyToLink(d: Disk, mem: map<nat, Inode>, dir: nat, name: string, inode: Inode)
    requires DiskOK(d) && CacheOK(mem, d.store, d.sb.inodesCount) && dir in mem
    requires inode.no == NumberOf(d.sb.inodesCount) && d.sb.inodesCount < |d.store| <= STORE_SLOTS
    ensures var n := d.sb.inodesCount;
            var store := d.store[n := inode];
            var parent := mem[dir].(count := mem[dir].count + 1);
            && SlotOf(dir) < n && store[SlotOf(dir)] == d.store[SlotOf(dir)] == mem[dir] && mem[dir].no == dir && dir != 0
            && Names(store, n + 1, Record(name, inode.no)) && inode.no !in mem
            && CacheOK(mem[dir := parent][inode.no := inode], store[SlotOf(dir) := parent], n + 1)
  {
    var n := d.sb.inodesCount;
    CacheHit(mem, d.store, n, dir);
    NewIsNamed(d.store[n := inode], n, name);
    NumbersAndSlots(n, 0);
    CacheAfterCreate(mem, d.store, n, dir, mem[dir].(count := mem[dir].count + 1), inode);
  }

  /** The four disk states around simplefs_inode_add. */
  lemma AddingIsSafe(d: Disk, i: Inode, strict: bool)
    requires DiskOK(d) && d.sb.inodesCount < MAX_OBJECTS
    requires SlotOK(i, d.sb.inodesCount, d.sb.free) && i.count == 0 && Unclaimed(d.store, i.block)
    requires strict ==> forall k | 0 <= k < d.sb.inodesCount :: Written(d.store[k])
    ensures var n := d.sb.inodesCount;
            var sb' := d.sb.(inodesCount := n + 1);
            var d1 := d.(store := d.store[n := i]);
            && DiskOK(d1) && DiskOK(d.(sb := sb')) && DiskOK(d1.(sb := sb'))
            && (strict ==> StrictlyDisjoint(d1) && StrictlyDisjoint(d.(sb := sb')) && StrictlyDisjoint(d1.(sb := sb')))
  {
    var n := d.sb.inodesCount;
    var d1 := d.(store := d.store[n := i]);
    var sb' := d.sb.(inodesCount := n + 1);
    InodeWritten(d, i, n);
    SlotCounted(d);
    SlotCounted(d1);
    hide DiskOK;
    assert |d.store| == STORE_SLOTS by { StoreLength(d); }
    StrictlyDisjointIff(d1);
    StrictlyDisjointIff(d.(sb := sb'));
    StrictlyDisjointIff(d1.(sb := sb'));
    assert Written(i);
  }

  /**
   * Starting a create on any mounted disk whose inodes have different blocks: of the disks it may leave,
   * only the one with the new count and the old store can break that, exactly if a counted slot is empty
   * and the next one is empty too.
   */
  lemma DisjointAfterAddIff(d: Disk, i: Inode)
    requires DiskOK(d) && StrictlyDisjoint(d) && d.sb.inodesCount < MAX_OBJECTS
    requires SlotOK(i, d.sb.inodesCount, d.sb.free) && i.count == 0 && Unclaimed(d.store, i.block)
    ensures var n := d.sb.inodesCount;
            var sb' := d.sb.(inodesCount := n + 1);
            var d1 := d.(store := d.store[n := i]);
            && n < |d.store| && StrictlyDisjoint(d1) && StrictlyDisjoint(d1.(sb := sb'))
            && (StrictlyDisjoint(d.(sb := sb')) <==>
                Written(d.store[n]) || forall k | 0 <= k < n :: Written(d.store[k]))
  {
    var n := d.sb.inodesCount;
    var d1 := d.(store := d.store[n := i]);
    StoreLength(d);
    AddingIsSafe(d, i, false);
    assert Written(i);
    StrictlyDisjointIff(d);
    StrictlyDisjointIff(d1);
    StrictlyDisjointIff(d.(sb := d.sb.(inodesCount := n + 1)));
    StrictlyDisjointIff(d1.(sb := d.sb.(inodesCount := n + 1)));
    hide DiskOK, SlotOK, Unclaimed;
  }

  lemma StoreLength(d: Disk)
    requires DiskOK(d)
    ensures |d.store| == STORE_SLOTS && d.sb.inodesCount <= MAX_OBJECTS
  {}

  lemma ListingOf(d: Disk, k: nat)
    requires DiskOK(d) && k < STORE_SLOTS && d.store[k].mode.Dir?
    ensures d.sb.inodesCount <= |d.store| && d.store[k].block < |d.blocks|
    ensures d.store[k].count <= |d.blocks[d.store[k].block]|
    ensures Listing(d, k) == d.blocks[d.store[k].block][..d.store[k].count]
    ensures forall r | 0 <= r < d.store[k].count :: Names(d.store, d.sb.inodesCount, d.blocks[d.store[k].block][r])
  {
    assert DirOK(d, k);
  }

  lemma CacheFilled(mem: map<nat, Inode>, store: seq<Inode>, n: nat, rec: Record)
    requires CacheOK(mem, store, n) && n <= |store| && Names(store, n, rec)
    ensures CacheOK(mem[rec.no := store[SlotOf(rec.no)]], store, n)
  {}

  lemma NewSlotOK(i: Inode, n: nat, free: set<nat>)
    requires i.no == NumberOf(n) && (i.mode.Dir? || i.mode.Reg?) && 3 <= i.block < MAX_OBJECTS && i.block !in free
    ensures SlotOK(i, n, free)
  {}

  /** A free block is not the block of any slot. */
  lemma FreeMeansUnclaimed(d: Disk, b: nat)
    requires DiskOK(d) && 3 <= b && b in d.sb.free
    ensures Unclaimed(d.store, b) && 2 <= d.sb.inodesCount
  {
    forall k | 0 <= k < |d.store| ensures d.store[k].block != b {
      assert Written(d.store[k]) ==> SlotOK(d.store[k], k, d.sb.free);
    }
  }

  /** The number of a written inode determines its slot. */
  lemma OnlySlot(d: Disk, k: nat)
    requires DiskOK(d) && k < STORE_SLOTS && d.store[k].no != 0
    ensures SlotOf(d.store[k].no) == k
  {
    assert Written(d.store[k]);
    assert SlotOK(d.store[k], k, d.sb.free);
  }

  lemma SameListings(d: Disk, d': Disk, n: nat)
    requires |d.store| == |d'.store| && d.blocks == d'.blocks
    requires forall k | 0 <= k < |d.store| && k != n :: d.store[k] == d'.store[k]
    ensures forall k: nat | k != n :: Listing(d, k) == Listing(d', k)
  {}

  lemma StrictlyDisjointFrame(d: Disk, d': Disk)
    requires StrictlyDisjoint(d) && d'.sb == d.sb && |d'.store| == |d.store|
    requires forall k | 0 <= k < |d.store| :: d'.store[k].block == d.store[k].block
    ensures StrictlyDisjoint(d')
  {}

  /** The record is written while the store buffer is s1, then the buffer is written with the parent's new count. */
  lemma RecordIsSafe(d: Disk, s1: seq<Inode>, ps: nat, rec: Record, strict: bool)
    requires DiskOK(d) && DiskOK(d.(store := s1))
    requires ps < d.sb.inodesCount <= STORE_SLOTS && |d.store| == |s1| == STORE_SLOTS && d.store[ps] == s1[ps]
    requires s1[ps].mode.Dir? && s1[ps].count < RECORDS
    requires strict ==> StrictlyDisjoint(d) && StrictlyDisjoint(d.(store := s1))
    requires forall k | 0 <= k < STORE_SLOTS :: Listing(d, k) == Listing(d.(store := s1), k)
    requires Names(s1, d.sb.inodesCount, rec)
    ensures s1[ps].block < |d.blocks| && s1[ps].count < |d.blocks[s1[ps].block]|
    ensures var p := s1[ps];
            var d2 := PutRecord(d, p.block, p.count, rec);
            var e2 := d2.(store := s1);
            var d3 := d2.(store := s1[ps := p.(count := p.count + 1)]);
            && DiskOK(d2) && DiskOK(e2) && DiskOK(d3)
            && (strict ==> StrictlyDisjoint(d2) && StrictlyDisjoint(e2) && StrictlyDisjoint(d3))
            && ListsGrow(d, d2) && ListsGrow(d2, e2) && ListsGrow(d2, d3) && ListsGrow(e2, d3)
            && Listing(d3, ps) == Listing(d, ps) + [rec]
            && forall k | 0 <= k < STORE_SLOTS && k != ps :: Listing(d3, k) == Listing(d, k)
  {
    hide DiskOK, StrictlyDisjoint, Listing, ListsGrow;
    var p := s1[ps];
    var d1 := d.(store := s1);
    RecordFits(d1, ps);
    RecordWritten(d, ps, rec);
    RecordWritten(d1, ps, rec);
    var d2 := PutRecord(d, p.block, p.count, rec);
    var e2 := PutRecord(d1, p.block, p.count, rec);
    RecordCounted(e2, ps, rec);
    var d3 := d2.(store := s1[ps := p.(count := p.count + 1)]);
    assert e2 == d2.(store := s1) && d3 == e2.(store := s1[ps := p.(count := p.count + 1)]);
    RecordGrows(d, d2, e2, d3, ps, rec);
    if strict {
      StrictlyDisjointFrame(d, d2);
      StrictlyDisjointFrame(d1, e2);
      StrictlyDisjointFrame(d1, d3);
    }
  }

  lemma RecordGrows(d: Disk, d2: Disk, e2: Disk, d3: Disk, ps: nat, rec: Record)
    requires forall k | 0 <= k < STORE_SLOTS :: Listing(d2, k) == Listing(d, k) && Listing(e2, k) == Listing(d, k)
    requires Listing(d3, ps) == Listing(e2, ps) + [rec]
    requires forall k | 0 <= k < STORE_SLOTS && k != ps :: Listing(d3, k) == Listing(e2, k)
    ensures ListsGrow(d, d2) && ListsGrow(d2, e2) && ListsGrow(d2, d3) && ListsGrow(e2, d3)
  {
    hide Listing;
  }

  lemma RecordFits(d: Disk, ps: nat)
    requires DiskOK(d) && ps < STORE_SLOTS && d.store[ps].mode.Dir? && d.store[ps].count < RECORDS
    ensures d.store[ps].block < |d.blocks| && d.store[ps].count < |d.blocks[d.store[ps].block]|
  {
    assert DirOK(d, ps);
  }

  /** The search through the store for a named inode ends at its slot. */
  lemma FoundInode(d: Disk, rec: Record, found: Option<Inode>)
    requires DiskOK(d) && Names(d.store, d.sb.inodesCount, rec)
    requires found.None? ==> forall k | 0 <= k < d.sb.inodesCount :: d.store[k].no != rec.no
    requires found.Some? ==> exists k :: 0 <= k < d.sb.inodesCount && found.value == d.store[k] && d.store[k].no == rec.no
    ensures SlotOf(rec.no) < |d.store| && found == Some(d.store[SlotOf(rec.no)])
  {
    assert rec.no != 0;
    if found.Some? {
      var k :| 0 <= k < d.sb.inodesCount && found.value == d.store[k] && d.store[k].no == rec.no;
      OnlySlot(d, k);
    }
  }

  // ---------------------------------------------------------------- whole runs

  datatype Request = Request(dir: nat, name: string, mode: Mode, wb: Writebacks)

  /** What became of a request, or of a crash; one at a write that never happened is skipped too. */
  datatype Outcome = Skipped | Crashed | Answered(result: Result)

  /** The map of first creations after one more result. */
  function Extended(m: map<(nat, string), nat>, q: Request, r: Outcome): map<(nat, string), nat> {
    if r.Answered? && r.result.Created? && (q.dir, q.name) !in m then m[(q.dir, q.name) := r.result.no] else m
  }

  /** What a run means: each pair of directory and name stands for the first inode created under it. */
  function FirstCreations(requests: seq<Request>, results: seq<Outcome>): map<(nat, string), nat>
    requires |requests| == |results|
  {
    if requests == [] then map[(1, "vanakkam") := 2]
    else
      var n := |requests| - 1;
      Extended(FirstCreations(requests[..n], results[..n]), requests[n], results[n])
  }

  /** The directory in slot k answers lookups as the map says. */
  predicate Answers(d: Disk, k: nat, m: map<(nat, string), nat>, name: string) {
    Find(Listing(d, k), name) == if (NumberOf(k), name) in m then Some(m[(NumberOf(k), name)]) else None
  }

  /** A run ends early only by an overrun. */
  predicate EndsBy(results: seq<Outcome>, asked: nat) {
    && |results| <= asked
    && (forall i | 0 <= i < |results| - 1 :: results[i] != Answered(Overrun))
    && (|results| < asked ==> results != [] && results[|results| - 1] == Answered(Overrun))
  }

  /**
   * Any run of creates on a formatted image, up to an overrun if there is one. A request for something
   * that is not known or is no directory is skipped. At every moment the disk was consistent and
   * no two inodes shared a block, slots have their numbers, and lookups refine the map of first creations.
   */
  method Run(image: Disk, requests: seq<Request>) returns (fs: FileSystem, results: seq<Outcome>)
    requires IsFormatted(image)
    ensures fresh(fs) && fs.Safe() && EndsBy(results, |requests|)
    ensures forall i | 0 <= i < |fs.history| :: Consistent(fs.history[i]) && StrictlyDisjoint(fs.history[i])
    ensures Answered(Overrun) !in results ==>
              && fs.Valid() && (forall k | 2 <= k < fs.sb.inodesCount :: fs.store[k].no == k + 8)
              && forall j, k | 0 <= j < k < fs.sb.inodesCount ::
                   fs.store[j].no != fs.store[k].no && fs.store[j].block != fs.store[k].block
    ensures forall k, name | 0 <= k < STORE_SLOTS ::
              Answers(fs.disk, k, FirstCreations(requests[..|results|], results), name)
  {
    hide DiskOK, StrictlyDisjoint, Listing, CacheOK, Answers, ListsGrow;
    fs := new FileSystem(image);
    results := [];
    FormattedAnswers(image);
    while |results| < |requests|
      invariant |results| <= |requests| && Answered(Overrun) !in results
      invariant fresh(fs) && fs.Valid() && fs.crashes == 0
      invariant forall k, name | 0 <= k < STORE_SLOTS ::
                  Answers(fs.disk, k, FirstCreations(requests[..|results|], results), name)
    {
      var i := |results|;
      var r := Answer(fs, requests[i], FirstCreations(requests[..i], results));
      ghost var before := results;
      results := results + [r];
      assert requests[..i + 1][..i] == requests[..i] && results[..i] == before;
      if r == Answered(Overrun) {
        break;
      }
    }
    AllConsistent(fs.history);
    if Answered(Overrun) !in results {
      AllSlotsWritten(fs.disk);
    }
  }

  method Answer(fs: FileSystem, q: Request, ghost m: map<(nat, string), nat>) returns (r: Outcome)
    requires fs.Valid()
    requires forall k, name | 0 <= k < STORE_SLOTS :: Answers(fs.disk, k, m, name)
    modifies fs
    ensures fs.Safe() && (r != Answered(Overrun) ==> fs.Valid()) && fs.crashes == old(fs.crashes)
    ensures forall k, name | 0 <= k < STORE_SLOTS :: Answers(fs.disk, k, Extended(m, q, r), name)
  {
    hide DiskOK, StrictlyDisjoint, Listing, CacheOK, ListsGrow, Answers;
    if q.dir !in fs.mem || !fs.mem[q.dir].mode.Dir? {
      return Skipped;
    }
    ghost var d0 := fs.disk;
    DirectoryNumber(fs.disk, fs.mem, q.dir);
    var c := fs.Create(q.dir, q.name, q.mode, q.wb);
    if c.Created? {
      AnswersAfterCreate(d0, fs.disk, SlotOf(q.dir), Record(q.name, c.no), m);
    } else {
      AnswersSame(d0, fs.disk, m);
    }
    return Answered(c);
  }

  lemma AllConsistent(h: seq<Disk>)
    requires forall i | 0 <= i < |h| :: DiskOK(h[i])
    ensures forall i | 0 <= i < |h| :: Consistent(h[i])
  {
    hide DiskOK, Consistent;
    forall i | 0 <= i < |h| ensures Consistent(h[i]) {
      DiskOKIsConsistent(h[i]);
    }
  }

  lemma WrittenSlots(d: Disk)
    requires DiskOK(d)
    ensures d.sb.inodesCount <= |d.store|
    ensures forall k | 0 <= k < |d.store| && Written(d.store[k]) :: d.store[k].no == NumberOf(k)
  {
    assert forall k | 0 <= k < |d.store| && Written(d.store[k]) :: SlotOK(d.store[k], k, d.sb.free);
  }

  // ---------------------------------------------------------------- runs with crashes

  datatype Event = Ask(request: Request) | Crash(at: nat)

  /** No later crash went back behind the disk that event e left. */
  predicate Survives(ends: seq<nat>, e: nat)
    requires e < |ends|
  {
    forall f | e < f < |ends| :: ends[e] <= ends[f]
  }

  /** Event e was a create and the caller was told that it succeeded. */
  predicate Reported(events: seq<Event>, results: seq<Outcome>, e: nat)
    requires e < |results| <= |events|
  {
    events[e].Ask? && results[e].Answered? && results[e].result.Created?
  }

  /** The record of a create that was reported and survives is in the disk that the create left. */
  predicate Recorded(history: seq<Disk>, events: seq<Event>, results: seq<Outcome>, ends: seq<nat>, e: nat)
    requires e < |ends| == |results| <= |events|
  {
    Reported(events, results, e) && Survives(ends, e) ==>
      var q := events[e].request;
      && 0 < ends[e] <= |history| && SlotOf(q.dir) < STORE_SLOTS
      && Record(q.name, results[e].result.no) in Listing(history[ends[e] - 1], SlotOf(q.dir))
  }

  /**
   * Any run of creates, crashes at any write so far and mounts of what they leave. Every disk on the way
   * is consistent, written slots have their numbers and blocks of their own, and what was reported as
   * created before the point of every later crash is still listed with its inode. `ends` is the length
   * of the history after each event.
   */
  method RunWithCrashes(image: Disk, events: seq<Event>)
    returns (fs: FileSystem, results: seq<Outcome>, ends: seq<nat>)
    requires IsFormatted(image)
    ensures fresh(fs) && fs.Safe() && |ends| == |results| && EndsBy(results, |events|)
    ensures forall i | 0 <= i < |fs.history| :: Consistent(fs.history[i])
    ensures forall k | 0 <= k < |fs.disk.store| && Written(fs.disk.store[k]) :: fs.disk.store[k].no == NumberOf(k)
    ensures forall e | 0 <= e < |results| :: results[e].Crashed? ==> events[e].Crash? && ends[e] == events[e].at + 1
    ensures forall e | 0 <= e < |results| && Reported(events, results, e) && Survives(ends, e) ::
              var q := events[e].request;
              && Record(q.name, results[e].result.no) in Listing(fs.disk, SlotOf(q.dir))
              && Find(Listing(fs.disk, SlotOf(q.dir)), q.name).Some?
  {
    hide DiskOK, StrictlyDisjoint, Listing, CacheOK, ListsGrow, Recorded, Survives, Find, Consistent;
    hide FileSystem.Safe, FileSystem.Valid;
    fs := new FileSystem(image);
    results, ends := [], [];
    while |results| < |events|
      invariant |ends| == |results| <= |events| && Answered(Overrun) !in results
      invariant fresh(fs) && fs.Valid() && fs.Safe()
      invariant forall e | 0 <= e < |results| :: results[e].Crashed? ==> events[e].Crash? && ends[e] == events[e].at + 1
      invariant forall e | 0 <= e < |results| :: Recorded(fs.history, events, results, ends, e)
    {
      var i := |results|;
      ghost var h, rs, es := fs.history, results, ends;
      var r := Happens(fs, events[i]);
      results, ends := results + [r], ends + [|fs.history|];
      OneMoreRecorded(h, fs.history, events, rs, es, r);
      if r == Answered(Overrun) {
        break;
      }
    }
    SafeHistory(fs);
    AllConsistent(fs.history);
    WrittenSlots(fs.disk);
    AllStillListed(fs.history, events, results, ends);
  }

  lemma SafeHistory(fs: FileSystem)
    requires fs.Safe()
    ensures fs.history != [] && fs.history[|fs.history| - 1] == fs.disk && DiskOK(fs.disk)
    ensures forall i | 0 <= i < |fs.history| :: DiskOK(fs.history[i])
    ensures forall i, j | 0 <= i <= j < |fs.history| :: ListsGrow(fs.history[i], fs.history[j])
  {
    hide DiskOK, StrictlyDisjoint, ListsGrow;
  }

  /** One event; the history goes on from where it was, or from the point of the crash. */
  method Happens(fs: FileSystem, ev: Event) returns (r: Outcome)
    requires fs.Valid()
    modifies fs
    ensures fs.Safe() && (r != Answered(Overrun) ==> fs.Valid()) && fs.history != []
    ensures ev.Ask? ==> old(fs.history) <= fs.history
    ensures ev.Crash? ==> fs.history == if ev.at < |old(fs.history)| then old(fs.history)[..ev.at + 1] else old(fs.history)
    ensures ev.Crash? ==> r == if ev.at < |old(fs.history)| then Crashed else Skipped
    ensures ev.Ask? ==> !r.Crashed?
    ensures ev.Ask? && r.Answered? && r.result.Created? ==>
              && SlotOf(ev.request.dir) < STORE_SLOTS
              && Record(ev.request.name, r.result.no) in Listing(fs.history[|fs.history| - 1], SlotOf(ev.request.dir))
  {
    hide DiskOK, StrictlyDisjoint, Listing, CacheOK, ListsGrow;
    match ev
    case Crash(at) =>
      if at < |fs.history| {
        fs.CrashAndMount(at);
        return Crashed;
      }
      return Skipped;
    case Ask(q) =>
      if q.dir !in fs.mem || !fs.mem[q.dir].mode.Dir? {
        return Skipped;
      }
      DirectoryNumber(fs.disk, fs.mem, q.dir);
      var c := fs.Create(q.dir, q.name, q.mode, q.wb);
      return Answered(c);
  }

  /** One more event keeps the records of those that it does not go back behind. */
  lemma StillRecorded(h: seq<Disk>, h': seq<Disk>, events: seq<Event>, results: seq<Outcome>, ends: seq<nat>, r: Outcome, e: nat)
    requires e < |ends| == |results| < |events| && Recorded(h, events, results, ends, e)
    requires h <= h' || h' <= h
    ensures Recorded(h', events, results + [r], ends + [|h'|], e)
  {
    hide Listing;
    var ends' := ends + [|h'|];
    if Survives(ends', e) {
      assert ends'[|ends|] == |h'|;
      assert forall f | e < f < |ends| :: ends'[f] == ends[f];
    }
  }

  lemma OneMoreRecorded(h: seq<Disk>, h': seq<Disk>, events: seq<Event>, results: seq<Outcome>, ends: seq<nat>, r: Outcome)
    requires |ends| == |results| < |events| && h' != [] && (h <= h' || h' <= h)
    requires forall e | 0 <= e < |results| :: Recorded(h, events, results, ends, e)
    requires var ev := events[|results|];
      ev.Ask? && r.Answered? && r.result.Created? ==>
        SlotOf(ev.request.dir) < STORE_SLOTS
        && Record(ev.request.name, r.result.no) in Listing(h'[|h'| - 1], SlotOf(ev.request.dir))
    ensures forall e | 0 <= e <= |results| :: Recorded(h', events, results + [r], ends + [|h'|], e)
  {
    hide Recorded, Listing;
    forall e | 0 <= e <= |results| ensures Recorded(h', events, results + [r], ends + [|h'|], e) {
      if e < |results| {
        StillRecorded(h, h', events, results, ends, r, e);
      } else {
        NewlyRecorded(h', events, results + [r], ends + [|h'|], e);
      }
    }
  }

  lemma AllStillListed(h: seq<Disk>, events: seq<Event>, results: seq<Outcome>, ends: seq<nat>)
    requires h != [] && forall i, j | 0 <= i <= j < |h| :: ListsGrow(h[i], h[j])
    requires |ends| == |results| <= |events|
    requires forall e | 0 <= e < |results| :: Recorded(h, events, results, ends, e)
    ensures forall e | 0 <= e < |results| && Reported(events, results, e) && Survives(ends, e) ::
              var q := events[e].request;
              var l := Listing(h[|h| - 1], SlotOf(q.dir));
              Record(q.name, results[e].result.no) in l && Find(l, q.name).Some?
  {
    hide Recorded, Listing, ListsGrow, Survives, Find;
    forall e | 0 <= e < |results| && Reported(events, results, e) && Survives(ends, e)
      ensures var q := events[e].request;
              var l := Listing(h[|h| - 1], SlotOf(q.dir));
              Record(q.name, results[e].result.no) in l && Find(l, q.name).Some?
    {
      StillListed(h, events, results, ends, e);
    }
  }

  lemma NewlyRecorded(h: seq<Disk>, events: seq<Event>, results: seq<Outcome>, ends: seq<nat>, e: nat)
    requires h != [] && e < |ends| == |results| <= |events| && ends[e] == |h|
    requires Reported(events, results, e) ==>
               && SlotOf(events[e].request.dir) < STORE_SLOTS
               && Record(events[e].request.name, results[e].result.no) in Listing(h[|h| - 1], SlotOf(events[e].request.dir))
    ensures Recorded(h, events, results, ends, e)
  {}

  lemma StillListed(h: seq<Disk>, events: seq<Event>, results: seq<Outcome>, ends: seq<nat>, e: nat)
    requires h != [] && forall i, j | 0 <= i <= j < |h| :: ListsGrow(h[i], h[j])
    requires e < |ends| == |results| <= |events| && Recorded(h, events, results, ends, e)
    requires Reported(events, results, e) && Survives(ends, e)
    ensures var q := events[e].request;
            var l := Listing(h[|h| - 1], SlotOf(q.dir));
            Record(q.name, results[e].result.no) in l && Find(l, q.name).Some?
  {
    hide Listing, Survives;
    var q := events[e].request;
    var i := ends[e] - 1;
    assert ListsGrow(h[i], h[|h| - 1]);
    FindListed(Listing(h[|h| - 1], SlotOf(q.dir)), Record(q.name, results[e].result.no));
  }

  lemma {:induction false} FindListed(l: seq<Record>, rec: Record)
    requires rec in l
    ensures Find(l, rec.name).Some?
  {
    if l[0] != rec {
      FindListed(l[1..], rec);
    }
  }

  lemma EmptyDirectory(d: Disk, k: nat)
    requires k < |d.store| && d.store[k].count == 0
    ensures Listing(d, k) == []
  {}

  lemma UncountedIsEmpty(d: Disk)
    requires DiskOK(d)
    ensures d.sb.inodesCount < STORE_SLOTS && Listing(d, d.sb.inodesCount) == []
  {}

  lemma FormattedAnswers(d: Disk)
    requires IsFormatted(d)
    ensures forall k, name | 0 <= k < STORE_SLOTS :: Answers(d, k, map[(1, "vanakkam") := 2], name)
  {
    forall k, name | 0 <= k < STORE_SLOTS ensures Answers(d, k, map[(1, "vanakkam") := 2], name) {
      if k == 0 {
        assert Listing(d, 0) == [Record("vanakkam", 2)];
      } else {
        assert Listing(d, k) == [];
      }
    }
  }

  lemma DirectoryNumber(d: Disk, mem: map<nat, Inode>, dir: nat)
    requires DiskOK(d) && CacheOK(mem, d.store, d.sb.inodesCount) && dir in mem
    ensures SlotOf(dir) < STORE_SLOTS && NumberOf(SlotOf(dir)) == dir
  {
    CacheHit(mem, d.store, d.sb.inodesCount, dir);
    assert SlotOK(d.store[SlotOf(dir)], SlotOf(dir), d.sb.free);
  }

  lemma AnswersSame(d: Disk, d': Disk, m: map<(nat, string), nat>)
    requires forall k, name | 0 <= k < STORE_SLOTS :: Answers(d, k, m, name)
    requires forall k | 0 <= k < STORE_SLOTS :: Listing(d', k) == Listing(d, k)
    ensures forall k, name | 0 <= k < STORE_SLOTS :: Answers(d', k, m, name)
  {
    hide Listing;
    forall k, name | 0 <= k < STORE_SLOTS ensures Answers(d', k, m, name) {
      assert Answers(d, k, m, name);
    }
  }

  lemma AnswersAfterCreate(d: Disk, d': Disk, ps: nat, rec: Record, m: map<(nat, string), nat>)
    requires ps < STORE_SLOTS
    requires forall k, name | 0 <= k < STORE_SLOTS :: Answers(d, k, m, name)
    requires Listing(d', ps) == Listing(d, ps) + [rec]
    requires forall k | 0 <= k < STORE_SLOTS && k != ps :: Listing(d', k) == Listing(d, k)
    ensures var key := (NumberOf(ps), rec.name);
            var m' := if key in m then m else m[key := rec.no];
            forall k, name | 0 <= k < STORE_SLOTS :: Answers(d', k, m', name)
  {
    hide Listing;
    var key := (NumberOf(ps), rec.name);
    var m' := if key in m then m else m[key := rec.no];
    forall k, name | 0 <= k < STORE_SLOTS ensures Answers(d', k, m', name) {
      assert Answers(d, k, m, name);
      if k == ps {
        FindStable(Listing(d, ps), [rec], name);
        assert [rec][1..] == [];
      } else {
        NumbersAndSlots(k, 0);
        NumbersAndSlots(ps, 0);
      }
    }
  }

  /** Without crashes every counted slot is written, so numbers and blocks follow from the invariant. */
  lemma AllSlotsWritten(d: Disk)
    requires DiskOK(d) && forall k | 0 <= k < d.sb.inodesCount :: k < |d.store| && Written(d.store[k])
    ensures forall k | 2 <= k < d.sb.inodesCount :: d.store[k].no == k + 8
    ensures forall j, k | 0 <= j < k < d.sb.inodesCount ::
              d.store[j].no != d.store[k].no && d.store[j].block != d.store[k].block
  {
    assert forall k | 0 <= k < d.sb.inodesCount :: SlotOK(d.store[k], k, d.sb.free);
  }

  /**
   * Room in the directory block is not checked by the code: after fourteen creates in the root
   * directory the next one passes all its checks and writes its record across the block's end.
   */
  method FillRoot(image: Disk) returns (fs: FileSystem, r: Result)
    requires IsFormatted(image)
    ensures fresh(fs) && r == Overrun
  {
    hide DiskOK, StrictlyDisjoint, Listing, CacheOK, ListsGrow, IsFormatted, FileSystem.Safe;
    fs := new FileSystem(image);
    var k := 0;
    FirstFree(image);
    while k < 14
      invariant 0 <= k <= 14 && fresh(fs) && HasCreated(fs, k)
    {
      CreateNext(fs, k);
      k := k + 1;
    }
    assert 18 in fs.sb.free;
    r := fs.Create(1, "f", Reg, Writebacks(false, false, false));
  }

  /** The root directory after k creates in it. */
  ghost predicate HasCreated(fs: FileSystem, k: nat)
    reads fs
  {
    && fs.Valid() && 1 in fs.mem && fs.mem[1].mode.Dir?
    && fs.mem[1].count == k + 1 && fs.sb.inodesCount == k + 2
    && forall b | 3 <= b < MAX_OBJECTS :: b in fs.sb.free <==> b >= k + 4
  }

  lemma FirstFree(image: Disk)
    requires IsFormatted(image)
    ensures image.store[0] == Inode(Dir, 1, 2, 1) && image.sb.inodesCount == 2
    ensures forall b | 3 <= b < MAX_OBJECTS :: b in image.sb.free <==> b >= 4
  {}

  method CreateNext(fs: FileSystem, k: nat)
    requires HasCreated(fs, k) && k < 14
    modifies fs
    ensures HasCreated(fs, k + 1)
  {
    hide DiskOK, StrictlyDisjoint, Listing, CacheOK, ListsGrow, FileSystem.Safe;
    assert k + 4 in fs.sb.free;
    ghost var free := fs.sb.free;
    var c := fs.Create(1, "f", Reg, Writebacks(false, false, false));
    NextFree(free, fs.mem[c.no].block, k);
  }

  lemma NextFree(free: set<nat>, b: nat, k: nat)
    requires k < 14 && 3 <= b < MAX_OBJECTS && b in free && (forall c | 3 <= c < b :: c !in free)
    requires forall c | 3 <= c < MAX_OBJECTS :: c in free <==> c >= k + 4
    ensures b == k + 4 && forall c | 3 <= c < MAX_OBJECTS :: c in free - {b} <==> c >= k + 5
  {
    assert k + 4 in free;
  }

  /**
   * A crash after the super block of a create and before its store buffer, a mount, and the same again:
   * two counted slots are empty and both claim block 0.
   */
  method TwoEmptySlots(image: Disk) returns (fs: FileSystem, d: Disk)
    requires IsFormatted(image)
    ensures fresh(fs) && fs.Valid() && fs.crashes == 1
    ensures d in fs.history && !StrictlyDisjoint(d)
  {
    hide DiskOK, StrictlyDisjoint, Listing, CacheOK, ListsGrow;
    fs := new FileSystem(image);
    var wb := Writebacks(false, false, false);
    CrashBeforeStore(fs, "a");
    assert fs.disk == image.(sb := fs.sb) && fs.mem[1] == image.store[0];
    assert 5 in fs.sb.free;
    ghost var left := fs.disk;
    var second := fs.Create(1, "b", Reg, wb);
    d := image.(sb := fs.sb);
    assert d == left.(sb := fs.sb);
    SharedBlock(d);
  }

  /** A create in the fresh root directory, up to its super block; then a crash and a mount. */
  method CrashBeforeStore(fs: FileSystem, name: string)
    requires fs.Valid() && IsFormatted(fs.disk) && fs.mem == map[1 := fs.disk.store[0]]
    modifies fs
    ensures fs.Valid() && fs.crashes == old(fs.crashes) + 1 && fs.mem == map[1 := fs.disk.store[0]]
    ensures fs.disk == old(fs.disk).(sb := SuperBlock(3, Below(64) - {3, 4}))
  {
    hide DiskOK, StrictlyDisjoint, Listing, CacheOK, ListsGrow, IsFormatted, FileSystem.Safe;
    FirstFree(fs.disk);
    FormattedFree(fs.disk);
    var left := fs.disk;
    ghost var free := fs.sb.free;
    assert 4 in free;
    var c := fs.Create(1, name, Reg, Writebacks(false, false, false));
    NextFree(free, fs.mem[c.no].block, 0);
    left := left.(sb := fs.sb);
    var at :| 0 <= at < |fs.history| && fs.history[at] == left;
    fs.CrashAndMount(at);
  }

  lemma FormattedFree(d: Disk)
    requires IsFormatted(d)
    ensures d.sb == SuperBlock(2, Below(64) - {3}) && d.sb.free - {4} == Below(64) - {3, 4}
  {}

  lemma SharedBlock(d: Disk)
    requires 4 <= d.sb.inodesCount && |d.store| >= 4 && d.store[2].block == d.store[3].block
    ensures !StrictlyDisjoint(d)
  {}
}
