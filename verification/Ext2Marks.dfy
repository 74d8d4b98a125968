/** Exactly which inode numbers and blocks the operations take: create_file one number,
    delete_file gives one back, write_file one block for every hole it fills. */
module Ext2Marks {
  import opened Bits
  import opened Ext2Layout
  import opened Ext2State
  import opened Ext2Inv
  import opened Ext2Steps
  import opened Ext2Records
  import opened Ext2Files
  import opened Ext2Dirs
  import opened Ext2Ops

  /** The same inode numbers are in use. */
  ghost predicate SameNumbers(fs: Fs, fs': Fs) {
    Geometry(fs) && Geometry(fs') && forall m :: Allocated(fs', m) <==> Allocated(fs, m)
  }

  /** The blocks `more`, and no others, came to be marked. */
  ghost predicate Marks(fs: Fs, fs': Fs, more: set<nat>) {
    && Geometry(fs) && Geometry(fs')
    && forall c: nat | InGroups(fs, c) ::
         InGroups(fs', c) && BlockMarked(fs', c) == (c in more || BlockMarked(fs, c))
  }

  /** No mark was lost. */
  ghost predicate Grow(fs: Fs, fs': Fs) {
    && Geometry(fs) && Geometry(fs')
    && forall c: nat | InGroups(fs, c) :: InGroups(fs', c) && (BlockMarked(fs, c) ==> BlockMarked(fs', c))
  }

  lemma MarksGrow(fs: Fs, fs': Fs, more: set<nat>)
    requires Marks(fs, fs', more)
    ensures Grow(fs, fs')
  {
    hide Geometry, BlockMarked, InGroups;
  }

  lemma GrowTransitive(a: Fs, b: Fs, c: Fs)
    requires Grow(a, b) && Grow(b, c)
    ensures Grow(a, c)
  {
    hide Geometry, BlockMarked, InGroups;
  }

  lemma BitsStay(fs: Fs, fs': Fs)
    requires SameBits(fs, fs')
    ensures SameNumbers(fs, fs') && Marks(fs, fs', {})
  {
    hide SameBits, InodeMarked, BlockMarked, ValidInode, InGroups;
    BitsGeometry(fs, fs');
    SameBitsKeep(fs, fs');
  }

  lemma BitsGeometry(fs: Fs, fs': Fs)
    requires SameBits(fs, fs')
    ensures Geometry(fs) && Geometry(fs')
  {
  }

  lemma TakenMarks(fs: Fs, fs': Fs, b: nat)
    requires BlockTaken(fs, fs', b)
    ensures SameNumbers(fs, fs') && Marks(fs, fs', {b})
  {
    SameInodes(fs, fs');
    SameGroups(fs, fs');
    hide Geometry, InodeMarked, BlockMarked, ReadInode, IsMeta, ClearBlocks, ClearInodes, ValidInode, InGroups;
  }

  lemma KeptLayout(fs: Fs, fs': Fs, n: nat)
    requires KeepsOthers(fs, fs', n)
    ensures Geometry(fs) && Geometry(fs') && Same(fs, fs')
  {
  }

  lemma NumbersTransitive(a: Fs, b: Fs, c: Fs)
    requires SameNumbers(a, b) && SameNumbers(b, c)
    ensures SameNumbers(a, c)
  {
    hide Geometry, Allocated;
  }

  lemma MarksTransitive(a: Fs, b: Fs, c: Fs, more: set<nat>)
    requires Marks(a, b, more) && Marks(b, c, {})
    ensures Marks(a, c, more)
  {
    hide Geometry, BlockMarked, InGroups;
  }

  // ------------------------------------------------------------------ directories

  lemma PutMarks(fs: Fs, parent: nat, k: nat, buf: Block, end: nat)
    requires Inv(fs, Clean) && Allocated(fs, parent) && k < 12 && ReadInode(fs, parent).block[k] != 0
    ensures SameNumbers(fs, PutEntry(fs, parent, k, buf, end)) && Marks(fs, PutEntry(fs, parent, k, buf, end), {})
  {
    hide Inv, Geometry, WriteAt, KeepsOthers, ReadInode, EditInode, Allocated, PutEntry, DataBlock, SameBits, DataKept,
      SameNumbers, Marks;
    AllocatedParts(fs, Clean, parent);
    PutParts(fs, parent, k, buf, end);
    var ino := ReadInode(fs, parent);
    var fs1 := WriteAt(fs, ino.block[k], buf);
    PutKeeps(fs, parent, k, buf);
    Hold(fs, parent, ino);
    OwnBlock(fs, parent, ino, k);
    WriteData(fs, Clean, ino.block[k], buf);
    BitsStay(fs, fs1);
    if end > ino.size {
      var ino' := ino.(size := U32(end));
      Hold(fs1, parent, ino');
      Store(fs1, parent, ino');
      BitsStay(fs1, EditInode(fs1, parent, ino'));
      NumbersTransitive(fs, fs1, EditInode(fs1, parent, ino'));
      MarksTransitive(fs, fs1, EditInode(fs1, parent, ino'), {});
    }
  }

  lemma ExtendMarks(fs: Fs, parent: nat, k: nat, e: Record)
    requires Inv(fs, Clean) && Allocated(fs, parent) && k < 12 && ReadInode(fs, parent).block[k] == 0
    requires ClearBlocks(fs, GroupOfInode(fs, parent)) != {}
    ensures var fs' := ExtendDir(fs, parent, k, e);
      SameNumbers(fs, fs') && Marks(fs, fs', {FindFreeBlock(fs, GroupOfInode(fs, parent))})
  {
    hide Inv, Geometry, WriteAt, KeepsOthers, ReadInode, EditInode, Allocated, ExtendDir, DataBlock, SameBits, DataKept,
      SameNumbers, Marks, BlockTaken, SetBlockBit, FindFreeBlock, FreshBlock, ClearBlocks;
    AllocatedParts(fs, Clean, parent);
    ExtendTakes(fs, parent, k, e);
    ExtendParts(fs, parent, k, e);
    var b := FindFreeBlock(fs, GroupOfInode(fs, parent));
    var fs1 := SetBlockBit(fs, GroupOfInode(fs, parent), b, true);
    var ino := Grown(ReadInode(fs, parent), k, U32(b));
    var fs2 := WriteAt(fs1, b, FreshBlock(e));
    TakenMarks(fs, fs1, b);
    FillBits(fs1, fs2, parent, ino, k, b, FreshBlock(e));
    BitsStay(fs1, fs2);
    AllocatedParts(fs2, Holding(parent, ino), parent);
    Store(fs2, parent, ino);
    var fs' := EditInode(fs2, parent, ino);
    BitsStay(fs2, fs');
    NumbersTransitive(fs, fs1, fs2);
    NumbersTransitive(fs, fs2, fs');
    MarksTransitive(fs, fs1, fs2, {b});
    MarksTransitive(fs, fs2, fs', {b});
  }

  lemma FillBits(fs: Fs, fs': Fs, n: nat, ino: Inode, k: nat, b: nat, buf: Block)
    requires Geometry(fs) && 0 < b < |fs.disk| && fs' == WriteAt(fs, b, buf)
    requires Inv(fs', Holding(n, ino)) && Allocated(fs', n) && k < 12 && ino.block[k] == b
    ensures SameBits(fs, fs')
  {
    hide Inv, Geometry, WriteAt, Allocated, IsMeta, SameBits, BlockMarked, InGroups;
    OwnBlock(fs', n, ino, k);
    WriteSame(fs, b, buf);
    SamePlaces(fs, fs');
    WriteDataBits(fs, b, buf);
  }

  /** The search of add_directory_entry ends at a hole. */
  ghost predicate Grows(fs: Fs, parent: nat, e: Record)
    requires Geometry(fs) && ValidInode(fs, parent) && CanAdd(fs, parent, e)
  {
    FileType(ReadInode(fs, parent)) == DIRECTORY && Search(fs.disk, ReadInode(fs, parent), e, 0).Extend?
  }

  /** add_directory_entry takes the group's first free block when its search ends at a hole, and
      nothing otherwise. */
  lemma AddMarks(fs: Fs, parent: nat, e: Record)
    requires Inv(fs, Clean) && Allocated(fs, parent) && CanAdd(fs, parent, e)
    ensures Grows(fs, parent, e) ==> ClearBlocks(fs, GroupOfInode(fs, parent)) != {}
    ensures var fs' := AddEntry(fs, parent, e);
      && SameNumbers(fs, fs')
      && Marks(fs, fs', if Grows(fs, parent, e) then {FindFreeBlock(fs, GroupOfInode(fs, parent))} else {})
  {
    hide Inv, Geometry, ReadInode, Allocated, ClearBlocks, FindFreeBlock, Search, DirSearchable, ExtendDir, PutEntry,
      SameNumbers, Marks;
    AllocatedParts(fs, Clean, parent);
    NothingTaken(fs);
    if FileType(ReadInode(fs, parent)) == DIRECTORY {
      match Search(fs.disk, ReadInode(fs, parent), e, 0)
      case Full =>
      case Put(k, buf, end) => PutMarks(fs, parent, k, buf, end);
      case Extend(k, e') => ExtendMarks(fs, parent, k, e');
    }
  }

  /** Where some record has enough slack, it does not. */
  lemma SlackStays(fs: Fs, parent: nat, e: Record)
    requires Inv(fs, Clean) && Allocated(fs, parent) && CanAdd(fs, parent, e) && e.inode != 0
    requires FileType(ReadInode(fs, parent)) == DIRECTORY && DirTiled(fs.disk, ReadInode(fs, parent), 0)
    requires DirWalkable(fs.disk, ReadInode(fs, parent), 0)
    requires HasSlack(Listing(fs.disk, ReadInode(fs, parent), 0), e.name)
    ensures !Grows(fs, parent, e)
  {
    hide Inv, Geometry, ReadInode, Allocated, ClearBlocks, Search, DirSearchable, DirTiled, DirWalkable, Listing,
      HasSlack, Insert;
    AllocatedParts(fs, Clean, parent);
    BlocksDiffer(fs, parent);
    SearchInserts(fs.disk, ReadInode(fs, parent), e, 0);
  }

  /** A free block leaves its group one. */
  lemma FreeLeft(fs: Fs, b: nat)
    requires Geometry(fs) && InGroups(fs, b) && !BlockMarked(fs, b)
    ensures |ClearBlocks(fs, BlockGroup(fs, b))| > 0
  {
    assert BlockIndex(fs, b) in ClearBlocks(fs, BlockGroup(fs, b));
  }

  lemma NothingTaken(fs: Fs)
    requires Geometry(fs)
    ensures SameNumbers(fs, fs) && Marks(fs, fs, {})
  {
  }

  // ------------------------------------------------------------------ create_file and delete_file

  lemma WithInodeMarks(fs: Fs, parent: nat)
    requires Inv(fs, Clean) && Allocated(fs, parent) && ClearInodes(fs, GroupOfInode(fs, parent)) != {}
    ensures var g, fs2 := GroupOfInode(fs, parent), WithInode(fs, parent);
      && Geometry(fs2) && (forall m :: Allocated(fs2, m) <==> Allocated(fs, m) || m == FindFreeInode(fs, g))
      && Marks(fs, fs2, {}) && fs2.sb.blocksPerGroup == fs.sb.blocksPerGroup
  {
    hide Inv, Geometry, ReadInode, ClearInodes, FindFreeInode, SetInodeBit, EditInode, InodeSet, BlockMarked, InGroups,
      InodeMarked, SameNumbers, Marks, KeepsOthers, SameBits, DataKept;
    AllocatedParts(fs, Clean, parent);
    var g := GroupOfInode(fs, parent);
    TakeInode(fs, g, NEW_FILE);
    var n := FindFreeInode(fs, g);
    var fs1 := SetInodeBit(fs, g, n, true);
    NewValid(fs, fs1, n);
    NewNumbers(fs, fs1, n);
    Store(fs1, n, NEW_FILE);
    var fs2 := EditInode(fs1, n, NEW_FILE);
    BitsStay(fs1, fs2);
    BitsLayout(fs1, fs2);
    SameNumbersAt(fs1, fs2);
    MarksTransitive(fs, fs1, fs2, {});
  }

  lemma NewNumbers(fs: Fs, fs1: Fs, n: nat)
    requires InodeNew(fs, fs1, n)
    ensures Geometry(fs) && Geometry(fs1) && (forall m :: Allocated(fs1, m) <==> Allocated(fs, m) || m == n)
    ensures Marks(fs, fs1, {}) && fs1.sb.blocksPerGroup == fs.sb.blocksPerGroup
  {
    InodeSetBlocks(fs, fs1, n, true);
    SameInodes(fs, fs1);
    hide Geometry, InodeMarked, BlockMarked, ReadInode, IsMeta, InGroups, ValidInode;
  }

  lemma BitsLayout(fs: Fs, fs': Fs)
    requires SameBits(fs, fs')
    ensures fs'.sb == fs.sb
  {
  }

  lemma SameNumbersAt(fs: Fs, fs': Fs)
    requires SameNumbers(fs, fs')
    ensures Geometry(fs) && Geometry(fs') && forall m :: Allocated(fs', m) <==> Allocated(fs, m)
  {
  }

  /** create_file takes one inode number, the lowest free one, and a block only where its entry
      needs one. */
  lemma CreateMarks(fs: Fs, parent: nat, filename: seq<byte>)
    requires Inv(fs, Clean) && Allocated(fs, parent) && CanCreate(fs, parent, filename)
    ensures var n, fs' := FindFreeInode(fs, GroupOfInode(fs, parent)), CreateFile(fs, parent, filename);
      var e := NewEntry(U32(n), filename);
      && Geometry(fs') && (forall m :: Allocated(fs', m) <==> Allocated(fs, m) || m == n)
      && (Grows(fs, parent, e) ==> ClearBlocks(fs, GroupOfInode(fs, parent)) != {})
      && Marks(fs, fs', if Grows(fs, parent, e) then {FindFreeBlock(fs, GroupOfInode(fs, parent))} else {})
  {
    hide Inv, Geometry, ReadInode, Allocated, ClearBlocks, ClearInodes, FindFreeBlock, FindFreeInode, CreateFile,
      WithInode, CanAdd, AddEntry, SameDirectory, Grows, SameNumbers, Marks, InGroups, BlockMarked;
    AllocatedParts(fs, Clean, parent);
    var g, n := GroupOfInode(fs, parent), FindFreeInode(fs, GroupOfInode(fs, parent));
    var e := NewEntry(U32(n), filename);
    CreateUnfolds(fs, parent, filename);
    WithInodeKeeps(fs, parent);
    WithInodeMarks(fs, parent);
    var fs2 := WithInode(fs, parent);
    AllocatedParts(fs2, Clean, parent);
    GrowsSame(fs, fs2, parent, e);
    AddMarks(fs2, parent, e);
    SameNumbersAt(fs2, CreateFile(fs, parent, filename));
    if Grows(fs, parent, e) {
      SameFree(fs, fs2, g);
      MarksAfter(fs, fs2, CreateFile(fs, parent, filename), {FindFreeBlock(fs, g)});
    } else {
      MarksAfter(fs, fs2, CreateFile(fs, parent, filename), {});
    }
  }

  lemma GrowsSame(fs: Fs, fs2: Fs, parent: nat, e: Record)
    requires Geometry(fs) && ValidInode(fs, parent) && CanAdd(fs, parent, e)
    requires Geometry(fs2) && ValidInode(fs2, parent) && CanAdd(fs2, parent, e)
    requires ReadInode(fs2, parent) == ReadInode(fs, parent)
    requires SameDirectory(fs.disk, fs2.disk, ReadInode(fs, parent))
    ensures Grows(fs2, parent, e) <==> Grows(fs, parent, e)
    ensures Grows(fs, parent, e) ==> ClearBlocks(fs, GroupOfInode(fs, parent)) != {}
  {
    hide Geometry, ReadInode, Search, DirSearchable, ClearBlocks;
    var ino := ReadInode(fs, parent);
    if FileType(ino) == DIRECTORY { SearchSame(fs.disk, fs2.disk, ino, e, 0); }
  }

  lemma SameFree(fs: Fs, fs2: Fs, g: nat)
    requires Geometry(fs) && Geometry(fs2) && g < GroupCount(fs) && g < GroupCount(fs2)
    requires ClearBlocks(fs2, g) == ClearBlocks(fs, g) != {} && fs2.sb.blocksPerGroup == fs.sb.blocksPerGroup
    ensures FindFreeBlock(fs2, g) == FindFreeBlock(fs, g)
  {
    hide Geometry, ClearBlocks, Least;
  }

  lemma MarksAfter(a: Fs, b: Fs, c: Fs, more: set<nat>)
    requires Marks(a, b, {}) && Marks(b, c, more)
    ensures Marks(a, c, more)
  {
    hide Geometry, BlockMarked, InGroups;
  }

  /** delete_file gives back its number and nothing else. */
  lemma DeleteMarks(fs: Fs, n: nat)
    requires Inv(fs, Clean) && Allocated(fs, n)
    ensures var fs' := DeleteFile(fs, n);
      && Geometry(fs') && (forall m :: Allocated(fs', m) <==> Allocated(fs, m) && m != n)
      && Marks(fs, fs', {})
  {
    hide Inv, Geometry, KeepsOthers, ReadInode, SetInodeBit, EditInode, InodeSet, BlockMarked, InodeMarked, SameBits,
        DataKept, SameNumbers, Marks;
    AllocatedParts(fs, Clean, n);
    DropInode(fs, n);
    var fs1 := SetInodeBit(fs, GroupOfInode(fs, n), n, false);
    DroppedValid(fs, fs1, n);
    var fs' := EditInode(fs1, n, EMPTY_INODE);
    HoldFree(fs1, n, EMPTY_INODE);
    Store(fs1, n, EMPTY_INODE);
    BitsStay(fs1, fs');
    OldNumbers(fs, fs1, n);
    SameNumbersAt(fs1, fs');
    MarksTransitive(fs, fs1, fs', {});
  }

  lemma OldNumbers(fs: Fs, fs1: Fs, n: nat)
    requires InodeSet(fs, fs1, n, false)
    ensures Geometry(fs) && Geometry(fs1) && (forall m :: Allocated(fs1, m) <==> Allocated(fs, m) && m != n)
    ensures Marks(fs, fs1, {})
  {
    InodeSetBlocks(fs, fs1, n, false);
    SameInodes(fs, fs1);
    hide Geometry, InodeMarked, BlockMarked, ReadInode, IsMeta, InGroups, ValidInode;
  }

  // ------------------------------------------------------------------ write_file

  /** The group the file's blocks are taken from, and how many are left there. */
  ghost function Left(fs: Fs, n: nat): nat
    requires Geometry(fs) && ValidInode(fs, n)
  {
    |ClearBlocks(fs, GroupOfInode(fs, n))|
  }

  lemma ProvideTakes(fs: Fs, n: nat, ino: Inode, k: nat, needed: nat)
    requires Writing(fs, n, ino, k, needed) && k < needed
    ensures Geometry(fs) && ValidInode(fs, n)
    ensures var fs' := Provide(fs, n, ino, k, needed).0;
      && SameNumbers(fs, fs') && Grow(fs, fs') && ValidInode(fs', n)
      && Left(fs', n) == Left(fs, n) - if ino.block[k] == 0 then 1 else 0
  {
    hide Inv, Geometry, FindFreeBlock, SetBlockBit, BlockTaken, DataBlock, KeepsOthers, Provided, ClearBlocks,
      SameNumbers, Marks, Grow, Writing, Allocated;
    WritingParts(fs, n, ino, k, needed);
    AllocatedParts(fs, Holding(n, ino), n);
    if ino.block[k] == 0 {
      TakeFits(fs, n, ino, k, needed);
      TakeBlock(fs, Holding(n, ino), GroupOfInode(fs, n));
      TakenMarks(fs, Provide(fs, n, ino, k, needed).0, FindFreeBlock(fs, GroupOfInode(fs, n)));
      MarksGrow(fs, Provide(fs, n, ino, k, needed).0, {FindFreeBlock(fs, GroupOfInode(fs, n))});
      FewerClear(fs, Provide(fs, n, ino, k, needed).0, n, FindFreeBlock(fs, GroupOfInode(fs, n)));
      SameInodes(fs, Provide(fs, n, ino, k, needed).0);
    } else {
      NothingTaken(fs);
      MarksGrow(fs, fs, {});
    }
  }

  lemma LeftStays(fs: Fs, fs': Fs, n: nat)
    requires SameBits(fs, fs') && ValidInode(fs, n)
    ensures ValidInode(fs', n) && Left(fs', n) == Left(fs, n)
  {
    SamePlaces(fs, fs');
    SameBitsKeep(fs, fs');
  }

  /** One round of the loop takes a block if its slot is a hole. */
  lemma WriteOneTakes(fs: Fs, n: nat, ino: Inode, data: seq<byte>, k: nat, needed: nat)
    requires Writing(fs, n, ino, k, needed) && k < needed <= BlocksNeeded(data)
    ensures Geometry(fs) && ValidInode(fs, n) && 1024 * k <= |data|
    ensures var (fs1, ino1) := Provide(fs, n, ino, k, needed);
      && ino1.block[k] < |fs1.disk|
      && (var fs2 := WriteAt(fs1, ino1.block[k], Chunk(data, k));
          && SameNumbers(fs, fs2) && Grow(fs, fs2) && ValidInode(fs2, n)
          && Left(fs2, n) == Left(fs, n) - if ino.block[k] == 0 then 1 else 0)
  {
    hide Provide, KeepsOthers, Holds, Inv, Geometry, Writing, WriteAt, Chunk, Allocated, BlocksNeeded, SameNumbers,
      Marks, Grow, Left;
    WritingParts(fs, n, ino, k, needed);
    WriteOne(fs, n, ino, data, k, needed);
    ProvideTakes(fs, n, ino, k, needed);
    ProvideOk(fs, n, ino, k, needed);
    var (fs1, ino1) := Provide(fs, n, ino, k, needed);
    var fs2 := WriteAt(fs1, ino1.block[k], Chunk(data, k));
    WritingParts(fs1, n, ino1, k + 1, needed);
    WritingParts(fs2, n, ino1, k + 1, needed);
    FillBits(fs1, fs2, n, ino1, k, ino1.block[k], Chunk(data, k));
    BitsStay(fs1, fs2);
    LeftStays(fs1, fs2, n);
    NumbersTransitive(fs, fs1, fs2);
    MarksGrow(fs1, fs2, {});
    GrowTransitive(fs, fs1, fs2);
  }

  /** The loop takes a block for every hole it fills. */
  lemma {:induction false} WriteBlocksTakes(fs: Fs, n: nat, ino: Inode, data: seq<byte>, k: nat, needed: nat)
    requires Writing(fs, n, ino, k, needed) && needed <= BlocksNeeded(data)
    ensures Geometry(fs) && ValidInode(fs, n)
    ensures var fs' := WriteBlocks(fs, n, ino, data, k, needed).0;
      && SameNumbers(fs, fs') && Grow(fs, fs') && ValidInode(fs', n)
      && Left(fs', n) == Left(fs, n) - Holes(ino, k, needed)
    decreases needed - k
  {
    hide Provide, KeepsOthers, Holds, Inv, Geometry, Writing, WriteAt, Chunk, Allocated, BlocksNeeded, SameNumbers,
      Marks, Grow, Left, WriteBlocks;
    WritingParts(fs, n, ino, k, needed);
    AllocatedParts(fs, Holding(n, ino), n);
    if k < needed {
      WriteOne(fs, n, ino, data, k, needed);
      WriteOneTakes(fs, n, ino, data, k, needed);
      var (fs1, ino1) := Provide(fs, n, ino, k, needed);
      var fs2 := WriteAt(fs1, ino1.block[k], Chunk(data, k));
      WriteBlocksStep(fs, n, ino, data, k, needed, fs2, ino1);
      WriteBlocksTakes(fs2, n, ino1, data, k + 1, needed);
      NumbersTransitive(fs, fs2, WriteBlocks(fs2, n, ino1, data, k + 1, needed).0);
      GrowTransitive(fs, fs2, WriteBlocks(fs2, n, ino1, data, k + 1, needed).0);
      HolesSame(ino, ino1, k + 1, needed);
    } else {
      WriteBlocksEnd(fs, n, ino, data, needed);
      NothingTaken(fs);
      MarksGrow(fs, fs, {});
    }
  }

  /** The holes write_file fills: none when it refuses. */
  ghost function Filled(fs: Fs, n: nat, data: seq<byte>): nat
    requires Geometry(fs) && ValidInode(fs, n)
  {
    if data == [] || FileType(ReadInode(fs, n)) != REGULAR || BlocksNeeded(data) > 12 then 0
    else Holes(ReadInode(fs, n), 0, BlocksNeeded(data))
  }

  /** write_file takes no inode number and gives no block back; the file's group has as many free
      blocks less as it filled holes. */
  lemma WriteMarks(fs: Fs, n: nat, data: seq<byte>)
    requires Inv(fs, Clean) && Allocated(fs, n) && |data| < 0x1_0000_0000 && EnoughBlocks(fs, n, data)
    ensures Geometry(fs) && ValidInode(fs, n)
    ensures var fs' := WriteFile(fs, n, data);
      && SameNumbers(fs, fs') && Grow(fs, fs') && ValidInode(fs', n)
      && Left(fs', n) == Left(fs, n) - Filled(fs, n, data)
  {
    hide Inv, Geometry, ReadInode, Allocated, WriteFile, WriteBlocks, EnoughBlocks, BlocksNeeded, Holes, EditInode,
      SameNumbers, Marks, Grow, Left, Writing, SameBits;
    AllocatedParts(fs, Clean, n);
    WriteFileIs(fs, n, data);
    var ino, needed := ReadInode(fs, n), BlocksNeeded(data);
    if data == [] || FileType(ino) != REGULAR || needed > 12 {
      NothingTaken(fs);
      MarksGrow(fs, fs, {});
    } else {
      WriteBlocksTakes(fs, n, ino, data, 0, needed);
      var (fs1, ino1) := WriteBlocks(fs, n, ino, data, 0, needed);
      StoreBits(fs1, n, ino1.(size := |data|, sectors := needed * 2));
      var fs' := WriteFile(fs, n, data);
      BitsStay(fs1, fs');
      LeftStays(fs1, fs', n);
      NumbersTransitive(fs, fs1, fs');
      MarksGrow(fs1, fs', {});
      GrowTransitive(fs, fs1, fs');
    }
  }

  // ------------------------------------------------------------------ which blocks write_file takes

  /** The free blocks of the group that inode `n` takes its blocks from. */
  ghost function Room(fs: Fs, n: nat): set<nat>
    requires Geometry(fs) && ValidInode(fs, n)
  {
    ClearBlocks(fs, GroupOfInode(fs, n))
  }

  /** Between `fs` and `fs'` the lowest of the group's free blocks were taken. */
  ghost predicate LowestTaken(fs: Fs, fs': Fs, n: nat)
    requires Geometry(fs) && ValidInode(fs, n) && Geometry(fs') && ValidInode(fs', n)
  {
    && Room(fs', n) <= Room(fs, n)
    && forall x, y | x in Room(fs', n) && y in Room(fs, n) && y !in Room(fs', n) :: y < x
  }

  /** The holes of the slots from `k` on got free blocks of the group, in ascending order. */
  ghost predicate FilledInOrder(fs: Fs, n: nat, ino: Inode, ino': Inode, k: nat, needed: nat)
    requires Geometry(fs) && ValidInode(fs, n) && needed <= 12
  {
    var size := fs.sb.blocksPerGroup;
    && (forall i | k <= i < needed && ino.block[i] == 0 ::
          ino'.block[i] / size == GroupOfInode(fs, n) && ino'.block[i] % size in Room(fs, n))
    && forall i, j | k <= i < j < needed && ino.block[i] == 0 && ino.block[j] == 0 :: ino'.block[i] < ino'.block[j]
  }

  /** One round: where the slot is a hole, the lowest free block is taken and put there. */
  lemma WriteOneLowest(fs: Fs, n: nat, ino: Inode, data: seq<byte>, k: nat, needed: nat)
    requires Writing(fs, n, ino, k, needed) && k < needed <= BlocksNeeded(data)
    ensures Geometry(fs) && ValidInode(fs, n) && k < 12 && 1024 * k <= |data|
    ensures var (fs1, ino1) := Provide(fs, n, ino, k, needed);
      && ino1.block[k] < |fs1.disk|
      && (var fs2 := WriteAt(fs1, ino1.block[k], Chunk(data, k));
          && Geometry(fs2) && ValidInode(fs2, n) && GroupOfInode(fs2, n) == GroupOfInode(fs, n)
          && fs2.sb.blocksPerGroup == fs.sb.blocksPerGroup > 0
          && if ino.block[k] == 0 then
               && Room(fs, n) != {} && Room(fs2, n) == Room(fs, n) - {Least(Room(fs, n))}
               && ino1.block[k] / fs.sb.blocksPerGroup == GroupOfInode(fs, n)
               && ino1.block[k] % fs.sb.blocksPerGroup == Least(Room(fs, n))
             else Room(fs2, n) == Room(fs, n))
  {
    hide Inv, Geometry, FindFreeBlock, SetBlockBit, BlockTaken, DataBlock, KeepsOthers, Provided, ClearBlocks, Writing,
      Allocated, BlocksNeeded, Chunk, WriteAt, SameBits, Holds;
    WritingParts(fs, n, ino, k, needed);
    AllocatedParts(fs, Holding(n, ino), n);
    WriteOne(fs, n, ino, data, k, needed);
    ProvideOk(fs, n, ino, k, needed);
    var (fs1, ino1) := Provide(fs, n, ino, k, needed);
    var fs2 := WriteAt(fs1, ino1.block[k], Chunk(data, k));
    WritingParts(fs1, n, ino1, k + 1, needed);
    WritingParts(fs2, n, ino1, k + 1, needed);
    KeptLayout(fs, fs2, n);
    KeptLayout(fs, fs1, n);
    GroupsInRange(fs);
    SameInodes(fs, fs2);
    FillBits(fs1, fs2, n, ino1, k, ino1.block[k], Chunk(data, k));
    RoomStays(fs1, fs2, n);
    if ino.block[k] == 0 {
      TakeFits(fs, n, ino, k, needed);
      TakeBlock(fs, Holding(n, ino), GroupOfInode(fs, n));
      FoundBlock(fs, GroupOfInode(fs, n));
      RoomTaken(fs, fs1, n, FindFreeBlock(fs, GroupOfInode(fs, n)));
    }
  }

  lemma RoomStays(fs: Fs, fs': Fs, n: nat)
    requires SameBits(fs, fs') && ValidInode(fs, n)
    ensures Geometry(fs) && Geometry(fs') && ValidInode(fs', n) && Room(fs', n) == Room(fs, n)
  {
    SamePlaces(fs, fs');
    SameBitsKeep(fs, fs');
  }

  lemma RoomTaken(fs: Fs, fs': Fs, n: nat, b: nat)
    requires BlockTaken(fs, fs', b) && ValidInode(fs, n) && BlockGroup(fs, b) == GroupOfInode(fs, n)
    ensures Geometry(fs) && Geometry(fs') && ValidInode(fs', n)
    ensures Room(fs', n) == Room(fs, n) - {BlockIndex(fs, b)}
  {
    SamePlaces(fs, fs');
    SameInodes(fs, fs');
    hide ClearBlocks;
  }

  /** The loop of write_file takes the lowest free blocks, and gives them to the holes in order. */
  lemma {:induction false} WriteBlocksLowest(fs: Fs, n: nat, ino: Inode, data: seq<byte>, k: nat, needed: nat)
    requires Writing(fs, n, ino, k, needed) && needed <= BlocksNeeded(data)
    ensures Geometry(fs) && ValidInode(fs, n) && needed <= 12
    ensures var (fs', ino') := WriteBlocks(fs, n, ino, data, k, needed);
      && Geometry(fs') && ValidInode(fs', n) && PointersKept(ino, ino', needed)
      && LowestTaken(fs, fs', n) && FilledInOrder(fs, n, ino, ino', k, needed)
    decreases needed - k
  {
    hide Provide, KeepsOthers, Holds, Inv, Geometry, Writing, WriteAt, Chunk, Allocated, BlocksNeeded, WriteBlocks,
      Room, LowestTaken, FilledInOrder;
    WritingParts(fs, n, ino, k, needed);
    AllocatedParts(fs, Holding(n, ino), n);
    if k < needed {
      WriteOne(fs, n, ino, data, k, needed);
      WriteOneLowest(fs, n, ino, data, k, needed);
      ProvideOk(fs, n, ino, k, needed);
      var (fs1, ino1) := Provide(fs, n, ino, k, needed);
      var fs2 := WriteAt(fs1, ino1.block[k], Chunk(data, k));
      WriteBlocksStep(fs, n, ino, data, k, needed, fs2, ino1);
      WriteBlocksLowest(fs2, n, ino1, data, k + 1, needed);
      var (fs', ino') := WriteBlocks(fs2, n, ino1, data, k + 1, needed);
      LowestCons(fs, fs2, fs', n);
      FilledCons(fs, fs2, n, ino, ino1, ino', k, needed);
    } else {
      WriteBlocksEnd(fs, n, ino, data, needed);
      NothingFilledYet(fs, n, ino, needed);
    }
  }

  lemma NothingFilledYet(fs: Fs, n: nat, ino: Inode, needed: nat)
    requires Geometry(fs) && ValidInode(fs, n) && needed <= 12
    ensures LowestTaken(fs, fs, n) && FilledInOrder(fs, n, ino, ino, needed, needed)
  {
  }

  lemma LowestCons(fs: Fs, fs2: Fs, fs': Fs, n: nat)
    requires Geometry(fs) && ValidInode(fs, n) && Geometry(fs2) && ValidInode(fs2, n)
    requires Geometry(fs') && ValidInode(fs', n) && LowestTaken(fs2, fs', n)
    requires Room(fs2, n) == Room(fs, n) ||
             (Room(fs, n) != {} && Room(fs2, n) == Room(fs, n) - {Least(Room(fs, n))})
    ensures LowestTaken(fs, fs', n)
  {
    hide Geometry, Room, ValidInode;
  }

  lemma FilledCons(fs: Fs, fs2: Fs, n: nat, ino: Inode, ino1: Inode, ino': Inode, k: nat, needed: nat)
    requires Geometry(fs) && ValidInode(fs, n) && Geometry(fs2) && ValidInode(fs2, n) && k < needed <= 12
    requires fs.sb.blocksPerGroup > 0
    requires FilledInOrder(fs2, n, ino1, ino', k + 1, needed) && PointersKept(ino1, ino', needed)
    requires GroupOfInode(fs2, n) == GroupOfInode(fs, n) && fs2.sb.blocksPerGroup == fs.sb.blocksPerGroup
    requires ino1 == WithBlock(ino, k, ino1.block[k]) && ino1.block[k] != 0
    requires if ino.block[k] == 0 then
               && Room(fs, n) != {} && Room(fs2, n) == Room(fs, n) - {Least(Room(fs, n))}
               && ino1.block[k] / fs.sb.blocksPerGroup == GroupOfInode(fs, n)
               && ino1.block[k] % fs.sb.blocksPerGroup == Least(Room(fs, n))
             else Room(fs2, n) == Room(fs, n)
    ensures FilledInOrder(fs, n, ino, ino', k, needed)
  {
    hide Geometry, Room, ValidInode, GroupOfInode;
    if ino.block[k] == 0 {
      forall j | k < j < needed && ino.block[j] == 0 ensures ino'.block[k] < ino'.block[j] {
        Below(ino'.block[k], ino'.block[j], fs.sb.blocksPerGroup);
      }
    }
  }

  /** In one group numbers are ordered as their indices. */
  lemma Below(a: nat, b: nat, d: nat)
    requires d > 0 && a / d == b / d && a % d < b % d
    ensures a < b
  {
    DivModBack(a, d);
    DivModBack(b, d);
  }

  /** write_file as a whole takes the lowest free blocks of the file's group, lowest slot first. */
  lemma WriteLowest(fs: Fs, n: nat, data: seq<byte>)
    requires Inv(fs, Clean) && Allocated(fs, n) && |data| < 0x1_0000_0000 && EnoughBlocks(fs, n, data)
    requires data != [] && FileType(ReadInode(fs, n)) == REGULAR && BlocksNeeded(data) <= 12
    ensures var fs' := WriteFile(fs, n, data);
      && Geometry(fs') && ValidInode(fs', n) && LowestTaken(fs, fs', n)
      && FilledInOrder(fs, n, ReadInode(fs, n), ReadInode(fs', n), 0, BlocksNeeded(data))
  {
    hide Inv, Geometry, ReadInode, Allocated, WriteFile, WriteBlocks, EnoughBlocks, BlocksNeeded, EditInode, Writing,
      SameBits, Room, LowestTaken, FilledInOrder, IsMeta;
    AllocatedParts(fs, Clean, n);
    WriteFileIs(fs, n, data);
    var ino, needed := ReadInode(fs, n), BlocksNeeded(data);
    WriteBlocksLowest(fs, n, ino, data, 0, needed);
    var (fs1, ino1) := WriteBlocks(fs, n, ino, data, 0, needed);
    var ino' := ino1.(size := |data|, sectors := needed * 2);
    StoreBits(fs1, n, ino');
    RoomStays(fs1, EditInode(fs1, n, ino'), n);
    SameOrder(fs, fs1, EditInode(fs1, n, ino'), n, ino, ino1, ino', needed);
  }

  lemma SameOrder(fs: Fs, fs1: Fs, fs': Fs, n: nat, ino: Inode, ino1: Inode, ino': Inode, needed: nat)
    requires Geometry(fs) && ValidInode(fs, n) && Geometry(fs1) && ValidInode(fs1, n)
    requires Geometry(fs') && ValidInode(fs', n) && Room(fs', n) == Room(fs1, n) && needed <= 12
    requires LowestTaken(fs, fs1, n) && FilledInOrder(fs, n, ino, ino1, 0, needed) && ino'.block == ino1.block
    ensures LowestTaken(fs, fs', n) && FilledInOrder(fs, n, ino, ino', 0, needed)
  {
    hide Geometry, Room, ValidInode, GroupOfInode;
  }

  // ------------------------------------------------------------------ runs

  /** Which inode numbers are in use after an operation. */
  lemma ApplyNumbers(fs: Fs, op: Operation)
    requires Inv(fs, Clean) && Asks(fs, op)
    ensures op.Create? ==> ClearInodes(fs, GroupOfInode(fs, op.parent)) != {}
    ensures Inv(Apply(fs, op), Clean) && Grow(fs, Apply(fs, op))
    ensures forall m :: Allocated(Apply(fs, op), m) <==>
              match op
              case Create(p, _) => Allocated(fs, m) || m == FindFreeInode(fs, GroupOfInode(fs, p))
              case Delete(n) => Allocated(fs, m) && m != n
              case _ => Allocated(fs, m)
  {
    hide Inv, Geometry, Allocated, ReadInode, ClearBlocks, ClearInodes, FindFreeBlock, FindFreeInode, CreateFile,
      WriteFile, AddEntry, DeleteFile, Grows, Grow, Marks, SameNumbers, EnoughBlocks, CanAdd;
    ApplyKeeps(fs, op);
    match op
    case Create(p, name) =>
      AllocatedParts(fs, Clean, p);
      CreateMarks(fs, p, name);
      var e := NewEntry(U32(FindFreeInode(fs, GroupOfInode(fs, p))), name);
      MarksGrow(fs, CreateFile(fs, p, name),
                if Grows(fs, p, e) then {FindFreeBlock(fs, GroupOfInode(fs, p))} else {});
    case Write(n, data) =>
      WriteMarks(fs, n, data);
      SameNumbersAt(fs, WriteFile(fs, n, data));
    case Add(p, e) =>
      AllocatedParts(fs, Clean, p);
      AddMarks(fs, p, e);
      SameNumbersAt(fs, AddEntry(fs, p, e));
      MarksGrow(fs, AddEntry(fs, p, e),
                if Grows(fs, p, e) then {FindFreeBlock(fs, GroupOfInode(fs, p))} else {});
    case Delete(n) =>
      DeleteMarks(fs, n);
      MarksGrow(fs, DeleteFile(fs, n), {});
  }

  lemma StepGrows(fs: Fs, op: Operation, fs': Fs)
    requires Inv(fs, Clean) && Step(fs, op, fs')
    ensures Inv(fs', Clean) && Grow(fs, fs')
  {
    hide Inv, Asks, Apply, Grow, Allocated, FindFreeInode, ClearInodes;
    ApplyNumbers(fs, op);
  }

  /** No run gives a block back: what is marked at its start is marked at its end, the blocks of
      deleted files included. */
  lemma {:induction false} RunsNeverFree(trace: seq<Fs>, ops: seq<Operation>, k: nat)
    requires IsRun(trace, ops) && k < |trace| && Inv(trace[0], Clean)
    ensures Inv(trace[k], Clean) && Grow(trace[0], trace[k])
  {
    hide Inv, Step, Grow, Marks;
    if k > 0 {
      RunsNeverFree(trace, ops, k - 1);
      StepGrows(trace[k - 1], ops[k - 1], trace[k]);
      GrowTransitive(trace[0], trace[k - 1], trace[k]);
    } else {
      InvParts(trace[0], Clean);
      NothingTaken(trace[0]);
      MarksGrow(trace[0], trace[0], {});
    }
  }
}
