/** The smallest disk the writer can work on, as a formatter would leave it: eight blocks, eight
    inodes and an empty root directory. It satisfies everything the theorems ask of a file
    system, so they can be applied from here on. */
module Ext2Formatted {
  import opened Bits
  import opened Memory
  import opened Ext2Layout
  import opened Ext2State
  import opened Ext2Inv
  import opened Ext2Steps
  import opened Ext2Records
  import opened Ext2Files
  import opened Ext2Dirs
  import opened Ext2Ops
  import opened Ext2Marks
  import opened Ext2Hidden

  const SB: Superblock := Superblock(8, 8, 0, 1, 6, 1, 0, 0, 8, 8, 8, [0, 0, 0, 0, 0, 0, 0, 0, 0, 0])

  /** Block bitmap in block 3, inode bitmap in block 4, inode table in block 5. */
  const GROUP: Group := Group(3, 4, 5, 1, 6, [0, 0, 0, 0])

  function Groups1(): Groups {
    seq(32, g requires 0 <= g < 32 => if g == 0 then GROUP else Group(0, 0, 0, 0, 0, [0, 0, 0, 0]))
  }

  /** Blocks 0 to 6 and inodes 1 and 2 are in use. */
  function BlockBits(): Block { Zeros(1024)[0 := 0x7F] }
  function InodeBits(): Block { Zeros(1024)[0 := 0x03] }

  /** Inode 2 is a directory with its records in block 6. */
  const ROOT: Inode :=
    EMPTY_INODE.(mode := 0x41ED, size := 1024, links := 2, sectors := 2, block := [6, 0, 0, 0, 0, 0, 0, 0, 0, 0, 0, 0])

  function Table(): Block { Splice(Zeros(1024), 256, EncodeInode(ROOT)) }

  const DOT: Record := Record(2, 12, 2, [46])
  const DOTDOT: Record := Record(2, 1012, 2, [46, 46])

  function RootBlock(): Block { Splice(Splice(Zeros(1024), 0, RecordBytes(DOT)), 12, RecordBytes(DOTDOT)) }

  /** The disk with the given root directory. */
  function Disk(root: Block): Fs {
    Fs(SB, Groups1(), [Zeros(1024), SuperBlock(SB), EncodeGroups(Groups1()), BlockBits(), InodeBits(),
                       Table(), root, Zeros(1024)])
  }

  lemma HasGeometry(root: Block)
    ensures var fs := Disk(root); Geometry(fs) && GroupCount(fs) == 1
    ensures var fs := Disk(root); fs.disk[1] == SuperBlock(fs.sb) && fs.disk[2] == EncodeGroups(fs.groups)
    ensures var fs := Disk(root);
      fs.disk[3] == BlockBits() && fs.disk[4] == InodeBits() && fs.disk[5] == Table() && fs.disk[6] == root
    ensures var fs := Disk(root); forall b | IsMeta(fs, b) :: b < 6
  {
    hide SuperBlock, EncodeGroups, BlockBits, InodeBits, Table;
    var fs := Disk(root);
    assert fs.groups[0] == GROUP;
    assert GroupCount(fs) == 1;
  }

  lemma Bitmaps()
    ensures ClearBits(BlockBits(), 8) == {7} && ClearBits(InodeBits(), 8) == {2, 3, 4, 5, 6, 7}
  {
    var b, i := BlockBits(), InodeBits();
    forall k: nat | k < 8
      ensures Used(b, k) == (k != 7) && Used(i, k) == (k < 2)
    {
      SevenBits(k);
      TwoBits(k);
    }
  }

  lemma SevenBits(k: nat)
    requires k < 8
    ensures Bit(0x7F, k) == (k != 7)
  {
    assert Shl1(3) == 8;
    assert Shl1(7) == 128;
    OnesBit(7, k);
  }

  lemma TwoBits(k: nat)
    requires k < 8
    ensures Bit(0x03, k) == (k < 2)
  {
    assert Shl1(2) == 4;
    OnesBit(2, k);
  }

  lemma InodeNumbers(root: Block, m: nat)
    ensures ValidInode(Disk(root), m) <==> 1 <= m <= 8
    ensures 1 <= m <= 8 ==> GroupOfInode(Disk(root), m) == 0 && InodeIndex(Disk(root), m) == m - 1
  {
    hide SuperBlock, EncodeGroups, BlockBits, InodeBits, Table, Groups1;
  }

  lemma Slots(root: Block)
    ensures SlotPlace(Disk(root), 1) == SlotPlace(Disk(root), 2) == InodeTable(0, 0)
    ensures SlotOffset(Disk(root), 1) == 128 && SlotOffset(Disk(root), 2) == 256
  {
    hide SuperBlock, EncodeGroups, BlockBits, InodeBits, Table, Groups1;
  }

  lemma Inodes(root: Block)
    ensures Geometry(Disk(root)) && ValidInode(Disk(root), 1) && ValidInode(Disk(root), 2)
    ensures ReadInode(Disk(root), 2) == ROOT
    ensures forall i | 0 <= i < 12 :: ReadInode(Disk(root), 1).block[i] == 0
  {
    hide Geometry, SuperBlock, EncodeGroups, BlockBits, InodeBits, EncodeInode, DecodeInode, SlotPlace,
        SlotOffset;
    HasGeometry(root);
    InodeNumbers(root, 1);
    InodeNumbers(root, 2);
    Slots(root);
    assert Content(Disk(root), InodeTable(0, 0)) == Table();
    SpliceSlice(Zeros(1024), 256, EncodeInode(ROOT), 256, 384);
    SpliceSlice(Zeros(1024), 256, EncodeInode(ROOT), 128, 256);
    InodeRoundTrip(ROOT);
    NoBlocks(Table()[128..256]);
  }

  lemma NoBlocks(bs: seq<byte>)
    requires |bs| == 128 && forall i | 0 <= i < 128 :: bs[i] == 0
    ensures forall i | 0 <= i < 12 :: DecodeInode(bs).block[i] == 0
  {
    hide Decode;
    forall i | 0 <= i < 12 ensures DecodeInode(bs).block[i] == 0 {
      ZeroWord(bs, 10 + i);
      assert Decode(bs)[10..22][i] == Decode(bs)[10 + i];
    }
  }

  lemma ZeroWord(bs: seq<byte>, k: nat)
    requires |bs| == 128 && k < 32 && forall i | 0 <= i < 128 :: bs[i] == 0
    ensures Decode(bs)[k] == 0
  {
    assert bs[4 * k] == bs[4 * k + 1] == bs[4 * k + 2] == bs[4 * k + 3] == 0;
  }

  /** Who is allocated, and what they refer to. */
  lemma Allocations(root: Block, m: nat)
    ensures Geometry(Disk(root)) && (Allocated(Disk(root), m) <==> m == 1 || m == 2)
    ensures forall i, b :: Refers(Disk(root), Clean, m, i, b) <==> m == 2 && i == 0 && b == 6
  {
    hide Geometry, ReadInode, BlockBits, InodeBits, GroupOfInode, InodeIndex, ClearBits, Used, ValidInode;
    HasGeometry(root);
    InodeNumbers(root, m);
    Bitmaps();
    Inodes(root);
    if ValidInode(Disk(root), m) {
      assert Content(Disk(root), InodeBitmap(0)) == InodeBits();
      ClearIff(InodeBits(), 8, m - 1);
    }
  }

  lemma ClearIff(bits: Block, n: nat, i: nat)
    requires i < n <= 8192
    ensures Used(bits, i) <==> i !in ClearBits(bits, n)
  {
  }

  lemma Marked(root: Block, b: nat)
    ensures Geometry(Disk(root)) && (InGroups(Disk(root), b) <==> b < 8)
    ensures b < 8 ==> (BlockMarked(Disk(root), b) <==> b != 7)
  {
    hide Geometry, BlockBits, InodeBits, ClearBits, Used;
    HasGeometry(root);
    Bitmaps();
    if b < 8 {
      assert Content(Disk(root), BlockBitmap(0)) == BlockBits();
      ClearIff(BlockBits(), 8, b);
    }
  }

  /** The invariant holds, whatever the root directory lists. */
  lemma FormattedConsistent(root: Block)
    ensures Inv(Disk(root), Clean)
  {
    hide Geometry, ReadInode, BlockBits, InodeBits, ClearBits, Used, Refers, BlockMarked, InGroups, IsMeta, Allocated;
    var fs := Disk(root);
    HasGeometry(root);
    Bitmaps();
    assert Owned(fs, Clean) by {
      forall m, i, b | Refers(fs, Clean, m, i, b) ensures m == 2 && i == 0 && b == 6 { Allocations(root, m); }
      Marked(root, 6);
    }
    forall b: nat | InGroups(fs, b) && (b >= |fs.disk| || IsMeta(fs, b)) ensures BlockMarked(fs, b) { Marked(root, b); }
    assert Counted(fs) by { FormattedCounts(root); }
  }

  lemma FormattedCounts(root: Block)
    ensures Geometry(Disk(root)) && Counted(Disk(root))
  {
    hide Geometry, BlockBits, InodeBits, ClearBits, Used;
    HasGeometry(root);
    Bitmaps();
    var fs := Disk(root);
    assert ClearBlocks(fs, 0) == {7} && ClearInodes(fs, 0) == {2, 3, 4, 5, 6, 7};
    assert SumBlocks(fs.groups, 0) == 0 && SumInodes(fs.groups, 0) == 0;
  }

  /** A root directory with its two first entries. */
  function Formatted(): Fs { Disk(RootBlock()) }

  lemma RootTiled()
    ensures Tiled(RootBlock(), 0) && Records(RootBlock(), 0) == [DOT, DOTDOT]
  {
    hide RecordBytes, RecordAt, RInode, RSize, RNameLength, Splice;
    var first := Splice(Zeros(1024), 0, RecordBytes(DOT));
    var b := RootBlock();
    SpliceSlice(Zeros(1024), 0, RecordBytes(DOT), 0, 9);
    SpliceSlice(first, 12, RecordBytes(DOTDOT), 0, 9);
    SpliceSlice(first, 12, RecordBytes(DOTDOT), 12, 22);
    RecordBack(b, 0, DOT);
    RecordBack(b, 12, DOTDOT);
    GoodFields(b, 0);
    GoodFields(b, 12);
    assert Tiled(b, 1024) && Records(b, 1024) == [];
    SplitTiled(b, 0, 12, 1024);
  }

  /** What the theorems about creating a file ask for holds whatever records tile the root
      directory. */
  lemma TiledUsable(root: Block, filename: seq<byte>)
    requires Tiled(root, 0)
    ensures var fs := Disk(root);
      && Inv(fs, Clean) && Allocated(fs, 2) && CanCreate(fs, 2, filename) && ReadInode(fs, 2) == ROOT
      && FindFreeInode(fs, GroupOfInode(fs, 2)) == 3 && FileType(ROOT) == DIRECTORY && Gapless(ROOT)
      && DirTiled(fs.disk, ROOT, 0) && DirWalkable(fs.disk, ROOT, 0) && Listing(fs.disk, ROOT, 0) == Records(root, 0)
  {
    hide Inv, Geometry, ReadInode, BlockBits, InodeBits, Tiled, Records, Walk, Walkable, ClearBits, Search,
      DirSearchable, Searchable, DirTiled, DirWalkable, Listing;
    var fs := Disk(root);
    FormattedConsistent(root);
    Allocations(root, 2);
    HasGeometry(root);
    Bitmaps();
    Inodes(root);
    InodeNumbers(root, 2);
    RootTable(fs.disk, root);
    assert ClearBlocks(fs, 0) == {7} && ClearInodes(fs, 0) == {2, 3, 4, 5, 6, 7};
    TiledSearchable(fs.disk, ROOT, NewEntry(3, filename), 0);
  }

  /** One block is free. */
  lemma OneFree(root: Block)
    ensures var fs := Disk(root);
      && Geometry(fs) && ValidInode(fs, 2) && GroupOfInode(fs, 2) < GroupCount(fs)
      && |ClearBlocks(fs, GroupOfInode(fs, 2))| == 1
  {
    hide Geometry, BlockBits, InodeBits, ClearBits, Used;
    HasGeometry(root);
    Bitmaps();
    InodeNumbers(root, 2);
    assert ClearBlocks(Disk(root), 0) == {7};
  }

  lemma RootTable(disk: seq<Block>, root: Block)
    requires |disk| == 8 && disk[6] == root && Tiled(root, 0)
    ensures DirTiled(disk, ROOT, 0) && DirWalkable(disk, ROOT, 0) && Listing(disk, ROOT, 0) == Records(root, 0)
  {
    hide Tiled, Records, Walk, Walkable;
    TiledWalk(root, 0);
    assert DirTiled(disk, ROOT, 1) && DirWalkable(disk, ROOT, 1) && Listing(disk, ROOT, 1) == [];
  }

  /** Every file name can be created in the root directory, and there is room for it. */
  lemma FormattedUsable(filename: seq<byte>)
    ensures var fs := Formatted();
      && Inv(fs, Clean) && Allocated(fs, 2) && CanCreate(fs, 2, filename)
      && FileType(ReadInode(fs, 2)) == DIRECTORY && Gapless(ReadInode(fs, 2))
      && FindFreeInode(fs, GroupOfInode(fs, 2)) == 3
      && DirTiled(fs.disk, ReadInode(fs, 2), 0) && DirWalkable(fs.disk, ReadInode(fs, 2), 0)
      && Listing(fs.disk, ReadInode(fs, 2), 0) == [DOT, DOTDOT]
      && HasSlack(Listing(fs.disk, ReadInode(fs, 2), 0), NewEntry(3, filename).name)
  {
    hide Inv, Geometry, ReadInode, Tiled, Records, RootBlock, HasSlack, Disk, DirTiled, DirWalkable, Listing, CanCreate,
      Allocated;
    RootTiled();
    TiledUsable(RootBlock(), filename);
    AllocatedParts(Formatted(), Clean, 2);
    SlackBehindDots(NewEntry(3, filename).name);
  }

  lemma SlackBehindDots(name: Name)
    ensures HasSlack([DOT, DOTDOT], name)
  {
    assert Slack([DOT, DOTDOT][1], name);
  }

  // ------------------------------------------------------------------ a directory without room

  const QUARTER: Record := Record(2, 256, 1, [97])

  /** Four records of 256 bytes. */
  function FullBlock(): Block {
    Splice(Splice(Splice(Splice(Zeros(1024), 0, RecordBytes(QUARTER)), 256, RecordBytes(QUARTER)),
                  512, RecordBytes(QUARTER)), 768, RecordBytes(QUARTER))
  }

  lemma FullAt(o: nat)
    requires o == 0 || o == 256 || o == 512 || o == 768
    ensures FullBlock()[o..o + 9] == RecordBytes(QUARTER)
  {
    hide RecordBytes, Splice;
    var b1 := Splice(Zeros(1024), 0, RecordBytes(QUARTER));
    var b2 := Splice(b1, 256, RecordBytes(QUARTER));
    var b3 := Splice(b2, 512, RecordBytes(QUARTER));
    SpliceSlice(Zeros(1024), 0, RecordBytes(QUARTER), o, o + 9);
    SpliceSlice(b1, 256, RecordBytes(QUARTER), o, o + 9);
    SpliceSlice(b2, 512, RecordBytes(QUARTER), o, o + 9);
    SpliceSlice(b3, 768, RecordBytes(QUARTER), o, o + 9);
  }

  lemma {:induction false} FullTiled(o: nat)
    requires o == 0 || o == 256 || o == 512 || o == 768 || o == 1024
    ensures Tiled(FullBlock(), o)
    ensures forall r | r in Records(FullBlock(), o) :: r == QUARTER
    decreases 1024 - o
  {
    hide RecordBytes, RecordAt, RInode, RSize, RNameLength, FullBlock, GoodRecord, Tiled, Records;
    if o < 1024 {
      FullAt(o);
      RecordBack(FullBlock(), o, QUARTER);
      GoodFields(FullBlock(), o);
      FullTiled(o + 256);
      TiledCons(FullBlock(), o);
    } else {
      TiledDone(FullBlock());
    }
  }

  /** A file with a long name is created in this consistent, tiled directory, and yet the listing
      stays as it was. */
  lemma FullHides(filename: seq<byte>)
    requires |filename| >= 237
    ensures var fs := Disk(FullBlock());
      && Inv(fs, Clean) && Allocated(fs, 2) && CanCreate(fs, 2, filename)
      && DirTiled(fs.disk, ReadInode(fs, 2), 0) && DirWalkable(fs.disk, ReadInode(fs, 2), 0)
      && (var fs' := CreateFile(fs, 2, filename);
          && Inv(fs', Clean) && Allocated(fs', 2) && Allocated(fs', 3)
          && DirWalkable(fs'.disk, ReadInode(fs', 2), 0)
          && Listing(fs'.disk, ReadInode(fs', 2), 0) == Listing(fs.disk, ReadInode(fs, 2), 0))
  {
    hide Inv, Geometry, ReadInode, Tiled, Records, FullBlock, HasSlack, Disk, DirTiled, DirWalkable, Listing, CanCreate,
      Allocated, CreateFile, FindFreeInode, Rest, RestWalkable, Insert, ClearInodes;
    FullTiled(0);
    TiledUsable(FullBlock(), filename);
    var fs := Disk(FullBlock());
    AllocatedParts(fs, Clean, 2);
    CreateUnfolds(fs, 2, filename);
    NoSlackInQuarters(Records(FullBlock(), 0), NewEntry(3, filename).name);
    CreateFileLists(fs, 2, filename);
    CreateFileKeeps(fs, 2, filename);
    AllocatedParts(CreateFile(fs, 2, filename), Clean, 2);
  }

  lemma NoSlackInQuarters(rs: seq<Record>, name: Name)
    requires |name| >= 237 && forall r | r in rs :: r == QUARTER
    ensures !HasSlack(rs, name)
  {
    forall i | 0 <= i < |rs| ensures !Slack(rs[i], name) {
      assert rs[i] in rs;
    }
  }

  lemma FirstThree(root: Block, fs1: Fs)
    requires Same(Disk(root), fs1) && Geometry(Disk(root)) && Geometry(fs1)
    requires forall m :: Allocated(fs1, m) <==> Allocated(Disk(root), m) || m == 3
    ensures fs1.sb.inodesPerGroup == 8 && GroupCount(fs1) == 1
    ensures forall m :: Allocated(fs1, m) <==> m == 1 || m == 2 || m == 3
  {
    hide Geometry, Allocated;
    HasGeometry(root);
    SamePlaces(Disk(root), fs1);
    forall m ensures Allocated(fs1, m) <==> m == 1 || m == 2 || m == 3 {
      Allocations(root, m);
    }
  }

  lemma FourthNext(fs: Fs)
    requires Geometry(fs) && fs.sb.inodesPerGroup == 8 && GroupCount(fs) == 1
    requires forall m :: Allocated(fs, m) <==> m == 1 || m == 2 || m == 3
    ensures GroupOfInode(fs, 2) == 0 && ClearInodes(fs, 0) != {} && FindFreeInode(fs, 0) == 4
  {
    hide Geometry, Used;
    forall i: nat | i < 8 ensures Used(Content(fs, InodeBitmap(0)), i) <==> i < 3 {
      assert GroupOfInode(fs, i + 1) == 0 && InodeIndex(fs, i + 1) == i;
      assert Allocated(fs, i + 1) <==> i < 3;
    }
    assert 3 in ClearInodes(fs, 0);
  }

  /** After one file, number 4 is the next. */
  lemma NextIsFourth(root: Block, first: seq<byte>)
    requires Tiled(root, 0)
    ensures Inv(Disk(root), Clean) && Allocated(Disk(root), 2) && CanCreate(Disk(root), 2, first)
    ensures var fs1 := CreateFile(Disk(root), 2, first);
      && Inv(fs1, Clean) && Allocated(fs1, 2) && GroupOfInode(fs1, 2) < GroupCount(fs1)
      && ClearInodes(fs1, GroupOfInode(fs1, 2)) != {} && FindFreeInode(fs1, GroupOfInode(fs1, 2)) == 4
  {
    hide Inv, Geometry, ReadInode, Tiled, Records, Disk, DirTiled, DirWalkable, Listing, CanAdd, Allocated, CreateFile,
      FindFreeInode, ClearInodes, KeepsOthers, Marks, Grows;
    TiledUsable(root, first);
    var fs := Disk(root);
    AllocatedParts(fs, Clean, 2);
    CreateFileKeeps(fs, 2, first);
    CreateMarks(fs, 2, first);
    KeptLayout(fs, CreateFile(fs, 2, first), 2);
    FirstThree(root, CreateFile(fs, 2, first));
    FourthNext(CreateFile(fs, 2, first));
  }

  /** Two files with long names created there, the second name no shorter than the first: the first
      file is allocated and not listed, the second one is listed. */
  lemma FullReplaces(first: seq<byte>, second: seq<byte>)
    requires 237 <= |first| <= |second|
    ensures var fs := Disk(FullBlock());
      && Inv(fs, Clean) && Allocated(fs, 2) && CanCreate(fs, 2, first)
      && (var fs1 := CreateFile(fs, 2, first);
          && Inv(fs1, Clean) && Allocated(fs1, 2) && CanCreate(fs1, 2, second)
          && Lost(CreateFile(fs1, 2, second), 2, 3, 4))
  {
    hide Inv, Geometry, ReadInode, Tiled, Records, FullBlock, HasSlack, Disk, DirTiled, DirWalkable, Listing, CanCreate,
      Allocated, CreateFile, FindFreeInode, ClearInodes, Lost, Gapless, Needed;
    FullTiled(0);
    TiledUsable(FullBlock(), first);
    NextIsFourth(FullBlock(), first);
    var fs := Disk(FullBlock());
    AllocatedParts(fs, Clean, 2);
    NoSlackInQuarters(Records(FullBlock(), 0), NewEntry(0, first).name);
    NoSlackInQuarters(Records(FullBlock(), 0), NewEntry(0, second).name);
    NoShorter(NewEntry(0, first).name, NewEntry(0, second).name);
    FirstNotListed(fs, 2, first, second);
  }

  lemma NoShorter(a: Name, b: Name)
    requires |a| <= |b|
    ensures 8 + |a| <= Needed(b) + 4
  {
  }
}
