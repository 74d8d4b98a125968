/** The whole way: mounting a drive, and from a freshly formatted one creating, writing, listing
    and reading a file. */
module Ext2Mount {
  import opened Bits
  import opened Memory
  import opened Ext2Layout
  import opened Ext2State
  import opened Ext2Inv
  import opened Ext2Steps
  import opened Ext2Records
  import opened Ext2Files
  import opened Ext2Dirs
  import opened Ext2Ops
  import opened Ext2Marks
  import opened Ext2Formatted
  import opened Ata
  import opened Ext2

  /** What the kernel does at its start. On a drive that holds a consistent file system, memory
      and disk then are that file system. */
  method Mount(drive: Drive, ghost fs: Fs) returns (k: FileSystem)
    requires drive.sectors.Length <= 0x1000_0000
    requires Inv(fs, Clean) && Normal(drive.Blocks()) == fs.disk
    ensures fresh(k) && k.drive == drive && k.View() == fs && k.Valid()
  {
    hide Geometry, Inv, Normal, BlocksOf, EncodeSuper, EncodeGroups, DecodeSuper, DecodeGroups;
    MountedBlocks(drive.Blocks(), fs);
    SuperBack(fs.sb);
    GroupsBack(fs.groups);
    k := new FileSystem(drive);
    k.ParseSuperblock();
    SuperBack(k.sb);
    k.ParseBlockgroupDescriptors();
    GroupsBack(k.bgdt);
  }

  /** The copies of the superblock and the descriptors on the disk. */
  lemma MountedBlocks(blocks: seq<Block>, fs: Fs)
    requires Inv(fs, Clean) && Normal(blocks) == fs.disk
    ensures Geometry(fs) && |blocks| == |fs.disk| > 2
    ensures blocks[1][..84] == EncodeSuper(fs.sb) && blocks[2] == EncodeGroups(fs.groups)
  {
    hide Geometry, EncodeSuper, EncodeGroups, Counted, Owned, Reserved;
    FixedBlocks(fs);
    assert fs.disk[1][..84] == blocks[1][..84];
    assert SuperBlock(fs.sb)[..84] == EncodeSuper(fs.sb);
  }

  // ------------------------------------------------------------------ create, write, read

  /** What the way through a new file asks for: a tiled directory with room for the name, and
      enough free blocks in its group. */
  ghost predicate RoomFor(fs: Fs, parent: nat, filename: seq<byte>, data: seq<byte>) {
    && Inv(fs, Clean) && Allocated(fs, parent) && CanCreate(fs, parent, filename)
    && FileType(ReadInode(fs, parent)) == DIRECTORY
    && DirTiled(fs.disk, ReadInode(fs, parent), 0) && DirWalkable(fs.disk, ReadInode(fs, parent), 0)
    && HasSlack(Listing(fs.disk, ReadInode(fs, parent), 0), NewEntry(0, filename).name)
    && 1 <= |data| <= 12288 && BlocksNeeded(data) <= |ClearBlocks(fs, GroupOfInode(fs, parent))|
  }

  /** The number the new file gets, and the listing with it. */
  ghost function NewFile(fs: Fs, parent: nat, filename: seq<byte>, data: seq<byte>): u32
    requires RoomFor(fs, parent, filename, data)
  {
    U32(FindFreeInode(fs, GroupOfInode(fs, parent)))
  }

  ghost function WithFile(fs: Fs, parent: nat, filename: seq<byte>, data: seq<byte>): seq<Record>
    requires RoomFor(fs, parent, filename, data)
  {
    Insert(Listing(fs.disk, ReadInode(fs, parent), 0), NewEntry(NewFile(fs, parent, filename, data), filename))
  }

  /** create_file then takes no block, so what was enough is still enough for write_file. */
  lemma CreatedWritable(fs: Fs, parent: nat, filename: seq<byte>, data: seq<byte>)
    requires RoomFor(fs, parent, filename, data)
    ensures var n, fs' := FindFreeInode(fs, GroupOfInode(fs, parent)), CreateFile(fs, parent, filename);
      && Inv(fs', Clean) && Allocated(fs', n) && ReadInode(fs', n) == NEW_FILE && n != parent
      && EnoughBlocks(fs', n, data)
  {
    hide Inv, Geometry, ReadInode, DirTiled, DirWalkable, Listing, HasSlack, Allocated, CreateFile,
      FindFreeInode, ClearInodes, ClearBlocks, EnoughBlocks, BlocksNeeded, Grows, Marks, KeepsOthers, CanAdd, WithInode,
      AddEntry, SameDirectory;
    AllocatedParts(fs, Clean, parent);
    CreateUnfolds(fs, parent, filename);
    CreateFileKeeps(fs, parent, filename);
    CreateMarks(fs, parent, filename);
    var g := GroupOfInode(fs, parent);
    var n, fs' := FindFreeInode(fs, g), CreateFile(fs, parent, filename);
    SlackStays(fs, parent, NewEntry(U32(n), filename));
    AllocatedParts(fs', Clean, n);
    KeptLayout(fs, fs', parent);
    FoundInode(fs, g);
    ClearsStay(fs, fs', g);
    NewFileNeeds(fs', n, data);
  }

  /** The same marks leave the same clear bits. */
  lemma ClearsStay(fs: Fs, fs': Fs, g: nat)
    requires Marks(fs, fs', {}) && Same(fs, fs') && g < GroupCount(fs)
    ensures GroupCount(fs') == GroupCount(fs) && ClearBlocks(fs', g) == ClearBlocks(fs, g)
  {
    SamePlaces(fs, fs');
    hide Geometry, Used;
    forall i: nat | i < fs.sb.blocksPerGroup
      ensures Used(Content(fs', BlockBitmap(g)), i) == Used(Content(fs, BlockBitmap(g)), i)
    {
      Product(g, fs.sb.blocksPerGroup);
      DivMod(g, fs.sb.blocksPerGroup, i);
      var b := g * fs.sb.blocksPerGroup + i;
      assert BlockGroup(fs, b) == g && BlockIndex(fs, b) == i && InGroups(fs, b);
    }
  }

  lemma NewFileNeeds(fs: Fs, n: nat, data: seq<byte>)
    requires Geometry(fs) && ValidInode(fs, n) && ReadInode(fs, n) == NEW_FILE
    requires BlocksNeeded(data) <= |ClearBlocks(fs, GroupOfInode(fs, n))|
    ensures EnoughBlocks(fs, n, data)
  {
    hide Geometry, ReadInode, ClearBlocks, BlocksNeeded;
    if BlocksNeeded(data) <= 12 { AllHoles(0, BlocksNeeded(data)); }
  }

  lemma {:induction false} AllHoles(k: nat, hi: nat)
    requires k <= hi <= 12
    ensures Holes(NEW_FILE, k, hi) == hi - k
    decreases hi - k
  {
    if k < hi { AllHoles(k + 1, hi); }
  }

  /** The listing after create_file, still there after write_file. */
  lemma CreatedListed(fs: Fs, parent: nat, filename: seq<byte>, data: seq<byte>)
    requires RoomFor(fs, parent, filename, data)
    ensures var n, fs1 := FindFreeInode(fs, GroupOfInode(fs, parent)), CreateFile(fs, parent, filename);
      && Inv(fs1, Clean) && Allocated(fs1, n) && EnoughBlocks(fs1, n, data)
      && (var fs2 := WriteFile(fs1, n, data);
          && Inv(fs2, Clean) && Allocated(fs2, parent) && FileType(ReadInode(fs2, parent)) == DIRECTORY
          && DirWalkable(fs2.disk, ReadInode(fs2, parent), 0)
          && Listing(fs2.disk, ReadInode(fs2, parent), 0) ==
               Insert(Listing(fs.disk, ReadInode(fs, parent), 0), NewEntry(U32(n), filename)))
  {
    hide Inv, Geometry, ReadInode, DirTiled, DirWalkable, Listing, CanCreate, HasSlack, Allocated, CreateFile,
      FindFreeInode, ClearInodes, ClearBlocks, EnoughBlocks, BlocksNeeded, KeepsOthers, Insert, WriteFile, Rest,
      RestWalkable, Gapless, SameDirectory;
    AllocatedParts(fs, Clean, parent);
    CreateUnfolds(fs, parent, filename);
    CreatedWritable(fs, parent, filename, data);
    CreateFileLists(fs, parent, filename);
    var n, fs1 := FindFreeInode(fs, GroupOfInode(fs, parent)), CreateFile(fs, parent, filename);
    WriteKeeps(fs1, n, data);
    var fs2 := WriteFile(fs1, n, data);
    AllocatedParts(fs1, Clean, parent);
    KeptAllocated(fs1, fs2, n, parent);
    KeptDirectory(fs1, fs2, n, parent);
    ListingKept(fs1.disk, fs2.disk, ReadInode(fs1, parent), 0);
  }

  /** File `n` is read as `data`, and directory `parent` lists `rs`. */
  ghost predicate Shows(fs: Fs, n: nat, data: seq<byte>, max: nat, parent: nat, rs: seq<Record>) {
    && Inv(fs, Clean) && Allocated(fs, n) && Allocated(fs, parent)
    && FileType(ReadInode(fs, n)) == REGULAR && ReadInode(fs, n).size > 0
    && Readable(fs.disk, ReadInode(fs, n)) && Delivered(fs, n, max) == data[..Min(|data|, max)]
    && FileType(ReadInode(fs, parent)) == DIRECTORY
    && DirWalkable(fs.disk, ReadInode(fs, parent), 0) && Listing(fs.disk, ReadInode(fs, parent), 0) == rs
  }

  /** All of it on values. */
  lemma CreateThenWrite(fs: Fs, parent: nat, filename: seq<byte>, data: seq<byte>, max: nat)
    requires RoomFor(fs, parent, filename, data)
    ensures Inv(fs, Clean) && Allocated(fs, parent) && CanCreate(fs, parent, filename)
    ensures var n, fs1 := NewFile(fs, parent, filename, data), CreateFile(fs, parent, filename);
      && Inv(fs1, Clean) && Allocated(fs1, n) && |data| < 0x1_0000_0000 && EnoughBlocks(fs1, n, data)
      && Shows(WriteFile(fs1, n, data), n, data, max, parent, WithFile(fs, parent, filename, data))
  {
    hide Inv, Geometry, ReadInode, DirTiled, DirWalkable, Listing, CanCreate, HasSlack, Allocated, CreateFile,
      FindFreeInode, ClearInodes, ClearBlocks, EnoughBlocks, BlocksNeeded, KeepsOthers, Insert, WriteFile, Delivered,
      SameDirectory, CanAdd, WithInode, AddEntry, Readable;
    AllocatedParts(fs, Clean, parent);
    CreateUnfolds(fs, parent, filename);
    CreatedWritable(fs, parent, filename, data);
    CreatedListed(fs, parent, filename, data);
    var n, fs1 := NewFile(fs, parent, filename, data), CreateFile(fs, parent, filename);
    AllocatedParts(fs1, Clean, n);
    WriteThenRead(fs1, n, data, max, n, 0);
    NeededIs(data);
    WriteFileStores(fs1, n, data);
  }

  /** A file created, written, listed and read back, on the drive: whatever the name and the data,
      the listing shows the file and the buffer gets its content, ended by a 0. */
  method CreateWriteRead(k: FileSystem, parent: u32, filename: seq<byte>, data: seq<byte>,
                         buffer: array<byte>, maxSize: u32) returns (n: u32, listed: seq<Record>)
    requires k.Valid() && RoomFor(k.View(), parent, filename, data)
    requires |data| < maxSize <= buffer.Length
    modifies k`bgdt, k`sb, k`inode, k.drive.sectors, buffer
    ensures k.Valid() && n == old(NewFile(k.View(), parent, filename, data))
    ensures listed == old(WithFile(k.View(), parent, filename, data))
    ensures buffer[..] == Splice(old(buffer[..]), 0, data + [0])
  {
    hide Geometry, Inv, RoomFor, InodeMarked, Allocated, ReadInode, CanCreate, EnoughBlocks, NewFile, WithFile,
      Delivered, DirWalkable, Listing, Readable, Ext2Ops.CreateFile, Ext2Files.WriteFile, Normal, BlocksOf, Splice;
    ghost var fs := k.View();
    CreateThenWrite(fs, parent, filename, data, maxSize);
    n := NextInode(k, parent, filename, data);
    k.CreateFile(parent, filename);
    k.WriteFile(n, data);
    listed := k.ReadDirectoryEntries(parent);
    var printed := k.ReadFile(n, buffer, maxSize);
    assert data[..Min(|data|, maxSize)] == data;
  }

  method NextInode(k: FileSystem, parent: u32, ghost filename: seq<byte>, ghost data: seq<byte>) returns (n: u32)
    requires k.Valid() && RoomFor(k.View(), parent, filename, data)
    ensures n == NewFile(k.View(), parent, filename, data)
  {
    hide Geometry, Inv, ReadInode, InodeMarked, HasSlack, DirTiled, DirWalkable, Listing, ClearInodes, ClearBlocks,
      Ext2State.FindFreeInode, CanAdd, Normal, BlocksOf, BlocksNeeded, KeepsOthers, WithInode, SameDirectory, AddEntry,
      Ext2Ops.CreateFile;
    CreateUnfolds(k.View(), parent, filename);
    n := k.FindFreeInode((parent - 1) / k.sb.inodesPerGroup);
  }

  // ------------------------------------------------------------------ from a formatted drive

  /** A freshly formatted disk has room for any name and up to a kilobyte. */
  lemma FormattedRoom(filename: seq<byte>, data: seq<byte>)
    requires 1 <= |data| <= 1024
    ensures RoomFor(Formatted(), 2, filename, data) && NewFile(Formatted(), 2, filename, data) == 3
    ensures WithFile(Formatted(), 2, filename, data) ==
              [DOT, DOTDOT.(size := 12), NewEntry(3, filename).(size := 1000)]
  {
    hide Inv, Geometry, ReadInode, DirTiled, DirWalkable, Listing, CanCreate, HasSlack, Allocated, Disk, Insert,
      FindFreeInode, ClearInodes, ClearBlocks;
    FormattedUsable(filename);
    OneFree(RootBlock());
    SecondRecord(NewEntry(3, filename));
  }

  /** The new file's record takes all the room there is behind the two dots. */
  lemma SecondRecord(e: Record)
    ensures Insert([DOT, DOTDOT], e) == [DOT, DOTDOT.(size := 12), e.(size := 1000)]
  {
    assert !Slack(DOT, e.name) && Slack(DOTDOT, e.name);
    InsertCons([DOT, DOTDOT], e);
    assert [DOT, DOTDOT][1..] == [DOTDOT];
    InsertCons([DOTDOT], e);
  }

  /** Mounting a freshly formatted drive and using it. */
  method MountAndUse(drive: Drive, filename: seq<byte>, data: seq<byte>, buffer: array<byte>, maxSize: u32)
    returns (k: FileSystem, listed: seq<Record>)
    requires Normal(drive.Blocks()) == Formatted().disk
    requires 1 <= |data| <= 1024 && |data| < maxSize <= buffer.Length
    modifies drive.sectors, buffer
    ensures fresh(k) && k.drive == drive && k.Valid()
    ensures listed == [DOT, DOTDOT.(size := 12), Record(3, 1000, 1, filename[..Min(|filename|, 255)])]
    ensures buffer[..] == Splice(old(buffer[..]), 0, data + [0])
  {
    hide Geometry, Inv, RoomFor, NewFile, WithFile, Formatted, Normal, BlocksOf, Splice;
    FormattedRoom(filename, data);
    FormattedSize();
    k := Mount(drive, Formatted());
    var n;
    n, listed := CreateWriteRead(k, 2, filename, data, buffer, maxSize);
  }

  lemma FormattedSize()
    ensures |Formatted().disk| == 8 && Inv(Formatted(), Clean)
  {
    hide Inv;
    FormattedConsistent(RootBlock());
  }
}
