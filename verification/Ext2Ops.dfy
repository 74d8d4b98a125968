/** create_file and delete_file, and the invariant over every run of the four operations. */
module Ext2Ops {
  import opened Bits
  import opened Ext2Layout
  import opened Ext2State
  import opened Ext2Inv
  import opened Ext2Steps
  import opened Ext2Records
  import opened Ext2Files
  import opened Ext2Dirs

  // ------------------------------------------------------------------ create_file

  /** A regular file with permissions 0644, one link and no data. */
  const NEW_FILE: Inode := EMPTY_INODE.(mode := 0x81A4, links := 1)

  /** The name is cut after 255 bytes; the record's length is left 0. */
  function NewEntry(n: u32, filename: seq<byte>): Record {
    Record(n, 0, 1, filename[..Min(|filename|, 255)])
  }

  ghost predicate CanCreate(fs: Fs, parent: nat, filename: seq<byte>)
    requires Geometry(fs) && ValidInode(fs, parent)
  {
    var g := GroupOfInode(fs, parent);
    ClearInodes(fs, g) != {} && CanAdd(fs, parent, NewEntry(U32(FindFreeInode(fs, g)), filename))
  }

  /** The state before the directory is touched: the inode is taken and initialised. */
  ghost function WithInode(fs: Fs, parent: nat): Fs
    requires Inv(fs, Clean) && Allocated(fs, parent) && ClearInodes(fs, GroupOfInode(fs, parent)) != {}
  {
    var g := GroupOfInode(fs, parent);
    var n := FindFreeInode(fs, g);
    TakeInode(fs, g, NEW_FILE);
    NewValid(fs, SetInodeBit(fs, g, n, true), n);
    EditInode(SetInodeBit(fs, g, n, true), n, NEW_FILE)
  }

  ghost function CreateFile(fs: Fs, parent: nat, filename: seq<byte>): Fs
    requires Inv(fs, Clean) && Allocated(fs, parent) && CanCreate(fs, parent, filename)
  {
    WithInodeKeeps(fs, parent);
    CanStillAdd(fs, parent, NewEntry(U32(FindFreeInode(fs, GroupOfInode(fs, parent))), filename));
    AddEntry(WithInode(fs, parent), parent, NewEntry(U32(FindFreeInode(fs, GroupOfInode(fs, parent))), filename))
  }

  lemma NewValid(fs: Fs, fs1: Fs, n: nat)
    requires InodeNew(fs, fs1, n)
    ensures Geometry(fs1) && ValidInode(fs1, n) && Allocated(fs1, n) && !Allocated(fs, n)
    ensures forall h: nat | h < GroupCount(fs) :: h < GroupCount(fs1) && ClearBlocks(fs1, h) == ClearBlocks(fs, h)
  {
    SameInodes(fs, fs1);
    SamePlaces(fs, fs1);
  }

  /** Taking and initialising an inode touches no existing file, and takes no block. */
  lemma WithInodeKeeps(fs: Fs, parent: nat)
    requires Inv(fs, Clean) && Allocated(fs, parent) && ClearInodes(fs, GroupOfInode(fs, parent)) != {}
    ensures var n, fs2 := FindFreeInode(fs, GroupOfInode(fs, parent)), WithInode(fs, parent);
      && Inv(fs2, Clean) && KeepsOthers(fs, fs2, 0) && n != parent && !Allocated(fs, n)
      && Allocated(fs2, n) && ReadInode(fs2, n) == NEW_FILE && Allocated(fs2, parent)
      && GroupOfInode(fs2, parent) == GroupOfInode(fs, parent)
      && ClearBlocks(fs2, GroupOfInode(fs, parent)) == ClearBlocks(fs, GroupOfInode(fs, parent))
  {
    var g := GroupOfInode(fs, parent);
    hide Inv, Geometry, FindFreeInode, SetInodeBit, EditInode, InodeNew, KeepsOthers, ReadInode, SameBits,
        ClearBlocks, ClearInodes,
      DataKept;
    AllocatedParts(fs, Clean, parent);
    TakeInode(fs, g, NEW_FILE);
    var n := FindFreeInode(fs, g);
    var fs1 := SetInodeBit(fs, g, n, true);
    NewValid(fs, fs1, n);
    Store(fs1, n, NEW_FILE);
    var fs2 := EditInode(fs1, n, NEW_FILE);
    StillAllocated(fs1, fs2, n);
    KeptAllocated(fs, fs1, 0, parent);
    KeptAllocated(fs1, fs2, n, parent);
    KeepsNew(fs, fs1, fs2, n);
    BlocksStay(fs1, fs2, g);
  }

  lemma KeptAllocated(fs: Fs, fs': Fs, n: nat, m: nat)
    requires KeepsOthers(fs, fs', n) && Allocated(fs, m) && m != n
    ensures Allocated(fs', m) && ReadInode(fs', m) == ReadInode(fs, m) && GroupOfInode(fs', m) == GroupOfInode(fs, m)
    ensures GroupCount(fs') == GroupCount(fs)
    ensures forall i | 0 <= i < 12 && 0 < ReadInode(fs, m).block[i] < |fs.disk| ::
              ReadInode(fs, m).block[i] < |fs'.disk| &&
              fs'.disk[ReadInode(fs, m).block[i]] == fs.disk[ReadInode(fs, m).block[i]]
  {
    assert SameFile(fs, fs', m);
    SameInodes(fs, fs');
    SamePlaces(fs, fs');
  }

  lemma KeepsNew(fs: Fs, fs1: Fs, fs2: Fs, n: nat)
    requires KeepsOthers(fs, fs1, 0) && KeepsOthers(fs1, fs2, n) && !Allocated(fs, n)
    ensures KeepsOthers(fs, fs2, 0)
  {
    hide Geometry, Allocated, ReadInode;
    forall m | m != 0 && Allocated(fs, m) ensures SameFile(fs, fs2, m) {
      assert SameFile(fs, fs1, m);
      assert SameFile(fs1, fs2, m);
    }
  }

  lemma BlocksStay(fs: Fs, fs': Fs, g: nat)
    requires SameBits(fs, fs') && g < GroupCount(fs)
    ensures g < GroupCount(fs') && ClearBlocks(fs', g) == ClearBlocks(fs, g)
  {
    SameBitsKeep(fs, fs');
  }

  /** Taking and initialising an inode leaves the directory as it was. */
  lemma CanStillAdd(fs: Fs, parent: nat, e: Record)
    requires Inv(fs, Clean) && Allocated(fs, parent) && ClearInodes(fs, GroupOfInode(fs, parent)) != {}
    requires CanAdd(fs, parent, e)
    ensures var fs2 := WithInode(fs, parent);
      && Inv(fs2, Clean) && Allocated(fs2, parent) && CanAdd(fs2, parent, e)
      && ReadInode(fs2, parent) == ReadInode(fs, parent)
      && SameDirectory(fs.disk, fs2.disk, ReadInode(fs, parent))
  {
    hide Inv, Geometry, ReadInode, WithInode, KeepsOthers, DirSearchable, Search, ClearBlocks, ClearInodes, Allocated;
    AllocatedParts(fs, Clean, parent);
    WithInodeKeeps(fs, parent);
    var fs2, ino := WithInode(fs, parent), ReadInode(fs, parent);
    AllocatedParts(fs2, Clean, parent);
    KeptDirectory(fs, fs2, 0, parent);
    if FileType(ino) == DIRECTORY { SearchSame(fs.disk, fs2.disk, ino, e, 0); }
  }

  /** The blocks of a directory hold the same. */
  ghost predicate SameDirectory(a: seq<Block>, b: seq<Block>, ino: Inode) {
    |b| == |a| && forall i | 0 <= i < 12 && 0 < ino.block[i] < |a| :: b[ino.block[i]] == a[ino.block[i]]
  }

  lemma KeptDirectory(fs: Fs, fs2: Fs, n: nat, parent: nat)
    requires KeepsOthers(fs, fs2, n) && Allocated(fs, parent) && parent != n
    ensures SameDirectory(fs.disk, fs2.disk, ReadInode(fs, parent))
    ensures Allocated(fs2, parent) && ReadInode(fs2, parent) == ReadInode(fs, parent)
  {
    KeptAllocated(fs, fs2, n, parent);
  }

  lemma ListingKept(a: seq<Block>, b: seq<Block>, ino: Inode, k: nat)
    requires k <= 12 && SameDirectory(a, b, ino)
    ensures DirWalkable(b, ino, k) <==> DirWalkable(a, ino, k)
    ensures DirWalkable(a, ino, k) ==> Listing(b, ino, k) == Listing(a, ino, k)
    ensures DirTiled(a, ino, k) ==> DirTiled(b, ino, k)
  {
    ListingSame(a, b, ino, ino, k);
    ListingSame(b, a, ino, ino, k);
  }

  lemma {:induction false} SearchSame(a: seq<Block>, b: seq<Block>, ino: Inode, e: Record, k: nat)
    requires k <= 12 && DirSearchable(a, ino, e, k) && SameDirectory(a, b, ino)
    ensures DirSearchable(b, ino, e, k) && Search(b, ino, e, k) == Search(a, ino, e, k)
    decreases 12 - k
  {
    hide Searchable, PlaceEntry;
    if k < 12 && ino.block[k] != 0 {
      var p := PlaceEntry(a[ino.block[k]], 0, e);
      if p.NoRoom? { SearchSame(a, b, ino, e.(size := p.size), k + 1); }
    }
  }

  /** What create_file computes, and that it may. */
  lemma CreateParts(fs: Fs, parent: nat, filename: seq<byte>)
    requires Inv(fs, Clean) && Allocated(fs, parent) && CanCreate(fs, parent, filename)
    ensures Geometry(fs) && ValidInode(fs, parent)
    ensures ClearInodes(fs, GroupOfInode(fs, parent)) != {}
    ensures var n := FindFreeInode(fs, GroupOfInode(fs, parent));
      var fs1, e := SetInodeBit(fs, GroupOfInode(fs, parent), n, true), NewEntry(U32(n), filename);
      && U32(n) == n && Geometry(fs1) && ValidInode(fs1, n)
      && (var fs2 := EditInode(fs1, n, NEW_FILE);
          && Inv(fs2, Clean) && Allocated(fs2, parent) && CanAdd(fs2, parent, e)
          && CreateFile(fs, parent, filename) == AddEntry(fs2, parent, e))
  {
    hide Inv, Geometry, ReadInode, KeepsOthers, FindFreeInode, CanAdd, AddEntry, SameDirectory,
      SetInodeBit, EditInode, InodeNew;
    AllocatedParts(fs, Clean, parent);
    var n := FindFreeInode(fs, GroupOfInode(fs, parent));
    WithInodeKeeps(fs, parent);
    CanStillAdd(fs, parent, NewEntry(U32(n), filename));
    InodeFits(fs, GroupOfInode(fs, parent));
    TakeInode(fs, GroupOfInode(fs, parent), NEW_FILE);
    NewValid(fs, SetInodeBit(fs, GroupOfInode(fs, parent), n, true), n);
  }

  /** create_file keeps the invariant, touches no other file than the directory, and leaves an
      empty regular file at the lowest free inode of the directory's group. */
  lemma CreateFileKeeps(fs: Fs, parent: nat, filename: seq<byte>)
    requires Inv(fs, Clean) && Allocated(fs, parent) && CanCreate(fs, parent, filename)
    ensures var n, fs' := FindFreeInode(fs, GroupOfInode(fs, parent)), CreateFile(fs, parent, filename);
      && Inv(fs', Clean) && KeepsOthers(fs, fs', parent)
      && !Allocated(fs, n) && Allocated(fs', n) && ReadInode(fs', n) == NEW_FILE && Allocated(fs', parent)
  {
    var n := FindFreeInode(fs, GroupOfInode(fs, parent));
    var e := NewEntry(U32(n), filename);
    WithInodeKeeps(fs, parent);
    CanStillAdd(fs, parent, e);
    var fs2 := WithInode(fs, parent);
    hide Inv, Geometry, ReadInode, WithInode, KeepsOthers, FindFreeInode, CanAdd, AddEntry, DirWalkable, Listing,
        DirTiled;
    AddEntryKeeps(fs2, parent, e);
    KeptAllocated(fs2, AddEntry(fs2, parent, e), parent, n);
    KeepsWider(fs, fs2, AddEntry(fs2, parent, e), parent);
  }

  /** The bytes of the new inode: type and permissions 0x81A4, one link, and zeros: it belongs to
      user and group 0, has size 0 and no block. */
  lemma CreatedBytes(fs: Fs, parent: nat, filename: seq<byte>, k: nat)
    requires Inv(fs, Clean) && Allocated(fs, parent) && CanCreate(fs, parent, filename) && k < 128
    ensures var n, fs' := FindFreeInode(fs, GroupOfInode(fs, parent)), CreateFile(fs, parent, filename);
      && Geometry(fs') && ValidInode(fs', n)
      && SlotBytes(fs', n)[k] == if k == 0 then 0xA4 else if k == 1 then 0x81 else if k == 26 then 1 else 0
  {
    hide Inv, Geometry, ReadInode, KeepsOthers, FindFreeInode, CreateFile, CanAdd, EncodeInode, SlotBytes, Allocated,
      ClearInodes;
    AllocatedParts(fs, Clean, parent);
    CreateFileKeeps(fs, parent, filename);
    var n, fs' := FindFreeInode(fs, GroupOfInode(fs, parent)), CreateFile(fs, parent, filename);
    AllocatedParts(fs', Clean, n);
    SlotHolds(fs', n);
    NewInodeBytes(0x81A4, 1, k);
  }

  lemma KeepsWider(a: Fs, b: Fs, c: Fs, n: nat)
    requires KeepsOthers(a, b, 0) && KeepsOthers(b, c, n)
    ensures KeepsOthers(a, c, n)
  {
    hide Geometry, ReadInode;
    forall m | m != n && Allocated(a, m) ensures SameFile(a, c, m) {
      assert m != 0;
      assert SameFile(a, b, m);
      assert SameFile(b, c, m);
    }
  }

  /** The new file is listed, right behind the first record with enough slack, exactly when the
      directory has such a record. Otherwise the file exists but the listing does not show it:
      it gains only what lies behind the hole that was filled, nothing in a directory without
      gaps. */
  lemma CreateFileLists(fs: Fs, parent: nat, filename: seq<byte>)
    requires Inv(fs, Clean) && Allocated(fs, parent) && CanCreate(fs, parent, filename)
    requires FileType(ReadInode(fs, parent)) == DIRECTORY && DirTiled(fs.disk, ReadInode(fs, parent), 0)
    ensures DirWalkable(fs.disk, ReadInode(fs, parent), 0)
    ensures var fs', ino := CreateFile(fs, parent, filename), ReadInode(fs, parent);
      && Inv(fs', Clean) && Allocated(fs', parent)
      && (var e := Record(U32(FindFreeInode(fs, GroupOfInode(fs, parent))), 0, 1, filename[..Min(|filename|, 255)]);
          var before := Listing(fs.disk, ino, 0);
          var listable := DirWalkable(fs'.disk, ReadInode(fs', parent), 0);
          if HasSlack(before, e.name) then
            && ReadInode(fs', parent) == ino && listable
            && Listing(fs'.disk, ino, 0) == Insert(before, e)
          else
            && (listable <==> RestWalkable(fs.disk, ino))
            && (listable ==> Listing(fs'.disk, ReadInode(fs', parent), 0) == before + Rest(fs.disk, ino))
            && (Gapless(ino) ==> listable && Listing(fs'.disk, ReadInode(fs', parent), 0) == before))
  {
    hide Inv, Geometry, ReadInode, WithInode, KeepsOthers, FindFreeInode, CanAdd, AddEntry, DirWalkable, Listing,
      DirTiled, HasSlack, Insert, RestWalkable, Rest, FreshBlock, Walkable, Walk, Allocated, ClearInodes, Gapless,
      SameDirectory;
    AllocatedParts(fs, Clean, parent);
    var ino, n := ReadInode(fs, parent), FindFreeInode(fs, GroupOfInode(fs, parent));
    var e := NewEntry(U32(n), filename);
    TiledWalkable(fs.disk, ino, 0);
    CreateUnfolds(fs, parent, filename);
    var fs2 := WithInode(fs, parent);
    ListingKept(fs.disk, fs2.disk, ino, 0);
    RestKept(fs.disk, fs2.disk, ino);
    AddEntryLists(fs2, parent, e);
    FreshBlockHides(e);
    if Gapless(ino) { NoRest(fs.disk, ino); }
    if !HasSlack(Listing(fs.disk, ino, 0), e.name) && FirstHole(ino, 0) == 12 { NoHole(fs.disk, ino); }
    assert Listing(fs.disk, ino, 0) + [] == Listing(fs.disk, ino, 0);
  }

  lemma RestKept(a: seq<Block>, b: seq<Block>, ino: Inode)
    requires SameDirectory(a, b, ino)
    ensures RestWalkable(b, ino) <==> RestWalkable(a, ino)
    ensures RestWalkable(a, ino) ==> Rest(b, ino) == Rest(a, ino)
  {
    hide DirWalkable, Listing;
    if FirstHole(ino, 0) < 12 { ListingKept(a, b, ino, FirstHole(ino, 0) + 1); }
  }

  lemma NoHole(disk: seq<Block>, ino: Inode)
    requires FirstHole(ino, 0) == 12
    ensures RestWalkable(disk, ino) && Rest(disk, ino) == []
  {
  }

  /** create_file as its two halves. */
  lemma CreateUnfolds(fs: Fs, parent: nat, filename: seq<byte>)
    requires Inv(fs, Clean) && Allocated(fs, parent) && CanCreate(fs, parent, filename)
    ensures Geometry(fs) && ValidInode(fs, parent) && ClearInodes(fs, GroupOfInode(fs, parent)) != {}
    ensures var n, fs2 := FindFreeInode(fs, GroupOfInode(fs, parent)), WithInode(fs, parent);
      var e := Record(U32(n), 0, 1, filename[..Min(|filename|, 255)]);
      && 0 < U32(n) == n && Inv(fs2, Clean) && Allocated(fs2, parent) && CanAdd(fs2, parent, e)
      && ReadInode(fs2, parent) == ReadInode(fs, parent)
      && SameDirectory(fs.disk, fs2.disk, ReadInode(fs, parent))
      && CreateFile(fs, parent, filename) == AddEntry(fs2, parent, e)
  {
    hide Inv, Geometry, ReadInode, KeepsOthers, FindFreeInode, CanAdd, AddEntry, WithInode, SameDirectory;
    AllocatedParts(fs, Clean, parent);
    var n := FindFreeInode(fs, GroupOfInode(fs, parent));
    WithInodeKeeps(fs, parent);
    CanStillAdd(fs, parent, NewEntry(U32(n), filename));
    InodeFits(fs, GroupOfInode(fs, parent));
  }

  /** The number found is one, and fits 32 bits. */
  lemma InodeFits(fs: Fs, g: nat)
    requires Geometry(fs) && g < GroupCount(fs) && ClearInodes(fs, g) != {}
    ensures 0 < U32(FindFreeInode(fs, g)) == FindFreeInode(fs, g)
  {
    FoundInode(fs, g);
    GroupBound(FindFreeInode(fs, g) - 1, fs.sb.inodesPerGroup, 32);
  }

  lemma GroupBound(x: nat, d: nat, g: nat)
    requires 0 < d <= 8192 && x / d < g <= 32
    ensures x < 0x4_0000
  {
    DivModBack(x, d);
    assert x / d * d <= 31 * d;
  }

  // ------------------------------------------------------------------ delete_file

  ghost function DeleteFile(fs: Fs, n: nat): Fs
    requires Inv(fs, Clean) && Allocated(fs, n)
  {
    DropInode(fs, n);
    var fs1 := SetInodeBit(fs, GroupOfInode(fs, n), n, false);
    DroppedValid(fs, fs1, n);
    EditInode(fs1, n, EMPTY_INODE)
  }

  lemma DroppedValid(fs: Fs, fs1: Fs, n: nat)
    requires InodeSet(fs, fs1, n, false)
    ensures Geometry(fs1) && ValidInode(fs1, n) && !Allocated(fs1, n)
    ensures forall b: nat | InGroups(fs, b) :: InGroups(fs1, b) && BlockMarked(fs1, b) == BlockMarked(fs, b)
  {
    InodeSetKeeps(fs, fs1, n, false, n);
    InodeSetBlocks(fs, fs1, n, false);
  }

  /** A free inode number refers to nothing, whatever is stored for it. */
  lemma HoldFree(fs: Fs, n: nat, ino: Inode)
    requires Inv(fs, Clean) && ValidInode(fs, n) && !Allocated(fs, n)
    ensures Inv(fs, Holding(n, ino))
  {
    hide Geometry, InodeMarked, BlockMarked, ReadInode, IsMeta, Mirrored, Counted;
    forall m, i, c | Refers(fs, Holding(n, ino), m, i, c) ensures Refers(fs, Clean, m, i, c) {
    }
  }

  /** delete_file frees the inode number and clears the inode, touches no other file, and gives
      no block back: every mark in the block bitmaps stays. */
  lemma DeleteFileKeeps(fs: Fs, n: nat)
    requires Inv(fs, Clean) && Allocated(fs, n)
    ensures var fs' := DeleteFile(fs, n);
      && Inv(fs', Clean) && KeepsOthers(fs, fs', n)
      && ValidInode(fs', n) && !Allocated(fs', n) && ReadInode(fs', n) == EMPTY_INODE
      && forall b: nat | InGroups(fs, b) :: InGroups(fs', b) && BlockMarked(fs', b) == BlockMarked(fs, b)
  {
    hide Inv, Geometry, KeepsOthers, ReadInode, SetInodeBit, EditInode, InodeSet, BlockMarked, InodeMarked, SameBits,
        DataKept, Allocated;
    AllocatedParts(fs, Clean, n);
    DropInode(fs, n);
    var fs1 := SetInodeBit(fs, GroupOfInode(fs, n), n, false);
    DroppedValid(fs, fs1, n);
    var fs' := EditInode(fs1, n, EMPTY_INODE);
    HoldFree(fs1, n, EMPTY_INODE);
    Store(fs1, n, EMPTY_INODE);
    MarksStay(fs1, fs', n);
    KeepsTransitive(fs, fs1, fs', n);
  }

  /** What is left of the inode: 128 zero bytes. */
  lemma DeletedBytes(fs: Fs, n: nat)
    requires Inv(fs, Clean) && Allocated(fs, n)
    ensures Geometry(DeleteFile(fs, n)) && ValidInode(DeleteFile(fs, n), n)
    ensures SlotBytes(DeleteFile(fs, n), n) == Zeros(128)
  {
    hide Inv, Geometry, ReadInode, KeepsOthers, DeleteFile, EncodeInode, SlotBytes, Allocated;
    DeleteFileKeeps(fs, n);
    InvParts(DeleteFile(fs, n), Clean);
    SlotHolds(DeleteFile(fs, n), n);
    forall k: nat | k < 128 ensures EncodeInode(EMPTY_INODE)[k] == 0 {
      NewInodeBytes(0, 0, k);
    }
  }

  lemma MarksStay(fs: Fs, fs': Fs, n: nat)
    requires SameBits(fs, fs') && ValidInode(fs, n) && !Allocated(fs, n)
    ensures !Allocated(fs', n)
    ensures forall b: nat | InGroups(fs, b) :: InGroups(fs', b) && BlockMarked(fs', b) == BlockMarked(fs, b)
  {
    SameBitsKeep(fs, fs');
  }

  // ------------------------------------------------------------------ runs

  datatype Operation =
    | Create(parent: nat, filename: seq<byte>)
    | Write(n: nat, data: seq<byte>)
    | Add(parent: nat, e: Record)
    | Delete(n: nat)

  /** What the code needs of its callers and does not check: allocated inodes, directory blocks it
      can search, and a free bit where it looks for one. */
  ghost predicate Asks(fs: Fs, op: Operation)
    requires Geometry(fs)
  {
    match op
    case Create(p, name) => Allocated(fs, p) && CanCreate(fs, p, name)
    case Write(n, data) => Allocated(fs, n) && |data| < 0x1_0000_0000 && EnoughBlocks(fs, n, data)
    case Add(p, e) => Allocated(fs, p) && CanAdd(fs, p, e)
    case Delete(n) => Allocated(fs, n)
  }

  ghost function Apply(fs: Fs, op: Operation): Fs
    requires Inv(fs, Clean) && Asks(fs, op)
  {
    match op
    case Create(p, name) => CreateFile(fs, p, name)
    case Write(n, data) => WriteFile(fs, n, data)
    case Add(p, e) => AddEntry(fs, p, e)
    case Delete(n) => DeleteFile(fs, n)
  }

  /** The inode an operation is given. */
  function Target(op: Operation): nat {
    match op
    case Create(p, _) => p
    case Write(n, _) => n
    case Add(p, _) => p
    case Delete(n) => n
  }

  /** Every operation keeps the invariant and every file but the one it is given. */
  lemma ApplyKeeps(fs: Fs, op: Operation)
    requires Inv(fs, Clean) && Asks(fs, op)
    ensures Inv(Apply(fs, op), Clean) && KeepsOthers(fs, Apply(fs, op), Target(op))
  {
    match op
    case Create(p, name) => CreateFileKeeps(fs, p, name);
    case Write(n, data) => WriteKeeps(fs, n, data);
    case Add(p, e) => AddEntryKeeps(fs, p, e);
    case Delete(n) => DeleteFileKeeps(fs, n);
  }

  lemma WriteKeeps(fs: Fs, n: nat, data: seq<byte>)
    requires Inv(fs, Clean) && Allocated(fs, n) && |data| < 0x1_0000_0000 && EnoughBlocks(fs, n, data)
    ensures Inv(WriteFile(fs, n, data), Clean) && KeepsOthers(fs, WriteFile(fs, n, data), n)
  {
    hide Inv, Geometry, KeepsOthers, ReadInode, Allocated, WriteFile, WriteBlocks, EnoughBlocks, BlocksNeeded;
    AllocatedParts(fs, Clean, n);
    WriteFileIs(fs, n, data);
    if data == [] || FileType(ReadInode(fs, n)) != REGULAR || BlocksNeeded(data) > 12 {
      KeepsReflexive(fs, n);
    } else {
      WriteFileStores(fs, n, data);
    }
  }

  /** One step of a run. The operations are defined on consistent states only; that the states
      of a run are consistent is not part of what a step says. */
  ghost predicate Step(fs: Fs, op: Operation, fs': Fs) {
    Inv(fs, Clean) ==> Asks(fs, op) && fs' == Apply(fs, op)
  }

  ghost predicate IsRun(trace: seq<Fs>, ops: seq<Operation>) {
    |trace| == |ops| + 1 && forall k | 0 <= k < |ops| :: Step(trace[k], ops[k], trace[k + 1])
  }

  /** Over every run from a consistent state the invariant holds: copies on disk equal those in
      memory, the counts count the clear bits, and no two inode slots share a block, use a free
      one or a structure's. */
  lemma {:induction false} RunsKeepInvariant(trace: seq<Fs>, ops: seq<Operation>, k: nat)
    requires IsRun(trace, ops) && k < |trace| && Inv(trace[0], Clean)
    ensures Inv(trace[k], Clean)
  {
    hide Inv, Asks, Apply;
    if k > 0 {
      RunsKeepInvariant(trace, ops, k - 1);
      assert Step(trace[k - 1], ops[k - 1], trace[k]);
      ApplyKeeps(trace[k - 1], ops[k - 1]);
    }
  }

  /** A file no operation was given is the same file, blocks included. */
  lemma {:induction false} RunsKeepFile(trace: seq<Fs>, ops: seq<Operation>, k: nat, n: nat)
    requires IsRun(trace, ops) && k < |trace| && Inv(trace[0], Clean) && Allocated(trace[0], n)
    requires forall i | 0 <= i < k :: Target(ops[i]) != n
    ensures Inv(trace[k], Clean) && Same(trace[0], trace[k]) && SameFile(trace[0], trace[k], n)
  {
    hide Inv, Asks, Apply, Allocated, ReadInode;
    if k > 0 {
      RunsKeepFile(trace, ops, k - 1, n);
      assert Step(trace[k - 1], ops[k - 1], trace[k]);
      ApplyKeeps(trace[k - 1], ops[k - 1]);
      assert SameFile(trace[k - 1], trace[k], n);
    }
  }

  /** So it is read as at the start of the run, at every length, and listed as then. */
  lemma RunsKeepOthers(trace: seq<Fs>, ops: seq<Operation>, k: nat, n: nat, max: nat)
    requires IsRun(trace, ops) && k < |trace| && Inv(trace[0], Clean) && Allocated(trace[0], n)
    requires forall i | 0 <= i < k :: Target(ops[i]) != n
    ensures Inv(trace[k], Clean) && Allocated(trace[k], n)
    ensures var fs, fs', ino := trace[0], trace[k], ReadInode(trace[0], n);
      && ReadInode(fs', n) == ino && Readable(fs.disk, ino) && Readable(fs'.disk, ino)
      && Delivered(fs', n, max) == Delivered(fs, n, max)
      && (DirWalkable(fs'.disk, ino, 0) <==> DirWalkable(fs.disk, ino, 0))
      && (DirWalkable(fs.disk, ino, 0) ==> Listing(fs'.disk, ino, 0) == Listing(fs.disk, ino, 0))
  {
    hide Inv, Geometry, Allocated, ReadInode, Delivered, Readable, DirWalkable, Listing, IsRun;
    RunsKeepFile(trace, ops, k, n);
    AllocatedParts(trace[0], Clean, n);
    SameDelivered(trace[0], trace[k], n, max);
    ListingKept(trace[0].disk, trace[k].disk, ReadInode(trace[0], n), 0);
  }

  /** What is written stays written: after any operations given other files, the file is read
      as the data. */
  lemma WriteLasts(trace: seq<Fs>, ops: seq<Operation>, j: nat, k: nat, n: nat, data: seq<byte>, max: nat)
    requires IsRun(trace, ops) && j < k < |trace| && Inv(trace[j], Clean) && ops[j] == Write(n, data)
    requires Allocated(trace[j], n) && FileType(ReadInode(trace[j], n)) == REGULAR && 1 <= |data| <= 12288
    requires forall i | j < i < k :: Target(ops[i]) != n
    ensures Inv(trace[k], Clean) && Allocated(trace[k], n) && Readable(trace[k].disk, ReadInode(trace[k], n))
    ensures Delivered(trace[k], n, max) == data[..Min(|data|, max)]
  {
    hide Inv, Geometry, Allocated, ReadInode, Delivered, Readable, DirWalkable, Listing, WriteFile, EnoughBlocks;
    assert Step(trace[j], ops[j], trace[j + 1]);
    WriteThenRead(trace[j], n, data, max, n, 0);
    var later, after := trace[j + 1..], ops[j + 1..];
    assert IsRun(later, after) by {
      forall i | 0 <= i < |after| ensures Step(later[i], after[i], later[i + 1]) {
        assert Step(trace[j + 1 + i], ops[j + 1 + i], trace[j + 1 + i + 1]);
      }
    }
    RunsKeepOthers(later, after, k - j - 1, n, max);
  }

  /** Spelled out for any state of a run: the counts, the copies, and any two slots of any two
      files. */
  lemma RunsCountAndOwn(trace: seq<Fs>, ops: seq<Operation>, k: nat, g: nat, m: nat, i: nat, n: nat, j: nat)
    requires IsRun(trace, ops) && k < |trace| && Inv(trace[0], Clean) && i < 12 && j < 12
    ensures Geometry(trace[k]) && |trace[k].disk| > 2
    ensures var fs := trace[k];
      && fs.sb.freeBlocks == SumBlocks(fs.groups, GroupCount(fs))
      && fs.sb.freeInodes == SumInodes(fs.groups, GroupCount(fs))
      && (g < GroupCount(fs) ==>
            fs.groups[g].freeBlocks == |ClearBlocks(fs, g)| && fs.groups[g].freeInodes == |ClearInodes(fs, g)|)
      && fs.disk[1] == SuperBlock(fs.sb) && fs.disk[2] == EncodeGroups(fs.groups)
    ensures var fs := trace[k];
      Allocated(fs, m) && Allocated(fs, n) && ReadInode(fs, m).block[i] != 0 ==>
        var b := ReadInode(fs, m).block[i];
        && InGroups(fs, b) && BlockMarked(fs, b) && b < |fs.disk|
        && (forall p | ValidPlace(fs, p) :: At(fs, p) != b)
        && (ReadInode(fs, n).block[j] == b ==> m == n && i == j)
  {
    RunsKeepInvariant(trace, ops, k);
    hide IsRun, Inv, ReadInode, Allocated, BlockMarked, SumBlocks, SumInodes, ClearBlocks, ClearInodes, SuperBlock,
      EncodeGroups;
    var fs := trace[k];
    CountsAndCopies(fs, g);
    if Allocated(fs, m) && Allocated(fs, n) && ReadInode(fs, m).block[i] != 0 {
      FilesApart(fs, m, i, n, j);
    }
  }

  lemma CountsAndCopies(fs: Fs, g: nat)
    requires Inv(fs, Clean)
    ensures Geometry(fs)
    ensures fs.sb.freeBlocks == SumBlocks(fs.groups, GroupCount(fs))
    ensures fs.sb.freeInodes == SumInodes(fs.groups, GroupCount(fs))
    ensures g < GroupCount(fs) ==>
              fs.groups[g].freeBlocks == |ClearBlocks(fs, g)| && fs.groups[g].freeInodes == |ClearInodes(fs, g)|
    ensures |fs.disk| > 2 && fs.disk[1] == SuperBlock(fs.sb) && fs.disk[2] == EncodeGroups(fs.groups)
  {
    FixedBlocks(fs);
  }

  /** The ownership part spelled out for two files: their blocks are marked used, are distinct,
      and are not block 0, the superblock, the descriptors, a bitmap or an inode table. */
  lemma FilesApart(fs: Fs, m: nat, i: nat, n: nat, j: nat)
    requires Inv(fs, Clean) && Allocated(fs, m) && Allocated(fs, n) && i < 12 && j < 12
    requires ReadInode(fs, m).block[i] != 0
    ensures var b := ReadInode(fs, m).block[i];
      && InGroups(fs, b) && BlockMarked(fs, b) && b < |fs.disk|
      && (forall p | ValidPlace(fs, p) :: At(fs, p) != b)
      && (ReadInode(fs, n).block[j] == b ==> m == n && i == j)
  {
    var b := ReadInode(fs, m).block[i];
    assert Refers(fs, Clean, m, i, b);
    if ReadInode(fs, n).block[j] == b {
      assert Refers(fs, Clean, n, j, b);
    }
    forall p | ValidPlace(fs, p) ensures At(fs, p) != b {
      assert !IsMeta(fs, b);
    }
  }
}
