/** add_directory_entry and read_directory_entries as functions of the file system: what a
    listing shows after an entry was added, and that no other file notices. */
module Ext2Dirs {
  import opened Ext2Layout
  import opened Ext2State
  import opened Ext2Inv
  import opened Ext2Steps
  import opened Ext2Records
  import opened Ext2Files

  // ------------------------------------------------------------------ directories

  /** The blocks of the directory from slot `k` up to the first hole can be walked. */
  predicate DirWalkable(disk: seq<Block>, ino: Inode, k: nat)
    requires k <= 12
    decreases 12 - k
  {
    k == 12 || ino.block[k] == 0 ||
    (ino.block[k] < |disk| && Walkable(disk[ino.block[k]], 0) && DirWalkable(disk, ino, k + 1))
  }

  /** What read_directory_entries lists from slot `k` on. */
  function Listing(disk: seq<Block>, ino: Inode, k: nat): seq<Record>
    requires k <= 12 && DirWalkable(disk, ino, k)
    decreases 12 - k
  {
    if k == 12 || ino.block[k] == 0 then []
    else Walk(disk[ino.block[k]], 0) + Listing(disk, ino, k + 1)
  }

  /** All blocks up to the first hole are exactly tiled by good records. */
  predicate DirTiled(disk: seq<Block>, ino: Inode, k: nat)
    requires k <= 12
    decreases 12 - k
  {
    k == 12 || ino.block[k] == 0 ||
    (ino.block[k] < |disk| && Tiled(disk[ino.block[k]], 0) && DirTiled(disk, ino, k + 1))
  }

  /** No block comes after a hole. */
  predicate Gapless(ino: Inode) {
    forall i, j | 0 <= i < j < 12 && ino.block[i] == 0 :: ino.block[j] == 0
  }

  /** What add_directory_entry reads of the directory is there: it stops at the first block with
      room and at the first hole. */
  predicate DirSearchable(disk: seq<Block>, ino: Inode, e: Record, k: nat)
    requires k <= 12
    decreases 12 - k
  {
    k == 12 || ino.block[k] == 0 ||
    (ino.block[k] < |disk| && Searchable(disk[ino.block[k]], 0, e.name) &&
      match PlaceEntry(disk[ino.block[k]], 0, e)
      case Placed(_, _) => true
      case NoRoom(size) => DirSearchable(disk, ino, e.(size := size), k + 1))
  }

  /** Where the search ends: room in block `k`, a hole at slot `k`, or nowhere. */
  datatype Decision = Put(k: nat, buf: Block, end: nat) | Extend(k: nat, e: Record) | Full

  function Search(disk: seq<Block>, ino: Inode, e: Record, k: nat): (d: Decision)
    requires k <= 12 && DirSearchable(disk, ino, e, k)
    ensures d.Put? ==> k <= d.k < 12 && 0 < ino.block[d.k] < |disk|
    ensures d.Extend? ==> k <= d.k < 12 && ino.block[d.k] == 0
    decreases 12 - k
  {
    if k == 12 then Full
    else if ino.block[k] == 0 then Extend(k, e)
    else
      match PlaceEntry(disk[ino.block[k]], 0, e)
      case Placed(buf, end) => Put(k, buf, end)
      case NoRoom(size) => Search(disk, ino, e.(size := size), k + 1)
  }

  /** What add_directory_entry needs of its caller: blocks it can search, and a free block if it
      comes to a hole. */
  ghost predicate CanAdd(fs: Fs, parent: nat, e: Record)
    requires Geometry(fs) && ValidInode(fs, parent)
  {
    var ino := ReadInode(fs, parent);
    FileType(ino) == DIRECTORY ==>
      && DirSearchable(fs.disk, ino, e, 0)
      && (Search(fs.disk, ino, e, 0).Extend? ==> ClearBlocks(fs, GroupOfInode(fs, parent)) != {})
  }

  /** A directory inode that got block `b` at slot `k`. */
  function Grown(ino: Inode, k: nat, b: u32): Inode
    requires k < 12
  {
    ino.(block := ino.block[k := b], size := U32(ino.size + 1024), sectors := U32(ino.sectors + 2))
  }

  ghost function PutEntry(fs: Fs, parent: nat, k: nat, buf: Block, end: nat): Fs
    requires Inv(fs, Clean) && Allocated(fs, parent) && k < 12 && ReadInode(fs, parent).block[k] != 0
  {
    var ino := ReadInode(fs, parent);
    PutKeeps(fs, parent, k, buf);
    var fs1 := WriteAt(fs, ino.block[k], buf);
    if end > ino.size then EditInode(fs1, parent, ino.(size := U32(end))) else fs1
  }

  ghost function ExtendDir(fs: Fs, parent: nat, k: nat, e: Record): Fs
    requires Inv(fs, Clean) && Allocated(fs, parent) && k < 12 && ReadInode(fs, parent).block[k] == 0
    requires ClearBlocks(fs, GroupOfInode(fs, parent)) != {}
  {
    var ino, g := ReadInode(fs, parent), GroupOfInode(fs, parent);
    var b := FindFreeBlock(fs, g);
    var fs1 := SetBlockBit(fs, g, b, true);
    ExtendTakes(fs, parent, k, e);
    var fs2 := WriteAt(fs1, b, FreshBlock(e));
    EditInode(fs2, parent, Grown(ino, k, U32(b)))
  }

  ghost function AddEntry(fs: Fs, parent: nat, e: Record): Fs
    requires Inv(fs, Clean) && Allocated(fs, parent) && CanAdd(fs, parent, e)
  {
    var ino := ReadInode(fs, parent);
    if FileType(ino) != DIRECTORY then fs
    else
      match Search(fs.disk, ino, e, 0)
      case Full => fs
      case Put(k, buf, end) => PutEntry(fs, parent, k, buf, end)
      case Extend(k, e') => ExtendDir(fs, parent, k, e')
  }

  // ------------------------------------------------------------------ the steps keep the invariant

  lemma PutKeeps(fs: Fs, parent: nat, k: nat, buf: Block)
    requires Inv(fs, Clean) && Allocated(fs, parent) && k < 12 && ReadInode(fs, parent).block[k] != 0
    ensures ReadInode(fs, parent).block[k] < |fs.disk|
    ensures var fs1 := WriteAt(fs, ReadInode(fs, parent).block[k], buf);
      && Inv(fs1, Clean) && Allocated(fs1, parent) && KeepsOthers(fs, fs1, parent)
      && ReadInode(fs1, parent) == ReadInode(fs, parent)
  {
    var ino := ReadInode(fs, parent);
    var b := ino.block[k];
    Hold(fs, parent, ino);
    OwnBlock(fs, parent, ino, k);
    WriteData(fs, Clean, b, buf);
    SameBitsKeep(fs, WriteAt(fs, b, buf));
    hide Inv, Geometry, WriteAt, KeepsOthers, ReadInode;
    WriteOwn(fs, Holding(parent, ino), k, buf);
  }

  lemma ExtendTakes(fs: Fs, parent: nat, k: nat, e: Record)
    requires Inv(fs, Clean) && Allocated(fs, parent) && k < 12 && ReadInode(fs, parent).block[k] == 0
    requires ClearBlocks(fs, GroupOfInode(fs, parent)) != {}
    ensures var ino, g := ReadInode(fs, parent), GroupOfInode(fs, parent);
      var b, fs1 := FindFreeBlock(fs, g), SetBlockBit(fs, g, FindFreeBlock(fs, g), true);
      && BlockTaken(fs, fs1, b) && 0 < U32(b) == b < |fs1.disk|
      && (var fs2, ino' := WriteAt(fs1, b, FreshBlock(e)), Grown(ino, k, U32(b));
          Inv(fs2, Holding(parent, ino')) && Allocated(fs2, parent) && KeepsOthers(fs, fs2, parent))
  {
    hide Inv, Geometry, FindFreeBlock, SetBlockBit, BlockTaken, DataBlock, KeepsOthers, ClearBlocks, FreshBlock,
        ReadInode;
    AllocatedParts(fs, Clean, parent);
    var ino, g := ReadInode(fs, parent), GroupOfInode(fs, parent);
    Hold(fs, parent, ino);
    TakeBlock(fs, Holding(parent, ino), g);
    var b, fs1 := FindFreeBlock(fs, g), SetBlockBit(fs, g, FindFreeBlock(fs, g), true);
    BlockNumberFits(fs1, Holding(parent, ino), b);
    FewerClear(fs, fs1, parent, b);
    Attach(fs1, parent, ino, k, b);
    FillBlock(fs, fs1, parent, WithBlock(ino, k, b), k, FreshBlock(e));
    Rehold(WriteAt(fs1, b, FreshBlock(e)), parent, WithBlock(ino, k, b), Grown(ino, k, b));
  }

  /** Writing a block just attached to the inode in hand. */
  lemma FillBlock(fs: Fs, fs1: Fs, n: nat, ino: Inode, k: nat, buf: Block)
    requires KeepsOthers(fs, fs1, n) && Inv(fs1, Holding(n, ino)) && Allocated(fs1, n)
    requires k < 12 && 0 < ino.block[k] < |fs1.disk|
    ensures var fs2 := WriteAt(fs1, ino.block[k], buf);
      Inv(fs2, Holding(n, ino)) && Allocated(fs2, n) && KeepsOthers(fs, fs2, n)
  {
    var w := Holding(n, ino);
    OwnBlock(fs1, n, ino, k);
    WriteData(fs1, w, ino.block[k], buf);
    hide Inv, Geometry, WriteAt, KeepsOthers, ReadInode, DataBlock, SameBits;
    StillAllocated(fs1, WriteAt(fs1, ino.block[k], buf), n);
    WriteOwn(fs1, w, k, buf);
    KeepsTransitive(fs, fs1, WriteAt(fs1, ino.block[k], buf), n);
  }

  /** add_directory_entry keeps the invariant and touches no other file. */
  lemma AddEntryKeeps(fs: Fs, parent: nat, e: Record)
    requires Inv(fs, Clean) && Allocated(fs, parent) && CanAdd(fs, parent, e)
    ensures var fs' := AddEntry(fs, parent, e);
      Inv(fs', Clean) && Allocated(fs', parent) && KeepsOthers(fs, fs', parent)
  {
    var ino := ReadInode(fs, parent);
    KeepsReflexive(fs, parent);
    if FileType(ino) == DIRECTORY {
      var d := Search(fs.disk, ino, e, 0);
      if d.Put? {
        PutEntryKeeps(fs, parent, d.k, d.buf, d.end);
      } else if d.Extend? {
        ExtendDirKeeps(fs, parent, d.k, d.e);
      }
    }
  }

  lemma PutEntryKeeps(fs: Fs, parent: nat, k: nat, buf: Block, end: nat)
    requires Inv(fs, Clean) && Allocated(fs, parent) && k < 12 && ReadInode(fs, parent).block[k] != 0
    ensures var fs' := PutEntry(fs, parent, k, buf, end);
      Inv(fs', Clean) && Allocated(fs', parent) && KeepsOthers(fs, fs', parent)
  {
    hide Inv, Geometry, WriteAt, KeepsOthers, ReadInode, EditInode, Allocated;
    AllocatedParts(fs, Clean, parent);
    PutKeeps(fs, parent, k, buf);
    var ino := ReadInode(fs, parent);
    if end > ino.size {
      StoreKeeps(fs, WriteAt(fs, ino.block[k], buf), parent, ino.(size := U32(end)));
    }
  }

  /** Storing an inode that keeps its blocks. */
  lemma StoreKeeps(fs: Fs, fs1: Fs, n: nat, ino: Inode)
    requires Inv(fs1, Clean) && Allocated(fs1, n) && KeepsOthers(fs, fs1, n)
    requires ino.block == ReadInode(fs1, n).block
    ensures var fs' := EditInode(fs1, n, ino);
      Inv(fs', Clean) && Allocated(fs', n) && KeepsOthers(fs, fs', n)
  {
    hide Inv, Geometry, KeepsOthers, ReadInode, EditInode, SameBits, DataKept, Allocated;
    AllocatedParts(fs1, Clean, n);
    var fs' := EditInode(fs1, n, ino);
    Hold(fs1, n, ino);
    Store(fs1, n, ino);
    StillAllocated(fs1, fs', n);
    KeepsTransitive(fs, fs1, fs', n);
  }

  lemma ExtendDirKeeps(fs: Fs, parent: nat, k: nat, e: Record)
    requires Inv(fs, Clean) && Allocated(fs, parent) && k < 12 && ReadInode(fs, parent).block[k] == 0
    requires ClearBlocks(fs, GroupOfInode(fs, parent)) != {}
    ensures var fs' := ExtendDir(fs, parent, k, e);
      Inv(fs', Clean) && Allocated(fs', parent) && KeepsOthers(fs, fs', parent)
  {
    hide Inv, Geometry, WriteAt, KeepsOthers, ReadInode, EditInode, SameBits, DataKept, Allocated, SetBlockBit,
      FindFreeBlock, Grown, FreshBlock, ClearBlocks, BlockTaken;
    AllocatedParts(fs, Clean, parent);
    ExtendTakes(fs, parent, k, e);
    var ino, g := ReadInode(fs, parent), GroupOfInode(fs, parent);
    var b := FindFreeBlock(fs, g);
    var fs2, ino' := WriteAt(SetBlockBit(fs, g, b, true), b, FreshBlock(e)), Grown(ino, k, U32(b));
    AllocatedParts(fs2, Holding(parent, ino'), parent);
    Store(fs2, parent, ino');
    StillAllocated(fs2, EditInode(fs2, parent, ino'), parent);
    KeepsTransitive(fs, fs2, EditInode(fs2, parent, ino'), parent);
  }

  // ------------------------------------------------------------------ the loops, taken apart

  lemma SearchStep(disk: seq<Block>, ino: Inode, e: Record, k: nat)
    requires k < 12 && DirSearchable(disk, ino, e, k)
    ensures ino.block[k] == 0 ==> Search(disk, ino, e, k) == Extend(k, e)
    ensures ino.block[k] != 0 ==>
      && ino.block[k] < |disk| && Searchable(disk[ino.block[k]], 0, e.name)
      && match PlaceEntry(disk[ino.block[k]], 0, e)
         case Placed(buf, end) => Search(disk, ino, e, k) == Put(k, buf, end)
         case NoRoom(size) =>
           && DirSearchable(disk, ino, e.(size := size), k + 1)
           && Search(disk, ino, e, k) == Search(disk, ino, e.(size := size), k + 1)
  {
    hide Searchable, PlaceEntry;
  }

  lemma SearchDone(disk: seq<Block>, ino: Inode, e: Record)
    ensures DirSearchable(disk, ino, e, 12) && Search(disk, ino, e, 12) == Full
  {
  }

  lemma ListingStep(disk: seq<Block>, ino: Inode, k: nat)
    requires k < 12 && DirWalkable(disk, ino, k)
    ensures ino.block[k] == 0 ==> Listing(disk, ino, k) == []
    ensures ino.block[k] != 0 ==>
      && ino.block[k] < |disk| && Walkable(disk[ino.block[k]], 0) && DirWalkable(disk, ino, k + 1)
      && Listing(disk, ino, k) == Walk(disk[ino.block[k]], 0) + Listing(disk, ino, k + 1)
  {
    hide Walkable, Walk;
  }

  lemma ListingDone(disk: seq<Block>, ino: Inode)
    requires DirWalkable(disk, ino, 12)
    ensures Listing(disk, ino, 12) == []
  {
  }

  /** What the branches of add_directory_entry compute, and that they may. */
  lemma PutParts(fs: Fs, parent: nat, k: nat, buf: Block, end: nat)
    requires Inv(fs, Clean) && Allocated(fs, parent) && k < 12 && ReadInode(fs, parent).block[k] != 0
    ensures var ino := ReadInode(fs, parent);
      && ino.block[k] < |fs.disk|
      && (var fs1 := WriteAt(fs, ino.block[k], buf);
          && Geometry(fs1) && ValidInode(fs1, parent)
          && PutEntry(fs, parent, k, buf, end) ==
               if end > ino.size then EditInode(fs1, parent, ino.(size := U32(end))) else fs1)
  {
    PutKeeps(fs, parent, k, buf);
  }

  lemma ExtendParts(fs: Fs, parent: nat, k: nat, e: Record)
    requires Inv(fs, Clean) && Allocated(fs, parent) && k < 12 && ReadInode(fs, parent).block[k] == 0
    requires ClearBlocks(fs, GroupOfInode(fs, parent)) != {}
    ensures var ino, g := ReadInode(fs, parent), GroupOfInode(fs, parent);
      var b, fs1 := FindFreeBlock(fs, g), SetBlockBit(fs, g, FindFreeBlock(fs, g), true);
      && Geometry(fs1) && 1 < U32(b) == b < |fs1.disk|
      && (var fs2 := WriteAt(fs1, b, FreshBlock(e));
          && Geometry(fs2) && ValidInode(fs2, parent)
          && ExtendDir(fs, parent, k, e) == EditInode(fs2, parent, Grown(ino, k, b)))
  {
    ExtendTakes(fs, parent, k, e);
    var ino, g := ReadInode(fs, parent), GroupOfInode(fs, parent);
    var b, fs1 := FindFreeBlock(fs, g), SetBlockBit(fs, g, FindFreeBlock(fs, g), true);
    var fs2 := WriteAt(fs1, b, FreshBlock(e));
    TakenGeometry(fs, fs1, b);
    hide FindFreeBlock, SetBlockBit, Inv, Geometry, BlockTaken, FreshBlock, ReadInode, KeepsOthers;
    AllocatedParts(fs2, Holding(parent, Grown(ino, k, b)), parent);
    OwnBlock(fs2, parent, Grown(ino, k, b), k);
    DataNotSuper(fs2, b);
  }

  // ------------------------------------------------------------------ what a listing shows

  lemma {:induction false} TiledWalkable(disk: seq<Block>, ino: Inode, k: nat)
    requires k <= 12 && DirTiled(disk, ino, k)
    ensures DirWalkable(disk, ino, k)
    decreases 12 - k
  {
    if k < 12 && ino.block[k] != 0 {
      TiledWalk(disk[ino.block[k]], 0);
      TiledWalkable(disk, ino, k + 1);
    }
  }

  lemma {:induction false} TiledSearchable(disk: seq<Block>, ino: Inode, e: Record, k: nat)
    requires k <= 12 && DirTiled(disk, ino, k)
    ensures DirSearchable(disk, ino, e, k)
    decreases 12 - k
  {
    hide Tiled, Searchable, PlaceEntry;
    if k < 12 && ino.block[k] != 0 {
      TiledSearch(disk[ino.block[k]], 0, e.name);
      var p := PlaceEntry(disk[ino.block[k]], 0, e);
      if p.NoRoom? { TiledSearchable(disk, ino, e.(size := p.size), k + 1); }
    }
  }

  /** A listing depends on the blocks it walks and on nothing else. */
  lemma {:induction false} ListingSame(a: seq<Block>, b: seq<Block>, ino: Inode, ino': Inode, k: nat)
    requires k <= 12 && forall i | k <= i < 12 :: ino'.block[i] == ino.block[i]
    requires forall i | k <= i < 12 && 0 < ino.block[i] < |a| ::
        ino.block[i] < |b| && b[ino.block[i]] == a[ino.block[i]]
    ensures DirWalkable(a, ino, k) ==> DirWalkable(b, ino', k) && Listing(b, ino', k) == Listing(a, ino, k)
    ensures DirTiled(a, ino, k) ==> DirTiled(b, ino', k)
    decreases 12 - k
  {
    if k < 12 && 0 < ino.block[k] < |a| {
      ListingSame(a, b, ino, ino', k + 1);
    }
  }

  lemma SlackConcat(a: seq<Record>, b: seq<Record>, name: Name)
    ensures HasSlack(a + b, name) <==> HasSlack(a, name) || HasSlack(b, name)
  {
    hide Slack;
    if HasSlack(a, name) {
      var i :| 0 <= i < |a| && Slack(a[i], name);
      assert Slack((a + b)[i], name);
    }
    if HasSlack(b, name) {
      var i :| 0 <= i < |b| && Slack(b[i], name);
      assert Slack((a + b)[|a| + i], name);
    }
  }

  lemma {:induction false} InsertConcat(a: seq<Record>, b: seq<Record>, e: Record)
    ensures Insert(a + b, e) == if HasSlack(a, e.name) then Insert(a, e) + b else a + Insert(b, e)
  {
    hide Insert, HasSlack, Slack;
    if a == [] {
      assert a + b == b && [] + Insert(b, e) == Insert(b, e);
      NoSlackInNone(e.name);
    } else {
      var r, rest := a[0], a[1..];
      assert a == [r] + rest && (a + b)[1..] == rest + b;
      SlackCons(r, rest, e.name);
      InsertCons(a, e);
      InsertCons(a + b, e);
      if !Slack(r, e.name) {
        InsertConcat(rest, b, e);
        assert [r] + (Insert(rest, e) + b) == [r] + Insert(rest, e) + b;
        assert [r] + (rest + Insert(b, e)) == a + Insert(b, e);
      }
    }
  }

  lemma NoSlackInNone(name: Name)
    ensures !HasSlack([], name)
  {
  }

  /** The directory with block `b` rewritten. */
  function Rewritten(disk: seq<Block>, b: nat, buf: Block): seq<Block>
    requires b < |disk|
  {
    disk[b := buf]
  }

  /** On a tiled directory the search finds the first record with enough slack, wherever it is,
      and rewriting that block inserts the entry into the listing; without such a record the
      search ends at the first hole or at the end of the twelve slots. */
  lemma {:induction false} SearchInserts(disk: seq<Block>, ino: Inode, e: Record, k: nat)
    requires k <= 12 && DirTiled(disk, ino, k) && e.inode != 0
    requires forall i, j | 0 <= i < j < 12 && ino.block[i] != 0 :: ino.block[i] != ino.block[j]
    ensures DirWalkable(disk, ino, k) && DirSearchable(disk, ino, e, k)
    ensures var d := Search(disk, ino, e, k);
      HasSlack(Listing(disk, ino, k), e.name) ==>
        && d.Put? && d.end == 0
        && (var disk' := Rewritten(disk, ino.block[d.k], d.buf);
            DirTiled(disk', ino, k) && DirWalkable(disk', ino, k) &&
                Listing(disk', ino, k) == Insert(Listing(disk, ino, k), e))
    ensures var d := Search(disk, ino, e, k);
      !HasSlack(Listing(disk, ino, k), e.name) ==>
        if d.Extend? then d.e == e && ino.block[d.k] == 0 && (forall i | k <= i < d.k :: ino.block[i] != 0)
        else d == Full && forall i | k <= i < 12 :: ino.block[i] != 0
    decreases 12 - k
  {
    hide Tiled, Walkable, Records, Walk, PlaceEntry, HasSlack, Insert, DirTiled, DirWalkable, Listing, Search,
      DirSearchable, Searchable;
    TiledWalkable(disk, ino, k);
    TiledSearchable(disk, ino, e, k);
    if k == 12 || ino.block[k] == 0 {
      SearchEnds(disk, ino, e, k);
    } else {
      DirParts(disk, ino, e, k);
      SlackConcat(Records(disk[ino.block[k]], 0), Listing(disk, ino, k + 1), e.name);
      InsertConcat(Records(disk[ino.block[k]], 0), Listing(disk, ino, k + 1), e);
      PlaceInserts(disk[ino.block[k]], 0, e);
      if HasSlack(Records(disk[ino.block[k]], 0), e.name) {
        RewriteHere(disk, ino, k, PlaceEntry(disk[ino.block[k]], 0, e).buf);
      } else {
        assert e.(size := e.size) == e;
        SearchInserts(disk, ino, e, k + 1);
        var d := Search(disk, ino, e, k + 1);
        if d.Put? && HasSlack(Listing(disk, ino, k + 1), e.name) {
          RewriteLater(disk, ino, k, d.k, d.buf);
        }
      }
    }
  }

  lemma SearchEnds(disk: seq<Block>, ino: Inode, e: Record, k: nat)
    requires k <= 12 && (k == 12 || ino.block[k] == 0)
    ensures DirWalkable(disk, ino, k) && Listing(disk, ino, k) == [] && !HasSlack(Listing(disk, ino, k), e.name)
    ensures DirSearchable(disk, ino, e, k)
    ensures Search(disk, ino, e, k) == if k == 12 then Full else Extend(k, e)
  {
  }

  /** Rewriting the first block leaves the rest of the directory. */
  lemma RewriteHere(disk: seq<Block>, ino: Inode, k: nat, buf: Block)
    requires k < 12 && 0 < ino.block[k] < |disk| && DirTiled(disk, ino, k + 1) && Tiled(buf, 0)
    requires forall i, j | 0 <= i < j < 12 && ino.block[i] != 0 :: ino.block[i] != ino.block[j]
    ensures var disk' := Rewritten(disk, ino.block[k], buf);
      && DirTiled(disk', ino, k) && DirWalkable(disk', ino, k) && DirWalkable(disk, ino, k + 1)
      && Listing(disk', ino, k) == Records(buf, 0) + Listing(disk, ino, k + 1)
  {
    hide Tiled, Records, DirTiled, DirWalkable, Listing;
    var disk' := Rewritten(disk, ino.block[k], buf);
    TiledWalkable(disk, ino, k + 1);
    ListingSame(disk, disk', ino, ino, k + 1);
    DirJoin(disk', ino, k);
  }

  /** Rewriting a later block leaves the first one. */
  lemma RewriteLater(disk: seq<Block>, ino: Inode, k: nat, j: nat, buf: Block)
    requires k < j < 12 && 0 < ino.block[k] < |disk| && 0 < ino.block[j] < |disk| && ino.block[k] != ino.block[j]
    requires Tiled(disk[ino.block[k]], 0) && DirTiled(Rewritten(disk, ino.block[j], buf), ino, k + 1)
    ensures var disk' := Rewritten(disk, ino.block[j], buf);
      && DirTiled(disk', ino, k) && DirWalkable(disk', ino, k) && DirWalkable(disk', ino, k + 1)
      && Listing(disk', ino, k) == Records(disk[ino.block[k]], 0) + Listing(disk', ino, k + 1)
  {
    hide Tiled, Records, DirTiled, DirWalkable, Listing;
    DirJoin(Rewritten(disk, ino.block[j], buf), ino, k);
  }

  /** A tiled directory from slot `k` on, taken apart into one block and the rest. */
  lemma DirParts(disk: seq<Block>, ino: Inode, e: Record, k: nat)
    requires k < 12 && ino.block[k] != 0 && DirTiled(disk, ino, k)
    ensures ino.block[k] < |disk| && Tiled(disk[ino.block[k]], 0) && Walkable(disk[ino.block[k]], 0)
    ensures DirTiled(disk, ino, k + 1) && DirWalkable(disk, ino, k) && DirWalkable(disk, ino, k + 1)
    ensures Listing(disk, ino, k) == Records(disk[ino.block[k]], 0) + Listing(disk, ino, k + 1)
    ensures DirSearchable(disk, ino, e, k) && Searchable(disk[ino.block[k]], 0, e.name)
    ensures match PlaceEntry(disk[ino.block[k]], 0, e)
            case Placed(buf, end) => Search(disk, ino, e, k) == Put(k, buf, end)
            case NoRoom(size) =>
              && DirSearchable(disk, ino, e.(size := size), k + 1)
              && Search(disk, ino, e, k) == Search(disk, ino, e.(size := size), k + 1)
  {
    hide Tiled, Walkable, Records, Walk, PlaceEntry, Searchable;
    TiledWalkable(disk, ino, k);
    TiledWalk(disk[ino.block[k]], 0);
    TiledSearchable(disk, ino, e, k);
  }

  /** ... and put together again. */
  lemma DirJoin(disk: seq<Block>, ino: Inode, k: nat)
    requires k < 12 && 0 < ino.block[k] < |disk| && Tiled(disk[ino.block[k]], 0) && DirTiled(disk, ino, k + 1)
    ensures DirTiled(disk, ino, k) && DirWalkable(disk, ino, k) && DirWalkable(disk, ino, k + 1)
    ensures Listing(disk, ino, k) == Records(disk[ino.block[k]], 0) + Listing(disk, ino, k + 1)
  {
    TiledWalkable(disk, ino, k + 1);
    TiledWalk(disk[ino.block[k]], 0);
    hide Tiled, Walkable, Records, Walk;
  }

  /** What a listing would come to if the first hole were filled. */
  predicate RestWalkable(disk: seq<Block>, ino: Inode) {
    FirstHole(ino, 0) < 12 ==> DirWalkable(disk, ino, FirstHole(ino, 0) + 1)
  }

  function Rest(disk: seq<Block>, ino: Inode): seq<Record>
    requires RestWalkable(disk, ino)
  {
    if FirstHole(ino, 0) == 12 then [] else Listing(disk, ino, FirstHole(ino, 0) + 1)
  }

  lemma NoRest(disk: seq<Block>, ino: Inode)
    requires Gapless(ino)
    ensures RestWalkable(disk, ino) && Rest(disk, ino) == []
  {
  }

  /** A block put into the first hole adds what it lists, and what comes behind it. */
  lemma {:induction false} ListingGrown(a: seq<Block>, b: seq<Block>, ino: Inode, ino': Inode, k: nat, h: nat)
    requires k <= h < 12 && DirWalkable(a, ino, k) && ino.block[h] == 0 && |a| == |b|
    requires forall i | k <= i < h :: ino.block[i] != 0
    requires forall i | 0 <= i < 12 && i != h :: ino'.block[i] == ino.block[i]
    requires forall i | 0 <= i < 12 && 0 < ino.block[i] < |a| :: b[ino.block[i]] == a[ino.block[i]]
    requires 0 < ino'.block[h] < |b|
    ensures DirWalkable(b, ino', k) <==> Walkable(b[ino'.block[h]], 0) && DirWalkable(a, ino, h + 1)
    ensures DirWalkable(b, ino', k) ==>
        Listing(b, ino', k) == Listing(a, ino, k) + Walk(b[ino'.block[h]], 0) + Listing(a, ino, h + 1)
    decreases h - k
  {
    hide Walkable, Walk;
    if k < h {
      ListingGrown(a, b, ino, ino', k + 1, h);
    } else {
      ListingSame(a, b, ino, ino', h + 1);
      ListingSame(b, a, ino', ino, h + 1);
    }
  }

  /** What the directory's blocks hold after it grew. */
  ghost predicate DirGrown(fs: Fs, fs': Fs, ino: Inode, ino': Inode, k: nat, e: Record)
    requires k < 12
  {
    && |fs'.disk| == |fs.disk|
    && ino' == ino.(block := ino.block[k := ino'.block[k]], size := (ino.size + 1024) % 0x1_0000_0000,
                    sectors := (ino.sectors + 2) % 0x1_0000_0000)
    && 0 < ino'.block[k] < |fs'.disk|
    && fs'.disk[ino'.block[k]] == FreshBlock(e)
    && forall i: nat | i < 12 && 0 < ino.block[i] < |fs.disk| ::
         ino.block[i] < |fs'.disk| && fs'.disk[ino.block[i]] == fs.disk[ino.block[i]]
  }

  lemma ExtendData(fs: Fs, parent: nat, k: nat, e: Record)
    requires Inv(fs, Clean) && Allocated(fs, parent) && k < 12 && ReadInode(fs, parent).block[k] == 0
    requires ClearBlocks(fs, GroupOfInode(fs, parent)) != {}
    ensures var fs' := ExtendDir(fs, parent, k, e);
      && Inv(fs', Clean) && Allocated(fs', parent)
      && DirGrown(fs, fs', ReadInode(fs, parent), ReadInode(fs', parent), k, e)
  {
    var ino, g := ReadInode(fs, parent), GroupOfInode(fs, parent);
    ExtendTakes(fs, parent, k, e);
    ExtendDirKeeps(fs, parent, k, e);
    Hold(fs, parent, ino);
    var b := FindFreeBlock(fs, g);
    var fs1 := SetBlockBit(fs, g, b, true);
    var fs2, ino' := WriteAt(fs1, b, FreshBlock(e)), Grown(ino, k, U32(b));
    assert ino' == Grown(ino, k, ino'.block[k]) && ino'.block[k] == b;
    hide SetBlockBit, FindFreeBlock, Inv, Geometry, KeepsOthers, ReadInode, EditInode, SameBits, BlockTaken, FreshBlock,
      Allocated, DirGrown, DataKept, Grown;
    AllocatedParts(fs2, Holding(parent, ino'), parent);
    Store(fs2, parent, ino');
    FreshOthers(fs, parent, ino, fs1, b);
    StoredData(fs, fs1, fs2, EditInode(fs2, parent, ino'), parent, ino, ino', k, e, b);
  }

  lemma KeptAt(fs: Fs, fs': Fs, c: nat)
    requires DataKept(fs, fs') && DataBlock(fs, c)
    ensures |fs'.disk| == |fs.disk| && c < |fs.disk| && fs'.disk[c] == fs.disk[c]
  {
  }

  lemma StoredData(fs: Fs, fs1: Fs, fs2: Fs, fs': Fs, n: nat, ino: Inode, ino': Inode, k: nat, e: Record, b: u32)
    requires Inv(fs2, Holding(n, ino')) && Allocated(fs2, n) && DataKept(fs2, fs') && k < 12
    requires BlockTaken(fs, fs1, b) && b < |fs1.disk| && fs2 == WriteAt(fs1, b, FreshBlock(e))
    requires ino' == Grown(ino, k, b) && b > 0 && ino.block[k] == 0
    requires forall j: nat | j < 12 && 0 < ino.block[j] < |fs.disk| ::
               ino.block[j] != b && ino.block[j] < |fs1.disk| && fs1.disk[ino.block[j]] == fs.disk[ino.block[j]]
    ensures DirGrown(fs, fs', ino, ino', k, e)
  {
    hide Inv, Geometry, Allocated, DataBlock, Refers, BlockTaken, FreshBlock, DataKept;
    TakenGeometry(fs, fs1, b);
    OwnBlock(fs2, n, ino', k);
    KeptAt(fs2, fs', b);
    forall i: nat | i < 12 && 0 < ino.block[i] < |fs.disk|
      ensures ino.block[i] < |fs'.disk| && fs'.disk[ino.block[i]] == fs.disk[ino.block[i]]
    {
      OwnBlock(fs2, n, ino', i);
      KeptAt(fs2, fs', ino.block[i]);
    }
  }

  /** The branch for a hole, on a directory that can be listed: what is listed afterwards, and
      when it still can be. */
  lemma ExtendLists(fs: Fs, parent: nat, e: Record)
    requires Inv(fs, Clean) && Allocated(fs, parent) && FirstHole(ReadInode(fs, parent), 0) < 12
    requires ClearBlocks(fs, GroupOfInode(fs, parent)) != {}
    requires DirWalkable(fs.disk, ReadInode(fs, parent), 0)
    ensures var fs', ino := ExtendDir(fs, parent, FirstHole(ReadInode(fs, parent), 0), e), ReadInode(fs, parent);
      && Inv(fs', Clean) && Allocated(fs', parent)
      && (DirWalkable(fs'.disk, ReadInode(fs', parent), 0) <==>
            Walkable(FreshBlock(e), 0) && RestWalkable(fs.disk, ino))
      && (DirWalkable(fs'.disk, ReadInode(fs', parent), 0) ==>
            Listing(fs'.disk, ReadInode(fs', parent), 0) ==
              Listing(fs.disk, ino, 0) + Walk(FreshBlock(e), 0) + Rest(fs.disk, ino))
  {
    hide Inv, Geometry, ReadInode, ExtendDir, FreshBlock, Allocated, Walkable, Walk, DirWalkable, Listing, ClearBlocks;
    AllocatedParts(fs, Clean, parent);
    var ino := ReadInode(fs, parent);
    var k := FirstHole(ino, 0);
    ExtendData(fs, parent, k, e);
    var fs' := ExtendDir(fs, parent, k, e);
    AllocatedReadable(fs, parent);
    AllocatedParts(fs', Clean, parent);
    ListingGrown(fs.disk, fs'.disk, ino, ReadInode(fs', parent), 0, k);
  }

  /** add_directory_entry on a tiled directory. If some record has enough slack, the listing
      becomes the old one with the entry right behind the first such record, and the blocks
      stay tiled. If none has and there is no hole, nothing changes. Otherwise the entry starts
      a new block in the first hole, and the listing goes on with what that block and those
      behind it list. */
  lemma AddEntryLists(fs: Fs, parent: nat, e: Record)
    requires Inv(fs, Clean) && Allocated(fs, parent) && CanAdd(fs, parent, e) && e.inode != 0
    requires FileType(ReadInode(fs, parent)) == DIRECTORY && DirTiled(fs.disk, ReadInode(fs, parent), 0)
    ensures DirWalkable(fs.disk, ReadInode(fs, parent), 0)
    ensures var fs', ino := AddEntry(fs, parent, e), ReadInode(fs, parent);
      && Inv(fs', Clean) && Allocated(fs', parent)
      && (HasSlack(Listing(fs.disk, ino, 0), e.name) ==>
            && ReadInode(fs', parent) == ino
            && DirTiled(fs'.disk, ino, 0) && DirWalkable(fs'.disk, ino, 0)
            && Listing(fs'.disk, ino, 0) == Insert(Listing(fs.disk, ino, 0), e))
      && (!HasSlack(Listing(fs.disk, ino, 0), e.name) ==>
            if FirstHole(ino, 0) == 12 then fs' == fs
            else
              && (DirWalkable(fs'.disk, ReadInode(fs', parent), 0) <==>
                    Walkable(FreshBlock(e), 0) && RestWalkable(fs.disk, ino))
              && (DirWalkable(fs'.disk, ReadInode(fs', parent), 0) ==>
                    Listing(fs'.disk, ReadInode(fs', parent), 0) ==
                      Listing(fs.disk, ino, 0) + Walk(FreshBlock(e), 0) + Rest(fs.disk, ino)))
  {
    hide Inv, Geometry, KeepsOthers, ReadInode, Search, DirTiled, DirWalkable, Listing, HasSlack, Insert, FreshBlock,
      Walkable, Walk, RestWalkable, Rest, DirSearchable, ClearBlocks, PutEntry, ExtendDir, Allocated;
    AllocatedParts(fs, Clean, parent);
    var ino := ReadInode(fs, parent);
    AddEntryKeeps(fs, parent, e);
    BlocksDiffer(fs, parent);
    SearchInserts(fs.disk, ino, e, 0);
    var d := Search(fs.disk, ino, e, 0);
    if HasSlack(Listing(fs.disk, ino, 0), e.name) {
      PutKeeps(fs, parent, d.k, d.buf);
      PutParts(fs, parent, d.k, d.buf, 0);
      WrittenIs(fs, ino.block[d.k], d.buf);
    } else if d.Extend? {
      assert FirstHole(ino, 0) == d.k;
      ExtendLists(fs, parent, e);
    }
  }

  lemma WrittenIs(fs: Fs, b: nat, buf: Block)
    requires b < |fs.disk|
    ensures WriteAt(fs, b, buf).disk == Rewritten(fs.disk, b, buf)
  {
  }

  lemma BlocksDiffer(fs: Fs, n: nat)
    requires Inv(fs, Clean) && Allocated(fs, n)
    ensures forall i, j | 0 <= i < j < 12 && ReadInode(fs, n).block[i] != 0 ::
              ReadInode(fs, n).block[i] != ReadInode(fs, n).block[j]
  {
    var ino := ReadInode(fs, n);
    Hold(fs, n, ino);
    hide Inv, Geometry, ReadInode, Allocated;
    forall i, j | 0 <= i < j < 12 && ino.block[i] != 0 ensures ino.block[i] != ino.block[j] {
      OwnApart(fs, n, ino, i, j);
    }
  }
}
