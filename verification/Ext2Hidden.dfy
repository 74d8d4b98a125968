/** What becomes of an entry that a listing does not show. create_file stores an entry that finds
    no room with length 0 in a block of its own; the next entry that finds no room either takes
    it for free space and is written over it. */
module Ext2Hidden {
  import opened Bits
  import opened Memory
  import opened Ext2Layout
  import opened Ext2State
  import opened Ext2Inv
  import opened Ext2Steps
  import opened Ext2Records
  import opened Ext2Files
  import opened Ext2Dirs
  import opened Ext2Ops

  // ------------------------------------------------------------------ the block

  /** The block of a hidden entry after `e` was written over it. */
  function Over(hidden: Record, e: Record): Block {
    Splice(FreshBlock(hidden), 0, RecordBytes(e.(size := Needed(e.name))))
  }

  /** The search settles on the hidden entry's place. */
  lemma PlaceOver(hidden: Record, e: Record)
    requires hidden.size == 0
    ensures Searchable(FreshBlock(hidden), 0, e.name)
    ensures PlaceEntry(FreshBlock(hidden), 0, e) == Placed(Over(hidden, e), Needed(e.name))
  {
    FreshBytes(hidden);
    hide FreshBlock, RecordBytes, Splice;
    assert RSize(FreshBlock(hidden), 0) == 0;
  }

  /** Behind the new entry lies what is left of the hidden one's name, then zeros. */
  lemma OverBytes(hidden: Record, e: Record, i: nat)
    requires Needed(e.name) <= i < 1024
    ensures Over(hidden, e)[i] == if i < 8 + |hidden.name| then hidden.name[i - 8] else 0
  {
    var bs := RecordBytes(hidden);
    assert |bs| == 8 + |hidden.name|;
    assert i < |bs| ==> bs[i] == bs[8..][i - 8] && bs[8..] == hidden.name;
  }

  /** The listing shows the new entry and then whatever stands behind it. */
  lemma OverWalk(hidden: Record, e: Record)
    requires e.inode != 0
    ensures var b, o := Over(hidden, e), Needed(e.name);
      && (Walkable(b, 0) <==> Walkable(b, o))
      && (Walkable(b, o) ==> Walk(b, 0) == [e.(size := o)] + Walk(b, o))
  {
    var b, o := Over(hidden, e), Needed(e.name);
    var e' := e.(size := o);
    SpliceSlice(FreshBlock(hidden), 0, RecordBytes(e'), 0, 8 + |e.name|);
    RecordBack(b, 0, e');
    hide Over, FreshBlock, RecordBytes;
    assert RInode(b, 0) == e'.inode && RSize(b, 0) == o && RNameLength(b, 0) == |e.name|;
  }

  /** At most four bytes of the old name are left: nothing else is listed. */
  lemma LeftoverHidden(hidden: Record, e: Record)
    requires 8 + |hidden.name| <= Needed(e.name) + 4
    ensures var b, o := Over(hidden, e), Needed(e.name); Walkable(b, o) && Walk(b, o) == []
  {
    hide Over;
    var b, o := Over(hidden, e), Needed(e.name);
    OverBytes(hidden, e, o + 4);
    OverBytes(hidden, e, o + 5);
    assert RSize(b, o) == 0;
  }

  /** More of it is left, and, as in any C string, no byte of it is 0: its bytes are listed as a
      record. The block stays walkable unless that record's length leads just short of the
      block's end. */
  lemma LeftoverShown(hidden: Record, e: Record)
    requires 8 + |hidden.name| > Needed(e.name) + 4 && 0 !in hidden.name
    ensures var b, o := Over(hidden, e), Needed(e.name);
      && o + 8 <= 1024 && o + 8 + RNameLength(b, o) <= 1024
      && (Walkable(b, o) <==> RSize(b, o) < 8 || !(1021 <= o + RSize(b, o) < 1024))
      && (Walkable(b, o) ==> Walk(b, o) == [RecordAt(b, o)])
  {
    hide Over;
    var b, o := Over(hidden, e), Needed(e.name);
    forall i: nat | o <= i < 1024 ensures b[i] == if i < 8 + |hidden.name| then hidden.name[i - 8] else 0 {
      OverBytes(hidden, e, i);
    }
    assert b[o] != 0 && b[o + 4] != 0;
    assert o + 5 < 8 + |hidden.name| ==> b[o + 5] != 0;
    var next := o + RSize(b, o);
    if RSize(b, o) >= 8 {
      assert next >= 8 + |hidden.name|;
      ZerosEnd(b, next);
    }
    assert RInode(b, o) != 0;
    WalkOne(b, o);
  }

  /** Zeros end a walk, where there is room to see them. */
  lemma ZerosEnd(b: Block, o: nat)
    requires forall i: nat | o <= i < 1024 :: b[i] == 0
    ensures Walkable(b, o) <==> !(1021 <= o < 1024)
    ensures Walkable(b, o) ==> Walk(b, o) == []
  {
  }

  lemma WalkOne(b: Block, o: nat)
    requires o + 8 <= 1024 && RInode(b, o) != 0 && RSize(b, o) != 0 && o + 8 + RNameLength(b, o) <= 1024
    ensures Walkable(b, o) <==> RSize(b, o) < 8 || Walkable(b, o + RSize(b, o))
    ensures Walkable(b, o) ==>
      Walk(b, o) == [RecordAt(b, o)] + if RSize(b, o) < 8 then [] else Walk(b, o + RSize(b, o))
  {
    hide RInode, RSize, RNameLength, RecordAt;
  }

  // ------------------------------------------------------------------ the directory

  predicate TiledTo(disk: seq<Block>, ino: Inode, j: nat, k: nat)
    requires j <= k <= 12
  {
    forall i | j <= i < k :: 0 < ino.block[i] < |disk| && Tiled(disk[ino.block[i]], 0)
  }

  /** The records in the slots from `j` up to but not including `k`. */
  function Shelf(disk: seq<Block>, ino: Inode, j: nat, k: nat): seq<Record>
    requires j <= k <= 12 && TiledTo(disk, ino, j, k)
    decreases k - j
  {
    if j == k then [] else Records(disk[ino.block[j]], 0) + Shelf(disk, ino, j + 1, k)
  }

  /** None of these blocks has room for the name. */
  predicate Packed(disk: seq<Block>, ino: Inode, name: Name, j: nat, k: nat)
    requires j <= k <= 12
  {
    TiledTo(disk, ino, j, k) && forall i | j <= i < k :: !HasSlack(Records(disk[ino.block[i]], 0), name)
  }

  /** A directory without slack, up to its first hole. */
  lemma {:induction false} PackedFrom(disk: seq<Block>, ino: Inode, e: Record, j: nat)
    requires j <= 12 && DirTiled(disk, ino, j) && DirWalkable(disk, ino, j)
    requires !HasSlack(Listing(disk, ino, j), e.name)
    ensures Packed(disk, ino, e.name, j, FirstHole(ino, j))
    ensures Shelf(disk, ino, j, FirstHole(ino, j)) == Listing(disk, ino, j)
    decreases 12 - j
  {
    hide Tiled, Records, HasSlack, Walkable, Walk, PlaceEntry, Searchable, DirTiled, DirWalkable, Listing, Search,
      DirSearchable, Packed, Shelf;
    if j == 12 || ino.block[j] == 0 {
      SearchEnds(disk, ino, e, j);
      NothingPacked(disk, ino, e.name, j);
    } else {
      DirParts(disk, ino, e, j);
      SlackConcat(Records(disk[ino.block[j]], 0), Listing(disk, ino, j + 1), e.name);
      PackedFrom(disk, ino, e, j + 1);
      PackedCons(disk, ino, e.name, j, FirstHole(ino, j));
    }
  }

  lemma NothingPacked(disk: seq<Block>, ino: Inode, name: Name, j: nat)
    requires j <= 12
    ensures Packed(disk, ino, name, j, j) && Shelf(disk, ino, j, j) == []
  {
  }

  lemma PackedCons(disk: seq<Block>, ino: Inode, name: Name, j: nat, k: nat)
    requires j < k <= 12 && Packed(disk, ino, name, j + 1, k) && 0 < ino.block[j] < |disk|
    requires Tiled(disk[ino.block[j]], 0) && !HasSlack(Records(disk[ino.block[j]], 0), name)
    ensures Packed(disk, ino, name, j, k) && TiledTo(disk, ino, j + 1, k)
    ensures Shelf(disk, ino, j, k) == Records(disk[ino.block[j]], 0) + Shelf(disk, ino, j + 1, k)
  {
    hide Tiled, Records, HasSlack;
  }

  lemma {:induction false} ShelfSame(a: seq<Block>, b: seq<Block>, ino: Inode, ino': Inode, j: nat, k: nat)
    requires j <= k <= 12 && TiledTo(a, ino, j, k)
    requires forall i | j <= i < k ::
               ino'.block[i] == ino.block[i] && ino.block[i] < |b| && b[ino.block[i]] == a[ino.block[i]]
    ensures TiledTo(b, ino', j, k) && Shelf(b, ino', j, k) == Shelf(a, ino, j, k)
    decreases k - j
  {
    hide Tiled, Records;
    if j < k { ShelfSame(a, b, ino, ino', j + 1, k); }
  }

  /** A listing taken apart at slot `k`. */
  lemma {:induction false} ListingSplit(disk: seq<Block>, ino: Inode, j: nat, k: nat)
    requires j <= k <= 12 && TiledTo(disk, ino, j, k)
    ensures DirWalkable(disk, ino, j) <==> DirWalkable(disk, ino, k)
    ensures DirWalkable(disk, ino, j) ==> Listing(disk, ino, j) == Shelf(disk, ino, j, k) + Listing(disk, ino, k)
    decreases k - j
  {
    hide Tiled, Records, Walkable, Walk, DirWalkable, Listing;
    if j < k {
      ListingUnfolds(disk, ino, j);
      TiledWalk(disk[ino.block[j]], 0);
      ListingSplit(disk, ino, j + 1, k);
      if DirWalkable(disk, ino, j) {
        JoinThree(Records(disk[ino.block[j]], 0), Shelf(disk, ino, j + 1, k), Listing(disk, ino, k));
      }
    }
  }

  lemma ListingUnfolds(disk: seq<Block>, ino: Inode, j: nat)
    requires j < 12 && 0 < ino.block[j] < |disk|
    ensures DirWalkable(disk, ino, j) <==> Walkable(disk[ino.block[j]], 0) && DirWalkable(disk, ino, j + 1)
    ensures DirWalkable(disk, ino, j) ==>
      Listing(disk, ino, j) == Walk(disk[ino.block[j]], 0) + Listing(disk, ino, j + 1)
  {
    hide Walkable, Walk;
  }

  lemma JoinThree<T>(a: seq<T>, b: seq<T>, c: seq<T>)
    ensures a + (b + c) == a + b + c
  {
  }

  /** The search passes over the packed blocks and settles on the hidden entry. */
  lemma {:induction false} PackedSearch(disk: seq<Block>, ino: Inode, hidden: Record, e: Record, j: nat, k: nat)
    requires j <= k < 12 && Packed(disk, ino, e.name, j, k) && e.inode != 0
    requires 0 < ino.block[k] < |disk| && disk[ino.block[k]] == FreshBlock(hidden) && hidden.size == 0
    ensures DirSearchable(disk, ino, e, j)
    ensures Search(disk, ino, e, j) == Put(k, Over(hidden, e), Needed(e.name))
    decreases k - j
  {
    hide Tiled, Records, HasSlack, PlaceEntry, Searchable, FreshBlock, Over;
    if j < k {
      PlaceInserts(disk[ino.block[j]], 0, e);
      assert e.(size := e.size) == e;
      PackedSearch(disk, ino, hidden, e, j + 1, k);
    } else {
      PlaceOver(hidden, e);
    }
  }

  /** What the directory's blocks hold after an entry was put into one of them. */
  lemma PutData(fs: Fs, parent: nat, k: nat, buf: Block, end: nat)
    requires Inv(fs, Clean) && Allocated(fs, parent) && k < 12 && ReadInode(fs, parent).block[k] != 0
    ensures var fs', ino := PutEntry(fs, parent, k, buf, end), ReadInode(fs, parent);
      && Inv(fs', Clean) && Allocated(fs', parent)
      && DirRewritten(fs, fs', ino, ReadInode(fs', parent), k, buf, end)
  {
    hide Inv, Geometry, WriteAt, KeepsOthers, ReadInode, EditInode, Allocated, DataKept, SameBits, PutEntry;
    AllocatedParts(fs, Clean, parent);
    var ino := ReadInode(fs, parent);
    PutKeeps(fs, parent, k, buf);
    PutParts(fs, parent, k, buf, end);
    PutEntryKeeps(fs, parent, k, buf, end);
    WrittenIs(fs, ino.block[k], buf);
    var fs1 := WriteAt(fs, ino.block[k], buf);
    assert |fs1.disk| == |fs.disk|;
    if end > ino.size {
      var ino' := ino.(size := U32(end));
      Hold(fs1, parent, ino');
      Store(fs1, parent, ino');
      forall i: nat | i < 12 && 0 < ino.block[i] < |fs.disk|
        ensures |PutEntry(fs, parent, k, buf, end).disk| == |fs.disk|
        ensures PutEntry(fs, parent, k, buf, end).disk[ino.block[i]] == fs1.disk[ino.block[i]]
      {
        OwnBlock(fs1, parent, ino', i);
        KeptAt(fs1, EditInode(fs1, parent, ino'), ino.block[i]);
      }
      KeptSize(fs1, EditInode(fs1, parent, ino'));
    }
  }

  lemma KeptSize(fs: Fs, fs': Fs)
    requires DataKept(fs, fs')
    ensures |fs'.disk| == |fs.disk|
  {
  }

  /** Everything add_directory_entry does, on any directory it can search. */
  lemma AddWrites(fs: Fs, parent: nat, e: Record)
    requires Inv(fs, Clean) && Allocated(fs, parent) && CanAdd(fs, parent, e)
    ensures var fs', ino := AddEntry(fs, parent, e), ReadInode(fs, parent);
      && Inv(fs', Clean) && Allocated(fs', parent)
      && (FileType(ino) != DIRECTORY ==> fs' == fs)
      && (FileType(ino) == DIRECTORY ==>
            match Search(fs.disk, ino, e, 0)
            case Full => fs' == fs
            case Put(k, buf, end) => DirRewritten(fs, fs', ino, ReadInode(fs', parent), k, buf, end)
            case Extend(k, e') => DirGrown(fs, fs', ino, ReadInode(fs', parent), k, e'))
  {
    hide Inv, Geometry, ReadInode, Allocated, Search, DirSearchable, PutEntry, ExtendDir, ClearBlocks, DirGrown;
    AllocatedParts(fs, Clean, parent);
    if FileType(ReadInode(fs, parent)) == DIRECTORY {
      match Search(fs.disk, ReadInode(fs, parent), e, 0)
      case Full =>
      case Put(k, buf, end) => PutData(fs, parent, k, buf, end);
      case Extend(k, e') => ExtendData(fs, parent, k, e');
    }
  }

  /** Slot `k` of the directory holds `buf`, its other slots what they held; the inode's size is at
      least `end`, and nothing else of it changed. */
  ghost predicate DirRewritten(fs: Fs, fs': Fs, ino: Inode, ino': Inode, k: nat, buf: Block, end: nat)
    requires k < 12
  {
    && |fs'.disk| == |fs.disk| && ino.block[k] < |fs.disk|
    && ino' == ino.(size := if end > ino.size then U32(end) else ino.size)
    && forall i: nat | i < 12 && 0 < ino.block[i] < |fs.disk| ::
         fs'.disk[ino.block[i]] == if ino.block[i] == ino.block[k] then buf else fs.disk[ino.block[i]]
  }

  /** The hidden entry of slot `k` is gone: the listing shows the records before it, `e`, and what
      is left of the hidden one's name. It can be shown exactly when these bytes, and the blocks
      behind, can be walked. */
  ghost predicate Overwritten(disk: seq<Block>, ino: Inode, disk': seq<Block>, ino': Inode, k: nat,
                              hidden: Record, e: Record)
    requires k < 12 && TiledTo(disk, ino, 0, k)
  {
    var b, o := Over(hidden, e), Needed(e.name);
    && (DirWalkable(disk', ino', 0) <==> Walkable(b, o) && DirWalkable(disk, ino, k + 1))
    && (DirWalkable(disk', ino', 0) ==>
          Listing(disk', ino', 0) ==
            Shelf(disk, ino, 0, k) + ([e.(size := o)] + Walk(b, o)) + Listing(disk, ino, k + 1))
  }

  /** add_directory_entry on a directory whose blocks before slot `k` are packed and whose slot
      `k` holds a hidden entry. */
  lemma AddOverHidden(fs: Fs, parent: nat, k: nat, hidden: Record, e: Record)
    requires Inv(fs, Clean) && Allocated(fs, parent) && FileType(ReadInode(fs, parent)) == DIRECTORY
    requires k < 12 && Packed(fs.disk, ReadInode(fs, parent), e.name, 0, k) && e.inode != 0
    requires 0 < ReadInode(fs, parent).block[k] < |fs.disk| && hidden.size == 0
    requires fs.disk[ReadInode(fs, parent).block[k]] == FreshBlock(hidden)
    ensures CanAdd(fs, parent, e) && TiledTo(fs.disk, ReadInode(fs, parent), 0, k)
    ensures var fs' := AddEntry(fs, parent, e);
      && Inv(fs', Clean) && Allocated(fs', parent)
      && Overwritten(fs.disk, ReadInode(fs, parent), fs'.disk, ReadInode(fs', parent), k, hidden, e)
  {
    hide Inv, Geometry, ReadInode, Allocated, Search, DirSearchable, PutEntry, AddEntry, CanAdd, FreshBlock, Over,
      Packed, TiledTo, Shelf, DirWalkable, Listing, Walkable, Walk, ClearBlocks, FileType, Needed;
    AllocatedParts(fs, Clean, parent);
    var ino := ReadInode(fs, parent);
    PackedSearch(fs.disk, ino, hidden, e, 0, k);
    AddIsPut(fs, parent, k, Over(hidden, e), Needed(e.name), e);
    PutData(fs, parent, k, Over(hidden, e), Needed(e.name));
    var fs' := AddEntry(fs, parent, e);
    AllocatedParts(fs', Clean, parent);
    BlocksDiffer(fs, parent);
    OverWalk(hidden, e);
    PutListing(fs.disk, fs'.disk, ino, ReadInode(fs', parent), e.name, k, Over(hidden, e));
  }

  lemma AddIsPut(fs: Fs, parent: nat, k: nat, buf: Block, end: nat, e: Record)
    requires Inv(fs, Clean) && Allocated(fs, parent) && FileType(ReadInode(fs, parent)) == DIRECTORY
    requires k < 12 && ReadInode(fs, parent).block[k] != 0 && DirSearchable(fs.disk, ReadInode(fs, parent), e, 0)
    requires Search(fs.disk, ReadInode(fs, parent), e, 0) == Put(k, buf, end)
    ensures CanAdd(fs, parent, e) && AddEntry(fs, parent, e) == PutEntry(fs, parent, k, buf, end)
  {
    hide Inv, Geometry, ReadInode, Allocated, Search, DirSearchable, PutEntry, ClearBlocks;
    AllocatedParts(fs, Clean, parent);
  }

  lemma PutListing(a: seq<Block>, b: seq<Block>, ino: Inode, ino': Inode, name: Name, k: nat, buf: Block)
    requires k < 12 && Packed(a, ino, name, 0, k) && ino'.block == ino.block && |b| == |a| && 0 < ino.block[k] < |a|
    requires forall i, j | 0 <= i < j < 12 && ino.block[i] != 0 :: ino.block[i] != ino.block[j]
    requires forall i: nat | i < 12 && 0 < ino.block[i] < |a| ::
               b[ino.block[i]] == if ino.block[i] == ino.block[k] then buf else a[ino.block[i]]
    ensures TiledTo(a, ino, 0, k)
    ensures DirWalkable(b, ino', 0) <==> Walkable(buf, 0) && DirWalkable(a, ino, k + 1)
    ensures DirWalkable(b, ino', 0) ==>
      Listing(b, ino', 0) == Shelf(a, ino, 0, k) + Walk(buf, 0) + Listing(a, ino, k + 1)
  {
    hide Tiled, Records, Walkable, Walk, DirWalkable, Listing, HasSlack;
    ShelfSame(a, b, ino, ino', 0, k);
    ListingSplit(b, ino', 0, k);
    ListingUnfolds(b, ino', k);
    ListingSame(a, b, ino, ino', k + 1);
    ListingSame(b, a, ino', ino, k + 1);
  }

  // ------------------------------------------------------------------ room before the hidden entry

  /** A shelf has a record with enough slack exactly when one of its blocks has. */
  lemma {:induction false} PackedIff(disk: seq<Block>, ino: Inode, name: Name, j: nat, k: nat)
    requires j <= k <= 12 && TiledTo(disk, ino, j, k)
    ensures Packed(disk, ino, name, j, k) <==> !HasSlack(Shelf(disk, ino, j, k), name)
    decreases k - j
  {
    hide Tiled, Records, HasSlack;
    if j < k {
      PackedIff(disk, ino, name, j + 1, k);
      SlackConcat(Records(disk[ino.block[j]], 0), Shelf(disk, ino, j + 1, k), name);
    } else {
      NoSlackInNone(name);
    }
  }

  lemma ShelfCons(disk: seq<Block>, ino: Inode, j: nat, k: nat)
    requires j < k <= 12 && 0 < ino.block[j] < |disk| && Tiled(disk[ino.block[j]], 0) && TiledTo(disk, ino, j + 1, k)
    ensures TiledTo(disk, ino, j, k)
    ensures Shelf(disk, ino, j, k) == Records(disk[ino.block[j]], 0) + Shelf(disk, ino, j + 1, k)
  {
    hide Tiled, Records;
  }

  /** The search settles on the first record of the shelf with enough slack. */
  lemma {:induction false} ShelfSearch(disk: seq<Block>, ino: Inode, e: Record, j: nat, k: nat)
    requires j <= k <= 12 && TiledTo(disk, ino, j, k) && HasSlack(Shelf(disk, ino, j, k), e.name) && e.inode != 0
    requires forall i, i' | 0 <= i < i' < 12 && ino.block[i] != 0 :: ino.block[i] != ino.block[i']
    ensures DirSearchable(disk, ino, e, j)
    ensures var d := Search(disk, ino, e, j);
      && d.Put? && d.end == 0 && j <= d.k < k
      && (var disk' := Rewritten(disk, ino.block[d.k], d.buf);
          TiledTo(disk', ino, j, k) && Shelf(disk', ino, j, k) == Insert(Shelf(disk, ino, j, k), e))
    decreases k - j
  {
    hide Tiled, Records, HasSlack, Insert, PlaceEntry, Searchable, Shelf;
    if j == k {
      NothingPacked(disk, ino, e.name, j);
      NoSlackInNone(e.name);
      assert false;
    } else {
      ShelfCons(disk, ino, j, k);
      SlackConcat(Records(disk[ino.block[j]], 0), Shelf(disk, ino, j + 1, k), e.name);
      InsertConcat(Records(disk[ino.block[j]], 0), Shelf(disk, ino, j + 1, k), e);
      PlaceInserts(disk[ino.block[j]], 0, e);
      if HasSlack(Records(disk[ino.block[j]], 0), e.name) {
        var disk' := Rewritten(disk, ino.block[j], PlaceEntry(disk[ino.block[j]], 0, e).buf);
        ShelfSame(disk, disk', ino, ino, j + 1, k);
        ShelfCons(disk', ino, j, k);
      } else {
        assert e.(size := e.size) == e;
        ShelfSearch(disk, ino, e, j + 1, k);
        var d := Search(disk, ino, e, j + 1);
        ShelfCons(Rewritten(disk, ino.block[d.k], d.buf), ino, j, k);
      }
    }
  }

  /** The entry went onto the shelf of the slots before `k`; the slots from there on hold what they
      held, and a listing goes on with them. */
  ghost predicate Shelved(disk: seq<Block>, ino: Inode, disk': seq<Block>, ino': Inode, k: nat, e: Record)
    requires k <= 12 && TiledTo(disk, ino, 0, k)
  {
    && ino' == ino && |disk'| == |disk|
    && TiledTo(disk', ino, 0, k) && Shelf(disk', ino, 0, k) == Insert(Shelf(disk, ino, 0, k), e)
    && (forall i | k <= i < 12 && 0 < ino.block[i] < |disk| :: disk'[ino.block[i]] == disk[ino.block[i]])
    && (DirWalkable(disk', ino, 0) <==> DirWalkable(disk, ino, k))
    && (DirWalkable(disk', ino, 0) ==>
          Listing(disk', ino, 0) == Insert(Shelf(disk, ino, 0, k), e) + Listing(disk, ino, k))
  }

  /** add_directory_entry on a directory with room in a tiled block before slot `k`, whatever that
      slot and those behind it hold. */
  lemma AddOnShelf(fs: Fs, parent: nat, k: nat, e: Record)
    requires Inv(fs, Clean) && Allocated(fs, parent) && FileType(ReadInode(fs, parent)) == DIRECTORY
    requires k <= 12 && TiledTo(fs.disk, ReadInode(fs, parent), 0, k) && e.inode != 0
    requires HasSlack(Shelf(fs.disk, ReadInode(fs, parent), 0, k), e.name)
    ensures CanAdd(fs, parent, e)
    ensures var fs' := AddEntry(fs, parent, e);
      && Inv(fs', Clean) && Allocated(fs', parent)
      && Shelved(fs.disk, ReadInode(fs, parent), fs'.disk, ReadInode(fs', parent), k, e)
  {
    hide Inv, Geometry, ReadInode, Allocated, Search, DirSearchable, PutEntry, AddEntry, CanAdd, TiledTo, Shelf,
      DirWalkable, Listing, HasSlack, Insert, KeepsOthers, FileType, ClearBlocks;
    AllocatedParts(fs, Clean, parent);
    var ino := ReadInode(fs, parent);
    BlocksDiffer(fs, parent);
    ShelfSearch(fs.disk, ino, e, 0, k);
    var d := Search(fs.disk, ino, e, 0);
    AddIsPut(fs, parent, d.k, d.buf, 0, e);
    PutKeeps(fs, parent, d.k, d.buf);
    PutParts(fs, parent, d.k, d.buf, 0);
    WrittenIs(fs, ino.block[d.k], d.buf);
    AllocatedParts(AddEntry(fs, parent, e), Clean, parent);
    var disk' := Rewritten(fs.disk, ino.block[d.k], d.buf);
    ListingSplit(disk', ino, 0, k);
    ListingSame(fs.disk, disk', ino, ino, k);
    ListingSame(disk', fs.disk, ino, ino, k);
  }

  /** The hidden entry of slot `k` is where it was, and still adds nothing to a listing. */
  ghost predicate StillHidden(disk: seq<Block>, ino: Inode, disk': seq<Block>, k: nat, hidden: Record)
    requires k < 12
  {
    && 0 < ino.block[k] < |disk'| && disk'[ino.block[k]] == FreshBlock(hidden)
    && (DirWalkable(disk, ino, k) <==> DirWalkable(disk, ino, k + 1))
    && (DirWalkable(disk, ino, k) ==> Listing(disk, ino, k) == Listing(disk, ino, k + 1))
  }

  lemma HiddenStays(disk: seq<Block>, ino: Inode, disk': seq<Block>, ino': Inode, k: nat, hidden: Record, e: Record)
    requires k < 12 && TiledTo(disk, ino, 0, k) && Shelved(disk, ino, disk', ino', k, e)
    requires 0 < ino.block[k] < |disk| && hidden.size == 0 && disk[ino.block[k]] == FreshBlock(hidden)
    ensures StillHidden(disk, ino, disk', k, hidden)
  {
    hide DirWalkable, Listing, FreshBlock, Walkable, Walk, Tiled, Records, TiledTo, Shelf, Insert;
    FreshBlockHides(hidden);
    ListingUnfolds(disk, ino, k);
  }

  /** Where the entry goes. */
  ghost predicate Added(disk: seq<Block>, ino: Inode, disk': seq<Block>, ino': Inode, k: nat, hidden: Record, e: Record)
    requires k < 12 && TiledTo(disk, ino, 0, k)
  {
    if HasSlack(Shelf(disk, ino, 0, k), e.name) then
      Shelved(disk, ino, disk', ino', k, e) && StillHidden(disk, ino, disk', k, hidden)
    else
      Overwritten(disk, ino, disk', ino', k, hidden, e)
  }

  /** The two together: with a hidden entry in slot `k` behind tiled blocks, a new entry goes where
      there is room before it, and the hidden one stays in its place; without room it is written
      over the hidden one. */
  lemma AddWithHidden(fs: Fs, parent: nat, k: nat, hidden: Record, e: Record)
    requires Inv(fs, Clean) && Allocated(fs, parent) && FileType(ReadInode(fs, parent)) == DIRECTORY
    requires k < 12 && TiledTo(fs.disk, ReadInode(fs, parent), 0, k) && e.inode != 0
    requires 0 < ReadInode(fs, parent).block[k] < |fs.disk| && hidden.size == 0
    requires fs.disk[ReadInode(fs, parent).block[k]] == FreshBlock(hidden)
    ensures CanAdd(fs, parent, e)
    ensures var fs' := AddEntry(fs, parent, e);
      && Inv(fs', Clean) && Allocated(fs', parent)
      && Added(fs.disk, ReadInode(fs, parent), fs'.disk, ReadInode(fs', parent), k, hidden, e)
  {
    hide Inv, Geometry, ReadInode, Allocated, AddEntry, CanAdd, FreshBlock, TiledTo, Shelf, HasSlack, Packed,
      DirWalkable, Listing, FileType, Overwritten, Shelved, StillHidden;
    AllocatedParts(fs, Clean, parent);
    var ino := ReadInode(fs, parent);
    PackedIff(fs.disk, ino, e.name, 0, k);
    if HasSlack(Shelf(fs.disk, ino, 0, k), e.name) {
      AddOnShelf(fs, parent, k, e);
      var fs' := AddEntry(fs, parent, e);
      AllocatedParts(fs', Clean, parent);
      HiddenStays(fs.disk, ino, fs'.disk, ReadInode(fs', parent), k, hidden, e);
    } else {
      AddOverHidden(fs, parent, k, hidden, e);
      AllocatedParts(AddEntry(fs, parent, e), Clean, parent);
    }
  }

  // ------------------------------------------------------------------ two files

  /** What create_file leaves when no record has enough slack: its entry, hidden, in the hole. */
  lemma FirstCreate(fs: Fs, parent: nat, filename: seq<byte>)
    requires Inv(fs, Clean) && Allocated(fs, parent) && CanCreate(fs, parent, filename)
    requires FileType(ReadInode(fs, parent)) == DIRECTORY && DirTiled(fs.disk, ReadInode(fs, parent), 0)
    requires DirWalkable(fs.disk, ReadInode(fs, parent), 0) && FirstHole(ReadInode(fs, parent), 0) < 12
    requires !HasSlack(Listing(fs.disk, ReadInode(fs, parent), 0), NewEntry(0, filename).name)
    ensures var fs', ino := CreateFile(fs, parent, filename), ReadInode(fs, parent);
      && Inv(fs', Clean) && Allocated(fs', parent) && |fs'.disk| == |fs.disk|
      && FileType(ReadInode(fs', parent)) == DIRECTORY
      && HoleFilled(fs.disk, ino, fs'.disk, ReadInode(fs', parent),
                    NewEntry(U32(FindFreeInode(fs, GroupOfInode(fs, parent))), filename))
  {
    hide Inv, Geometry, ReadInode, Allocated, Search, DirSearchable, ExtendDir, AddEntry, CanAdd, FreshBlock, DirTiled,
      DirWalkable, Listing, ClearBlocks, ClearInodes, HasSlack, Insert, WithInode, FindFreeInode,
      SameDirectory, HoleFilled;
    AllocatedParts(fs, Clean, parent);
    var ino, n := ReadInode(fs, parent), FindFreeInode(fs, GroupOfInode(fs, parent));
    var e := NewEntry(U32(n), filename);
    CreateUnfolds(fs, parent, filename);
    var fs2 := WithInode(fs, parent);
    AllocatedParts(fs2, Clean, parent);
    ListingKept(fs.disk, fs2.disk, ino, 0);
    BlocksDiffer(fs2, parent);
    SearchInserts(fs2.disk, ino, e, 0);
    HoleFound(fs2, parent, e);
    AddIsExtend(fs2, parent, FirstHole(ino, 0), e);
    ExtendData(fs2, parent, FirstHole(ino, 0), e);
    var fs' := CreateFile(fs, parent, filename);
    AllocatedParts(fs', Clean, parent);
    FilledFrom(fs.disk, fs2, fs', ino, ReadInode(fs', parent), e);
  }

  lemma HoleFound(fs: Fs, parent: nat, e: Record)
    requires Geometry(fs) && ValidInode(fs, parent) && DirSearchable(fs.disk, ReadInode(fs, parent), e, 0)
    requires var d, ino := Search(fs.disk, ReadInode(fs, parent), e, 0), ReadInode(fs, parent);
      if d.Extend? then d.e == e && ino.block[d.k] == 0 && forall i | 0 <= i < d.k :: ino.block[i] != 0
      else d == Full && forall i | 0 <= i < 12 :: ino.block[i] != 0
    requires FirstHole(ReadInode(fs, parent), 0) < 12
    ensures Search(fs.disk, ReadInode(fs, parent), e, 0) == Extend(FirstHole(ReadInode(fs, parent), 0), e)
  {
    hide Geometry, ReadInode, Search, DirSearchable;
  }

  lemma AddIsExtend(fs: Fs, parent: nat, k: nat, e: Record)
    requires Inv(fs, Clean) && Allocated(fs, parent) && FileType(ReadInode(fs, parent)) == DIRECTORY
    requires k < 12 && ReadInode(fs, parent).block[k] == 0 && CanAdd(fs, parent, e)
    requires DirSearchable(fs.disk, ReadInode(fs, parent), e, 0)
    requires Search(fs.disk, ReadInode(fs, parent), e, 0) == Extend(k, e)
    ensures ClearBlocks(fs, GroupOfInode(fs, parent)) != {}
    ensures AddEntry(fs, parent, e) == ExtendDir(fs, parent, k, e)
  {
    hide Inv, Geometry, ReadInode, Allocated, Search, DirSearchable, ExtendDir, ClearBlocks;
  }

  /** The directory's first hole holds the hidden entry; its other blocks are as they were. */
  ghost predicate HoleFilled(disk: seq<Block>, ino: Inode, disk': seq<Block>, ino': Inode, e: Record) {
    var k := FirstHole(ino, 0);
    && k < 12 && |disk'| == |disk|
    && (forall i | 0 <= i < 12 && i != k :: ino'.block[i] == ino.block[i])
    && 0 < ino'.block[k] < |disk'| && disk'[ino'.block[k]] == FreshBlock(e)
    && forall i | 0 <= i < 12 && 0 < ino.block[i] < |disk| :: disk'[ino.block[i]] == disk[ino.block[i]]
  }

  lemma FilledFrom(disk: seq<Block>, fs: Fs, fs': Fs, ino: Inode, ino': Inode, e: Record)
    requires SameDirectory(disk, fs.disk, ino) && FirstHole(ino, 0) < 12
    requires DirGrown(fs, fs', ino, ino', FirstHole(ino, 0), e)
    ensures HoleFilled(disk, ino, fs'.disk, ino', e) && |fs'.disk| == |disk| && FileType(ino') == FileType(ino)
  {
    hide FreshBlock;
  }

  /** The second file may be created as soon as there is an inode for it: no block is needed. */
  lemma SecondAllowed(fs: Fs, parent: nat, fs1: Fs, hidden: Record, second: seq<byte>)
    requires Inv(fs, Clean) && Allocated(fs, parent) && hidden.size == 0
    requires DirTiled(fs.disk, ReadInode(fs, parent), 0) && DirWalkable(fs.disk, ReadInode(fs, parent), 0)
    requires !HasSlack(Listing(fs.disk, ReadInode(fs, parent), 0), NewEntry(0, second).name)
    requires Inv(fs1, Clean) && Allocated(fs1, parent) && FileType(ReadInode(fs1, parent)) == DIRECTORY
    requires ClearInodes(fs1, GroupOfInode(fs1, parent)) != {}
    requires HoleFilled(fs.disk, ReadInode(fs, parent), fs1.disk, ReadInode(fs1, parent), hidden)
    ensures CanCreate(fs1, parent, second)
  {
    hide Inv, Geometry, ReadInode, Allocated, AddEntry, CanAdd, FreshBlock, DirTiled, DirWalkable, Listing, ClearInodes,
      HasSlack, FindFreeInode, SameDirectory, Packed, TiledTo, Shelf, Overwritten, HoleFilled, FirstHole, Needed;
    AllocatedParts(fs, Clean, parent);
    AllocatedParts(fs1, Clean, parent);
    var ino, ino1 := ReadInode(fs, parent), ReadInode(fs1, parent);
    var n := FindFreeInode(fs1, GroupOfInode(fs1, parent));
    InodeFits(fs1, GroupOfInode(fs1, parent));
    var e := NewEntry(U32(n), second);
    PackedFrom(fs.disk, ino, e, 0);
    SameItself(fs1.disk, ino1);
    FilledPacked(fs.disk, ino, fs1.disk, ino1, fs1.disk, hidden, e.name);
    AddOverHidden(fs1, parent, FirstHole(ino, 0), hidden, e);
  }

  lemma SameItself(disk: seq<Block>, ino: Inode)
    ensures SameDirectory(disk, disk, ino)
  {
  }

  /** Two files created in a tiled directory without slack for either name: the second takes the
      place of the first. The listing shows the old records, then the second file, then whatever
      the first one's name left behind it. */
  lemma SecondCreate(fs: Fs, parent: nat, first: seq<byte>, second: seq<byte>)
    requires Inv(fs, Clean) && Allocated(fs, parent) && CanCreate(fs, parent, first)
    requires FileType(ReadInode(fs, parent)) == DIRECTORY && DirTiled(fs.disk, ReadInode(fs, parent), 0)
    requires DirWalkable(fs.disk, ReadInode(fs, parent), 0) && FirstHole(ReadInode(fs, parent), 0) < 12
    requires !HasSlack(Listing(fs.disk, ReadInode(fs, parent), 0), NewEntry(0, first).name)
    requires !HasSlack(Listing(fs.disk, ReadInode(fs, parent), 0), NewEntry(0, second).name)
    requires var fs1 := CreateFile(fs, parent, first);
      Inv(fs1, Clean) && Allocated(fs1, parent) && ClearInodes(fs1, GroupOfInode(fs1, parent)) != {}
    ensures CanCreate(CreateFile(fs, parent, first), parent, second)
    ensures var fs1 := CreateFile(fs, parent, first);
      var fs2 := CreateFile(fs1, parent, second);
      && Inv(fs2, Clean) && Allocated(fs2, parent)
      && Replaced(fs.disk, ReadInode(fs, parent), fs2.disk, ReadInode(fs2, parent),
                  NewEntry(U32(FindFreeInode(fs, GroupOfInode(fs, parent))), first),
                  NewEntry(U32(FindFreeInode(fs1, GroupOfInode(fs1, parent))), second))
  {
    hide Inv, Geometry, ReadInode, Allocated, AddEntry, CanAdd, FreshBlock, DirTiled, DirWalkable, Listing, ClearInodes,
      HasSlack, WithInode, FindFreeInode, SameDirectory, Packed, TiledTo, Shelf, Replaced, Overwritten, CreateFile,
      CanCreate, HoleFilled, FirstHole, Needed;
    AllocatedParts(fs, Clean, parent);
    CreateUnfolds(fs, parent, first);
    FirstCreate(fs, parent, first);
    var fs1 := CreateFile(fs, parent, first);
    AllocatedParts(fs1, Clean, parent);
    SecondAllowed(fs, parent, fs1, NewEntry(U32(FindFreeInode(fs, GroupOfInode(fs, parent))), first), second);
    CreateUnfolds(fs1, parent, second);
    var fs12 := WithInode(fs1, parent);
    AllocatedParts(fs12, Clean, parent);
    var ino, ino1 := ReadInode(fs, parent), ReadInode(fs1, parent);
    var e1 := NewEntry(U32(FindFreeInode(fs, GroupOfInode(fs, parent))), first);
    var e2 := NewEntry(U32(FindFreeInode(fs1, GroupOfInode(fs1, parent))), second);
    PackedFrom(fs.disk, ino, e2, 0);
    FilledPacked(fs.disk, ino, fs1.disk, ino1, fs12.disk, e1, e2.name);
    AddOverHidden(fs12, parent, FirstHole(ino, 0), e1, e2);
    var fs2 := CreateFile(fs1, parent, second);
    AllocatedParts(fs2, Clean, parent);
    ReplacedFrom(fs.disk, ino, fs12.disk, ino1, fs2.disk, ReadInode(fs2, parent), e1, e2);
  }

  /** What the two files leave of the directory. */
  ghost predicate Replaced(disk: seq<Block>, ino: Inode, disk': seq<Block>, ino': Inode, hidden: Record, e: Record)
    requires DirWalkable(disk, ino, 0)
  {
    var b, o := Over(hidden, e), Needed(e.name);
    && (DirWalkable(disk', ino', 0) <==> Walkable(b, o) && RestWalkable(disk, ino))
    && (DirWalkable(disk', ino', 0) ==>
          Listing(disk', ino', 0) ==
            Listing(disk, ino, 0) + ([e.(size := o)] + Walk(b, o)) + Rest(disk, ino))
  }

  lemma FilledPacked(a: seq<Block>, ino: Inode, b: seq<Block>, ino': Inode, c: seq<Block>, e: Record, name: Name)
    requires HoleFilled(a, ino, b, ino', e) && SameDirectory(b, c, ino') && Packed(a, ino, name, 0, FirstHole(ino, 0))
    ensures var k := FirstHole(ino, 0);
      && k < 12 && Packed(c, ino', name, 0, k)
      && 0 < ino'.block[k] < |c| && c[ino'.block[k]] == FreshBlock(e)
      && TiledTo(a, ino, 0, k) && TiledTo(c, ino', 0, k) && Shelf(c, ino', 0, k) == Shelf(a, ino, 0, k)
      && (DirWalkable(c, ino', k + 1) <==> DirWalkable(a, ino, k + 1))
      && (DirWalkable(a, ino, k + 1) ==> Listing(c, ino', k + 1) == Listing(a, ino, k + 1))
  {
    hide FreshBlock, HasSlack, Tiled, Records, DirWalkable, Listing;
    var k := FirstHole(ino, 0);
    forall i | 0 <= i < 12 && 0 < ino.block[i] < |a| ensures ino.block[i] < |c| && c[ino.block[i]] == a[ino.block[i]] {
      assert i != k && ino'.block[i] == ino.block[i];
    }
    ShelfSame(a, c, ino, ino', 0, k);
    ListingSame(a, c, ino, ino', k + 1);
    ListingSame(c, a, ino', ino, k + 1);
  }

  lemma ReplacedFrom(disk: seq<Block>, ino: Inode, disk1: seq<Block>, ino1: Inode, disk2: seq<Block>, ino2: Inode,
                     hidden: Record, e: Record)
    requires DirWalkable(disk, ino, 0) && FirstHole(ino, 0) < 12
    requires TiledTo(disk, ino, 0, FirstHole(ino, 0)) && TiledTo(disk1, ino1, 0, FirstHole(ino, 0))
    requires Shelf(disk, ino, 0, FirstHole(ino, 0)) == Listing(disk, ino, 0)
    requires Shelf(disk1, ino1, 0, FirstHole(ino, 0)) == Shelf(disk, ino, 0, FirstHole(ino, 0))
    requires DirWalkable(disk1, ino1, FirstHole(ino, 0) + 1) <==> DirWalkable(disk, ino, FirstHole(ino, 0) + 1)
    requires DirWalkable(disk, ino, FirstHole(ino, 0) + 1) ==>
               Listing(disk1, ino1, FirstHole(ino, 0) + 1) == Listing(disk, ino, FirstHole(ino, 0) + 1)
    requires Overwritten(disk1, ino1, disk2, ino2, FirstHole(ino, 0), hidden, e)
    ensures Replaced(disk, ino, disk2, ino2, hidden, e)
  {
    hide Walkable, Walk, DirWalkable, Listing, Over, Tiled, Records;
  }

  /** If the second name is long enough to cover the first, nothing of the first file is listed. */
  lemma FirstIsLost(disk: seq<Block>, ino: Inode, disk': seq<Block>, ino': Inode, hidden: Record, e: Record)
    requires DirWalkable(disk, ino, 0) && Replaced(disk, ino, disk', ino', hidden, e) && Gapless(ino)
    requires 8 + |hidden.name| <= Needed(e.name) + 4
    ensures DirWalkable(disk', ino', 0)
    ensures Listing(disk', ino', 0) == Listing(disk, ino, 0) + [e.(size := Needed(e.name))]
  {
    hide DirWalkable, Listing, Over, Walkable, Walk, Needed;
    LeftoverHidden(hidden, e);
    NoRest(disk, ino);
  }

  /** Files `n` and `m` exist, and the directory lists only the latter. */
  ghost predicate Lost(fs: Fs, parent: nat, n: nat, m: nat) {
    && Inv(fs, Clean) && Allocated(fs, parent) && Allocated(fs, n) && Allocated(fs, m)
    && DirWalkable(fs.disk, ReadInode(fs, parent), 0)
    && (forall r | r in Listing(fs.disk, ReadInode(fs, parent), 0) :: r.inode != n)
    && (exists r :: r in Listing(fs.disk, ReadInode(fs, parent), 0) && r.inode == m)
  }

  /** So, after both were created in a directory without gaps, where nothing was listed under the
      first one's number, the first file exists and is not listed, and the second one is. */
  lemma FirstNotListed(fs: Fs, parent: nat, first: seq<byte>, second: seq<byte>)
    requires Inv(fs, Clean) && Allocated(fs, parent) && CanCreate(fs, parent, first)
    requires FileType(ReadInode(fs, parent)) == DIRECTORY && DirTiled(fs.disk, ReadInode(fs, parent), 0)
    requires DirWalkable(fs.disk, ReadInode(fs, parent), 0) && FirstHole(ReadInode(fs, parent), 0) < 12
    requires Gapless(ReadInode(fs, parent))
    requires !HasSlack(Listing(fs.disk, ReadInode(fs, parent), 0), NewEntry(0, first).name)
    requires !HasSlack(Listing(fs.disk, ReadInode(fs, parent), 0), NewEntry(0, second).name)
    requires 8 + |NewEntry(0, first).name| <= Needed(NewEntry(0, second).name) + 4
    requires forall r | r in Listing(fs.disk, ReadInode(fs, parent), 0) ::
               r.inode != FindFreeInode(fs, GroupOfInode(fs, parent))
    requires var fs1 := CreateFile(fs, parent, first);
      Inv(fs1, Clean) && Allocated(fs1, parent) && ClearInodes(fs1, GroupOfInode(fs1, parent)) != {}
    ensures CanCreate(CreateFile(fs, parent, first), parent, second)
    ensures var fs1 := CreateFile(fs, parent, first);
      Lost(CreateFile(fs1, parent, second), parent, FindFreeInode(fs, GroupOfInode(fs, parent)),
           FindFreeInode(fs1, GroupOfInode(fs1, parent)))
  {
    hide Inv, Geometry, ReadInode, Allocated, CanAdd, DirTiled, DirWalkable, Listing, ClearInodes, HasSlack,
      FindFreeInode, Replaced, CreateFile, FirstHole, Needed, Gapless, KeepsOthers;
    AllocatedParts(fs, Clean, parent);
    SecondCreate(fs, parent, first, second);
    var fs1 := CreateFile(fs, parent, first);
    AllocatedParts(fs1, Clean, parent);
    var fs2 := CreateFile(fs1, parent, second);
    var n, m := FindFreeInode(fs, GroupOfInode(fs, parent)), FindFreeInode(fs1, GroupOfInode(fs1, parent));
    CreateFileKeeps(fs, parent, first);
    CreateFileKeeps(fs1, parent, second);
    KeptAllocated(fs1, fs2, parent, n);
    AllocatedParts(fs2, Clean, parent);
    InodeFits(fs, GroupOfInode(fs, parent));
    InodeFits(fs1, GroupOfInode(fs1, parent));
    var e1, e2 := NewEntry(U32(n), first), NewEntry(U32(m), second);
    FirstIsLost(fs.disk, ReadInode(fs, parent), fs2.disk, ReadInode(fs2, parent), e1, e2);
    assert e2.(size := Needed(e2.name)) in Listing(fs2.disk, ReadInode(fs2, parent), 0);
  }
}
