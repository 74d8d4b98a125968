/** The steps the ext2 operations are made of, each keeping the invariant: take a block, attach
    it to the inode in hand, write data, store the inode, take and drop an inode number. */
module Ext2Steps {
  import opened Bits
  import opened Ext2Layout
  import opened Ext2State
  import opened Ext2Inv

  /** Inode `m` is still allocated and reads the same, the blocks it refers to included. */
  ghost predicate SameFile(fs: Fs, fs': Fs, m: nat)
    requires Geometry(fs) && Geometry(fs') && Same(fs, fs') && Allocated(fs, m)
  {
    && Allocated(fs', m) && ReadInode(fs', m) == ReadInode(fs, m)
    && forall i | 0 <= i < 12 && 0 < ReadInode(fs, m).block[i] < |fs.disk| ::
         fs'.disk[ReadInode(fs, m).block[i]] == fs.disk[ReadInode(fs, m).block[i]]
  }

  /** Every file but that of inode `n` is untouched. */
  ghost predicate KeepsOthers(fs: Fs, fs': Fs, n: nat) {
    && Geometry(fs) && Geometry(fs') && Same(fs, fs')
    && forall m | m != n && Allocated(fs, m) :: SameFile(fs, fs', m)
  }

  /** The inode whose disk copy does not count while one is held in memory; 0 is no inode. */
  function Except(w: Pending): nat { if w.Holding? then w.n else 0 }

  lemma KeepsTransitive(a: Fs, b: Fs, c: Fs, n: nat)
    requires KeepsOthers(a, b, n) && KeepsOthers(b, c, n)
    ensures KeepsOthers(a, c, n)
  {
    hide Geometry, Allocated, ReadInode;
    forall m | m != n && Allocated(a, m) ensures SameFile(a, c, m) {
      assert SameFile(a, b, m);
      assert SameFile(b, c, m);
    }
  }

  // ------------------------------------------------------------------ blocks

  /** The first free block of a group is a data block nobody refers to. */
  lemma TakeBlock(fs: Fs, w: Pending, g: nat)
    requires Inv(fs, w) && g < GroupCount(fs) && ClearBlocks(fs, g) != {}
    ensures var b, fs' := FindFreeBlock(fs, g), SetBlockBit(fs, g, FindFreeBlock(fs, g), true);
      && BlockTaken(fs, fs', b) && BlockGroup(fs, b) == g
      && Inv(fs', w) && DataBlock(fs', b) && b > 0
      && (forall m, i :: !Refers(fs', w, m, i, b))
      && KeepsOthers(fs, fs', Except(w))
  {
    TakeBlockEffect(fs, g);
    Taken(fs, SetBlockBit(fs, g, FindFreeBlock(fs, g), true), w, FindFreeBlock(fs, g));
  }

  lemma NoneIsMeta(fs: Fs)
    ensures IsMeta(fs, 0)
  {
  }

  lemma Taken(fs: Fs, fs': Fs, w: Pending, b: nat)
    requires Inv(fs, w) && BlockTaken(fs, fs', b) && Mirrored(fs') && Ext2Inv.Counted(fs')
    ensures Inv(fs', w) && DataBlock(fs', b) && b > 0
    ensures forall m, i :: !Refers(fs', w, m, i, b)
    ensures KeepsOthers(fs, fs', Except(w))
  {
    hide Geometry, InodeMarked, BlockMarked, ReadInode, IsMeta, Mirrored, Counted, GroupCount, InGroups;
    SamePlaces(fs, fs');
    SameInodes(fs, fs');
    SameGroups(fs, fs');
    NoneIsMeta(fs);
    assert b < |fs.disk| && !IsMeta(fs, b);
    assert DataBlock(fs', b) && !DataBlock(fs, b);
    OwnedTransfer(fs, fs', w);
    SameData(fs, fs', w);
  }

  lemma SameFileData(fs: Fs, fs': Fs, w: Pending, m: nat)
    requires Geometry(fs) && Owned(fs, w) && Geometry(fs') && Same(fs, fs') && m != Except(w)
    requires Allocated(fs, m) && Allocated(fs', m) && ReadInode(fs', m) == ReadInode(fs, m)
    requires forall c: nat | c < |fs.disk| && c < |fs'.disk| && !IsMeta(fs, c) :: fs'.disk[c] == fs.disk[c]
    ensures SameFile(fs, fs', m)
  {
    hide Geometry, InodeMarked, ReadInode, IsMeta;
    forall i: nat | i < 12 && 0 < ReadInode(fs, m).block[i] < |fs.disk|
      ensures fs'.disk[ReadInode(fs, m).block[i]] == fs.disk[ReadInode(fs, m).block[i]]
    {
      assert Refers(fs, w, m, i, ReadInode(fs, m).block[i]);
    }
  }

  lemma SameData(fs: Fs, fs': Fs, w: Pending)
    requires Inv(fs, w) && Geometry(fs') && Same(fs, fs')
    requires forall m | Allocated(fs, m) && m != Except(w) :: Allocated(fs', m) && ReadInode(fs', m) == ReadInode(fs, m)
    requires forall c: nat | c < |fs.disk| && c < |fs'.disk| && !IsMeta(fs, c) :: fs'.disk[c] == fs.disk[c]
    ensures KeepsOthers(fs, fs', Except(w))
  {
    hide Geometry, Allocated, ReadInode, IsMeta, Mirrored, Counted, Owned, Reserved, Same, SameFile;
    forall m | m != Except(w) && Allocated(fs, m) ensures SameFile(fs, fs', m) {
      SameFileData(fs, fs', w, m);
    }
  }

  /** Pointing a free slot of the inode in hand at a block nobody refers to. */
  lemma Attach(fs: Fs, n: nat, ino: Inode, k: nat, b: u32)
    requires Inv(fs, Holding(n, ino)) && k < 12 && ino.block[k] == 0
    requires DataBlock(fs, b) && forall m, i :: !Refers(fs, Holding(n, ino), m, i, b)
    ensures Inv(fs, Holding(n, WithBlock(ino, k, b)))
  {
    var w, w' := Holding(n, ino), Holding(n, WithBlock(ino, k, b));
    hide Geometry, InodeMarked, BlockMarked, ReadInode, IsMeta, Mirrored, Counted;
    forall m, i, c | Refers(fs, w', m, i, c) ensures Refers(fs, w, m, i, c) || (m == n && i == k && c == b) {
    }
  }

  /** Taking the inode off the disk, and changing anything in it but its blocks. */
  lemma Hold(fs: Fs, n: nat, ino: Inode)
    requires Inv(fs, Clean) && ValidInode(fs, n) && ino.block == ReadInode(fs, n).block
    ensures Inv(fs, Holding(n, ino))
  {
    hide Geometry, InodeMarked, BlockMarked, ReadInode, IsMeta, Mirrored, Counted;
    forall m, i, c | Refers(fs, Holding(n, ino), m, i, c) ensures Refers(fs, Clean, m, i, c) {
    }
  }

  lemma Rehold(fs: Fs, n: nat, ino: Inode, ino': Inode)
    requires Inv(fs, Holding(n, ino)) && ino'.block == ino.block
    ensures Inv(fs, Holding(n, ino'))
  {
    hide Geometry, InodeMarked, BlockMarked, ReadInode, IsMeta, Mirrored, Counted;
    forall m, i, c | Refers(fs, Holding(n, ino'), m, i, c) ensures Refers(fs, Holding(n, ino), m, i, c) {
    }
  }

  // ------------------------------------------------------------------ writes

  /** Bitmaps and count blocks of `fs'` are those of `fs`. */
  ghost predicate SameBits(fs: Fs, fs': Fs) {
    && Geometry(fs) && Geometry(fs') && Same(fs, fs')
    && (forall q | ValidPlace(fs, q) && ValidPlace(fs', q) && !q.InodeTable? :: Content(fs', q) == Content(fs, q))
    && fs'.sb == fs.sb && fs'.groups == fs.groups
  }

  lemma SameBitsKeep(fs: Fs, fs': Fs)
    requires SameBits(fs, fs')
    ensures Mirrored(fs) ==> Mirrored(fs')
    ensures Counted(fs) ==> Counted(fs')
    ensures forall m :: ValidInode(fs', m) == ValidInode(fs, m)
    ensures forall m | ValidInode(fs, m) :: InodeMarked(fs', m) == InodeMarked(fs, m)
    ensures forall b: nat :: InGroups(fs', b) == InGroups(fs, b)
    ensures forall b: nat | InGroups(fs, b) :: BlockMarked(fs', b) == BlockMarked(fs, b)
    ensures forall g: nat | g < GroupCount(fs) ::
              g < GroupCount(fs') && ClearBlocks(fs', g) == ClearBlocks(fs, g) &&
                  ClearInodes(fs', g) == ClearInodes(fs, g)
  {
    SamePlaces(fs, fs');
    SameInodes(fs, fs');
    assert ValidPlace(fs, Super) && ValidPlace(fs, Descriptors);
    assert Content(fs', Super) == Content(fs, Super) && Content(fs', Descriptors) == Content(fs, Descriptors);
    hide Used, ClearBits;
    forall g: nat | g < GroupCount(fs)
      ensures ClearBlocks(fs', g) == ClearBlocks(fs, g) && ClearInodes(fs', g) == ClearInodes(fs, g)
    {
      assert ValidPlace(fs, BlockBitmap(g)) && ValidPlace(fs, InodeBitmap(g));
    }
    forall b: nat | InGroups(fs, b) ensures BlockMarked(fs', b) == BlockMarked(fs, b) {
      assert ValidPlace(fs, BlockBitmap(BlockGroup(fs, b)));
    }
    forall m | ValidInode(fs, m) ensures InodeMarked(fs', m) == InodeMarked(fs, m) {
      assert ValidPlace(fs, InodeBitmap(GroupOfInode(fs, m)));
    }
  }

  /** Writing a data block changes that block only. */
  lemma WriteDataBits(fs: Fs, b: nat, data: Block)
    requires Geometry(fs) && b < |fs.disk| && !IsMeta(fs, b)
    ensures var fs' := WriteAt(fs, b, data);
      && SameBits(fs, fs') && (forall m | ValidInode(fs, m) ::
          ValidInode(fs', m) && ReadInode(fs', m) == ReadInode(fs, m))
  {
    var fs' := WriteAt(fs, b, data);
    WriteSame(fs, b, data);
    SamePlaces(fs, fs');
    SameInodes(fs, fs');
    hide DecodeInode;
    forall q | ValidPlace(fs, q) ensures Content(fs', q) == Content(fs, q) {
      assert At(fs, q) != b;
    }
    forall m | ValidInode(fs, m) ensures ReadInode(fs', m) == ReadInode(fs, m) {
      SlotValid(fs, m);
    }
  }

  lemma WriteData(fs: Fs, w: Pending, b: nat, data: Block)
    requires Inv(fs, w) && DataBlock(fs, b)
    ensures var fs' := WriteAt(fs, b, data);
      && Inv(fs', w) && SameBits(fs, fs') && (forall c | DataBlock(fs, c) :: DataBlock(fs', c))
      && (forall m | ValidInode(fs, m) :: ValidInode(fs', m) && ReadInode(fs', m) == ReadInode(fs, m))
      && (forall m, i, c :: Refers(fs', w, m, i, c) <==> Refers(fs, w, m, i, c))
  {
    var fs' := WriteAt(fs, b, data);
    WriteDataBits(fs, b, data);
    SameBitsKeep(fs, fs');
    hide Geometry, InodeMarked, BlockMarked, ReadInode, IsMeta, Mirrored, Counted, GroupCount, WriteAt, SameBits;
    OwnedTransfer(fs, fs', w);
    SameBitsBack(fs, fs', w);
  }

  lemma SameBitsBack(fs: Fs, fs': Fs, w: Pending)
    requires SameBits(fs, fs')
    requires forall m | ValidInode(fs, m) :: ValidInode(fs', m) && ReadInode(fs', m) == ReadInode(fs, m)
    ensures forall m, i, c :: Refers(fs', w, m, i, c) <==> Refers(fs, w, m, i, c)
  {
    SameBitsKeep(fs, fs');
    hide Geometry, InodeMarked, BlockMarked, ReadInode;
  }

  /** Writing to a block of the inode in hand leaves every other inode's data alone. */
  lemma WriteOwn(fs: Fs, w: Pending, k: nat, data: Block)
    requires Inv(fs, w) && w.Holding? && k < 12 && Refers(fs, w, w.n, k, w.ino.block[k])
    ensures KeepsOthers(fs, WriteAt(fs, w.ino.block[k], data), w.n)
  {
    hide Geometry, InodeMarked, ReadInode, IsMeta, WriteAt, Inv, Owned, SameFile, Refers;
    var b := w.ino.block[k];
    RefersData(fs, w, w.n, k, b);
    var fs' := WriteAt(fs, b, data);
    WriteDataBits(fs, b, data);
    SameBitsKeep(fs, fs');
    assert forall c: nat | c < |fs.disk| && c != b :: fs'.disk[c] == fs.disk[c] by { WriteElsewhere(fs, b, data); }
    forall m | m != w.n && Allocated(fs, m) ensures SameFile(fs, fs', m) {
      NotMyFile(fs, fs', w, k, m);
    }
  }

  lemma WriteElsewhere(fs: Fs, b: nat, data: Block)
    requires b < |fs.disk|
    ensures var fs' := WriteAt(fs, b, data);
      |fs'.disk| == |fs.disk| && forall c: nat | c < |fs.disk| && c != b :: fs'.disk[c] == fs.disk[c]
  {
  }

  lemma RefersData(fs: Fs, w: Pending, m: nat, i: nat, b: nat)
    requires Inv(fs, w) && Refers(fs, w, m, i, b)
    ensures Geometry(fs) && Owned(fs, w) && b < |fs.disk| && !IsMeta(fs, b)
  {
    hide Geometry, Refers, Mirrored, Counted, Reserved, IsMeta, BlockMarked;
  }

  lemma NotMyFile(fs: Fs, fs': Fs, w: Pending, k: nat, m: nat)
    requires Geometry(fs) && Owned(fs, w) && w.Holding? && k < 12 && Refers(fs, w, w.n, k, w.ino.block[k])
    requires Geometry(fs') && Same(fs, fs') && m != w.n
    requires Allocated(fs, m) && Allocated(fs', m) && ReadInode(fs', m) == ReadInode(fs, m)
    requires forall c: nat | c < |fs.disk| && c < |fs'.disk| && c != w.ino.block[k] :: fs'.disk[c] == fs.disk[c]
    ensures SameFile(fs, fs', m)
  {
    hide Geometry, InodeMarked, ReadInode, Owned, Refers;
    forall i: nat | i < 12 && 0 < ReadInode(fs, m).block[i] < |fs.disk|
      ensures fs'.disk[ReadInode(fs, m).block[i]] == fs.disk[ReadInode(fs, m).block[i]]
    {
      NotMine(fs, w, k, m, i);
    }
  }

  lemma NotMine(fs: Fs, w: Pending, k: nat, m: nat, i: nat)
    requires Geometry(fs) && Owned(fs, w) && w.Holding? && k < 12 && Refers(fs, w, w.n, k, w.ino.block[k])
    requires m != w.n && Allocated(fs, m) && i < 12 && ReadInode(fs, m).block[i] > 0
    ensures ReadInode(fs, m).block[i] != w.ino.block[k]
  {
    hide Geometry, InodeMarked, ReadInode;
    assert Refers(fs, w, m, i, ReadInode(fs, m).block[i]);
  }

  /** Every data block is still one, with the same content. */
  ghost predicate DataKept(fs: Fs, fs': Fs) {
    && Geometry(fs) && Geometry(fs') && |fs'.disk| == |fs.disk|
    && forall c: nat | DataBlock(fs, c) :: DataBlock(fs', c) && fs'.disk[c] == fs.disk[c]
  }

  /** Storing the inode in hand. */
  lemma StoreBits(fs: Fs, n: nat, ino: Inode)
    requires Geometry(fs) && ValidInode(fs, n)
    ensures var fs' := EditInode(fs, n, ino);
      && SameBits(fs, fs')
      && (forall m | ValidInode(fs, m) ::
          ValidInode(fs', m) && ReadInode(fs', m) == if m == n then ino else ReadInode(fs, m))
      && (forall c: nat | c < |fs.disk| && !IsMeta(fs, c) :: fs'.disk[c] == fs.disk[c])
  {
    EditTouches(fs, n, ino);
    var fs', p := EditInode(fs, n, ino), SlotPlace(fs, n);
    SamePlaces(fs, fs');
    FixedBlocks(fs);
    assert ValidPlace(fs, Super) && ValidPlace(fs, Descriptors);
    assert At(fs, p) != At(fs, Super) && At(fs, p) != At(fs, Descriptors);
    assert fs'.disk[1] == fs.disk[1] && fs'.disk[2] == fs.disk[2];
    hide EditInode, Geometry;
    forall m | ValidInode(fs, m) ensures ValidInode(fs', m) &&
        ReadInode(fs', m) == if m == n then ino else ReadInode(fs, m) {
      EditThenRead(fs, n, ino, m);
    }
    forall c: nat | c < |fs.disk| && !IsMeta(fs, c) ensures fs'.disk[c] == fs.disk[c] {
      DataFrame(fs, fs', p, c);
    }
    forall q | ValidPlace(fs, q) && ValidPlace(fs', q) && !q.InodeTable? ensures Content(fs', q) == Content(fs, q) {
      if q.BlockBitmap? || q.InodeBitmap? { OtherPlaces(fs, fs', p, q); }
    }
  }

  lemma Store(fs: Fs, n: nat, ino: Inode)
    requires Inv(fs, Holding(n, ino)) && ValidInode(fs, n)
    ensures var fs' := EditInode(fs, n, ino);
      && Inv(fs', Clean) && SameBits(fs, fs') && KeepsOthers(fs, fs', n) && DataKept(fs, fs')
    ensures var fs' := EditInode(fs, n, ino);
      ValidInode(fs', n) && ReadInode(fs', n) == ino
  {
    StoreBits(fs, n, ino);
    hide EditInode;
    Stored(fs, EditInode(fs, n, ino), n, ino);
  }

  lemma Stored(fs: Fs, fs': Fs, n: nat, ino: Inode)
    requires Inv(fs, Holding(n, ino)) && ValidInode(fs, n) && SameBits(fs, fs')
    requires forall m | ValidInode(fs, m) ::
        ValidInode(fs', m) && ReadInode(fs', m) == if m == n then ino else ReadInode(fs, m)
    requires forall c: nat | c < |fs.disk| && c < |fs'.disk| && !IsMeta(fs, c) :: fs'.disk[c] == fs.disk[c]
    ensures Inv(fs', Clean) && KeepsOthers(fs, fs', n) && DataKept(fs, fs')
  {
    SameBitsKeep(fs, fs');
    SamePlaces(fs, fs');
    hide Geometry, InodeMarked, BlockMarked, ReadInode, IsMeta, Mirrored, Counted, GroupCount, Same, SameBits, Owned;
    StoredOwned(fs, fs', n, ino);
    SameData(fs, fs', Holding(n, ino));
  }

  lemma StoredOwned(fs: Fs, fs': Fs, n: nat, ino: Inode)
    requires Geometry(fs) && Owned(fs, Holding(n, ino)) && SameBits(fs, fs')
    requires forall m | ValidInode(fs, m) ::
        ValidInode(fs', m) && ReadInode(fs', m) == if m == n then ino else ReadInode(fs, m)
    ensures Owned(fs', Clean)
  {
    SameBitsKeep(fs, fs');
    SamePlaces(fs, fs');
    hide Geometry, InodeMarked, BlockMarked, ReadInode, IsMeta, GroupCount, Same, SameBits;
    forall m, i, c | Refers(fs', Clean, m, i, c) ensures Refers(fs, Holding(n, ino), m, i, c) {
    }
  }

  // ------------------------------------------------------------------ inode numbers

  ghost predicate InodesKept(fs: Fs, fs': Fs, n: nat, used: bool)
    requires Geometry(fs) && Geometry(fs')
  {
    forall m | ValidInode(fs, m) && ValidInode(fs', m) ::
      ReadInode(fs', m) == ReadInode(fs, m) && InodeMarked(fs', m) == if m == n then used else InodeMarked(fs, m)
  }

  ghost predicate BlocksKept(fs: Fs, fs': Fs)
    requires Geometry(fs) && Geometry(fs')
  {
    && (forall c: nat | InGroups(fs, c) && InGroups(fs', c) :: BlockMarked(fs', c) == BlockMarked(fs, c))
    && (forall c: nat | c < |fs.disk| && c < |fs'.disk| && !IsMeta(fs, c) :: fs'.disk[c] == fs.disk[c])
  }

  /** Of all clear bits only that of inode `n` changed. */
  ghost predicate ClearsMove(fs: Fs, fs': Fs, n: nat, used: bool)
    requires Geometry(fs) && Geometry(fs') && ValidInode(fs, n)
  {
    forall h: nat | h < GroupCount(fs) && h < GroupCount(fs') ::
      && ClearBlocks(fs', h) == ClearBlocks(fs, h)
      && ClearInodes(fs', h) == if h != GroupOfInode(fs, n) then ClearInodes(fs, h)
           else if used then ClearInodes(fs, h) - {InodeIndex(fs, n)} else ClearInodes(fs, h) + {InodeIndex(fs, n)}
  }

  /** What changes between `fs` and `fs'` is the bit of inode `n`. */
  ghost predicate InodeSet(fs: Fs, fs': Fs, n: nat, used: bool) {
    && Geometry(fs) && Geometry(fs') && Same(fs, fs') && ValidInode(fs, n)
    && InodesKept(fs, fs', n, used) && BlocksKept(fs, fs') && ClearsMove(fs, fs', n, used)
  }

  /** Inode `n` was free and now is allocated. */
  ghost predicate InodeNew(fs: Fs, fs': Fs, n: nat) {
    InodeSet(fs, fs', n, true) && !InodeMarked(fs, n)
  }

  lemma SetInodeBitIs(fs: Fs, n: nat, used: bool)
    requires Geometry(fs) && ValidInode(fs, n)
    ensures var g := GroupOfInode(fs, n);
      var fs', p := SetInodeBit(fs, g, n, used), InodeBitmap(g);
      && ValidPlace(fs, p) && NewBits(fs, fs', p, Flip(Content(fs, p), InodeIndex(fs, n), used))
      && Mirrored(fs') && CountsAdd(fs, fs', g, if used then MINUS_ONE else 1, 0)
  {
    var g := GroupOfInode(fs, n);
    hide NewBits, Mirrored, CountsAdd, SetBits, Flip;
    SetBitmap(fs, InodeBitmap(g), g, Flip(Content(fs, InodeBitmap(g)), InodeIndex(fs, n), used),
              if used then MINUS_ONE else 1, 0);
  }

  lemma InodeBitAt(fs: Fs, fs': Fs, n: nat, used: bool, m: nat)
    requires Geometry(fs) && ValidInode(fs, n) && ValidInode(fs, m)
    requires ValidPlace(fs, InodeBitmap(GroupOfInode(fs, n)))
    requires NewBits(fs, fs', InodeBitmap(GroupOfInode(fs, n)),
                     Flip(Content(fs, InodeBitmap(GroupOfInode(fs, n))), InodeIndex(fs, n), used))
    ensures ValidInode(fs', m) && InodeMarked(fs', m) == if m == n then used else InodeMarked(fs, m)
  {
    hide Geometry, At, Used, MarkUsed, MarkFree, GroupCount;
    SamePlaces(fs, fs');
    SameInodes(fs, fs');
    InodeNumber(fs, n, m);
    var p, q := InodeBitmap(GroupOfInode(fs, n)), InodeBitmap(GroupOfInode(fs, m));
    GroupsInRange(fs);
    assert ValidPlace(fs, q) && ValidPlace(fs', q);
    assert GroupOfInode(fs', m) == GroupOfInode(fs, m) && InodeIndex(fs', m) == InodeIndex(fs, m);
    hide ValidPlace, GroupOfInode, InodeIndex;
    assert Content(fs', q) == if q == p then Flip(Content(fs, p), InodeIndex(fs, n), used) else Content(fs, q);
  }

  lemma OtherBits(fs: Fs, fs': Fs, p: Place, bits': Block)
    requires Geometry(fs) && p.InodeBitmap? && NewBits(fs, fs', p, bits')
    ensures forall c: nat | InGroups(fs, c) && InGroups(fs', c) :: BlockMarked(fs', c) == BlockMarked(fs, c)
    ensures forall h: nat | h < GroupCount(fs) && h < GroupCount(fs') ::
              && ClearBlocks(fs', h) == ClearBlocks(fs, h)
              && ClearInodes(fs', h) == if h != p.g then ClearInodes(fs, h) else ClearBits(bits', fs.sb.inodesPerGroup)
  {
    SamePlaces(fs, fs');
    hide Geometry, Used, ClearBits;
    forall c: nat | InGroups(fs, c) && InGroups(fs', c) ensures BlockMarked(fs', c) == BlockMarked(fs, c) {
      var q := BlockBitmap(BlockGroup(fs, c));
      assert ValidPlace(fs, q) && ValidPlace(fs', q);
    }
    forall h: nat | h < GroupCount(fs) && h < GroupCount(fs')
      ensures ClearBlocks(fs', h) == ClearBlocks(fs, h)
      ensures h != p.g ==> ClearInodes(fs', h) == ClearInodes(fs, h)
    {
      assert ValidPlace(fs, InodeBitmap(h)) && ValidPlace(fs', InodeBitmap(h));
      assert ValidPlace(fs, BlockBitmap(h)) && ValidPlace(fs', BlockBitmap(h));
    }
  }

  lemma InodeBits(fs: Fs, fs': Fs, n: nat, used: bool)
    requires Geometry(fs) && ValidInode(fs, n)
    requires ValidPlace(fs, InodeBitmap(GroupOfInode(fs, n)))
    requires NewBits(fs, fs', InodeBitmap(GroupOfInode(fs, n)),
                     Flip(Content(fs, InodeBitmap(GroupOfInode(fs, n))), InodeIndex(fs, n), used))
    ensures InodeSet(fs, fs', n, used)
  {
    hide Geometry, Flip, GroupOfInode, InodeIndex, GroupCount, InGroups, ValidInode, ClearBits, Used;
    MovedClears(fs, fs', n, used);
    assert InodesKept(fs, fs', n, used) by {
      forall m | ValidInode(fs, m) && ValidInode(fs', m)
        ensures InodeMarked(fs', m) == if m == n then used else InodeMarked(fs, m)
      {
        InodeBitAt(fs, fs', n, used, m);
      }
    }
  }

  lemma MovedClears(fs: Fs, fs': Fs, n: nat, used: bool)
    requires Geometry(fs) && ValidInode(fs, n)
    requires ValidPlace(fs, InodeBitmap(GroupOfInode(fs, n)))
    requires NewBits(fs, fs', InodeBitmap(GroupOfInode(fs, n)),
                     Flip(Content(fs, InodeBitmap(GroupOfInode(fs, n))), InodeIndex(fs, n), used))
    ensures ClearsMove(fs, fs', n, used) && BlocksKept(fs, fs')
  {
    hide Geometry, Flip, InodeIndex, GroupCount, InGroups, ClearBits, Used, BlockMarked, IsMeta, At;
    var p := InodeBitmap(GroupOfInode(fs, n));
    GroupsInRange(fs);
    FlipClears(Content(fs, p), fs.sb.inodesPerGroup, InodeIndex(fs, n), used);
    OtherBits(fs, fs', p, Flip(Content(fs, p), InodeIndex(fs, n), used));
    hide GroupOfInode, ValidInode;
  }

  lemma FlipClears(bits: Block, n: nat, i: nat, used: bool)
    requires i < n <= 8192
    ensures ClearBits(Flip(bits, i, used), n) == if used then ClearBits(bits, n) - {i} else ClearBits(bits, n) + {i}
  {
    ClearBitsMarkUsed(bits, n, i);
    ClearBitsMarkFree(bits, n, i);
  }

  lemma MarkedIsClear(fs: Fs, n: nat)
    requires Geometry(fs) && ValidInode(fs, n)
    ensures InodeMarked(fs, n) <==> InodeIndex(fs, n) !in ClearInodes(fs, GroupOfInode(fs, n))
  {
  }

  lemma CountsInode(fs: Fs, fs': Fs, n: nat, used: bool)
    requires Geometry(fs) && Geometry(fs') && Same(fs, fs') && ValidInode(fs, n)
    requires ClearsMove(fs, fs', n, used) && Counted(fs)
    requires CountsAdd(fs, fs', GroupOfInode(fs, n), if used then MINUS_ONE else 1, 0)
    requires InodeMarked(fs, n) == !used
    ensures Counted(fs')
  {
    var g, i := GroupOfInode(fs, n), InodeIndex(fs, n);
    MarkedIsClear(fs, n);
    SamePlaces(fs, fs');
    hide ClearBlocks, ClearInodes, Geometry, U16, U32, GroupOfInode, InodeIndex, InodeMarked, Counted, GroupCount;
    var before, after := ClearInodes(fs, g), ClearInodes(fs', g);
    assert after == if used then before - {i} else before + {i};
    assert ClearBlocks(fs', g) == ClearBlocks(fs, g);
    CountsChange(fs, fs', g, used);
  }

  lemma CountsChange(fs: Fs, fs': Fs, g: nat, used: bool)
    requires Geometry(fs) && Geometry(fs') && Counted(fs) && g < GroupCount(fs) == GroupCount(fs')
    requires CountsAdd(fs, fs', g, if used then MINUS_ONE else 1, 0)
    requires forall h: nat | h < GroupCount(fs) && h < GroupCount(fs') && h != g ::
               ClearInodes(fs', h) == ClearInodes(fs, h) && ClearBlocks(fs', h) == ClearBlocks(fs, h)
    requires ClearBlocks(fs', g) == ClearBlocks(fs, g)
    requires |ClearInodes(fs', g)| == |ClearInodes(fs, g)| + if used then -1 else 1
    ensures Counted(fs')
  {
    DeltasExact(fs, g);
    assert used ==> ClearInodes(fs, g) != {};
    hide U16, U32, Geometry, ClearInodes, ClearBlocks, SumBlocks, SumInodes, GroupCount;
    CountsMove(fs, fs', g, if used then -1 else 1, 0);
  }

  /** update_inode_bitmap setting the first free bit; the number it stands for gets the inode
      in hand, which refers to no blocks yet. */
  lemma TakeInode(fs: Fs, g: nat, ino: Inode)
    requires Inv(fs, Clean) && g < GroupCount(fs) && ClearInodes(fs, g) != {}
    requires forall i | 0 <= i < 12 :: ino.block[i] == 0
    ensures var n, fs' := FindFreeInode(fs, g), SetInodeBit(fs, g, FindFreeInode(fs, g), true);
      && InodeNew(fs, fs', n)
      && Inv(fs', Holding(n, ino)) && KeepsOthers(fs, fs', 0)
  {
    FoundInode(fs, g);
    var n := FindFreeInode(fs, g);
    hide FindFreeInode, SetInodeBit, InodeSet, NewBits, CountsAdd, Geometry, GroupOfInode, Inv;
    assert Geometry(fs) && Counted(fs) by { assert Inv(fs, Clean); InvParts(fs, Clean); }
    SetInodeBitIs(fs, n, true);
    var fs' := SetInodeBit(fs, g, n, true);
    InodeBits(fs, fs', n, true);
    CountsInode(fs, fs', n, true);
    InodeTaken(fs, fs', n, ino);
  }

  lemma InvParts(fs: Fs, w: Pending)
    requires Inv(fs, w)
    ensures Geometry(fs) && Counted(fs) && Mirrored(fs) && Reserved(fs) && Owned(fs, w)
  {
  }

  lemma InodeTaken(fs: Fs, fs': Fs, n: nat, ino: Inode)
    requires Inv(fs, Clean) && InodeSet(fs, fs', n, true) && !InodeMarked(fs, n) && Mirrored(fs') && Counted(fs')
    requires forall i | 0 <= i < 12 :: ino.block[i] == 0
    ensures Inv(fs', Holding(n, ino)) && KeepsOthers(fs, fs', 0)
  {
    SamePlaces(fs, fs');
    SameInodes(fs, fs');
    hide Geometry, InodeMarked, BlockMarked, ReadInode, IsMeta, Mirrored, Counted, GroupCount, InodeSet;
    assert KeepsOthers(fs, fs', 0) by {
      forall m | Allocated(fs, m) ensures Allocated(fs', m) && ReadInode(fs', m) == ReadInode(fs, m) {
        InodeSetKeeps(fs, fs', n, true, m);
      }
      InodeSetBlocks(fs, fs', n, true);
      SameData(fs, fs', Clean);
    }
    InodeTakenOwned(fs, fs', n, ino);
  }

  lemma InodeSetBlocks(fs: Fs, fs': Fs, n: nat, used: bool)
    requires InodeSet(fs, fs', n, used)
    ensures forall c: nat | c < |fs.disk| && c < |fs'.disk| && !IsMeta(fs, c) :: fs'.disk[c] == fs.disk[c]
    ensures forall b: nat :: InGroups(fs', b) == InGroups(fs, b)
    ensures forall b: nat | InGroups(fs, b) :: BlockMarked(fs', b) == BlockMarked(fs, b)
    ensures forall b: nat :: IsMeta(fs', b) == IsMeta(fs, b)
  {
    SamePlaces(fs, fs');
  }

  lemma InodeTakenOwned(fs: Fs, fs': Fs, n: nat, ino: Inode)
    requires InodeSet(fs, fs', n, true) && Owned(fs, Clean) && Reserved(fs)
    requires forall i | 0 <= i < 12 :: ino.block[i] == 0
    ensures Owned(fs', Holding(n, ino)) && Reserved(fs')
  {
    hide Geometry, InodeMarked, BlockMarked, ReadInode, IsMeta, GroupCount, InodeSet, InGroups;
    InodeSetSame(fs, fs', n, true);
    InodeSetBlocks(fs, fs', n, true);
    forall m, i, c | Refers(fs', Holding(n, ino), m, i, c) ensures Refers(fs, Clean, m, i, c) {
      SameInodes(fs, fs');
      InodeSetKeeps(fs, fs', n, true, m);
    }
  }

  /** update_inode_bitmap clearing the bit of an allocated inode. */
  lemma DropInode(fs: Fs, n: nat)
    requires Inv(fs, Clean) && Allocated(fs, n)
    ensures var fs' := SetInodeBit(fs, GroupOfInode(fs, n), n, false);
      && InodeSet(fs, fs', n, false) && Inv(fs', Clean) && KeepsOthers(fs, fs', n)
  {
    var g := GroupOfInode(fs, n);
    SetInodeBitIs(fs, n, false);
    hide SetInodeBit, InodeSet, NewBits, CountsAdd, Geometry, GroupOfInode;
    var fs' := SetInodeBit(fs, g, n, false);
    InodeBits(fs, fs', n, false);
    CountsInode(fs, fs', n, false);
    InodeDropped(fs, fs', n);
  }

  lemma InodeDropped(fs: Fs, fs': Fs, n: nat)
    requires Inv(fs, Clean) && InodeSet(fs, fs', n, false) && Mirrored(fs') && Counted(fs')
    ensures Inv(fs', Clean) && KeepsOthers(fs, fs', n)
  {
    hide Geometry, Mirrored, Counted, Owned, Reserved, InodeSet, KeepsOthers;
    assert Geometry(fs') by { InodeSetSame(fs, fs', n, false); }
    InodeDroppedOwned(fs, fs', n);
    InodeDroppedKeeps(fs, fs', n);
  }

  lemma InodeSetSame(fs: Fs, fs': Fs, n: nat, used: bool)
    requires InodeSet(fs, fs', n, used)
    ensures Geometry(fs) && Geometry(fs') && Same(fs, fs')
  {
  }

  lemma InodeDroppedKeeps(fs: Fs, fs': Fs, n: nat)
    requires InodeSet(fs, fs', n, false) && Owned(fs, Clean)
    ensures KeepsOthers(fs, fs', n)
  {
    hide Geometry, SameFile, Owned, InodeSet, ReadInode, IsMeta, Allocated, InGroups, BlockMarked;
    InodeSetBlocks(fs, fs', n, false);
    InodeSetSame(fs, fs', n, false);
    forall m | m != n && Allocated(fs, m) ensures SameFile(fs, fs', m) {
      InodeSetAllocated(fs, fs', n, m);
      SameFileData(fs, fs', Clean, m);
    }
  }

  lemma InodeSetAllocated(fs: Fs, fs': Fs, n: nat, m: nat)
    requires InodeSet(fs, fs', n, false) && Allocated(fs, m) && m != n
    ensures m > 0 && Allocated(fs', m) && ReadInode(fs', m) == ReadInode(fs, m)
  {
    InodeSetKeeps(fs, fs', n, false, m);
  }

  lemma InodeDroppedOwned(fs: Fs, fs': Fs, n: nat)
    requires InodeSet(fs, fs', n, false) && Owned(fs, Clean) && Reserved(fs)
    ensures Owned(fs', Clean) && Reserved(fs')
  {
    hide Geometry, InodeMarked, BlockMarked, ReadInode, IsMeta, GroupCount, InodeSet, InGroups;
    InodeSetSame(fs, fs', n, false);
    InodeSetBlocks(fs, fs', n, false);
    forall m, i, c | Refers(fs', Clean, m, i, c) ensures Refers(fs, Clean, m, i, c) {
      SameInodes(fs, fs');
      InodeSetKeeps(fs, fs', n, false, m);
    }
  }

  lemma InodeSetKeeps(fs: Fs, fs': Fs, n: nat, used: bool, m: nat)
    requires InodeSet(fs, fs', n, used) && ValidInode(fs, m)
    ensures ValidInode(fs', m) && ReadInode(fs', m) == ReadInode(fs, m)
    ensures InodeMarked(fs', m) == if m == n then used else InodeMarked(fs, m)
  {
    SameInodes(fs, fs');
  }
}
