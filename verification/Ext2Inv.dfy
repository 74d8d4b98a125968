/** The invariant of the ext2 writer: the copies on disk equal those in memory, the free counts
    count, and every block an allocated inode refers to is its own and marked used. */
module Ext2Inv {
  import opened Bits
  import opened Ext2Layout
  import opened Ext2State

  /** write_file and create_file hold one inode in memory before they store it: until then that
      copy, and not the one on disk, says which blocks the inode refers to. */
  datatype Pending = Clean | Holding(n: nat, ino: Inode)

  ghost function Live(fs: Fs, w: Pending, m: nat): Inode
    requires Geometry(fs) && ValidInode(fs, m)
  {
    if w.Holding? && w.n == m then w.ino else ReadInode(fs, m)
  }

  ghost predicate Allocated(fs: Fs, m: nat)
    requires Geometry(fs)
  {
    ValidInode(fs, m) && InodeMarked(fs, m)
  }

  /** Allocated inode `m` refers to block `b` in its slot `i`. */
  ghost predicate Refers(fs: Fs, w: Pending, m: nat, i: nat, b: nat)
    requires Geometry(fs)
  {
    Allocated(fs, m) && i < 12 && Live(fs, w, m).block[i] == b && b != 0
  }

  /** A block that can hold data: in a group, marked used, and not one of the structures. */
  ghost predicate DataBlock(fs: Fs, b: nat)
    requires Geometry(fs)
  {
    b < |fs.disk| && InGroups(fs, b) && !IsMeta(fs, b) && BlockMarked(fs, b)
  }

  ghost predicate Owned(fs: Fs, w: Pending)
    requires Geometry(fs)
  {
    && (forall m, i, b | Refers(fs, w, m, i, b) :: DataBlock(fs, b))
    && (forall m, i, n, j, b | Refers(fs, w, m, i, b) && Refers(fs, w, n, j, b) :: m == n && i == j)
  }

  /** The blocks that must never be handed out are marked used. */
  ghost predicate Reserved(fs: Fs)
    requires Geometry(fs)
  {
    forall b: nat | InGroups(fs, b) && (b >= |fs.disk| || IsMeta(fs, b)) :: BlockMarked(fs, b)
  }

  ghost predicate Mirrored(fs: Fs)
    requires Geometry(fs)
  {
    FixedBlocks(fs);
    fs.disk[1] == SuperBlock(fs.sb) && fs.disk[2] == EncodeGroups(fs.groups)
  }

  function SumBlocks(gs: Groups, k: nat): nat
    requires k <= 32
  {
    if k == 0 then 0 else SumBlocks(gs, k - 1) + gs[k - 1].freeBlocks
  }

  function SumInodes(gs: Groups, k: nat): nat
    requires k <= 32
  {
    if k == 0 then 0 else SumInodes(gs, k - 1) + gs[k - 1].freeInodes
  }

  /** Each group's counts are the clear bits of its bitmaps; the totals are the sums. */
  ghost predicate Counted(fs: Fs)
    requires Geometry(fs)
  {
    && (forall g | 0 <= g < GroupCount(fs) ::
          fs.groups[g].freeBlocks == |ClearBlocks(fs, g)| && fs.groups[g].freeInodes == |ClearInodes(fs, g)|)
    && fs.sb.freeBlocks == SumBlocks(fs.groups, GroupCount(fs))
    && fs.sb.freeInodes == SumInodes(fs.groups, GroupCount(fs))
  }

  ghost predicate Inv(fs: Fs, w: Pending) {
    Geometry(fs) && Mirrored(fs) && Counted(fs) && Reserved(fs) && Owned(fs, w)
  }

  // ------------------------------------------------------------------ sums

  lemma {:induction false} SumChange(gs: Groups, gs': Groups, g: nat, k: nat)
    requires k <= 32 && g < 32 && gs' == gs[g := gs'[g]]
    ensures SumBlocks(gs', k) == SumBlocks(gs, k) + (if g < k then gs'[g].freeBlocks - gs[g].freeBlocks else 0)
    ensures SumInodes(gs', k) == SumInodes(gs, k) + (if g < k then gs'[g].freeInodes - gs[g].freeInodes else 0)
  {
    if k > 0 { SumChange(gs, gs', g, k - 1); }
  }

  lemma {:induction false} SumBound(gs: Groups, g: nat, k: nat)
    requires g < k <= 32
    ensures gs[g].freeBlocks <= SumBlocks(gs, k) <= 0xFFFF * k
    ensures gs[g].freeInodes <= SumInodes(gs, k) <= 0xFFFF * k
    decreases k
  {
    if g < k - 1 {
      SumBound(gs, g, k - 1);
    } else if k > 1 {
      SumBound(gs, 0, k - 1);
    }
  }

  /** A 32-bit delta of 1, 0 or -1 changes a 16-bit count and a 32-bit total by exactly that. */
  lemma DeltaExact(count: nat)
    requires count <= 0xFFFF * 32
    ensures U32(count) == count && U32(count + 1) == count + 1
    ensures count <= 0xFFFF ==> U16(count) == count
    ensures count < 0xFFFF ==> U16(count + 1) == count + 1
    ensures count > 0 ==> U32(count + MINUS_ONE) == count - 1
    ensures 0 < count <= 0xFFFF ==> U16(count + MINUS_ONE) == count - 1
  {
  }

  // ------------------------------------------------------------------ frames

  /** No inode, no bitmap but `p`'s and no data block differs. */
  ghost predicate Undisturbed(fs: Fs, fs': Fs, p: Place)
    requires Geometry(fs) && Geometry(fs')
  {
    && (forall m | ValidInode(fs, m) && ValidInode(fs', m) :: ReadInode(fs', m) == ReadInode(fs, m))
    && (forall b: nat | b < |fs.disk| && b < |fs'.disk| && !IsMeta(fs, b) :: fs'.disk[b] == fs.disk[b])
    && (forall q | ValidPlace(fs, q) && ValidPlace(fs', q) && q != p && (q.BlockBitmap? || q.InodeBitmap?) ::
          Content(fs', q) == Content(fs, q))
  }

  lemma BitmapFrame(fs: Fs, fs': Fs, p: Place)
    requires Geometry(fs) && ValidPlace(fs, p) && OnlyTouches(fs, fs', p) && (p.BlockBitmap? || p.InodeBitmap?)
    ensures Geometry(fs') && Undisturbed(fs, fs', p)
  {
    SamePlaces(fs, fs');
    SameInodes(fs, fs');
    hide DecodeInode, Geometry, OnlyTouches, Same, At, ValidPlace;
    forall m | ValidInode(fs, m) && ValidInode(fs', m) ensures ReadInode(fs', m) == ReadInode(fs, m) {
      SlotValid(fs, m);
      OtherPlaces(fs, fs', p, SlotPlace(fs, m));
    }
    forall b: nat | b < |fs.disk| && b < |fs'.disk| && !IsMeta(fs, b) ensures fs'.disk[b] == fs.disk[b] {
      DataFrame(fs, fs', p, b);
    }
    forall q | ValidPlace(fs, q) && ValidPlace(fs', q) && q != p && (q.BlockBitmap? || q.InodeBitmap?)
      ensures Content(fs', q) == Content(fs, q)
    {
      OtherPlaces(fs, fs', p, q);
    }
  }

  lemma DataFrame(fs: Fs, fs': Fs, p: Place, b: nat)
    requires Geometry(fs) && ValidPlace(fs, p) && OnlyTouches(fs, fs', p)
    requires b < |fs.disk| && !IsMeta(fs, b)
    ensures b < |fs'.disk| && fs'.disk[b] == fs.disk[b]
  {
    assert ValidPlace(fs, Super) && ValidPlace(fs, Descriptors);
    assert At(fs, p) != b && At(fs, Super) != b && At(fs, Descriptors) != b;
  }

  // ------------------------------------------------------------------ setting a bit

  /** The bitmap at `p` now is `bits'`; the other bitmaps and all inodes are as before. */
  ghost predicate NewBits(fs: Fs, fs': Fs, p: Place, bits': Block)
    requires Geometry(fs)
  {
    && ValidPlace(fs, p) && Geometry(fs') && Same(fs, fs') && Undisturbed(fs, fs', p)
    && ValidPlace(fs', p) && Content(fs', p) == bits'
  }

  /** The counts of group `g` and the totals were changed by adding 32-bit deltas. */
  ghost predicate CountsAdd(fs: Fs, fs': Fs, g: nat, deltaInodes: u32, deltaBlocks: u32) {
    && g < 32
    && fs'.groups == fs.groups[g := fs.groups[g].(freeBlocks := U16(fs.groups[g].freeBlocks + deltaBlocks),
                                                 freeInodes := U16(fs.groups[g].freeInodes + deltaInodes))]
    && fs'.sb == fs.sb.(freeBlocks := U32(fs.sb.freeBlocks + deltaBlocks),
                        freeInodes := U32(fs.sb.freeInodes + deltaInodes))
  }

  lemma SetBitsTouches(fs: Fs, p: Place, g: nat, bits': Block, deltaInodes: u32, deltaBlocks: u32)
    requires Geometry(fs) && ValidPlace(fs, p) && (p == BlockBitmap(g) || p == InodeBitmap(g))
    ensures var fs' := SetBits(fs, p, g, bits', deltaInodes, deltaBlocks);
      && OnlyTouches(fs, fs', p) && Geometry(fs') && ValidPlace(fs', p) && Content(fs', p) == bits'
      && Mirrored(fs') && CountsAdd(fs, fs', g, deltaInodes, deltaBlocks)
  {
    hide Geometry, Recount, U16, U32, SuperBlock, EncodeGroups, At;
    PlaceOnDisk(fs, p);
    NotFixed(fs, p);
    var fs1 := WriteAt(fs, At(fs, p), bits');
    WriteSame(fs, At(fs, p), bits');
    SamePlaces(fs, fs1);
    RecountTouches(fs1, g, deltaInodes, deltaBlocks);
    SamePlaces(fs, SetBits(fs, p, g, bits', deltaInodes, deltaBlocks));
  }

  /** A bitmap update puts the new bitmap in place and writes nothing else but the counts. */
  lemma SetBitmap(fs: Fs, p: Place, g: nat, bits': Block, deltaInodes: u32, deltaBlocks: u32)
    requires Geometry(fs) && ValidPlace(fs, p) && (p == BlockBitmap(g) || p == InodeBitmap(g))
    ensures var fs' := SetBits(fs, p, g, bits', deltaInodes, deltaBlocks);
      NewBits(fs, fs', p, bits') && Mirrored(fs') && CountsAdd(fs, fs', g, deltaInodes, deltaBlocks)
  {
    SetBitsTouches(fs, p, g, bits', deltaInodes, deltaBlocks);
    hide SetBits, Undisturbed, Mirrored, CountsAdd, Geometry;
    BitmapFrame(fs, SetBits(fs, p, g, bits', deltaInodes, deltaBlocks), p);
  }

  lemma SameLength(fs: Fs, fs': Fs)
    requires Same(fs, fs')
    ensures |fs'.disk| == |fs.disk| && fs'.sb.blocksPerGroup == fs.sb.blocksPerGroup
    ensures fs'.sb.inodesPerGroup == fs.sb.inodesPerGroup
  {
  }

  lemma SameGroups(fs: Fs, fs': Fs)
    requires Same(fs, fs')
    ensures forall b: nat :: InGroups(fs', b) == InGroups(fs, b)
    ensures forall m :: ValidInode(fs', m) == ValidInode(fs, m)
  {
  }

  /** Ownership survives when inodes read the same, none becomes allocated and no mark is lost. */
  lemma OwnedTransfer(fs: Fs, fs': Fs, w: Pending)
    requires Geometry(fs) && Geometry(fs') && Same(fs, fs') && Owned(fs, w) && Reserved(fs)
    requires forall m | ValidInode(fs, m) && ValidInode(fs', m) :: ReadInode(fs', m) == ReadInode(fs, m)
    requires forall m | Allocated(fs', m) :: Allocated(fs, m)
    requires forall b: nat | InGroups(fs, b) && InGroups(fs', b) && BlockMarked(fs, b) :: BlockMarked(fs', b)
    ensures Owned(fs', w) && Reserved(fs')
    ensures forall m, i, b | Refers(fs', w, m, i, b) :: Refers(fs, w, m, i, b)
    ensures forall b | DataBlock(fs, b) :: DataBlock(fs', b)
  {
    hide Geometry, BlockMarked, InodeMarked, ReadInode, IsMeta, At, Same;
    SamePlaces(fs, fs');
    SameLength(fs, fs');
    SameGroups(fs, fs');
    forall m, i, b | Refers(fs', w, m, i, b) ensures Refers(fs, w, m, i, b) {
      assert Allocated(fs, m);
    }
  }

  lemma BlockBitAt(fs: Fs, fs': Fs, g: nat, b: nat, c: nat)
    requires Geometry(fs) && InGroups(fs, b) && BlockGroup(fs, b) == g && InGroups(fs, c)
    requires ValidPlace(fs, BlockBitmap(g))
    requires NewBits(fs, fs', BlockBitmap(g), MarkUsed(Content(fs, BlockBitmap(g)), BlockIndex(fs, b)))
    ensures InGroups(fs', c) && BlockMarked(fs', c) == (c == b || BlockMarked(fs, c))
  {
    SamePlaces(fs, fs');
    BlockNumber(fs, b, c);
    var p, q := BlockBitmap(g), BlockBitmap(BlockGroup(fs, c));
    assert ValidPlace(fs, q) && ValidPlace(fs', q);
    assert BlockGroup(fs', c) == BlockGroup(fs, c) && BlockIndex(fs', c) == BlockIndex(fs, c);
    hide Geometry, At, ValidPlace, Used, MarkUsed, GroupCount, BlockGroup, BlockIndex;
    assert Content(fs', q) == if q == p then MarkUsed(Content(fs, p), BlockIndex(fs, b)) else Content(fs, q);
  }

  lemma BlockBits(fs: Fs, fs': Fs, g: nat, b: nat)
    requires Geometry(fs) && InGroups(fs, b) && BlockGroup(fs, b) == g
    requires ValidPlace(fs, BlockBitmap(g))
    requires NewBits(fs, fs', BlockBitmap(g), MarkUsed(Content(fs, BlockBitmap(g)), BlockIndex(fs, b)))
    ensures forall m | ValidInode(fs, m) && ValidInode(fs', m) :: InodeMarked(fs', m) == InodeMarked(fs, m)
    ensures forall h: nat | h < GroupCount(fs) && h < GroupCount(fs') ::
              && ClearInodes(fs', h) == ClearInodes(fs, h)
              && ClearBlocks(fs', h) == if h == g then ClearBlocks(fs, g) - {BlockIndex(fs, b)} else ClearBlocks(fs, h)
  {
    SamePlaces(fs, fs');
    ClearBitsMarkUsed(Content(fs, BlockBitmap(g)), fs.sb.blocksPerGroup, BlockIndex(fs, b));
    hide Geometry, Used, MarkUsed, ClearBits;
    forall m | ValidInode(fs, m) && ValidInode(fs', m) ensures InodeMarked(fs', m) == InodeMarked(fs, m) {
      var q := InodeBitmap(GroupOfInode(fs, m));
      assert ValidPlace(fs, q) && ValidPlace(fs', q);
    }
    forall h: nat | h < GroupCount(fs) && h < GroupCount(fs')
      ensures ClearInodes(fs', h) == ClearInodes(fs, h)
      ensures h != g ==> ClearBlocks(fs', h) == ClearBlocks(fs, h)
    {
      assert ValidPlace(fs, InodeBitmap(h)) && ValidPlace(fs', InodeBitmap(h));
      assert ValidPlace(fs, BlockBitmap(h)) && ValidPlace(fs', BlockBitmap(h));
    }
  }

  // ------------------------------------------------------------------ counts

  /** The counts of group `g` moved by `dInodes` and `dBlocks`, and so did its clear bits. */
  lemma CountsMove(fs: Fs, fs': Fs, g: nat, dInodes: int, dBlocks: int)
    requires Geometry(fs) && Geometry(fs') && Counted(fs) && g < GroupCount(fs) == GroupCount(fs')
    requires fs'.groups == fs.groups[g := fs'.groups[g]]
    requires fs'.groups[g].freeBlocks == fs.groups[g].freeBlocks + dBlocks
    requires fs'.groups[g].freeInodes == fs.groups[g].freeInodes + dInodes
    requires fs'.sb.freeBlocks == fs.sb.freeBlocks + dBlocks && fs'.sb.freeInodes == fs.sb.freeInodes + dInodes
    requires forall h: nat | h < GroupCount(fs) && h < GroupCount(fs') && h != g ::
               ClearInodes(fs', h) == ClearInodes(fs, h) && ClearBlocks(fs', h) == ClearBlocks(fs, h)
    requires |ClearBlocks(fs', g)| == |ClearBlocks(fs, g)| + dBlocks
    requires |ClearInodes(fs', g)| == |ClearInodes(fs, g)| + dInodes
    ensures Counted(fs')
  {
    SumChange(fs.groups, fs'.groups, g, GroupCount(fs));
  }

  /** The wrapped deltas are exact on a consistent state. */
  lemma DeltasExact(fs: Fs, g: nat)
    requires Geometry(fs) && Counted(fs) && g < GroupCount(fs)
    ensures ClearBlocks(fs, g) != {} ==>
              && U16(fs.groups[g].freeBlocks + MINUS_ONE) == fs.groups[g].freeBlocks - 1
              && U32(fs.sb.freeBlocks + MINUS_ONE) == fs.sb.freeBlocks - 1
    ensures ClearInodes(fs, g) != {} ==>
              && U16(fs.groups[g].freeInodes + MINUS_ONE) == fs.groups[g].freeInodes - 1
              && U32(fs.sb.freeInodes + MINUS_ONE) == fs.sb.freeInodes - 1
    ensures U16(fs.groups[g].freeInodes + 1) == fs.groups[g].freeInodes + 1
    ensures U32(fs.sb.freeInodes + 1) == fs.sb.freeInodes + 1
    ensures U16(fs.groups[g].freeBlocks + 1) == fs.groups[g].freeBlocks + 1
    ensures U32(fs.sb.freeBlocks + 1) == fs.sb.freeBlocks + 1
    ensures U16(fs.groups[g].freeBlocks) == fs.groups[g].freeBlocks &&
        U16(fs.groups[g].freeInodes) == fs.groups[g].freeInodes
    ensures U32(fs.sb.freeBlocks) == fs.sb.freeBlocks && U32(fs.sb.freeInodes) == fs.sb.freeInodes
  {
    SumBound(fs.groups, g, GroupCount(fs));
    ClearBound(fs, g);
    hide U16, U32, SumBlocks, SumInodes, ClearBlocks, ClearInodes, Geometry, GroupCount;
    DeltaExact(fs.groups[g].freeInodes);
    DeltaExact(fs.groups[g].freeBlocks);
    DeltaExact(fs.sb.freeInodes);
    DeltaExact(fs.sb.freeBlocks);
  }

  lemma ClearBound(fs: Fs, g: nat)
    requires Geometry(fs) && g < GroupCount(fs)
    ensures |ClearInodes(fs, g)| <= 8192 && |ClearBlocks(fs, g)| <= 8192
  {
    BoundedSet(ClearInodes(fs, g), 8192);
    BoundedSet(ClearBlocks(fs, g), 8192);
  }

  // ------------------------------------------------------------------ there and back

  /** Deltas that cancel out, in 16 bits and in 32. */
  lemma DeltaBack(count: u32, delta: u32, back: u32)
    requires (delta + back) % 0x1_0000_0000 == 0
    ensures U32(U32(count + delta) + back) == count
    ensures count < 0x1_0000 ==> U16(U16(count + delta) + back) == count
  {
    assert delta + back == 0 || delta + back == 0x1_0000_0000;
    Cancel(count, delta, back, 0x1_0000_0000);
    if count < 0x1_0000 {
      assert (delta + back) % 0x1_0000 == 0;
      Cancel(count, delta, back, 0x1_0000);
    }
  }

  lemma Cancel(count: nat, delta: nat, back: nat, d: nat)
    requires d == 0x1_0000 || d == 0x1_0000_0000
    requires count < d && (delta + back) % d == 0
    ensures ((count + delta) % d + back) % d == count
  {
  }

  /** Changing a bitmap and the counts, and changing them back, gives the file system back. */
  lemma SetBitsBack(fs: Fs, p: Place, g: nat, bits': Block, dI: u32, dB: u32, eI: u32, eB: u32)
    requires Geometry(fs) && Mirrored(fs) && ValidPlace(fs, p) && (p == BlockBitmap(g) || p == InodeBitmap(g))
    requires (dI + eI) % 0x1_0000_0000 == 0 && (dB + eB) % 0x1_0000_0000 == 0
    ensures var fs1 := SetBits(fs, p, g, bits', dI, dB);
      && Geometry(fs1) && ValidPlace(fs1, p) && At(fs1, p) == At(fs, p) && Content(fs1, p) == bits'
      && SetBits(fs1, p, g, Content(fs, p), eI, eB) == fs
  {
    hide Geometry, Recount, SuperBlock, EncodeGroups, At, SetBits, U16, U32;
    SetBitsTouches(fs, p, g, bits', dI, dB);
    var fs1 := SetBits(fs, p, g, bits', dI, dB);
    SamePlaces(fs, fs1);
    SetBitsTouches(fs1, p, g, Content(fs, p), eI, eB);
    var fs2 := SetBits(fs1, p, g, Content(fs, p), eI, eB);
    SamePlaces(fs1, fs2);
    DeltaBack(fs.groups[g].freeBlocks, dB, eB);
    DeltaBack(fs.groups[g].freeInodes, dI, eI);
    DeltaBack(fs.sb.freeBlocks, dB, eB);
    DeltaBack(fs.sb.freeInodes, dI, eI);
    assert fs2.groups == fs.groups && fs2.sb == fs.sb;
    SameDisk(fs, fs1, fs2, p);
  }

  lemma SameDisk(fs: Fs, fs1: Fs, fs2: Fs, p: Place)
    requires Geometry(fs) && Mirrored(fs) && ValidPlace(fs, p) && OnlyTouches(fs, fs1, p)
    requires Geometry(fs1) && ValidPlace(fs1, p) && At(fs1, p) == At(fs, p) && OnlyTouches(fs1, fs2, p)
    requires Geometry(fs2) && ValidPlace(fs2, p) && At(fs2, p) == At(fs, p) && Mirrored(fs2)
    requires Content(fs2, p) == Content(fs, p) && fs2.sb == fs.sb && fs2.groups == fs.groups
    ensures fs2 == fs
  {
    hide Geometry, SuperBlock, EncodeGroups, ValidPlace, At;
    assert |fs2.disk| == |fs.disk|;
    forall b: nat | b < |fs.disk| ensures fs2.disk[b] == fs.disk[b] {
    }
    assert fs2.disk == fs.disk;
  }

  /** update_block_bitmap and update_inode_bitmap: setting a clear bit and clearing it again
      restores bitmap, counts and the copies on disk. */
  lemma BlockBitBack(fs: Fs, g: nat, b: nat)
    requires Geometry(fs) && Mirrored(fs) && InGroups(fs, b) && BlockGroup(fs, b) == g && !BlockMarked(fs, b)
    ensures var fs1 := SetBlockBit(fs, g, b, true);
      Geometry(fs1) && g < GroupCount(fs1) && SetBlockBit(fs1, g, b, false) == fs
  {
    hide Geometry, SetBits, MarkUsed, MarkFree, Used, Mirrored, At;
    GroupsInRange(fs);
    var p, i := BlockBitmap(g), BlockIndex(fs, b);
    MarkBack(Content(fs, p), i);
    SetBitsBack(fs, p, g, MarkUsed(Content(fs, p), i), 0, MINUS_ONE, 0, 1);
    SetBitmap(fs, p, g, MarkUsed(Content(fs, p), i), 0, MINUS_ONE);
  }

  lemma InodeBitBack(fs: Fs, g: nat, n: nat)
    requires Geometry(fs) && Mirrored(fs) && ValidInode(fs, n) && GroupOfInode(fs, n) == g && !InodeMarked(fs, n)
    ensures var fs1 := SetInodeBit(fs, g, n, true);
      Geometry(fs1) && g < GroupCount(fs1) && SetInodeBit(fs1, g, n, false) == fs
  {
    hide Geometry, SetBits, MarkUsed, MarkFree, Used, Mirrored, At;
    GroupsInRange(fs);
    var p, i := InodeBitmap(g), InodeIndex(fs, n);
    MarkBack(Content(fs, p), i);
    SetBitsBack(fs, p, g, MarkUsed(Content(fs, p), i), MINUS_ONE, 0, 1, 0);
    SetBitmap(fs, p, g, MarkUsed(Content(fs, p), i), MINUS_ONE, 0);
  }

  lemma GroupsInRange(fs: Fs)
    requires Geometry(fs)
    ensures GroupCount(fs) <= 32 && 0 < fs.sb.inodesPerGroup <= 8192 && 0 < fs.sb.blocksPerGroup <= 8192
  {
  }

  // ------------------------------------------------------------------ taking a block

  /** What changes between `fs` and `fs'` is that block `b` is marked; it was free before. */
  ghost predicate BlockTaken(fs: Fs, fs': Fs, b: nat) {
    && Geometry(fs) && Geometry(fs') && Same(fs, fs') && InGroups(fs, b) && !BlockMarked(fs, b)
    && (forall m | ValidInode(fs, m) && ValidInode(fs', m) ::
          ReadInode(fs', m) == ReadInode(fs, m) && InodeMarked(fs', m) == InodeMarked(fs, m))
    && (forall c: nat | InGroups(fs, c) && InGroups(fs', c) :: BlockMarked(fs', c) == (c == b || BlockMarked(fs, c)))
    && (forall c: nat | c < |fs.disk| && c < |fs'.disk| && !IsMeta(fs, c) :: fs'.disk[c] == fs.disk[c])
    && (forall h: nat | h < GroupCount(fs) && h < GroupCount(fs') ::
          && ClearInodes(fs', h) == ClearInodes(fs, h)
          && ClearBlocks(fs', h) ==
              if h == BlockGroup(fs, b) then ClearBlocks(fs, h) - {BlockIndex(fs, b)} else ClearBlocks(fs, h))
  }

  lemma SetBlockBitIs(fs: Fs, g: nat, b: nat)
    requires Geometry(fs) && g < GroupCount(fs)
    ensures var fs', p := SetBlockBit(fs, g, b, true), BlockBitmap(g);
      && ValidPlace(fs, p) && NewBits(fs, fs', p, MarkUsed(Content(fs, p), BlockIndex(fs, b)))
      && Mirrored(fs') && CountsAdd(fs, fs', g, 0, MINUS_ONE)
  {
    hide NewBits, Mirrored, CountsAdd, SetBits;
    SetBitmap(fs, BlockBitmap(g), g, Flip(Content(fs, BlockBitmap(g)), BlockIndex(fs, b), true), 0, MINUS_ONE);
  }

  lemma BitsTaken(fs: Fs, fs': Fs, b: nat)
    requires Geometry(fs) && InGroups(fs, b) && !BlockMarked(fs, b)
    requires ValidPlace(fs, BlockBitmap(BlockGroup(fs, b)))
    requires NewBits(fs, fs', BlockBitmap(BlockGroup(fs, b)),
                     MarkUsed(Content(fs, BlockBitmap(BlockGroup(fs, b))), BlockIndex(fs, b)))
    ensures BlockTaken(fs, fs', b)
  {
    var g := BlockGroup(fs, b);
    hide BlockGroup, BlockIndex, MarkUsed, GroupCount, Geometry;
    BlockBits(fs, fs', g, b);
    forall c: nat | InGroups(fs, c) && InGroups(fs', c)
      ensures BlockMarked(fs', c) == (c == b || BlockMarked(fs, c))
    {
      BlockBitAt(fs, fs', g, b, c);
    }
  }

  lemma CountsTaken(fs: Fs, fs': Fs, b: nat)
    requires BlockTaken(fs, fs', b) && Counted(fs) && CountsAdd(fs, fs', BlockGroup(fs, b), 0, MINUS_ONE)
    ensures Counted(fs')
  {
    hide ClearBlocks, ClearInodes, Geometry, U16, U32, BlockGroup, BlockIndex, SumBlocks, SumInodes, GroupCount,
      BlockTaken, Counted;
    TakenClears(fs, fs', b);
    var g := BlockGroup(fs, b);
    DeltasExact(fs, g);
    OneLess(ClearBlocks(fs, g), BlockIndex(fs, b));
    CountsMove(fs, fs', g, 0, -1);
  }

  lemma TakenClears(fs: Fs, fs': Fs, b: nat)
    requires BlockTaken(fs, fs', b)
    ensures Geometry(fs) && Geometry(fs') && fs.sb.blocksPerGroup > 0 &&
        BlockGroup(fs, b) < GroupCount(fs) == GroupCount(fs')
    ensures BlockIndex(fs, b) in ClearBlocks(fs, BlockGroup(fs, b))
    ensures forall h: nat | h < GroupCount(fs) && h < GroupCount(fs') ::
              && ClearInodes(fs', h) == ClearInodes(fs, h)
              && ClearBlocks(fs', h) ==
                  if h == BlockGroup(fs, b) then ClearBlocks(fs, h) - {BlockIndex(fs, b)} else ClearBlocks(fs, h)
  {
  }

  lemma OneLess(s: set<nat>, x: nat)
    requires x in s
    ensures |s - {x}| == |s| - 1
  {
  }

  lemma TakeBlockEffect(fs: Fs, g: nat)
    requires Geometry(fs) && Counted(fs) && g < GroupCount(fs) && ClearBlocks(fs, g) != {}
    ensures var b, fs' := FindFreeBlock(fs, g), SetBlockBit(fs, g, FindFreeBlock(fs, g), true);
      && BlockTaken(fs, fs', b) && BlockGroup(fs, b) == g && Mirrored(fs') && Counted(fs')
  {
    FoundBlock(fs, g);
    var b := FindFreeBlock(fs, g);
    hide SetBlockBit, FindFreeBlock, BlockGroup, Geometry, Counted, BlockTaken, NewBits, CountsAdd;
    SetBlockBitIs(fs, g, b);
    BitsTaken(fs, SetBlockBit(fs, g, b, true), b);
    CountsTaken(fs, SetBlockBit(fs, g, b, true), b);
  }
}
