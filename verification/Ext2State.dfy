/** An ext2 file system as src/ext2.c sees it: the superblock and descriptors in memory, and the
    disk. Functions here are the primitive updates; lemmas say what each leaves alone. */
module Ext2State {
  import opened Bits
  import opened Memory
  import opened Ext2Layout

  /** `disk` lists 1024-byte blocks. Only the first 84 bytes of block 1 mean anything. */
  datatype Fs = Fs(sb: Superblock, groups: Groups, disk: seq<Block>)

  // ------------------------------------------------------------------ where things are

  function GroupCount(fs: Fs): nat {
    if fs.sb.inodesPerGroup == 0 then 0 else fs.sb.totalInodes / fs.sb.inodesPerGroup
  }

  /** The structures of the file system, each in a block of its own. */
  datatype Place =
    | Super
    | Descriptors
    | BlockBitmap(g: nat)
    | InodeBitmap(g: nat)
    | InodeTable(g: nat, k: nat)

  predicate ValidPlace(fs: Fs, p: Place) {
    match p
    case Super => true
    case Descriptors => true
    case BlockBitmap(g) => g < GroupCount(fs) <= 32
    case InodeBitmap(g) => g < GroupCount(fs) <= 32
    case InodeTable(g, k) => g < GroupCount(fs) <= 32 && k <= (fs.sb.inodesPerGroup - 1) / 8
  }

  function At(fs: Fs, p: Place): nat
    requires ValidPlace(fs, p)
  {
    match p
    case Super => 1
    case Descriptors => 2
    case BlockBitmap(g) => fs.groups[g].blockBitmap
    case InodeBitmap(g) => fs.groups[g].inodeBitmap
    case InodeTable(g, k) => fs.groups[g].inodeTable + k
  }

  /** 1024-byte blocks, bitmaps of one block, and no two structures in one block. */
  ghost predicate Geometry(fs: Fs) {
    && fs.sb.blockSize == 0
    && 1 <= fs.sb.inodesPerGroup <= 8192 && 1 <= fs.sb.blocksPerGroup <= 8192
    && 1 <= GroupCount(fs) <= 32
    && |fs.disk| <= 0x800_0000
    && (forall p | ValidPlace(fs, p) :: 0 < At(fs, p) < |fs.disk|)
    && (forall p, q | ValidPlace(fs, p) && ValidPlace(fs, q) && At(fs, p) == At(fs, q) :: p == q)
  }

  /** Block `b` holds a structure of the file system, or is block 0, which stands for "none". */
  ghost predicate IsMeta(fs: Fs, b: nat) {
    b == 0 || exists p :: ValidPlace(fs, p) && At(fs, p) == b
  }

  lemma PlaceOnDisk(fs: Fs, p: Place)
    requires Geometry(fs) && ValidPlace(fs, p)
    ensures 0 < At(fs, p) < |fs.disk|
  {
  }

  lemma PlacesApart(fs: Fs, p: Place, q: Place)
    requires Geometry(fs) && ValidPlace(fs, p) && ValidPlace(fs, q) && p != q
    ensures At(fs, p) != At(fs, q)
  {
  }

  /** A bitmap is not in block 1 or 2. */
  lemma NotFixed(fs: Fs, p: Place)
    requires Geometry(fs) && ValidPlace(fs, p) && p != Super && p != Descriptors
    ensures At(fs, p) != 1 && At(fs, p) != 2
  {
    PlacesApart(fs, p, Super);
    PlacesApart(fs, p, Descriptors);
  }

  /** The two structures at fixed addresses are on the disk. */
  lemma FixedBlocks(fs: Fs)
    requires Geometry(fs)
    ensures |fs.disk| > 2
  {
    assert ValidPlace(fs, Descriptors);
  }

  ghost function Content(fs: Fs, p: Place): Block
    requires Geometry(fs) && ValidPlace(fs, p)
  {
    fs.disk[At(fs, p)]
  }

  /** Only the free counts may differ: everything is where it was. */
  ghost predicate Same(fs: Fs, fs': Fs) {
    && fs'.sb == fs.sb.(freeBlocks := fs'.sb.freeBlocks, freeInodes := fs'.sb.freeInodes)
    && |fs'.disk| == |fs.disk|
    && forall g | 0 <= g < 32 ::
         fs'.groups[g] == fs.groups[g].(freeBlocks := fs'.groups[g].freeBlocks, freeInodes := fs'.groups[g].freeInodes)
  }

  lemma SamePlaces(fs: Fs, fs': Fs)
    requires Same(fs, fs')
    ensures GroupCount(fs') == GroupCount(fs)
    ensures forall p :: ValidPlace(fs', p) == ValidPlace(fs, p)
    ensures forall p | ValidPlace(fs, p) :: At(fs', p) == At(fs, p)
    ensures forall b :: IsMeta(fs', b) == IsMeta(fs, b)
    ensures Geometry(fs) ==> Geometry(fs')
  {
    forall p | ValidPlace(fs, p) ensures ValidPlace(fs', p) && At(fs', p) == At(fs, p) {
    }
    forall p | ValidPlace(fs', p) ensures ValidPlace(fs, p) && At(fs', p) == At(fs, p) {
    }
    forall b ensures IsMeta(fs', b) == IsMeta(fs, b) {
      if IsMeta(fs', b) && b != 0 {
        var p :| ValidPlace(fs', p) && At(fs', p) == b;
        assert ValidPlace(fs, p) && At(fs, p) == b;
      }
    }
  }

  // ------------------------------------------------------------------ inode numbers

  /** `(inode - 1) / sb.inodes_per_group`, for inode numbers from 1 on. */
  function GroupOfInode(fs: Fs, n: nat): nat
    requires n > 0 && fs.sb.inodesPerGroup > 0
  {
    (n - 1) / fs.sb.inodesPerGroup
  }

  /** The bit of inode `n` in its group's bitmap. */
  function InodeIndex(fs: Fs, n: nat): (i: nat)
    requires n > 0 && fs.sb.inodesPerGroup > 0
    ensures i < fs.sb.inodesPerGroup
  {
    (n - 1) % fs.sb.inodesPerGroup
  }

  lemma InodeNumber(fs: Fs, n: nat, m: nat)
    requires n > 0 && m > 0 && fs.sb.inodesPerGroup > 0
    ensures n == m <==> GroupOfInode(fs, n) == GroupOfInode(fs, m) && InodeIndex(fs, n) == InodeIndex(fs, m)
  {
    DivModBack(n - 1, fs.sb.inodesPerGroup);
    DivModBack(m - 1, fs.sb.inodesPerGroup);
  }

  predicate ValidInode(fs: Fs, n: nat) {
    n > 0 && fs.sb.inodesPerGroup > 0 && GroupOfInode(fs, n) < GroupCount(fs)
  }

  /** The place and byte offset of inode `n`: slot `n % inodes_per_group` of its group's table. */
  function SlotPlace(fs: Fs, n: nat): (p: Place)
    requires n > 0 && fs.sb.inodesPerGroup > 0
    ensures p.InodeTable?
  {
    InodeTable(GroupOfInode(fs, n), n % fs.sb.inodesPerGroup / 8)
  }

  function SlotOffset(fs: Fs, n: nat): nat
    requires fs.sb.inodesPerGroup > 0
  {
    n % fs.sb.inodesPerGroup % 8 * 128
  }

  /** Quotient and remainder are unique. */
  lemma DivMod(q: nat, d: nat, r: nat)
    requires r < d
    ensures (q * d + r) / d == q && (q * d + r) % d == r
  {
    var x := q * d + r;
    var k := q - x / d;
    assert x == x / d * d + x % d;
    assert k * d == q * d - x / d * d;
    Multiple(k, d);
  }

  lemma Multiple(k: int, d: nat)
    ensures k >= 1 ==> k * d >= d
    ensures k <= -1 ==> k * d + d <= 0
  {
    if k >= 1 {
      Product(k - 1, d);
      assert k * d == (k - 1) * d + d;
    } else if k <= -1 {
      Product(-k - 1, d);
      assert k * d == -((-k - 1) * d) - d;
    }
  }

  lemma Product(q: nat, d: nat)
    ensures q * d >= 0
  {
  }

  lemma DivModBack(n: nat, d: nat)
    requires d > 0
    ensures n == n / d * d + n % d && n % d < d
  {
  }

  /** Counting from 1, as inode numbers do, rotates the remainder by one. */
  lemma Rotated(q: nat, d: nat, r: nat)
    requires r < d
    ensures (q * d + r + 1) % d == if r + 1 == d then 0 else r + 1
  {
    if r + 1 == d {
      assert q * d + r + 1 == (q + 1) * d + 0;
      DivMod(q + 1, d, 0);
    } else {
      DivMod(q, d, r + 1);
    }
  }

  /** The inode number at slot `s` of group `g`: the inverse of the way into the table. */
  function InodeAt(fs: Fs, g: nat, s: nat): nat
    requires s < fs.sb.inodesPerGroup
  {
    if s == 0 then (g + 1) * fs.sb.inodesPerGroup else g * fs.sb.inodesPerGroup + s
  }

  /** Every slot of every group belongs to exactly one inode number. */
  lemma SlotBijection(fs: Fs, n: nat, g: nat, s: nat)
    requires n > 0 && s < fs.sb.inodesPerGroup
    ensures GroupOfInode(fs, n) == g && n % fs.sb.inodesPerGroup == s <==> n == InodeAt(fs, g, s)
  {
    var d := fs.sb.inodesPerGroup;
    DivModBack(n - 1, d);
    Rotated((n - 1) / d, d, (n - 1) % d);
    var r := if s == 0 then d - 1 else s - 1;
    assert InodeAt(fs, g, s) == g * d + r + 1;
    DivMod(g, d, r);
    Rotated(g, d, r);
  }

  /** Two inode numbers never share their 128 bytes, and every inode lies inside the table. */
  lemma SlotsApart(fs: Fs, n: nat, m: nat)
    requires Geometry(fs) && ValidInode(fs, n) && ValidInode(fs, m) && n != m
    ensures SlotPlace(fs, n) != SlotPlace(fs, m) ||
            SlotOffset(fs, n) + 128 <= SlotOffset(fs, m) || SlotOffset(fs, m) + 128 <= SlotOffset(fs, n)
  {
    SlotBijection(fs, n, GroupOfInode(fs, n), n % fs.sb.inodesPerGroup);
    SlotBijection(fs, m, GroupOfInode(fs, n), n % fs.sb.inodesPerGroup);
  }

  lemma SlotValid(fs: Fs, n: nat)
    requires Geometry(fs) && ValidInode(fs, n)
    ensures ValidPlace(fs, SlotPlace(fs, n)) && SlotOffset(fs, n) + 128 <= 1024
  {
  }

  /** The table of a group is one run of bytes, 128 for each slot: slot `s` starts at byte
      `128 * s`. */
  lemma SlotAddress(fs: Fs, n: nat, g: nat, s: nat)
    requires Geometry(fs) && ValidInode(fs, n) && s < fs.sb.inodesPerGroup && n == InodeAt(fs, g, s)
    ensures g < 32 && ValidPlace(fs, SlotPlace(fs, n)) && At(fs, SlotPlace(fs, n)) >= fs.groups[g].inodeTable
    ensures (At(fs, SlotPlace(fs, n)) - fs.groups[g].inodeTable) * 1024 + SlotOffset(fs, n) == 128 * s
  {
    hide Geometry, InodeAt;
    SlotBijection(fs, n, g, s);
    SlotValid(fs, n);
    EightSlots(s);
  }

  lemma EightSlots(s: nat)
    ensures s / 8 * 1024 + s % 8 * 128 == 128 * s
  {
  }

  /** Group and bit of an inode or a block are quotient and remainder of its number, inode
      numbers counting from 1. */
  lemma NumbersSpelled(fs: Fs, n: nat)
    requires fs.sb.inodesPerGroup > 0 && fs.sb.blocksPerGroup > 0
    ensures n > 0 ==> n == GroupOfInode(fs, n) * fs.sb.inodesPerGroup + InodeIndex(fs, n) + 1
    ensures n == BlockGroup(fs, n) * fs.sb.blocksPerGroup + BlockIndex(fs, n)
  {
    if n > 0 { DivModBack(n - 1, fs.sb.inodesPerGroup); }
    DivModBack(n, fs.sb.blocksPerGroup);
  }

  // ------------------------------------------------------------------ reading the structures

  ghost function ReadInode(fs: Fs, n: nat): Inode
    requires Geometry(fs) && ValidInode(fs, n)
  {
    SlotValid(fs, n);
    DecodeInode(Content(fs, SlotPlace(fs, n))[SlotOffset(fs, n)..SlotOffset(fs, n) + 128])
  }

  /** The 128 bytes of inode `n` in its group's table. */
  ghost function SlotBytes(fs: Fs, n: nat): (bs: seq<byte>)
    requires Geometry(fs) && ValidInode(fs, n)
    ensures |bs| == 128
  {
    SlotValid(fs, n);
    Content(fs, SlotPlace(fs, n))[SlotOffset(fs, n)..SlotOffset(fs, n) + 128]
  }

  lemma SlotHolds(fs: Fs, n: nat)
    requires Geometry(fs) && ValidInode(fs, n)
    ensures SlotBytes(fs, n) == EncodeInode(ReadInode(fs, n))
  {
    hide EncodeInode, DecodeInode, Geometry;
    SlotValid(fs, n);
    InodeBack(SlotBytes(fs, n));
  }

  /** The group of block `b` and its bit there, by the code's own numbering. */
  function BlockGroup(fs: Fs, b: nat): nat
    requires fs.sb.blocksPerGroup > 0
  {
    b / fs.sb.blocksPerGroup
  }

  function BlockIndex(fs: Fs, b: nat): (i: nat)
    requires fs.sb.blocksPerGroup > 0
    ensures i < fs.sb.blocksPerGroup
  {
    b % fs.sb.blocksPerGroup
  }

  lemma BlockNumber(fs: Fs, b: nat, c: nat)
    requires fs.sb.blocksPerGroup > 0
    ensures b == c <==> BlockGroup(fs, b) == BlockGroup(fs, c) && BlockIndex(fs, b) == BlockIndex(fs, c)
  {
    DivModBack(b, fs.sb.blocksPerGroup);
    DivModBack(c, fs.sb.blocksPerGroup);
  }

  predicate InGroups(fs: Fs, b: nat) {
    fs.sb.blocksPerGroup > 0 && BlockGroup(fs, b) < GroupCount(fs)
  }

  /** The bit of block `b` is set. */
  ghost predicate BlockMarked(fs: Fs, b: nat)
    requires Geometry(fs) && InGroups(fs, b)
  {
    Used(Content(fs, BlockBitmap(BlockGroup(fs, b))), BlockIndex(fs, b))
  }

  /** The bit of inode `n` is set. */
  ghost predicate InodeMarked(fs: Fs, n: nat)
    requires Geometry(fs) && ValidInode(fs, n)
  {
    Used(Content(fs, InodeBitmap(GroupOfInode(fs, n))), InodeIndex(fs, n))
  }

  ghost function ClearBlocks(fs: Fs, g: nat): set<nat>
    requires Geometry(fs) && g < GroupCount(fs)
  {
    ClearBits(Content(fs, BlockBitmap(g)), fs.sb.blocksPerGroup)
  }

  ghost function ClearInodes(fs: Fs, g: nat): set<nat>
    requires Geometry(fs) && g < GroupCount(fs)
  {
    ClearBits(Content(fs, InodeBitmap(g)), fs.sb.inodesPerGroup)
  }

  // ------------------------------------------------------------------ primitive updates

  ghost function WriteAt(fs: Fs, b: nat, data: Block): Fs
    requires b < |fs.disk|
  {
    fs.(disk := fs.disk[b := data])
  }

  /** edit_inode_table: read the block, copy 128 bytes into it, write it back. */
  ghost function EditInode(fs: Fs, n: nat, ino: Inode): Fs
    requires Geometry(fs) && ValidInode(fs, n)
  {
    SlotValid(fs, n);
    WriteAt(fs, At(fs, SlotPlace(fs, n)),
            Splice(Content(fs, SlotPlace(fs, n)), SlotOffset(fs, n), EncodeInode(ino)))
  }

  /** update_blockgroup_descriptor: 32-bit deltas added to 16-bit counts. */
  ghost function UpdateGroup(fs: Fs, g: nat, deltaInodes: u32, deltaBlocks: u32): Fs
    requires Geometry(fs) && g < GroupCount(fs)
  {
    var d := fs.groups[g];
    var gs := fs.groups[g := d.(freeBlocks := U16(d.freeBlocks + deltaBlocks),
                                  freeInodes := U16(d.freeInodes + deltaInodes))];
    FixedBlocks(fs);
    fs.(groups := gs, disk := fs.disk[2 := EncodeGroups(gs)])
  }

  function SuperBlock(sb: Superblock): Block { EncodeSuper(sb) + Zeros(940) }

  ghost function UpdateSuper(fs: Fs, deltaInodes: u32, deltaBlocks: u32): Fs
    requires Geometry(fs)
  {
    var sb := fs.sb.(freeBlocks := U32(fs.sb.freeBlocks + deltaBlocks),
                     freeInodes := U32(fs.sb.freeInodes + deltaInodes));
    FixedBlocks(fs);
    fs.(sb := sb, disk := fs.disk[1 := SuperBlock(sb)])
  }

  const MINUS_ONE: u32 := 0xFFFF_FFFF

  lemma UpdateGroupSame(fs: Fs, g: nat, deltaInodes: u32, deltaBlocks: u32)
    requires Geometry(fs) && g < GroupCount(fs)
    ensures var fs' := UpdateGroup(fs, g, deltaInodes, deltaBlocks); Same(fs, fs') && Geometry(fs')
  {
    FixedBlocks(fs);
    SamePlaces(fs, UpdateGroup(fs, g, deltaInodes, deltaBlocks));
  }

  lemma UpdateSuperSame(fs: Fs, deltaInodes: u32, deltaBlocks: u32)
    requires Geometry(fs)
    ensures Same(fs, UpdateSuper(fs, deltaInodes, deltaBlocks)) && Geometry(UpdateSuper(fs, deltaInodes, deltaBlocks))
  {
    FixedBlocks(fs);
    SamePlaces(fs, UpdateSuper(fs, deltaInodes, deltaBlocks));
  }

  lemma WriteSame(fs: Fs, b: nat, data: Block)
    requires Geometry(fs) && b < |fs.disk|
    ensures Same(fs, WriteAt(fs, b, data)) && Geometry(WriteAt(fs, b, data))
  {
    SamePlaces(fs, WriteAt(fs, b, data));
  }

  /** The counters' part of a bitmap update. */
  ghost function Recount(fs: Fs, g: nat, deltaInodes: u32, deltaBlocks: u32): Fs
    requires Geometry(fs) && g < GroupCount(fs)
  {
    UpdateGroupSame(fs, g, deltaInodes, deltaBlocks);
    UpdateSuper(UpdateGroup(fs, g, deltaInodes, deltaBlocks), deltaInodes, deltaBlocks)
  }

  /** Sets or clears one bit of a bitmap block. */
  function Flip(bits: Block, i: nat, used: bool): Block
    requires i < 8192
  {
    if used then MarkUsed(bits, i) else MarkFree(bits, i)
  }

  /** Writes a bitmap of group `g` back and adjusts the counts. */
  ghost function SetBits(fs: Fs, p: Place, g: nat, bits: Block, deltaInodes: u32, deltaBlocks: u32): Fs
    requires Geometry(fs) && g < GroupCount(fs) && ValidPlace(fs, p)
  {
    WriteSame(fs, At(fs, p), bits);
    SamePlaces(fs, WriteAt(fs, At(fs, p), bits));
    Recount(WriteAt(fs, At(fs, p), bits), g, deltaInodes, deltaBlocks)
  }

  /** update_block_bitmap */
  ghost function SetBlockBit(fs: Fs, g: nat, b: nat, used: bool): Fs
    requires Geometry(fs) && g < GroupCount(fs)
  {
    SetBits(fs, BlockBitmap(g), g, Flip(Content(fs, BlockBitmap(g)), BlockIndex(fs, b), used),
            0, if used then MINUS_ONE else 1)
  }

  /** update_inode_bitmap */
  ghost function SetInodeBit(fs: Fs, g: nat, n: nat, used: bool): Fs
    requires Geometry(fs) && g < GroupCount(fs) && n > 0
  {
    SetBits(fs, InodeBitmap(g), g, Flip(Content(fs, InodeBitmap(g)), InodeIndex(fs, n), used),
            if used then MINUS_ONE else 1, 0)
  }

  // ------------------------------------------------------------------ searches

  /** find_free_block and find_free_inode: the first clear bit of the group's bitmap. */
  ghost function FindFreeBlock(fs: Fs, g: nat): nat
    requires Geometry(fs) && g < GroupCount(fs) && ClearBlocks(fs, g) != {}
  {
    Product(g, fs.sb.blocksPerGroup);
    g * fs.sb.blocksPerGroup + Least(ClearBlocks(fs, g))
  }

  ghost function FindFreeInode(fs: Fs, g: nat): (n: nat)
    requires Geometry(fs) && g < GroupCount(fs) && ClearInodes(fs, g) != {}
    ensures n > 0
  {
    Product(g, fs.sb.inodesPerGroup);
    g * fs.sb.inodesPerGroup + Least(ClearInodes(fs, g)) + 1
  }

  lemma FoundBlock(fs: Fs, g: nat)
    requires Geometry(fs) && g < GroupCount(fs) && ClearBlocks(fs, g) != {}
    ensures var b := FindFreeBlock(fs, g);
      && BlockGroup(fs, b) == g && BlockIndex(fs, b) == Least(ClearBlocks(fs, g))
      && InGroups(fs, b) && !BlockMarked(fs, b)
  {
    DivMod(g, fs.sb.blocksPerGroup, Least(ClearBlocks(fs, g)));
  }

  lemma FoundInode(fs: Fs, g: nat)
    requires Geometry(fs) && g < GroupCount(fs) && ClearInodes(fs, g) != {}
    ensures var n := FindFreeInode(fs, g);
      && n > 0 && ValidInode(fs, n) && GroupOfInode(fs, n) == g
      && InodeIndex(fs, n) == Least(ClearInodes(fs, g)) && !InodeMarked(fs, n)
  {
    DivMod(g, fs.sb.inodesPerGroup, Least(ClearInodes(fs, g)));
  }

  // ------------------------------------------------------------------ what the updates do

  /** Blocks other than those of `p`, the superblock and the descriptors keep their content. */
  ghost predicate OnlyTouches(fs: Fs, fs': Fs, p: Place)
    requires Geometry(fs) && ValidPlace(fs, p)
  {
    && Same(fs, fs')
    && forall b | 0 <= b < |fs.disk| && b != At(fs, p) && b != 1 && b != 2 :: fs'.disk[b] == fs.disk[b]
  }

  lemma RecountTouches(fs: Fs, g: nat, deltaInodes: u32, deltaBlocks: u32)
    requires Geometry(fs) && g < GroupCount(fs)
    ensures var fs' := Recount(fs, g, deltaInodes, deltaBlocks);
      && Same(fs, fs') && Geometry(fs') && |fs'.disk| > 2
      && (forall b | 0 <= b < |fs.disk| && b != 1 && b != 2 :: fs'.disk[b] == fs.disk[b])
      && fs'.groups == fs.groups[g := fs.groups[g].(freeBlocks := U16(fs.groups[g].freeBlocks + deltaBlocks),
                                                   freeInodes := U16(fs.groups[g].freeInodes + deltaInodes))]
      && fs'.sb == fs.sb.(freeBlocks := U32(fs.sb.freeBlocks + deltaBlocks),
                          freeInodes := U32(fs.sb.freeInodes + deltaInodes))
      && fs'.disk[1] == SuperBlock(fs'.sb) && fs'.disk[2] == EncodeGroups(fs'.groups)
  {
    hide Geometry, U16, U32, SuperBlock, EncodeGroups;
    UpdateGroupSame(fs, g, deltaInodes, deltaBlocks);
    FixedBlocks(fs);
    SamePlaces(fs, Recount(fs, g, deltaInodes, deltaBlocks));
  }

  lemma OtherPlaces(fs: Fs, fs': Fs, p: Place, q: Place)
    requires Geometry(fs) && ValidPlace(fs, p) && ValidPlace(fs, q) && OnlyTouches(fs, fs', p)
    requires q != p && q != Super && q != Descriptors
    ensures Geometry(fs') && ValidPlace(fs', q) && Content(fs', q) == Content(fs, q)
  {
    SamePlaces(fs, fs');
    assert ValidPlace(fs, Super) && ValidPlace(fs, Descriptors);
    assert At(fs, q) != At(fs, p);
    assert At(fs, q) != At(fs, Super) && At(fs, q) != At(fs, Descriptors);
  }

  lemma SameInodes(fs: Fs, fs': Fs)
    requires Same(fs, fs')
    ensures forall m :: ValidInode(fs', m) == ValidInode(fs, m)
    ensures forall m | m > 0 && fs.sb.inodesPerGroup > 0 ::
              SlotPlace(fs', m) == SlotPlace(fs, m) && SlotOffset(fs', m) == SlotOffset(fs, m)
  {
  }

  lemma EditTouches(fs: Fs, n: nat, ino: Inode)
    requires Geometry(fs) && ValidInode(fs, n)
    ensures var fs', p := EditInode(fs, n, ino), SlotPlace(fs, n);
      && ValidPlace(fs, p) && SlotOffset(fs, n) + 128 <= 1024
      && OnlyTouches(fs, fs', p) && Geometry(fs') && ValidPlace(fs', p)
      && fs'.sb == fs.sb && fs'.groups == fs.groups
      && Content(fs', p) == Splice(Content(fs, p), SlotOffset(fs, n), EncodeInode(ino))
  {
    SlotValid(fs, n);
    var p := SlotPlace(fs, n);
    var data := Splice(Content(fs, p), SlotOffset(fs, n), EncodeInode(ino));
    WriteSame(fs, At(fs, p), data);
    SamePlaces(fs, WriteAt(fs, At(fs, p), data));
  }

  /** edit_inode_table then read_inode gives the inode written; every other inode, sharing the
      block or not, reads as before. */
  lemma EditThenRead(fs: Fs, n: nat, ino: Inode, m: nat)
    requires Geometry(fs) && ValidInode(fs, n) && ValidInode(fs, m)
    ensures var fs' := EditInode(fs, n, ino);
      && Geometry(fs') && ValidInode(fs', m)
      && ReadInode(fs', m) == if m == n then ino else ReadInode(fs, m)
  {
    SlotValid(fs, m);
    EditTouches(fs, n, ino);
    hide EncodeInode, DecodeInode, Geometry, EditInode, At, ValidPlace, GroupCount, GroupOfInode, SlotPlace, SlotOffset;
    var fs', p, q := EditInode(fs, n, ino), SlotPlace(fs, n), SlotPlace(fs, m);
    SameInodes(fs, fs');
    InodeRoundTrip(ino);
    SpliceSlice(Content(fs, p), SlotOffset(fs, n), EncodeInode(ino), SlotOffset(fs, m), SlotOffset(fs, m) + 128);
    if m != n {
      SlotsApart(fs, n, m);
      if q != p {
        OtherPlaces(fs, fs', p, q);
      }
    }
  }
}
