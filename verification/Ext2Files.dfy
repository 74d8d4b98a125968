/** write_file, read_file and print_file as functions of the file system, and what they mean:
    what is written is what is read back, and no other file notices. */
module Ext2Files {
  import opened Bits
  import opened Ext2Layout
  import opened Ext2State
  import opened Ext2Inv
  import opened Ext2Steps

  // ------------------------------------------------------------------ writing

  /** The `k`-th kilobyte of `data`, padded with zeros. */
  function Chunk(data: seq<byte>, k: nat): Block
    requires 1024 * k <= |data|
  {
    if 1024 * k + 1024 <= |data| then data[1024 * k..1024 * k + 1024]
    else data[1024 * k..] + Zeros(1024 - (|data| - 1024 * k))
  }

  /** Byte for byte, with zeros behind the end of the data. */
  lemma ChunkBytes(data: seq<byte>, k: nat, i: nat)
    requires 1024 * k <= |data| && i < 1024
    ensures Chunk(data, k)[i] == if 1024 * k + i < |data| then data[1024 * k + i] else 0
  {
  }

  /** `(data_len + block_size - 1) / block_size` in 32 bits. */
  function BlocksNeeded(data: seq<byte>): nat { U32(|data| + 1023) / 1024 }

  lemma NeededIs(data: seq<byte>)
    requires |data| <= 12288
    ensures BlocksNeeded(data) == (|data| + 1023) / 1024 <= 12
    ensures forall j: nat :: 1024 * j < |data| <==> j < BlocksNeeded(data)
  {
  }

  lemma NeededFits(data: seq<byte>, k: nat)
    requires k < BlocksNeeded(data)
    ensures 1024 * k < |data|
  {
  }

  /** How many of the slots `k..hi` are holes. */
  function Holes(ino: Inode, k: nat, hi: nat): nat
    requires k <= hi <= 12
    decreases hi - k
  {
    if k == hi then 0 else (if ino.block[k] == 0 then 1 else 0) + Holes(ino, k + 1, hi)
  }

  lemma {:induction false} HolesSame(a: Inode, b: Inode, k: nat, hi: nat)
    requires k <= hi <= 12 && forall i | k <= i < hi :: a.block[i] == b.block[i]
    ensures Holes(a, k, hi) == Holes(b, k, hi)
    decreases hi - k
  {
    if k < hi { HolesSame(a, b, k + 1, hi); }
  }

  /** The state in the loop of write_file: inode `n` in hand, and enough free blocks left. */
  ghost predicate Writing(fs: Fs, n: nat, ino: Inode, k: nat, needed: nat) {
    && Inv(fs, Holding(n, ino)) && Allocated(fs, n) && k <= needed <= 12
    && Holes(ino, k, needed) <= |ClearBlocks(fs, GroupOfInode(fs, n))|
  }

  /** The block for slot `k`: the one there is, or the group's first free one. */
  ghost function Provide(fs: Fs, n: nat, ino: Inode, k: nat, needed: nat): (Fs, Inode)
    requires Writing(fs, n, ino, k, needed) && k < needed
  {
    if ino.block[k] != 0 then (fs, ino)
    else
      var g := GroupOfInode(fs, n);
      assert ClearBlocks(fs, g) != {} by { assert |ClearBlocks(fs, g)| > 0; }
      var b := FindFreeBlock(fs, g);
      (SetBlockBit(fs, g, b, true), WithBlock(ino, k, U32(b)))
  }

  /** What one provided block gives. */
  ghost predicate Provided(fs: Fs, n: nat, ino: Inode, k: nat, needed: nat, fs': Fs, ino': Inode)
    requires k < 12
  {
    && Writing(fs, n, ino, k, needed) && Writing(fs', n, ino', k + 1, needed)
    && KeepsOthers(fs, fs', n)
    && ino'.block[k] != 0 && ino' == WithBlock(ino, k, ino'.block[k])
    && (ino.block[k] != 0 ==> ino'.block[k] == ino.block[k])
    && (forall j: nat | j < 12 && j != k && 0 < ino.block[j] < |fs.disk| ::
          ino'.block[j] != ino'.block[k] && ino'.block[j] < |fs'.disk| &&
              fs'.disk[ino'.block[j]] == fs.disk[ino.block[j]])
  }

  lemma ProvideOk(fs: Fs, n: nat, ino: Inode, k: nat, needed: nat)
    requires Writing(fs, n, ino, k, needed) && k < needed
    ensures var (fs', ino') := Provide(fs, n, ino, k, needed);
      Provided(fs, n, ino, k, needed, fs', ino') && ino'.block[k] < |fs'.disk|
  {
    if ino.block[k] == 0 {
      ProvideFresh(fs, n, ino, k, needed);
    } else {
      ProvideOwn(fs, n, ino, k, needed);
    }
  }

  lemma OwnBlock(fs: Fs, n: nat, ino: Inode, j: nat)
    requires Inv(fs, Holding(n, ino)) && Allocated(fs, n) && j < 12 && ino.block[j] != 0
    ensures Refers(fs, Holding(n, ino), n, j, ino.block[j]) && DataBlock(fs, ino.block[j])
  {
    hide Geometry, Mirrored, Counted, Reserved, DataBlock, InodeMarked, ReadInode;
    assert Refers(fs, Holding(n, ino), n, j, ino.block[j]);
  }

  lemma OwnApart(fs: Fs, n: nat, ino: Inode, i: nat, j: nat)
    requires Inv(fs, Holding(n, ino)) && Allocated(fs, n) && i < 12 && j < 12 && i != j && ino.block[i] != 0
    ensures ino.block[i] != ino.block[j]
  {
    hide Geometry, InodeMarked, Mirrored, Counted, Reserved;
    assert Refers(fs, Holding(n, ino), n, i, ino.block[i]);
    assert ino.block[j] != 0 ==> Refers(fs, Holding(n, ino), n, j, ino.block[j]);
  }

  lemma ProvideOwn(fs: Fs, n: nat, ino: Inode, k: nat, needed: nat)
    requires Writing(fs, n, ino, k, needed) && k < needed && ino.block[k] != 0
    ensures Provided(fs, n, ino, k, needed, fs, ino) && ino.block[k] < |fs.disk|
  {
    hide Inv, Allocated, ClearBlocks, Geometry, KeepsOthers;
    InvParts(fs, Holding(n, ino));
    OwnBlock(fs, n, ino, k);
    forall j: nat | j < 12 && j != k && ino.block[j] != 0 ensures ino.block[j] != ino.block[k] {
      OwnApart(fs, n, ino, j, k);
    }
    assert WithBlock(ino, k, ino.block[k]) == ino;
    KeepsReflexive(fs, n);
  }

  lemma KeepsReflexive(fs: Fs, n: nat)
    requires Geometry(fs)
    ensures KeepsOthers(fs, fs, n)
  {
  }

  lemma ProvideFresh(fs: Fs, n: nat, ino: Inode, k: nat, needed: nat)
    requires Writing(fs, n, ino, k, needed) && k < needed && ino.block[k] == 0
    ensures var (fs', ino') := Provide(fs, n, ino, k, needed);
      Provided(fs, n, ino, k, needed, fs', ino') && ino'.block[k] < |fs'.disk|
  {
    var g, w := GroupOfInode(fs, n), Holding(n, ino);
    assert ClearBlocks(fs, g) != {} by { assert |ClearBlocks(fs, g)| > 0; }
    TakeBlock(fs, w, g);
    var b, fs' := FindFreeBlock(fs, g), SetBlockBit(fs, g, FindFreeBlock(fs, g), true);
    BlockNumberFits(fs', w, b);
    Attach(fs', n, ino, k, b);
    hide Inv, Geometry, FindFreeBlock, SetBlockBit, BlockTaken, DataBlock, KeepsOthers, Provided, ClearBlocks;
    FreshProvided(fs, n, ino, k, needed, fs', b);
  }

  lemma BlockNumberFits(fs: Fs, w: Pending, b: nat)
    requires Inv(fs, w) && DataBlock(fs, b)
    ensures b < |fs.disk| && U32(b) == b
  {
    hide Geometry, InGroups, IsMeta, BlockMarked, Mirrored, Counted, Reserved, Owned;
    DiskBound(fs);
  }

  lemma DiskBound(fs: Fs)
    requires Geometry(fs)
    ensures |fs.disk| <= 0x800_0000
  {
  }

  lemma FreshProvided(fs: Fs, n: nat, ino: Inode, k: nat, needed: nat, fs': Fs, b: u32)
    requires k < needed <= 12 && ino.block[k] == 0
    requires Writing(fs, n, ino, k, needed)
    requires BlockTaken(fs, fs', b) && BlockGroup(fs, b) == GroupOfInode(fs, n) && KeepsOthers(fs, fs', n)
    requires Inv(fs', Holding(n, WithBlock(ino, k, b))) && 0 < b < |fs.disk|
    ensures Provided(fs, n, ino, k, needed, fs', WithBlock(ino, k, b))
  {
    hide Inv, Geometry, Writing, KeepsOthers, BlockTaken, BlockGroup, GroupOfInode;
    WritingParts(fs, n, ino, k, needed);
    TakenGeometry(fs, fs', b);
    FreshWriting(fs, n, ino, k, needed, fs', b);
    FreshOthers(fs, n, ino, fs', b);
  }

  lemma FreshWriting(fs: Fs, n: nat, ino: Inode, k: nat, needed: nat, fs': Fs, b: u32)
    requires k < needed <= 12 && ino.block[k] == 0
    requires Writing(fs, n, ino, k, needed)
    requires BlockTaken(fs, fs', b) && BlockGroup(fs, b) == GroupOfInode(fs, n)
    requires Inv(fs', Holding(n, WithBlock(ino, k, b)))
    ensures Writing(fs', n, WithBlock(ino, k, b), k + 1, needed)
  {
    hide Inv, Geometry, BlockTaken, ClearBlocks, BlockGroup, GroupOfInode, Allocated;
    FewerClear(fs, fs', n, b);
    HolesSame(ino, WithBlock(ino, k, b), k + 1, needed);
  }

  lemma FreshOthers(fs: Fs, n: nat, ino: Inode, fs': Fs, b: nat)
    requires Inv(fs, Holding(n, ino)) && Allocated(fs, n) && BlockTaken(fs, fs', b)
    ensures forall j: nat | j < 12 && 0 < ino.block[j] < |fs.disk| ::
              ino.block[j] != b && ino.block[j] < |fs'.disk| && fs'.disk[ino.block[j]] == fs.disk[ino.block[j]]
  {
    hide Inv, Geometry, BlockTaken, DataBlock, Refers, Allocated;
    forall j: nat | j < 12 && 0 < ino.block[j] < |fs.disk|
      ensures ino.block[j] != b && ino.block[j] < |fs'.disk| && fs'.disk[ino.block[j]] == fs.disk[ino.block[j]]
    {
      OwnBlock(fs, n, ino, j);
      OldData(fs, fs', b, ino.block[j]);
    }
  }

  lemma TakenGeometry(fs: Fs, fs': Fs, b: nat)
    requires BlockTaken(fs, fs', b)
    ensures Geometry(fs) && Geometry(fs') && |fs'.disk| == |fs.disk|
  {
  }

  lemma OldData(fs: Fs, fs': Fs, b: nat, c: nat)
    requires BlockTaken(fs, fs', b) && DataBlock(fs, c)
    ensures c != b && c < |fs'.disk| && fs'.disk[c] == fs.disk[c]
  {
  }

  lemma FewerClear(fs: Fs, fs': Fs, n: nat, b: nat)
    requires BlockTaken(fs, fs', b) && Allocated(fs, n) && BlockGroup(fs, b) == GroupOfInode(fs, n)
    ensures Allocated(fs', n) && GroupOfInode(fs', n) == GroupOfInode(fs, n)
    ensures |ClearBlocks(fs', GroupOfInode(fs, n))| == |ClearBlocks(fs, GroupOfInode(fs, n))| - 1
  {
    SameInodes(fs, fs');
    SamePlaces(fs, fs');
    assert BlockIndex(fs, b) in ClearBlocks(fs, GroupOfInode(fs, n));
    hide ClearBlocks, Geometry, GroupOfInode;
    OneLess(ClearBlocks(fs, GroupOfInode(fs, n)), BlockIndex(fs, b));
  }

  // ------------------------------------------------------------------ the loop

  /** What one round of the loop needs and leaves. */
  lemma SlotWritable(fs: Fs, n: nat, ino: Inode, data: seq<byte>, k: nat, needed: nat)
    requires Writing(fs, n, ino, k, needed) && k < needed <= BlocksNeeded(data)
    ensures k < 12 && 1024 * k <= |data|
    ensures var (fs1, ino1) := Provide(fs, n, ino, k, needed);
      ino1.block[k] < |fs1.disk| && Writing(WriteAt(fs1, ino1.block[k], Chunk(data, k)), n, ino1, k + 1, needed)
  {
    hide Provide, Writing, KeepsOthers, Chunk, BlocksNeeded, WriteAt;
    WritingParts(fs, n, ino, k, needed);
    ProvideOk(fs, n, ino, k, needed);
    NeededFits(data, k);
    var (fs1, ino1) := Provide(fs, n, ino, k, needed);
    WriteKeepsWriting(fs1, n, ino1, k, Chunk(data, k), needed);
  }

  /** The loop of write_file from slot `k` on. */
  ghost function WriteBlocks(fs: Fs, n: nat, ino: Inode, data: seq<byte>, k: nat, needed: nat): (Fs, Inode)
    requires Writing(fs, n, ino, k, needed) && needed <= BlocksNeeded(data)
    decreases needed - k
  {
    if k == needed then (fs, ino)
    else
      hide Writing;
      WritingParts(fs, n, ino, k, needed);
      SlotWritable(fs, n, ino, data, k, needed);
      var (fs1, ino1) := Provide(fs, n, ino, k, needed);
      var fs2 := WriteAt(fs1, ino1.block[k], Chunk(data, k));
      WriteBlocks(fs2, n, ino1, data, k + 1, needed)
  }

  lemma WriteKeepsWriting(fs: Fs, n: nat, ino: Inode, k: nat, data: Block, needed: nat)
    requires k < needed && Writing(fs, n, ino, k + 1, needed) && 0 < ino.block[k] < |fs.disk|
    ensures var fs' := WriteAt(fs, ino.block[k], data);
      && Writing(fs', n, ino, k + 1, needed) && KeepsOthers(fs, fs', n)
  {
    var w := Holding(n, ino);
    OwnBlock(fs, n, ino, k);
    WriteData(fs, w, ino.block[k], data);
    SameBitsKeep(fs, WriteAt(fs, ino.block[k], data));
    hide Inv, Geometry, WriteAt, ClearBlocks, KeepsOthers;
    WriteOwn(fs, w, k, data);
    SameInodes(fs, WriteAt(fs, ino.block[k], data));
  }

  /** Slot `j` holds kilobyte `j` of the data. */
  ghost predicate Holds(fs: Fs, ino: Inode, data: seq<byte>, j: nat)
    requires j < 12
  {
    0 < ino.block[j] < |fs.disk| && 1024 * j <= |data| && fs.disk[ino.block[j]] == Chunk(data, j)
  }

  /** Pointers that were there stay, and so does every slot from `needed` on. */
  predicate PointersKept(ino: Inode, ino': Inode, needed: nat) {
    forall j | 0 <= j < 12 && (j >= needed || ino.block[j] != 0) :: ino'.block[j] == ino.block[j]
  }

  /** One round of the loop stores one kilobyte and disturbs none stored before. */
  lemma WriteOne(fs: Fs, n: nat, ino: Inode, data: seq<byte>, k: nat, needed: nat)
    requires Writing(fs, n, ino, k, needed) && k < needed <= BlocksNeeded(data)
    ensures 1024 * k <= |data|
    ensures var (fs1, ino1) := Provide(fs, n, ino, k, needed);
      && ino1.block[k] < |fs1.disk|
      && (var fs2 := WriteAt(fs1, ino1.block[k], Chunk(data, k));
          && Writing(fs2, n, ino1, k + 1, needed) && KeepsOthers(fs, fs2, n)
          && Holds(fs2, ino1, data, k)
          && ino1 == ino.(block := ino1.block) && PointersKept(ino, ino1, k + 1)
          && forall j: nat | j < 12 && j != k && Holds(fs, ino, data, j) :: Holds(fs2, ino1, data, j))
  {
    hide Provide, Writing, KeepsOthers, Chunk, BlocksNeeded;
    NeededFits(data, k);
    WritingParts(fs, n, ino, k, needed);
    ProvideOk(fs, n, ino, k, needed);
    var (fs1, ino1) := Provide(fs, n, ino, k, needed);
    WriteKeepsWriting(fs1, n, ino1, k, Chunk(data, k), needed);
    KeepsTransitive(fs, fs1, WriteAt(fs1, ino1.block[k], Chunk(data, k)), n);
  }

  lemma WritingParts(fs: Fs, n: nat, ino: Inode, k: nat, needed: nat)
    requires Writing(fs, n, ino, k, needed)
    ensures Inv(fs, Holding(n, ino)) && Geometry(fs) && Allocated(fs, n) && k <= needed <= 12
  {
  }

  lemma WriteBlocksEnd(fs: Fs, n: nat, ino: Inode, data: seq<byte>, needed: nat)
    requires Writing(fs, n, ino, needed, needed) && needed <= BlocksNeeded(data)
    ensures WriteBlocks(fs, n, ino, data, needed, needed) == (fs, ino)
    ensures Geometry(fs) && ValidInode(fs, n)
  {
  }

  lemma HoleNeedsBlock(fs: Fs, n: nat, ino: Inode, k: nat, needed: nat)
    requires Writing(fs, n, ino, k, needed) && k < needed && ino.block[k] == 0
    ensures Geometry(fs) && ValidInode(fs, n) && ClearBlocks(fs, GroupOfInode(fs, n)) != {}
  {
    assert |ClearBlocks(fs, GroupOfInode(fs, n))| > 0;
  }

  /** The number of the block found fits the inode's 32-bit slot. */
  lemma TakeFits(fs: Fs, n: nat, ino: Inode, k: nat, needed: nat)
    requires Writing(fs, n, ino, k, needed) && k < needed && ino.block[k] == 0
    ensures ClearBlocks(fs, GroupOfInode(fs, n)) != {}
    ensures var b := FindFreeBlock(fs, GroupOfInode(fs, n)); U32(b) == b
    ensures Provide(fs, n, ino, k, needed).0 ==
        SetBlockBit(fs, GroupOfInode(fs, n), FindFreeBlock(fs, GroupOfInode(fs, n)), true)
    ensures Geometry(Provide(fs, n, ino, k, needed).0)
  {
    HoleNeedsBlock(fs, n, ino, k, needed);
    var g := GroupOfInode(fs, n);
    hide Geometry, FindFreeBlock, SetBlockBit, BlockTaken, KeepsOthers, DataBlock;
    TakeBlock(fs, Holding(n, ino), g);
    BlockNumberFits(SetBlockBit(fs, g, FindFreeBlock(fs, g), true), Holding(n, ino), FindFreeBlock(fs, g));
  }

  /** The block of a slot just provided is not the superblock's, and can be written. */
  lemma NotSuper(fs: Fs, n: nat, ino: Inode, k: nat, needed: nat, data: Block)
    requires k < needed && Writing(fs, n, ino, k + 1, needed) && ino.block[k] != 0
    ensures 1 < ino.block[k] < |fs.disk|
    ensures Geometry(fs) && Geometry(WriteAt(fs, ino.block[k], data))
  {
    OwnBlock(fs, n, ino, k);
    DataNotSuper(fs, ino.block[k]);
    WriteSame(fs, ino.block[k], data);
  }

  lemma ProvidedNotSuper(fs: Fs, n: nat, ino: Inode, data: seq<byte>, k: nat, needed: nat)
    requires Writing(fs, n, ino, k, needed) && k < needed <= BlocksNeeded(data) && 1024 * k <= |data|
    ensures var (fs1, ino1) := Provide(fs, n, ino, k, needed);
      1 < ino1.block[k] < |fs1.disk| && Geometry(fs1) && Geometry(WriteAt(fs1, ino1.block[k], Chunk(data, k)))
  {
    hide Geometry, Provide, Writing, Chunk;
    ProvideOk(fs, n, ino, k, needed);
    var (fs1, ino1) := Provide(fs, n, ino, k, needed);
    NotSuper(fs1, n, ino1, k, needed, Chunk(data, k));
  }

  lemma DataNotSuper(fs: Fs, b: nat)
    requires Geometry(fs) && DataBlock(fs, b)
    ensures 1 < b < |fs.disk|
  {
    assert ValidPlace(fs, Super) && At(fs, Super) == 1;
  }

  lemma WriteBlocksStep(fs: Fs, n: nat, ino: Inode, data: seq<byte>, k: nat, needed: nat, fs2: Fs, ino1: Inode)
    requires k < 12 && k < needed <= BlocksNeeded(data) && 1024 * k <= |data|
    requires Writing(fs, n, ino, k, needed)
    requires ino1 == Provide(fs, n, ino, k, needed).1
    requires ino1.block[k] < |Provide(fs, n, ino, k, needed).0.disk|
    requires fs2 == WriteAt(Provide(fs, n, ino, k, needed).0, ino1.block[k], Chunk(data, k))
    requires Writing(fs2, n, ino1, k + 1, needed)
    ensures WriteBlocks(fs, n, ino, data, k, needed) == WriteBlocks(fs2, n, ino1, data, k + 1, needed)
  {
    hide Provide, WriteAt, Chunk, Writing, BlocksNeeded;
  }

  /** After the loop every slot below `needed` holds its kilobyte. */
  lemma {:induction false} WriteAll(fs: Fs, n: nat, ino: Inode, data: seq<byte>, k: nat, needed: nat)
    requires Writing(fs, n, ino, k, needed) && needed <= BlocksNeeded(data)
    requires forall j: nat | j < k :: Holds(fs, ino, data, j)
    ensures var (fs', ino') := WriteBlocks(fs, n, ino, data, k, needed);
      && Inv(fs', Holding(n, ino')) && Allocated(fs', n) && KeepsOthers(fs, fs', n)
      && ino' == ino.(block := ino'.block) && PointersKept(ino, ino', needed)
      && forall j: nat | j < needed :: Holds(fs', ino', data, j)
    decreases needed - k
  {
    hide Provide, KeepsOthers, Holds, Inv, Geometry, Writing, WriteAt, Chunk, Allocated, BlocksNeeded;
    WritingParts(fs, n, ino, k, needed);
    if k < needed {
      hide WriteBlocks;
      WriteOne(fs, n, ino, data, k, needed);
      var (fs1, ino1) := Provide(fs, n, ino, k, needed);
      var fs2 := WriteAt(fs1, ino1.block[k], Chunk(data, k));
      WriteBlocksStep(fs, n, ino, data, k, needed, fs2, ino1);
      WriteAll(fs2, n, ino1, data, k + 1, needed);
      KeepsTransitive(fs, fs2, WriteBlocks(fs2, n, ino1, data, k + 1, needed).0, n);
    } else {
      KeepsReflexive(fs, n);
    }
  }

  // ------------------------------------------------------------------ write_file

  /** What write_file needs: free blocks for the holes it fills. It does not check for them. */
  ghost predicate EnoughBlocks(fs: Fs, n: nat, data: seq<byte>)
    requires Geometry(fs) && ValidInode(fs, n)
  {
    BlocksNeeded(data) <= 12 ==>
      Holes(ReadInode(fs, n), 0, BlocksNeeded(data)) <= |ClearBlocks(fs, GroupOfInode(fs, n))|
  }

  ghost function WriteFile(fs: Fs, n: nat, data: seq<byte>): Fs
    requires Inv(fs, Clean) && Allocated(fs, n) && |data| < 0x1_0000_0000 && EnoughBlocks(fs, n, data)
  {
    var ino := ReadInode(fs, n);
    var needed := BlocksNeeded(data);
    if data == [] || FileType(ino) != REGULAR || needed > 12 then fs
    else
      Hold(fs, n, ino);
      WriteAll(fs, n, ino, data, 0, needed);
      var (fs', ino') := WriteBlocks(fs, n, ino, data, 0, needed);
      EditInode(fs', n, ino'.(size := |data|, sectors := needed * 2))
  }

  /** The inode's first blocks and its size are those of `data`. */
  ghost predicate Contains(fs: Fs, ino: Inode, data: seq<byte>) {
    && FileType(ino) == REGULAR && ino.size == |data| && BlocksNeeded(data) <= 12
    && forall j: nat | j < BlocksNeeded(data) :: Holds(fs, ino, data, j)
  }

  /** A write that is carried out keeps the invariant, stores the data in the inode's first
      blocks and its length in the inode, keeps the pointers it finds and those behind the data,
      and leaves every other file as it was. */
  lemma WriteFileStores(fs: Fs, n: nat, data: seq<byte>)
    requires Inv(fs, Clean) && Allocated(fs, n) && |data| < 0x1_0000_0000 && EnoughBlocks(fs, n, data)
    requires data != [] && FileType(ReadInode(fs, n)) == REGULAR && BlocksNeeded(data) <= 12
    ensures var fs' := WriteFile(fs, n, data);
      && Inv(fs', Clean) && Allocated(fs', n) && KeepsOthers(fs, fs', n)
      && (var ino := ReadInode(fs', n);
          && ino == ReadInode(fs, n).(block := ino.block, size := |data|, sectors := BlocksNeeded(data) * 2)
          && PointersKept(ReadInode(fs, n), ino, BlocksNeeded(data))
          && Contains(fs', ino, data))
  {
    var ino, needed := ReadInode(fs, n), BlocksNeeded(data);
    Hold(fs, n, ino);
    WriteAll(fs, n, ino, data, 0, needed);
    var (fs1, ino1) := WriteBlocks(fs, n, ino, data, 0, needed);
    hide WriteBlocks, Inv, Geometry, KeepsOthers, ClearBlocks, EditInode, Holds, Allocated, Contains, BlocksNeeded,
        Holes, ReadInode;
    FinishWrite(fs, fs1, n, ino1, data);
  }

  lemma FinishWrite(fs: Fs, fs1: Fs, n: nat, ino: Inode, data: seq<byte>)
    requires Inv(fs1, Holding(n, ino)) && Allocated(fs1, n) && KeepsOthers(fs, fs1, n)
    requires FileType(ino) == REGULAR && |data| < 0x1_0000_0000 && BlocksNeeded(data) <= 12
    requires forall j: nat | j < BlocksNeeded(data) :: Holds(fs1, ino, data, j)
    ensures var ino' := ino.(size := |data|, sectors := BlocksNeeded(data) * 2);
      var fs' := EditInode(fs1, n, ino');
      && Inv(fs', Clean) && Allocated(fs', n) && KeepsOthers(fs, fs', n)
      && ReadInode(fs', n) == ino' && Contains(fs', ino', data)
  {
    hide Inv, Geometry, KeepsOthers, ClearBlocks, EditInode, Holds, DataKept, Allocated, BlocksNeeded, SameBits,
        ReadInode, Contains;
    AllocatedParts(fs1, Holding(n, ino), n);
    var ino' := ino.(size := |data|, sectors := BlocksNeeded(data) * 2);
    var fs' := EditInode(fs1, n, ino');
    Rehold(fs1, n, ino, ino');
    Store(fs1, n, ino');
    KeepsTransitive(fs, fs1, fs', n);
    StillAllocated(fs1, fs', n);
    StillContains(fs1, fs', n, ino, ino', data);
  }

  lemma StillContains(fs: Fs, fs': Fs, n: nat, ino: Inode, ino': Inode, data: seq<byte>)
    requires FileType(ino) == REGULAR && |data| < 0x1_0000_0000 && BlocksNeeded(data) <= 12
    requires forall j: nat | j < BlocksNeeded(data) :: Holds(fs, ino, data, j)
    requires Inv(fs, Holding(n, ino)) && Allocated(fs, n) && DataKept(fs, fs')
    requires ino' == ino.(size := |data|, sectors := ino'.sectors)
    ensures Contains(fs', ino', data)
  {
    hide Inv, Geometry, Holds, DataKept, Allocated, BlocksNeeded;
    forall j: nat | j < BlocksNeeded(data) ensures Holds(fs', ino', data, j) {
      HoldsKept(fs, fs', n, ino, ino', data, j);
    }
  }

  /** The cases of write_file. */
  lemma WriteFileIs(fs: Fs, n: nat, data: seq<byte>)
    requires Inv(fs, Clean) && Allocated(fs, n) && |data| < 0x1_0000_0000 && EnoughBlocks(fs, n, data)
    ensures var ino, needed := ReadInode(fs, n), BlocksNeeded(data);
      && Inv(WriteFile(fs, n, data), Clean)
      && (data == [] || FileType(ino) != REGULAR || needed > 12 ==> WriteFile(fs, n, data) == fs)
      && (data != [] && FileType(ino) == REGULAR && needed <= 12 ==>
            && Writing(fs, n, ino, 0, needed)
            && (var (fs1, ino1) := WriteBlocks(fs, n, ino, data, 0, needed);
                && Geometry(fs1) && ValidInode(fs1, n)
                && WriteFile(fs, n, data) == EditInode(fs1, n, ino1.(size := |data|, sectors := needed * 2))))
  {
    var ino, needed := ReadInode(fs, n), BlocksNeeded(data);
    if data != [] && FileType(ino) == REGULAR && needed <= 12 {
      WriteFileStores(fs, n, data);
      Hold(fs, n, ino);
      WriteAll(fs, n, ino, data, 0, needed);
    }
  }

  /** What becomes of a string of any length. Up to 12288 bytes it is stored in a regular file;
      longer ones are refused, and so are empty ones; only within a kilobyte of 2^32 the length is
      stored, 0 sectors with it, and nothing else. */
  lemma WriteByLength(fs: Fs, n: nat, data: seq<byte>)
    requires Inv(fs, Clean) && Allocated(fs, n) && |data| < 0x1_0000_0000 && EnoughBlocks(fs, n, data)
    ensures var fs', ino := WriteFile(fs, n, data), ReadInode(fs, n);
      && Inv(fs', Clean) && Allocated(fs', n)
      && if data == [] || FileType(ino) != REGULAR || 12288 < |data| <= 0x1_0000_0000 - 1024 then fs' == fs
         else if |data| <= 12288 then
           && ReadInode(fs', n).size == |data| && ReadInode(fs', n).sectors == (|data| + 1023) / 1024 * 2
           && Contains(fs', ReadInode(fs', n), data)
         else
           && ReadInode(fs', n) == ino.(size := |data|, sectors := 0) && KeepsOthers(fs, fs', n)
  {
    hide Inv, Geometry, Allocated, ReadInode, WriteFile, WriteBlocks, BlocksNeeded, KeepsOthers, Contains, EnoughBlocks,
      Writing;
    AllocatedParts(fs, Clean, n);
    NeededByLength(data);
    WriteFileIs(fs, n, data);
    var ino, fs' := ReadInode(fs, n), WriteFile(fs, n, data);
    if data != [] && FileType(ino) == REGULAR && BlocksNeeded(data) <= 12 {
      WriteFileStores(fs, n, data);
      if BlocksNeeded(data) == 0 { NothingFilled(ino, ReadInode(fs', n)); }
    }
  }

  lemma NothingFilled(ino: Inode, ino': Inode)
    requires PointersKept(ino, ino', 0)
    ensures ino'.block == ino.block
  {
  }

  lemma NeededByLength(data: seq<byte>)
    requires |data| < 0x1_0000_0000
    ensures |data| <= 0x1_0000_0000 - 1024 ==> BlocksNeeded(data) == (|data| + 1023) / 1024
    ensures |data| > 0x1_0000_0000 - 1024 ==> BlocksNeeded(data) == 0
  {
  }

  lemma NeededDef(data: seq<byte>)
    ensures BlocksNeeded(data) == U32(|data| + 1023) / 1024
  {
  }

  lemma AllocatedParts(fs: Fs, w: Pending, n: nat)
    requires Inv(fs, w) && Allocated(fs, n)
    ensures Geometry(fs) && ValidInode(fs, n) && InodeMarked(fs, n)
  {
  }

  lemma StillAllocated(fs: Fs, fs': Fs, n: nat)
    requires SameBits(fs, fs') && Allocated(fs, n)
    ensures Allocated(fs', n)
  {
    SameBitsKeep(fs, fs');
  }

  lemma HoldsKept(fs: Fs, fs': Fs, n: nat, ino: Inode, ino': Inode, data: seq<byte>, j: nat)
    requires Inv(fs, Holding(n, ino)) && Allocated(fs, n) && DataKept(fs, fs') && j < 12
    requires Holds(fs, ino, data, j) && ino'.block == ino.block
    ensures Holds(fs', ino', data, j)
  {
    hide Inv, Geometry, Allocated, Chunk, DataBlock, Refers;
    OwnBlock(fs, n, ino, j);
  }

  // ------------------------------------------------------------------ reading

  /** Every block the inode refers to is on the disk. */
  predicate Readable(disk: seq<Block>, ino: Inode) {
    forall i | 0 <= i < 12 :: ino.block[i] < |disk|
  }

  function Min(a: nat, b: nat): nat { if a < b then a else b }

  /** The bytes read_file delivers from slot `k` on, `done` of the `want` being delivered already:
      it counts up and tests at the end of each round. */
  function ReadFrom(disk: seq<Block>, ino: Inode, want: nat, done: nat, k: nat): (r: seq<byte>)
    requires Readable(disk, ino) && done <= want && k <= 12
    ensures done + |r| <= want
    decreases 12 - k
  {
    if k == 12 || ino.block[k] == 0 then []
    else
      var take := Min(want - done, 1024);
      var part := disk[ino.block[k]][..take];
      if done + take >= want then part else part + ReadFrom(disk, ino, want, done + take, k + 1)
  }

  /** The bytes print_file prints: it counts down and tests at the start of each round. */
  function PrintFrom(disk: seq<Block>, ino: Inode, remaining: nat, k: nat): seq<byte>
    requires Readable(disk, ino) && k <= 12
    decreases 12 - k
  {
    if k == 12 || remaining == 0 || ino.block[k] == 0 then []
    else
      var take := Min(remaining, 1024);
      disk[ino.block[k]][..take] + PrintFrom(disk, ino, remaining - take, k + 1)
  }

  /** However its blocks are holed, print_file prints what read_file delivers. */
  lemma {:induction false} PrintIsRead(disk: seq<Block>, ino: Inode, want: nat, done: nat, k: nat)
    requires Readable(disk, ino) && done < want && k <= 12
    ensures PrintFrom(disk, ino, want - done, k) == ReadFrom(disk, ino, want, done, k)
    decreases 12 - k
  {
    if k < 12 && ino.block[k] != 0 {
      var take := Min(want - done, 1024);
      var rest := want - (done + take);
      assert PrintFrom(disk, ino, want - done, k) == disk[ino.block[k]][..take] + PrintFrom(disk, ino, rest, k + 1);
      hide Readable;
      if rest > 0 {
        PrintIsRead(disk, ino, want, done + take, k + 1);
      }
    }
  }

  /** What read_file puts into a buffer of `max` bytes, without the terminator. */
  ghost function Delivered(fs: Fs, n: nat, max: nat): seq<byte>
    requires Geometry(fs) && ValidInode(fs, n) && Readable(fs.disk, ReadInode(fs, n))
  {
    var ino := ReadInode(fs, n);
    if FileType(ino) != REGULAR || ino.size == 0 then [] else ReadFrom(fs.disk, ino, Min(ino.size, max), 0, 0)
  }

  lemma SlotReadable(disk: seq<Block>, ino: Inode, k: nat)
    requires Readable(disk, ino)
    ensures k < 12 ==> ino.block[k] < |disk|
  {
  }

  /** One slot read, in multiples of its size. */
  lemma ReadSlot(disk: seq<Block>, ino: Inode, want: nat, k: nat)
    requires Readable(disk, ino) && k < 12 && ino.block[k] != 0 && 1024 * k <= want
    ensures 1024 * (k + 1) >= want ==>
      ReadFrom(disk, ino, want, 1024 * k, k) == disk[ino.block[k]][..want - 1024 * k]
    ensures 1024 * (k + 1) < want ==>
      ReadFrom(disk, ino, want, 1024 * k, k) == disk[ino.block[k]] + ReadFrom(disk, ino, want, 1024 * (k + 1), k + 1)
  {
    hide Readable, ReadFrom;
    SlotReadable(disk, ino, k);
    ReadStep(disk, ino, want, 1024 * k, k);
    if 1024 * (k + 1) < want {
      assert 1024 * k + 1024 == 1024 * (k + 1);
      assert disk[ino.block[k]][..1024] == disk[ino.block[k]];
    }
  }

  /** From slot `k` on: as many bytes as are wanted, but none behind the first hole. */
  lemma {:induction false} ReadLength(disk: seq<Block>, ino: Inode, want: nat, k: nat)
    requires Readable(disk, ino) && k <= 12 && 1024 * k <= want && (k > 0 ==> 1024 * k < want)
    ensures 1024 * k + |ReadFrom(disk, ino, want, 1024 * k, k)| == Min(want, 1024 * FirstHole(ino, k))
    decreases 12 - k
  {
    hide ReadFrom, Readable;
    if k == 12 || ino.block[k] == 0 {
      NothingLeft(disk, ino, want, 1024 * k, k);
    } else {
      SlotReadable(disk, ino, k);
      ReadSlot(disk, ino, want, k);
      assert FirstHole(ino, k) == FirstHole(ino, k + 1);
      if 1024 * (k + 1) < want { ReadLength(disk, ino, want, k + 1); }
    }
  }

  /** The byte at position `p` of the file. */
  lemma {:induction false} ReadByte(disk: seq<Block>, ino: Inode, want: nat, k: nat, p: nat)
    requires Readable(disk, ino) && k <= 12 && 1024 * k <= want && (k > 0 ==> 1024 * k < want)
    requires 1024 * k <= p < 1024 * k + |ReadFrom(disk, ino, want, 1024 * k, k)|
    ensures p / 1024 < 12
    ensures ReadFrom(disk, ino, want, 1024 * k, k)[p - 1024 * k] == disk[ino.block[p / 1024]][p % 1024]
    decreases 12 - k
  {
    hide ReadFrom, Readable;
    if k == 12 || ino.block[k] == 0 {
      NothingLeft(disk, ino, want, 1024 * k, k);
      assert false;
    } else {
      SlotReadable(disk, ino, k);
      ReadSlot(disk, ino, want, k);
      if p < 1024 * (k + 1) {
        assert p / 1024 == k && p % 1024 == p - 1024 * k;
      } else {
        ReadByte(disk, ino, want, k + 1, p);
      }
    }
  }

  /** What is delivered of a regular file of any size: as much as was asked for and the inode says
      there is, but nothing behind the first hole or the twelfth block; and byte `i` of the file is
      byte `i % 1024` of block `i / 1024`. Of anything else nothing is delivered. */
  lemma DeliveredIs(fs: Fs, n: nat, max: nat)
    requires Inv(fs, Clean) && Allocated(fs, n)
    ensures Readable(fs.disk, ReadInode(fs, n))
    ensures var ino, d := ReadInode(fs, n), Delivered(fs, n, max);
      && |d| == (if FileType(ino) == REGULAR then Min(Min(ino.size, max), 1024 * FirstHole(ino, 0)) else 0)
      && forall i: nat | i < |d| :: i / 1024 < 12 && d[i] == fs.disk[ino.block[i / 1024]][i % 1024]
  {
    hide Inv, Geometry, Allocated, ReadInode, Readable, ReadFrom, FirstHole;
    AllocatedReadable(fs, n);
    AllocatedParts(fs, Clean, n);
    var ino := ReadInode(fs, n);
    var want := Min(ino.size, max);
    ReadLength(fs.disk, ino, want, 0);
    forall i: nat | i < |Delivered(fs, n, max)|
      ensures i / 1024 < 12 && ino.block[i / 1024] < |fs.disk|
      ensures Delivered(fs, n, max)[i] == fs.disk[ino.block[i / 1024]][i % 1024]
    {
      SlotReadable(fs.disk, ino, i / 1024);
      ReadByte(fs.disk, ino, want, 0, i);
    }
  }

  /** Reading from slot `k`, taken apart as the loops do. */
  lemma ReadStep(disk: seq<Block>, ino: Inode, want: nat, done: nat, k: nat)
    requires Readable(disk, ino) && done <= want && k < 12 && ino.block[k] != 0
    ensures var take := Min(want - done, 1024);
      ReadFrom(disk, ino, want, done, k) ==
        disk[ino.block[k]][..take] + if done + take >= want then [] else ReadFrom(disk, ino, want, done + take, k + 1)
  {
  }

  lemma PrintStep(disk: seq<Block>, ino: Inode, remaining: nat, k: nat)
    requires Readable(disk, ino) && remaining > 0 && k < 12 && ino.block[k] != 0
    ensures var take := Min(remaining, 1024);
      PrintFrom(disk, ino, remaining, k) == disk[ino.block[k]][..take] + PrintFrom(disk, ino, remaining - take, k + 1)
  {
  }

  lemma NothingLeft(disk: seq<Block>, ino: Inode, want: nat, done: nat, k: nat)
    requires Readable(disk, ino) && done <= want && k <= 12 && (k == 12 || ino.block[k] == 0)
    ensures ReadFrom(disk, ino, want, done, k) == []
  {
  }

  lemma NothingPrinted(disk: seq<Block>, ino: Inode, remaining: nat, k: nat)
    requires Readable(disk, ino) && k <= 12 && (k == 12 || remaining == 0 || ino.block[k] == 0)
    ensures PrintFrom(disk, ino, remaining, k) == []
  {
  }

  /** The blocks of an allocated inode can be read, and none is the superblock's. */
  lemma FileBlocks(fs: Fs, n: nat)
    requires Inv(fs, Clean) && Allocated(fs, n)
    ensures Geometry(fs) && ValidInode(fs, n) && Readable(fs.disk, ReadInode(fs, n))
    ensures forall i | 0 <= i < 12 :: ReadInode(fs, n).block[i] != 1
  {
    var ino := ReadInode(fs, n);
    AllocatedReadable(fs, n);
    Hold(fs, n, ino);
    hide Inv, Allocated, ReadInode, DataBlock;
    forall i: nat | i < 12 ensures ino.block[i] != 1 {
      if ino.block[i] != 0 {
        OwnBlock(fs, n, ino, i);
        DataNotSuper(fs, ino.block[i]);
      }
    }
  }

  lemma AllocatedReadable(fs: Fs, n: nat)
    requires Inv(fs, Clean) && Allocated(fs, n)
    ensures Readable(fs.disk, ReadInode(fs, n))
  {
    var ino := ReadInode(fs, n);
    Hold(fs, n, ino);
    assert |fs.disk| > 0 by { FixedBlocks(fs); }
    hide Inv, Geometry, Allocated, ReadInode;
    forall i: nat | i < 12 ensures ino.block[i] < |fs.disk| {
      if ino.block[i] != 0 { OwnBlock(fs, n, ino, i); }
    }
  }

  lemma ChunkPart(data: seq<byte>, k: nat, take: nat)
    requires take <= 1024 && 1024 * k + take <= |data|
    ensures Chunk(data, k)[..take] == data[1024 * k..1024 * k + take]
  {
  }

  /** Slots that hold the kilobytes of `data` are read back as `data`. */
  lemma {:induction false} ReadBack(fs: Fs, ino: Inode, data: seq<byte>, want: nat, k: nat)
    requires Readable(fs.disk, ino) && k <= 12 && 1024 * k <= want <= |data| && (want + 1023) / 1024 <= 12
    requires forall j: nat | j < 12 && 1024 * j < |data| :: Holds(fs, ino, data, j)
    requires want > 1024 * k || (k == 0 && |data| > 0)
    ensures ReadFrom(fs.disk, ino, want, 1024 * k, k) == data[1024 * k..want]
    decreases 12 - k
  {
    hide Chunk, Readable, ReadFrom;
    assert Holds(fs, ino, data, k);
    var take := Min(want - 1024 * k, 1024);
    ReadStep(fs.disk, ino, want, 1024 * k, k);
    ChunkPart(data, k, take);
    if 1024 * k + take < want {
      ReadBack(fs, ino, data, want, k + 1);
      assert data[1024 * k..1024 * (k + 1)] + data[1024 * (k + 1)..want] == data[1024 * k..want];
    }
  }

  /** Reading depends only on the inode and its blocks. */
  lemma {:induction false} ReadSame(a: seq<Block>, b: seq<Block>, ino: Inode, want: nat, done: nat, k: nat)
    requires Readable(a, ino) && Readable(b, ino) && done <= want && k <= 12
    requires forall i | 0 <= i < 12 && ino.block[i] != 0 :: a[ino.block[i]] == b[ino.block[i]]
    ensures ReadFrom(a, ino, want, done, k) == ReadFrom(b, ino, want, done, k)
    decreases 12 - k
  {
    hide ReadFrom, Readable;
    if k == 12 || ino.block[k] == 0 {
      NothingLeft(a, ino, want, done, k);
      NothingLeft(b, ino, want, done, k);
    } else {
      ReadStep(a, ino, want, done, k);
      ReadStep(b, ino, want, done, k);
      if done + Min(want - done, 1024) < want {
        ReadSame(a, b, ino, want, done + Min(want - done, 1024), k + 1);
      }
    }
  }

  /** write_file then read_file: the first `max` bytes of what was written, whatever blocks the
      file had before; every other file reads as before, at every length. */
  lemma WriteThenRead(fs: Fs, n: nat, data: seq<byte>, max: nat, m: nat, max': nat)
    requires Inv(fs, Clean) && Allocated(fs, n) && FileType(ReadInode(fs, n)) == REGULAR
    requires 1 <= |data| <= 12288 && EnoughBlocks(fs, n, data)
    ensures var fs' := WriteFile(fs, n, data);
      && Inv(fs', Clean) && Allocated(fs', n) && Readable(fs'.disk, ReadInode(fs', n))
      && Delivered(fs', n, max) == data[..Min(|data|, max)]
    ensures var fs' := WriteFile(fs, n, data);
      m != n && Allocated(fs, m) ==>
        && Allocated(fs', m)
        && Readable(fs.disk, ReadInode(fs, m)) && Readable(fs'.disk, ReadInode(fs', m))
        && Delivered(fs', m, max') == Delivered(fs, m, max')
  {
    NeededIs(data);
    WriteFileStores(fs, n, data);
    var fs' := WriteFile(fs, n, data);
    hide WriteFile, Inv, Geometry, KeepsOthers, Contains, Readable, Delivered, Allocated, ReadInode;
    DeliveredBack(fs', n, data, max);
    if m != n && Allocated(fs, m) {
      OthersDelivered(fs, fs', n, m, max');
    }
  }

  /** However long the string, it is read back in full exactly when twelve blocks can hold it.
      Longer ones are refused, or, within a kilobyte of 2^32, only their length is stored. */
  lemma ReadBackIff(fs: Fs, n: nat, data: seq<byte>)
    requires Inv(fs, Clean) && Allocated(fs, n) && FileType(ReadInode(fs, n)) == REGULAR
    requires data != [] && |data| < 0x1_0000_0000 && EnoughBlocks(fs, n, data)
    ensures var fs' := WriteFile(fs, n, data);
      && Inv(fs', Clean) && Allocated(fs', n) && Readable(fs'.disk, ReadInode(fs', n))
      && (Delivered(fs', n, |data|) == data <==> |data| <= 12288)
  {
    hide Inv, Geometry, KeepsOthers, Readable, Allocated, ReadInode, BlocksNeeded, ReadFrom, WriteFile, EnoughBlocks,
        Contains;
    var fs' := WriteFile(fs, n, data);
    WriteFileIs(fs, n, data);
    if |data| <= 12288 {
      WriteThenRead(fs, n, data, |data|, n, 0);
    } else {
      if BlocksNeeded(data) <= 12 { WriteFileStores(fs, n, data); }
      AllocatedReadable(fs', n);
      AllocatedParts(fs', Clean, n);
      DeliveredBound(fs', n, |data|);
    }
  }

  lemma DeliveredBound(fs: Fs, n: nat, max: nat)
    requires Geometry(fs) && ValidInode(fs, n) && Readable(fs.disk, ReadInode(fs, n))
    ensures |Delivered(fs, n, max)| <= 12288
  {
    hide Geometry, ReadInode, Readable;
    ReadBound(fs.disk, ReadInode(fs, n), Min(ReadInode(fs, n).size, max), 0, 0);
  }

  /** Twelve blocks hold no more than twelve kilobytes. */
  lemma {:induction false} ReadBound(disk: seq<Block>, ino: Inode, want: nat, done: nat, k: nat)
    requires Readable(disk, ino) && done <= want && k <= 12
    ensures |ReadFrom(disk, ino, want, done, k)| <= 1024 * (12 - k)
    decreases 12 - k
  {
    if k < 12 && ino.block[k] != 0 && done + Min(want - done, 1024) < want {
      ReadBound(disk, ino, want, done + Min(want - done, 1024), k + 1);
    }
  }

  lemma DeliveredBack(fs: Fs, n: nat, data: seq<byte>, max: nat)
    requires Inv(fs, Clean) && Allocated(fs, n) && 1 <= |data| <= 12288
    requires Contains(fs, ReadInode(fs, n), data)
    ensures Readable(fs.disk, ReadInode(fs, n))
    ensures Delivered(fs, n, max) == data[..Min(|data|, max)]
  {
    AllocatedReadable(fs, n);
    NeededIs(data);
    hide Inv, Geometry, Allocated, ReadInode, BlocksNeeded, Holds, Readable, ReadFrom;
    var want := Min(|data|, max);
    ReadBack(fs, ReadInode(fs, n), data, want, 0);
    assert data[0..want] == data[..want];
  }

  lemma OthersDelivered(fs: Fs, fs': Fs, n: nat, m: nat, max: nat)
    requires Inv(fs, Clean) && Inv(fs', Clean) && KeepsOthers(fs, fs', n) && Allocated(fs, m) && m != n
    ensures Allocated(fs', m) && Readable(fs.disk, ReadInode(fs, m)) && Readable(fs'.disk, ReadInode(fs', m))
    ensures Delivered(fs', m, max) == Delivered(fs, m, max)
  {
    hide Inv, Geometry, Allocated, ReadInode, Same, SameFile;
    SameDelivered(fs, fs', m, max);
  }

  lemma SameDelivered(fs: Fs, fs': Fs, m: nat, max: nat)
    requires Inv(fs, Clean) && Inv(fs', Clean) && Same(fs, fs') && Allocated(fs, m) && SameFile(fs, fs', m)
    ensures Allocated(fs', m) && Readable(fs.disk, ReadInode(fs, m)) && Readable(fs'.disk, ReadInode(fs', m))
    ensures Delivered(fs', m, max) == Delivered(fs, m, max)
  {
    hide Inv, Geometry, Allocated, ReadInode, Same;
    AllocatedReadable(fs, m);
    AllocatedReadable(fs', m);
    AllocatedParts(fs, Clean, m);
    AllocatedParts(fs', Clean, m);
    var ino := ReadInode(fs, m);
    if ino.size > 0 { ReadSame(fs.disk, fs'.disk, ino, Min(ino.size, max), 0, 0); }
  }
}
