/** src/ext2.c as it runs: the superblock, the descriptors and one inode in memory, 1024-byte
    buffers, and a drive. Every method is tied to the operation on file-system values of the
    same name, whose meaning is proved in the modules imported here. */
module Ext2 {
  import opened Bits
  import opened Memory
  import opened Ext2Layout
  import opened Ext2State
  import opened Ext2Inv
  import opened Ext2Steps
  import opened Ext2Records
  import opened Ext2Files
  import opened Ext2Dirs
  import opened Ext2Ops
  import opened Ata

  /** The blocks with the part of block 1 behind the superblock blanked out: nothing there means
      anything, and update_superblock fills it with whatever its buffer held. */
  function Normal(bs: seq<Block>): (r: seq<Block>)
    ensures |r| == |bs|
    ensures forall b | 0 <= b < |bs| && b != 1 :: r[b] == bs[b]
  {
    if |bs| > 1 then bs[1 := bs[1][..84] + Zeros(940)] else bs
  }

  lemma NormalUpdate(bs: seq<Block>, b: nat, buf: Block)
    requires b < |bs|
    ensures Normal(bs[b := buf]) == if b == 1 then Normal(bs)[1 := buf[..84] + Zeros(940)] else Normal(bs)[b := buf]
  {
  }

  /** Only the superblock's bytes of block 1 count. */
  lemma NormalSuper(bs: seq<Block>, buf: Block, s: Superblock)
    requires |bs| > 1 && buf[..84] == EncodeSuper(s)
    ensures Normal(bs[1 := buf]) == Normal(bs)[1 := SuperBlock(s)]
  {
    hide EncodeSuper;
  }

  /** The loop of find_free_block and find_free_inode over the first `count` bits of a bitmap:
      it stops at the lowest clear one. Neither function returns a value when there is none. */
  method FirstClearBit(bitmap: array<byte>, count: nat) returns (i: nat)
    requires count <= 8 * bitmap.Length && ClearBits(bitmap[..], count) != {}
    ensures i == Least(ClearBits(bitmap[..], count))
  {
    i := 0;
    ghost var first := Least(ClearBits(bitmap[..], count));
    while i < count
      invariant i <= first
      invariant forall j: nat | j < i :: Used(bitmap[..], j)
    {
      var byteIdx := i / 8;
      var bitPos := i % 8;
      if !Bit(bitmap[byteIdx], bitPos) {
        assert i in ClearBits(bitmap[..], count);
        return;
      }
      i := i + 1;
    }
    assert false;
  }

  /** terminal_putchar in a loop; the terminal is what was written to it. */
  method PutChars(terminal: seq<byte>, part: seq<byte>) returns (r: seq<byte>)
    ensures r == terminal + part
  {
    r := terminal;
    for i := 0 to |part|
      invariant r == terminal + part[..i]
    {
      r := r + [part[i]];
    }
  }

  /** A zeroed buffer with a record copied to its start. */
  method FreshBuffer(e: Record) returns (buffer: array<byte>)
    ensures fresh(buffer) && buffer.Length == 1024 && buffer[..] == FreshBlock(e)
  {
    hide RecordBytes;
    buffer := new byte[1024];
    for i := 0 to 1024
      invariant forall j | 0 <= j < i :: buffer[j] == 0
    {
      buffer[i] := 0;
    }
    assert buffer[..] == Zeros(1024);
    CopyIn(buffer, 0, RecordBytes(e));
  }

  lemma JoinParts(a: seq<byte>, b: seq<byte>, c: seq<byte>)
    ensures (a + b) + c == a + (b + c)
    ensures c == [] ==> a + b == a + (b + c)
  {
  }

  lemma SpliceNone(buf: seq<byte>)
    ensures Splice(buf, 0, []) == buf
  {
  }

  lemma SpliceMore(buf: seq<byte>, a: seq<byte>, b: seq<byte>)
    requires |a| + |b| <= |buf|
    ensures Splice(Splice(buf, 0, a), |a|, b) == Splice(buf, 0, a + b)
  {
  }

  class FileSystem {
    const drive: Drive
    var sb: Superblock
    var bgdt: Groups
    var inode: Inode

    ghost function View(): Fs
      reads this, drive.sectors
    {
      Fs(sb, bgdt, Normal(drive.Blocks()))
    }

    /** The drive can be addressed and the structures are where they should be. */
    ghost predicate Ready()
      reads this, drive.sectors
    {
      drive.sectors.Length <= 0x1000_0000 && Geometry(View())
    }

    ghost predicate Valid()
      reads this, drive.sectors
    {
      Ready() && Inv(View(), Clean)
    }

    // ---------------------------------------------------------------- mounting

    constructor (d: Drive)
      ensures drive == d
    {
      drive := d;
      sb := Superblock(0, 0, 0, 0, 0, 0, 0, 0, 0, 0, 0, [0, 0, 0, 0, 0, 0, 0, 0, 0, 0]);
      bgdt := seq(32, _ => Group(0, 0, 0, 0, 0, [0, 0, 0, 0]));
      inode := EMPTY_INODE;
    }

    /** parse_superblock: afterwards memory and disk agree on the 84 bytes. */
    method ParseSuperblock()
      requires 6 <= drive.sectors.Length <= 0x1000_0000
      modifies this`sb
      ensures EncodeSuper(sb) == drive.Blocks()[1][..84]
    {
      hide EncodeSuper, DecodeSuper, BlocksOf;
      var buffer := new byte[1024];
      drive.ReadBlock(2, buffer);
      var image := buffer[..84];
      assert image == buffer[..][..84];
      SuperRoundTrip(image);
      sb := DecodeSuper(image);
    }

    /** parse_blockgroup_descriptors: afterwards memory and disk agree on the whole block. */
    method ParseBlockgroupDescriptors()
      requires 6 <= drive.sectors.Length <= 0x1000_0000
      modifies this`bgdt
      ensures EncodeGroups(bgdt) == drive.Blocks()[2]
    {
      var buffer := new byte[1024];
      drive.ReadBlock(4, buffer);
      GroupsRoundTrip(buffer[..]);
      bgdt := DecodeGroups(buffer[..]);
    }

    // ---------------------------------------------------------------- blocks

    method SectorsPerBlock() returns (n: nat)
      requires Ready()
      ensures n == 2
    {
      var blockSizeBytes := 1024 * Shl1(sb.blockSize);
      n := blockSizeBytes / 512;
    }

    /** `read(block * sectors_per_block, 1024, buffer)` */
    method LoadBlock(block: nat, buffer: array<byte>)
      requires Ready() && block < |View().disk| && buffer.Length == 1024
      modifies buffer
      ensures buffer[..] == drive.Blocks()[block]
      ensures block != 1 ==> buffer[..] == View().disk[block]
    {
      hide Normal, BlocksOf, Geometry;
      var sectorsPerBlock := SectorsPerBlock();
      drive.ReadBlock(block * sectorsPerBlock, buffer);
    }

    /** `write(block * sectors_per_block, 1024, buffer)` */
    method StoreBlock(block: nat, buffer: array<byte>)
      requires Ready() && block < |View().disk| && buffer.Length == 1024
      modifies drive.sectors
      ensures drive.Blocks() == old(drive.Blocks())[block := buffer[..]]
      ensures block != 1 ==> View() == WriteAt(old(View()), block, buffer[..])
    {
      hide Normal, BlocksOf, Geometry;
      var sectorsPerBlock := SectorsPerBlock();
      NormalUpdate(drive.Blocks(), block, buffer[..]);
      drive.WriteBlock(block * sectorsPerBlock, buffer);
    }

    // ---------------------------------------------------------------- inodes

    /** The block and byte offset of inode `n`, computed as read_inode and edit_inode_table do. */
    method LocateInode(n: u32) returns (block: nat, offset: nat)
      requires Ready() && ValidInode(View(), n)
      ensures ValidPlace(View(), SlotPlace(View(), n)) && block == At(View(), SlotPlace(View(), n)) < |View().disk|
      ensures block > 2 && offset == SlotOffset(View(), n) && offset + 128 <= 1024
      ensures (n - 1) / sb.inodesPerGroup < 32
      ensures var table := bgdt[(n - 1) / sb.inodesPerGroup].inodeTable;
        (block - table) * 1024 + offset == 128 * (n % sb.inodesPerGroup)
    {
      SlotValid(View(), n);
      SlotBijection(View(), n, GroupOfInode(View(), n), n % sb.inodesPerGroup);
      SlotAddress(View(), n, GroupOfInode(View(), n), n % sb.inodesPerGroup);
      PlaceOnDisk(View(), SlotPlace(View(), n));
      NotFixed(View(), SlotPlace(View(), n));
      var blockGroup := (n - 1) / sb.inodesPerGroup;
      var indexInGroup := n % sb.inodesPerGroup;
      var inodesPerBlock := 1024 / 128;
      block := bgdt[blockGroup].inodeTable + indexInGroup / inodesPerBlock;
      offset := indexInGroup % inodesPerBlock * 128;
    }

    method LoadInode(n: u32)
      requires Ready() && ValidInode(View(), n)
      modifies this`inode
      ensures inode == ReadInode(View(), n)
    {
      hide Normal, BlocksOf, Geometry, DecodeInode, SlotPlace, SlotOffset, At;
      var block, offset := LocateInode(n);
      var buffer := new byte[1024];
      LoadBlock(block, buffer);
      assert buffer[offset..offset + 128] == buffer[..][offset..offset + 128];
      inode := DecodeInode(buffer[offset..offset + 128]);
    }

    method EditInodeTable(n: u32, newInode: Inode)
      requires Ready() && ValidInode(View(), n)
      modifies drive.sectors
      ensures View() == EditInode(old(View()), n, newInode) && Ready()
    {
      EditTouches(View(), n, newInode);
      var block, offset := LocateInode(n);
      var buffer := new byte[1024];
      LoadBlock(block, buffer);
      CopyIn(buffer, offset, EncodeInode(newInode));
      StoreBlock(block, buffer);
    }

    // ---------------------------------------------------------------- counts and bitmaps

    method UpdateBlockgroupDescriptor(g: nat, deltaInodes: u32, deltaBlocks: u32)
      requires Ready() && g < GroupCount(View())
      modifies this`bgdt, drive.sectors
      ensures View() == UpdateGroup(old(View()), g, deltaInodes, deltaBlocks) && Ready()
    {
      FixedBlocks(View());
      UpdateGroupSame(View(), g, deltaInodes, deltaBlocks);
      hide Normal, BlocksOf, Geometry, EncodeGroups, U16;
      var d := bgdt[g];
      d := d.(freeBlocks := U16(d.freeBlocks + deltaBlocks));
      d := d.(freeInodes := U16(d.freeInodes + deltaInodes));
      bgdt := bgdt[g := d];
      var buffer := new byte[1024];
      CopyIn(buffer, 0, EncodeGroups(bgdt));
      assert buffer[..] == EncodeGroups(bgdt);
      NormalUpdate(drive.Blocks(), 2, buffer[..]);
      drive.WriteBlock(4, buffer);
    }

    /** The part of the buffer behind the 84 bytes is whatever it held. */
    method UpdateSuperblock(deltaInodes: u32, deltaBlocks: u32)
      requires Ready()
      modifies this`sb, drive.sectors
      ensures View() == UpdateSuper(old(View()), deltaInodes, deltaBlocks) && Ready()
    {
      FixedBlocks(View());
      UpdateSuperSame(View(), deltaInodes, deltaBlocks);
      hide Normal, BlocksOf, Geometry, EncodeSuper, SuperBlock, Splice, U32;
      sb := sb.(freeBlocks := U32(sb.freeBlocks + deltaBlocks));
      sb := sb.(freeInodes := U32(sb.freeInodes + deltaInodes));
      var buffer := new byte[1024];
      SpliceSlice(buffer[..], 0, EncodeSuper(sb), 0, 84);
      CopyIn(buffer, 0, EncodeSuper(sb));
      NormalSuper(drive.Blocks(), buffer[..], sb);
      drive.WriteBlock(2, buffer);
    }

    method Recounted(g: nat, deltaInodes: u32, deltaBlocks: u32)
      requires Ready() && g < GroupCount(View())
      modifies this`bgdt, this`sb, drive.sectors
      ensures View() == Recount(old(View()), g, deltaInodes, deltaBlocks) && Ready()
    {
      hide Geometry, UpdateGroup, UpdateSuper;
      UpdateBlockgroupDescriptor(g, deltaInodes, deltaBlocks);
      UpdateSuperblock(deltaInodes, deltaBlocks);
    }

    /** Sets or clears bit `index` of the bitmap in `block`: read, change one byte, write. */
    method FlipBit(block: nat, index: nat, used: bool)
      requires Ready() && block < |View().disk| && block > 2 && index < 8192
      modifies drive.sectors
      ensures View() == WriteAt(old(View()), block, Flip(old(View()).disk[block], index, used)) && Ready()
    {
      hide Geometry;
      var bitmap := new byte[1024];
      LoadBlock(block, bitmap);
      var byteIdx := index / 8;
      var bitPos := index % 8;
      if used {
        bitmap[byteIdx] := Set1(bitmap[byteIdx], bitPos);
      } else {
        bitmap[byteIdx] := Clear1(bitmap[byteIdx], bitPos);
      }
      WriteSame(View(), block, bitmap[..]);
      StoreBlock(block, bitmap);
    }

    method UpdateBlockBitmap(g: nat, b: u32, used: bool)
      requires Ready() && g < GroupCount(View())
      modifies this`bgdt, this`sb, drive.sectors
      ensures View() == SetBlockBit(old(View()), g, b, used) && Ready()
    {
      var p := BlockBitmap(g);
      PlaceOnDisk(View(), p);
      NotFixed(View(), p);
      ghost var fs1 := WriteAt(View(), At(View(), p), Flip(Content(View(), p), BlockIndex(View(), b), used));
      SamePlaces(View(), fs1);
      hide Geometry, Flip, Recount;
      FlipBit(bgdt[g].blockBitmap, b % sb.blocksPerGroup, used);
      if used {
        Recounted(g, 0, MINUS_ONE);
      } else {
        Recounted(g, 0, 1);
      }
    }

    method UpdateInodeBitmap(g: nat, n: u32, used: bool)
      requires Ready() && g < GroupCount(View()) && n > 0
      modifies this`bgdt, this`sb, drive.sectors
      ensures View() == SetInodeBit(old(View()), g, n, used) && Ready()
    {
      var p := InodeBitmap(g);
      PlaceOnDisk(View(), p);
      NotFixed(View(), p);
      ghost var fs1 := WriteAt(View(), At(View(), p), Flip(Content(View(), p), InodeIndex(View(), n), used));
      SamePlaces(View(), fs1);
      hide Geometry, Flip, Recount;
      FlipBit(bgdt[g].inodeBitmap, (n - 1) % sb.inodesPerGroup, used);
      if used {
        Recounted(g, MINUS_ONE, 0);
      } else {
        Recounted(g, 1, 0);
      }
    }

    method FindFreeBlock(g: nat) returns (b: nat)
      requires Ready() && g < GroupCount(View()) && ClearBlocks(View(), g) != {}
      ensures b == Ext2State.FindFreeBlock(View(), g)
    {
      PlaceOnDisk(View(), BlockBitmap(g));
      NotFixed(View(), BlockBitmap(g));
      Product(g, sb.blocksPerGroup);
      hide Geometry, Least, ClearBits;
      var bitmap := new byte[1024];
      LoadBlock(bgdt[g].blockBitmap, bitmap);
      assert bitmap[..] == Content(View(), BlockBitmap(g));
      var i := FirstClearBit(bitmap, sb.blocksPerGroup);
      b := g * sb.blocksPerGroup + i;
    }

    method FindFreeInode(g: nat) returns (n: nat)
      requires Ready() && g < GroupCount(View()) && ClearInodes(View(), g) != {}
      ensures n == Ext2State.FindFreeInode(View(), g)
    {
      PlaceOnDisk(View(), InodeBitmap(g));
      NotFixed(View(), InodeBitmap(g));
      Product(g, sb.inodesPerGroup);
      hide Geometry, Least, ClearBits;
      var bitmap := new byte[1024];
      LoadBlock(bgdt[g].inodeBitmap, bitmap);
      assert bitmap[..] == Content(View(), InodeBitmap(g));
      var i := FirstClearBit(bitmap, sb.inodesPerGroup);
      n := g * sb.inodesPerGroup + i + 1;
    }

    // ---------------------------------------------------------------- files

    /** The block for slot `k` of the inode in hand: the one there is, or a fresh one. */
    method ProvideBlock(n: u32, k: nat, ghost needed: nat) returns (blockNum: nat)
      requires Ready() && k < needed && Writing(View(), n, inode, k, needed)
      modifies this`bgdt, this`sb, this`inode, drive.sectors
      ensures Ready() && (View(), inode) == Provide(old(View()), n, old(inode), k, needed)
      ensures blockNum == inode.block[k]
    {
      hide Geometry, Provided, Writing, Inv, InodeMarked, ClearBlocks;
      ProvideOk(View(), n, inode, k, needed);
      WritingParts(View(), n, inode, k, needed);
      if inode.block[k] == 0 {
        var groupNumber := (n - 1) / sb.inodesPerGroup;
        HoleNeedsBlock(View(), n, inode, k, needed);
        blockNum := FindFreeBlock(groupNumber);
        TakeFits(View(), n, inode, k, needed);
        UpdateBlockBitmap(groupNumber, blockNum, true);
        inode := inode.(block := inode.block[k := blockNum]);
      } else {
        blockNum := inode.block[k];
      }
    }

    /** Fills the buffer with the next kilobyte of the data and zeros behind it. */
    method FillBuffer(buffer: array<byte>, data: seq<byte>, k: nat)
      requires buffer.Length == 1024 && 1024 * k <= |data|
      modifies buffer
      ensures buffer[..] == Chunk(data, k)
    {
      var dataOffset := 1024 * k;
      var bytesToWrite := |data| - dataOffset;
      if bytesToWrite > 1024 { bytesToWrite := 1024; }
      CopyIn(buffer, 0, data[dataOffset..dataOffset + bytesToWrite]);
      var i := bytesToWrite;
      while i < 1024
        invariant bytesToWrite <= i <= 1024
        invariant forall j | 0 <= j < bytesToWrite :: buffer[j] == data[dataOffset + j]
        invariant forall j | bytesToWrite <= j < i :: buffer[j] == 0
      {
        buffer[i] := 0;
        i := i + 1;
      }
      assert |Chunk(data, k)| == 1024;
    }

    /** The body of write_file's loop: one kilobyte goes to slot `k`. */
    method WriteSlot(n: u32, data: seq<byte>, k: nat, ghost needed: nat)
      requires Ready() && k < needed <= BlocksNeeded(data) && Writing(View(), n, inode, k, needed)
      modifies this`bgdt, this`sb, this`inode, drive.sectors
      ensures Ready() && Writing(View(), n, inode, k + 1, needed)
      ensures WriteBlocks(View(), n, inode, data, k + 1, needed) ==
          WriteBlocks(old(View()), n, old(inode), data, k, needed)
    {
      hide Geometry, Inv, Provide, WriteBlocks, Writing, KeepsOthers, WriteAt, Chunk, BlocksNeeded, InodeMarked, Holds;
      ghost var fs, ino := View(), inode;
      WritingParts(fs, n, ino, k, needed);
      WriteOne(fs, n, ino, data, k, needed);
      var blockNum := ProvideBlock(n, k, needed);
      var blockBuffer := new byte[1024];
      FillBuffer(blockBuffer, data, k);
      ProvidedNotSuper(fs, n, ino, data, k, needed);
      StoreBlock(blockNum, blockBuffer);
      WriteBlocksStep(fs, n, ino, data, k, needed, View(), inode);
    }

    /** write_file; `data` is the string without its terminator. */
    method WriteFile(n: u32, data: seq<byte>)
      requires Valid() && Allocated(View(), n) && |data| < 0x1_0000_0000 && EnoughBlocks(View(), n, data)
      modifies this`bgdt, this`sb, this`inode, drive.sectors
      ensures View() == Ext2Files.WriteFile(old(View()), n, data) && Valid()
    {
      hide Geometry, Inv, Allocated, Writing, WriteBlocks, InodeMarked, EditInode, EnoughBlocks, Ext2Files.WriteFile,
          BlocksNeeded, Normal, BlocksOf, ReadInode;
      AllocatedParts(View(), Clean, n);
      WriteFileIs(View(), n, data);
      if |data| == 0 { return; }
      LoadInode(n);
      var fileType := inode.mode / 0x1000;
      if fileType != 8 { return; }
      var blocksNeeded := U32(|data| + 1023) / 1024;
      NeededDef(data);
      if blocksNeeded > 12 { return; }
      ghost var fs0, ino0 := View(), inode;
      var blockIdx := 0;
      while blockIdx < blocksNeeded
        invariant blockIdx <= blocksNeeded && Ready()
        invariant Writing(View(), n, inode, blockIdx, blocksNeeded)
        invariant WriteBlocks(View(), n, inode, data, blockIdx, blocksNeeded) ==
            WriteBlocks(fs0, n, ino0, data, 0, blocksNeeded)
      {
        WriteSlot(n, data, blockIdx, blocksNeeded);
        blockIdx := blockIdx + 1;
      }
      WriteBlocksEnd(View(), n, inode, data, blocksNeeded);
      inode := inode.(size := |data|);
      inode := inode.(sectors := blocksNeeded * 2);
      EditInodeTable(n, inode);
    }

    /** The first `count` bytes of a block, by way of a 1024-byte buffer. */
    method LoadPart(block: nat, count: nat) returns (part: seq<byte>)
      requires Ready() && block < |View().disk| && block != 1 && count <= 1024
      ensures part == View().disk[block][..count]
    {
      hide Geometry, Normal;
      var blockBuffer := new byte[1024];
      LoadBlock(block, blockBuffer);
      part := blockBuffer[..count];
      assert part == blockBuffer[..][..count];
    }

    /** The loop of read_file that fills the buffer; returns how many bytes it delivered. */
    method ReadIntoBuffer(buffer: array<byte>, bytesToRead: u32) returns (bytesRead: nat)
      requires Ready() && bytesToRead <= buffer.Length && Readable(View().disk, inode)
      requires forall i | 0 <= i < 12 :: inode.block[i] != 1
      modifies buffer
      ensures View() == old(View()) && bytesRead <= bytesToRead
      ensures buffer[..] == Splice(old(buffer[..]), 0, ReadFrom(View().disk, inode, bytesToRead, 0, 0))
      ensures bytesRead == |ReadFrom(View().disk, inode, bytesToRead, 0, 0)|
    {
      hide Geometry, ReadFrom, Normal, BlocksOf, Splice, Readable;
      ghost var disk := View().disk;
      ghost var done: seq<byte> := [];
      SpliceNone(buffer[..]);
      bytesRead := 0;
      var blockIdx := 0;
      while blockIdx < 12
        invariant blockIdx <= 12 && |done| == bytesRead <= bytesToRead
        invariant done + ReadFrom(disk, inode, bytesToRead, bytesRead, blockIdx) ==
            ReadFrom(disk, inode, bytesToRead, 0, 0)
        invariant buffer[..] == Splice(old(buffer[..]), 0, done)
      {
        var blockNum := inode.block[blockIdx];
        if blockNum == 0 { break; }
        SlotReadable(disk, inode, blockIdx);
        ReadStep(disk, inode, bytesToRead, bytesRead, blockIdx);
        var bytesInBlock := bytesToRead - bytesRead;
        if bytesInBlock > 1024 { bytesInBlock := 1024; }
        var part := LoadPart(blockNum, bytesInBlock);
        CopyIn(buffer, bytesRead, part);
        SpliceMore(old(buffer[..]), done, part);
        bytesRead := bytesRead + bytesInBlock;
        if bytesRead >= bytesToRead {
          done := done + part;
          return;
        }
        JoinParts(done, part, ReadFrom(disk, inode, bytesToRead, bytesRead, blockIdx + 1));
        done := done + part;
        blockIdx := blockIdx + 1;
      }
      NothingLeft(disk, inode, bytesToRead, bytesRead, blockIdx);
    }

    /** The same loop when there is no buffer: the bytes go to the terminal one by one. */
    method ReadToTerminal(bytesToRead: u32) returns (printed: seq<byte>)
      requires Ready() && Readable(View().disk, inode)
      requires forall i | 0 <= i < 12 :: inode.block[i] != 1
      ensures printed == ReadFrom(View().disk, inode, bytesToRead, 0, 0)
    {
      hide Geometry, ReadFrom, Normal;
      ghost var disk := View().disk;
      printed := [];
      var bytesRead: nat := 0;
      var blockIdx := 0;
      while blockIdx < 12
        invariant blockIdx <= 12 && bytesRead <= bytesToRead
        invariant printed + ReadFrom(disk, inode, bytesToRead, bytesRead, blockIdx) ==
            ReadFrom(disk, inode, bytesToRead, 0, 0)
      {
        var blockNum := inode.block[blockIdx];
        if blockNum == 0 { break; }
        ReadStep(disk, inode, bytesToRead, bytesRead, blockIdx);
        var bytesInBlock := bytesToRead - bytesRead;
        if bytesInBlock > 1024 { bytesInBlock := 1024; }
        var part := LoadPart(blockNum, bytesInBlock);
        ghost var before := printed;
        printed := PutChars(printed, part);
        bytesRead := bytesRead + bytesInBlock;
        if bytesRead >= bytesToRead { return; }
        JoinParts(before, part, ReadFrom(disk, inode, bytesToRead, bytesRead, blockIdx + 1));
        blockIdx := blockIdx + 1;
      }
      NothingLeft(disk, inode, bytesToRead, bytesRead, blockIdx);
    }

    /** read_file: into a buffer, or, when there is none, onto the terminal. `printed` is the
        content that went to the terminal, without the messages around it. */
    method ReadFile(n: u32, buffer: array?<byte>, maxSize: u32) returns (printed: seq<byte>)
      requires Valid() && Allocated(View(), n)
      requires buffer != null ==> maxSize <= buffer.Length && buffer.Length > 0
      modifies this`inode, buffer
      ensures View() == old(View()) && Valid() && Readable(View().disk, ReadInode(View(), n))
      ensures buffer == null ==> printed == Delivered(View(), n, ReadInode(View(), n).size)
      ensures buffer != null ==> printed == []
      ensures buffer != null && FileType(ReadInode(View(), n)) != REGULAR ==> buffer[..] == old(buffer[..])
      ensures buffer != null && FileType(ReadInode(View(), n)) == REGULAR ==>
        var d := Delivered(View(), n, maxSize);
        && |d| <= maxSize
        && buffer[..] == (if |d| < maxSize || ReadInode(View(), n).size == 0
                          then Splice(old(buffer[..]), 0, d + [0]) else Splice(old(buffer[..]), 0, d))
    {
      hide Geometry, Inv, InodeMarked, ReadFrom, ReadInode, Normal;
      FileBlocks(View(), n);
      printed := [];
      LoadInode(n);
      var fileType := inode.mode / 0x1000;
      if fileType != 8 { return; }
      if inode.size == 0 {
        if buffer != null { buffer[0] := 0; }
        return;
      }
      var bytesToRead := inode.size;
      if buffer != null && bytesToRead > maxSize { bytesToRead := maxSize; }
      if buffer != null {
        var bytesRead := ReadIntoBuffer(buffer, bytesToRead);
        if bytesRead < maxSize {
          buffer[bytesRead] := 0;
        }
      } else {
        printed := ReadToTerminal(bytesToRead);
      }
    }

    /** The loop of print_file. */
    method PrintLoop() returns (printed: seq<byte>)
      requires Ready() && Readable(View().disk, inode)
      requires forall i | 0 <= i < 12 :: inode.block[i] != 1
      ensures printed == PrintFrom(View().disk, inode, inode.size, 0)
    {
      hide Geometry, PrintFrom, Normal;
      ghost var disk := View().disk;
      printed := [];
      var bytesRemaining: nat := inode.size;
      var blockIdx := 0;
      while blockIdx < 12 && bytesRemaining > 0
        invariant blockIdx <= 12
        invariant printed + PrintFrom(disk, inode, bytesRemaining, blockIdx) == PrintFrom(disk, inode, inode.size, 0)
      {
        var blockNum := inode.block[blockIdx];
        if blockNum == 0 { break; }
        PrintStep(disk, inode, bytesRemaining, blockIdx);
        var bytesToPrint := bytesRemaining;
        if bytesToPrint > 1024 { bytesToPrint := 1024; }
        var part := LoadPart(blockNum, bytesToPrint);
        JoinParts(printed, part, PrintFrom(disk, inode, bytesRemaining - bytesToPrint, blockIdx + 1));
        printed := PutChars(printed, part);
        bytesRemaining := bytesRemaining - bytesToPrint;
        blockIdx := blockIdx + 1;
      }
      NothingPrinted(disk, inode, bytesRemaining, blockIdx);
    }

    /** print_file: the content it prints, without the lines around it, is what read_file prints. */
    method PrintFile(n: u32) returns (printed: seq<byte>)
      requires Valid() && Allocated(View(), n)
      modifies this`inode
      ensures View() == old(View()) && Valid() && Readable(View().disk, ReadInode(View(), n))
      ensures printed == Delivered(View(), n, ReadInode(View(), n).size)
    {
      hide Geometry, Inv, InodeMarked, ReadFrom, PrintFrom, ReadInode, Normal;
      FileBlocks(View(), n);
      printed := [];
      LoadInode(n);
      var fileType := inode.mode / 0x1000;
      if fileType != 8 { return; }
      if inode.size == 0 { return; }
      printed := PrintLoop();
      PrintIsRead(View().disk, inode, inode.size, 0, 0);
    }

    // ---------------------------------------------------------------- directories

    /** One block of the search in add_directory_entry: walks the records, and puts the entry
        into the buffer where there is room. `size` is the length stored in the entry. */
    method PlaceInBlock(buffer: array<byte>, e: Record, size: u16) returns (placed: bool, end: nat, newSize: u16)
      requires buffer.Length == 1024 && Searchable(buffer[..], 0, e.name)
      modifies buffer
      ensures placed ==> PlaceEntry(old(buffer[..]), 0, e.(size := size)) == Placed(buffer[..], end)
      ensures !placed ==> PlaceEntry(old(buffer[..]), 0, e.(size := size)) == NoRoom(newSize)
    {
      hide RecordBytes, HalfBytes, Splice, PlaceEntry, Searchable, RInode, RSize, RNameLength;
      ghost var buf: Block := buffer[..];
      ghost var added := e.(size := size);
      newSize, end := size, 0;
      var offset := 0;
      while offset < 1024
        invariant buffer[..] == buf
        invariant Searchable(buf, offset, e.name) && PlaceEntry(buf, offset, added) == PlaceEntry(buf, 0, added)
      {
        PlaceStep(buf, offset, added);
        if RInode(buffer[..], offset) == 0 || RSize(buffer[..], offset) == 0 {
          var entrySize := Align4(8 + |e.name|);
          if offset + entrySize <= 1024 {
            CopyIn(buffer, offset, RecordBytes(e.(size := entrySize)));
            return true, offset + entrySize, entrySize;
          }
          return false, 0, entrySize;
        }
        var currentSize := RSize(buffer[..], offset);
        var actualSize := Align4(8 + RNameLength(buffer[..], offset));
        if currentSize > actualSize {
          var available := currentSize - actualSize;
          var needed := Align4(8 + |e.name|);
          if available >= needed {
            CopyIn(buffer, offset + 4, HalfBytes(actualSize));
            CopyIn(buffer, offset + actualSize, RecordBytes(e.(size := available)));
            return true, 0, available;
          }
        }
        if currentSize < 8 { return false, 0, size; }
        offset := offset + currentSize;
      }
      PlaceAtEnd(buf, offset, added);
      return false, 0, size;
    }

    /** The search of add_directory_entry over the blocks of the directory in hand. It ends with
        a block that took the entry, at a hole, or behind the last slot. */
    method SearchDirectory(e: Record) returns (d: Decision)
      requires Ready() && DirSearchable(View().disk, inode, e, 0)
      requires forall i | 0 <= i < 12 :: inode.block[i] != 1
      ensures d == Search(View().disk, inode, e, 0)
    {
      hide Geometry, Normal, Search, DirSearchable, Searchable, PlaceEntry;
      ghost var disk := View().disk;
      var size := e.size;
      var blockIdx := 0;
      assert e.(size := size) == e;
      while blockIdx < 12
        invariant blockIdx <= 12 && DirSearchable(disk, inode, e.(size := size), blockIdx)
        invariant Search(disk, inode, e.(size := size), blockIdx) == Search(disk, inode, e, 0)
      {
        SearchStep(disk, inode, e.(size := size), blockIdx);
        var blockNum := inode.block[blockIdx];
        if blockNum == 0 {
          return Extend(blockIdx, e.(size := size));
        }
        var blockBuffer := new byte[1024];
        LoadBlock(blockNum, blockBuffer);
        var placed, end, newSize := PlaceInBlock(blockBuffer, e, size);
        if placed {
          return Put(blockIdx, blockBuffer[..], end);
        }
        size := newSize;
        blockIdx := blockIdx + 1;
      }
      SearchDone(disk, inode, e.(size := size));
      return Full;
    }

    /** The branch of add_directory_entry for a hole: a new block with the entry at its start. */
    method GrowDirectory(parent: u32, k: nat, e: Record)
      requires Valid() && Allocated(View(), parent) && k < 12 && inode == ReadInode(View(), parent) &&
          inode.block[k] == 0
      requires ClearBlocks(View(), GroupOfInode(View(), parent)) != {}
      modifies this`bgdt, this`sb, this`inode, drive.sectors
      ensures Ready() && View() == ExtendDir(old(View()), parent, k, e)
    {
      hide Geometry, Inv, InodeMarked, ReadInode, ClearBlocks, FreshBlock, Ext2State.FindFreeBlock, SetBlockBit,
          WriteAt, EditInode, KeepsOthers, BlockTaken;
      ghost var fs0 := View();
      ExtendParts(fs0, parent, k, e);
      var groupNumber := (parent - 1) / sb.inodesPerGroup;
      var blockNum := FindFreeBlock(groupNumber);
      UpdateBlockBitmap(groupNumber, blockNum, true);
      inode := inode.(block := inode.block[k := blockNum]);
      inode := inode.(size := U32(inode.size + 1024));
      inode := inode.(sectors := U32(inode.sectors + 2));
      var blockBuffer := FreshBuffer(e);
      StoreBlock(blockNum, blockBuffer);
      EditInodeTable(parent, inode);
    }

    /** add_directory_entry */
    method AddDirectoryEntry(parent: u32, e: Record)
      requires Valid() && Allocated(View(), parent) && CanAdd(View(), parent, e)
      modifies this`bgdt, this`sb, this`inode, drive.sectors
      ensures View() == AddEntry(old(View()), parent, e) && Valid()
    {
      hide Geometry, Inv, InodeMarked, ReadInode, ClearBlocks, Search, DirSearchable, PutEntry, ExtendDir, KeepsOthers,
          EditInode, WriteAt;
      ghost var fs0 := View();
      FileBlocks(fs0, parent);
      AddEntryKeeps(fs0, parent, e);
      LoadInode(parent);
      var fileType := inode.mode / 0x1000;
      if fileType != 4 { return; }
      var d := SearchDirectory(e);
      match d
      case Full =>
      case Extend(k, e') => GrowDirectory(parent, k, e');
      case Put(k, buf, end) =>
        PutParts(fs0, parent, k, buf, end);
        var blockBuffer := new byte[1024];
        CopyIn(blockBuffer, 0, buf);
        assert blockBuffer[..] == buf;
        StoreBlock(inode.block[k], blockBuffer);
        if end > inode.size {
          inode := inode.(size := U32(end));
          EditInodeTable(parent, inode);
        }
    }

    /** read_directory_entries: the records whose fields it prints, in order. */
    method ReadDirectoryEntries(n: u32) returns (listed: seq<Record>)
      requires Valid() && Allocated(View(), n)
      requires FileType(ReadInode(View(), n)) == DIRECTORY ==> DirWalkable(View().disk, ReadInode(View(), n), 0)
      modifies this`inode
      ensures View() == old(View()) && Valid()
      ensures FileType(ReadInode(View(), n)) == DIRECTORY ==> listed == Listing(View().disk, ReadInode(View(), n), 0)
      ensures FileType(ReadInode(View(), n)) != DIRECTORY ==> listed == []
    {
      hide Geometry, Inv, InodeMarked, ReadInode, Normal;
      FileBlocks(View(), n);
      LoadInode(n);
      var fileType := inode.mode / 0x1000;
      if fileType != 4 { return []; }
      listed := ListDirectory();
    }

    // ---------------------------------------------------------------- creating and deleting

    /** create_file; the string is cut after 255 bytes. */
    method CreateFile(parent: u32, filename: seq<byte>)
      requires Valid() && Allocated(View(), parent) && CanCreate(View(), parent, filename)
      modifies this`bgdt, this`sb, this`inode, drive.sectors
      ensures View() == Ext2Ops.CreateFile(old(View()), parent, filename) && Valid()
    {
      hide Geometry, Inv, InodeMarked, ReadInode, ClearInodes, CanAdd, AddEntry, KeepsOthers, EditInode, SetInodeBit,
        Ext2State.FindFreeInode, WithInode, InodeNew, DirWalkable, Listing, DirTiled;
      ghost var fs0 := View();
      CreateParts(fs0, parent, filename);
      var groupNumber := (parent - 1) / sb.inodesPerGroup;
      var freeInode := FindFreeInode(groupNumber);
      UpdateInodeBitmap(groupNumber, freeInode, true);
      var newInode := EMPTY_INODE.(mode := 0x81A4, links := 1);
      EditInodeTable(freeInode, newInode);
      var nameLength := 0;
      while nameLength < |filename| && nameLength < 255
        invariant nameLength <= |filename| && nameLength <= 255
      {
        nameLength := nameLength + 1;
      }
      assert filename[..nameLength] == filename[..Min(|filename|, 255)];
      var newEntry := Record(freeInode, 0, 1, filename[..nameLength]);
      AddDirectoryEntry(parent, newEntry);
    }

    /** delete_file */
    method DeleteFile(n: u32)
      requires Valid() && Allocated(View(), n)
      modifies this`bgdt, this`sb, this`inode, drive.sectors
      ensures View() == Ext2Ops.DeleteFile(old(View()), n) && Valid()
    {
      hide Geometry, Inv, InodeMarked, ReadInode, KeepsOthers, EditInode, SetInodeBit, InodeSet;
      ghost var fs0 := View();
      FileBlocks(fs0, n);
      DeleteFileKeeps(fs0, n);
      DropInode(fs0, n);
      LoadInode(n);
      var blockGroup := (n - 1) / sb.inodesPerGroup;
      UpdateInodeBitmap(blockGroup, n, false);
      DroppedValid(fs0, View(), n);
      EditInodeTable(n, EMPTY_INODE);
    }

    method ListDirectory() returns (listed: seq<Record>)
      requires Ready() && DirWalkable(View().disk, inode, 0)
      requires forall i | 0 <= i < 12 :: inode.block[i] != 1
      ensures listed == Listing(View().disk, inode, 0)
    {
      hide Geometry, Normal, DirWalkable, Listing, Walkable, Walk;
      ghost var disk := View().disk;
      listed := [];
      var blockIdx := 0;
      while blockIdx < 12
        invariant blockIdx <= 12 && DirWalkable(disk, inode, blockIdx)
        invariant listed + Listing(disk, inode, blockIdx) == Listing(disk, inode, 0)
      {
        ListingStep(disk, inode, blockIdx);
        var blockNum := inode.block[blockIdx];
        if blockNum == 0 { return; }
        var blockBuffer := new byte[1024];
        LoadBlock(blockNum, blockBuffer);
        var entries := ListBlock(blockBuffer[..]);
        ListedMore(listed, entries, Listing(disk, inode, blockIdx + 1));
        listed := listed + entries;
        blockIdx := blockIdx + 1;
      }
      ListingDone(disk, inode);
    }
  }

  /** The inner loop of read_directory_entries over one block. */
  method ListBlock(buf: Block) returns (listed: seq<Record>)
    requires Walkable(buf, 0)
    ensures listed == Walk(buf, 0)
  {
    hide RInode, RSize, RNameLength, Walk, Walkable, RecordAt;
    listed := [];
    var offset := 0;
    while offset < 1024
      invariant Walkable(buf, offset)
      invariant listed + Walk(buf, offset) == Walk(buf, 0)
    {
      WalkStep(buf, offset);
      if RInode(buf, offset) == 0 || RSize(buf, offset) == 0 { return; }
      ListedMore(listed, [RecordAt(buf, offset)],
                 if RSize(buf, offset) < 8 then [] else Walk(buf, offset + RSize(buf, offset)));
      listed := listed + [RecordAt(buf, offset)];
      if RSize(buf, offset) < 8 { return; }
      offset := offset + RSize(buf, offset);
    }
    WalkDone(buf, offset);
  }

  lemma ListedMore(a: seq<Record>, b: seq<Record>, c: seq<Record>)
    ensures (a + b) + c == a + (b + c)
    ensures c == [] ==> a + b == a + (b + c)
  {
  }
}
