/** The on-disk structures of ext2 as include/ext2.h declares them, and the bytes they occupy:
    every structure is a sequence of little-endian 32-bit words. */
module Ext2Layout {
  import opened Bits

  type u16 = x: int | 0 <= x < 0x1_0000
  type u32 = x: int | 0 <= x < 0x1_0000_0000
  type Block = b: seq<byte> | |b| == 1024 witness Zeros(1024)

  function Zeros(n: nat): (r: seq<byte>)
    ensures |r| == n && forall i | 0 <= i < n :: r[i] == 0
  {
    seq(n, _ => 0)
  }

  /** uint32_t and uint16_t arithmetic. */
  function U32(x: int): u32 { x % 0x1_0000_0000 }
  function U16(x: int): u16 { x % 0x1_0000 }

  // ------------------------------------------------------------------ words

  function ByteOf(w: u32, k: nat): byte
    requires k < 4
  {
    if k == 0 then w % 256 else if k == 1 then w / 0x100 % 256
    else if k == 2 then w / 0x1_0000 % 256 else w / 0x100_0000
  }

  function WordOf(a: byte, b: byte, c: byte, d: byte): u32 {
    a + 0x100 * b + 0x1_0000 * c + 0x100_0000 * d
  }

  lemma WordRoundTrip(w: u32)
    ensures WordOf(ByteOf(w, 0), ByteOf(w, 1), ByteOf(w, 2), ByteOf(w, 3)) == w
  {
    var x := w / 0x100;
    var y := x / 0x100;
    assert w / 0x1_0000 == y && w / 0x100_0000 == y / 0x100;
  }

  lemma BytesRoundTrip(a: byte, b: byte, c: byte, d: byte)
    ensures var w := WordOf(a, b, c, d);
            ByteOf(w, 0) == a && ByteOf(w, 1) == b && ByteOf(w, 2) == c && ByteOf(w, 3) == d
  {
    var w := WordOf(a, b, c, d);
    assert w / 0x100 == b + 0x100 * c + 0x1_0000 * d;
    assert w / 0x1_0000 == c + 0x100 * d;
  }

  /** A word is its four bytes, the lowest first. */
  lemma WordIsNumber(bs: seq<byte>, o: nat)
    requires o + 4 <= |bs|
    ensures WordOf(bs[o], bs[o + 1], bs[o + 2], bs[o + 3]) == LittleEndian(bs[o..o + 4])
    ensures LittleEndian(bs[o..o + 2]) == WordOf(bs[o], bs[o + 1], bs[o + 2], bs[o + 3]) % 0x1_0000
    ensures LittleEndian(bs[o + 2..o + 4]) == WordOf(bs[o], bs[o + 1], bs[o + 2], bs[o + 3]) / 0x1_0000
  {
    hide LittleEndian;
    FourBytes(bs[o..o + 4]);
    TwoBytes(bs[o..o + 2]);
    TwoBytes(bs[o + 2..o + 4]);
  }

  function Encode(ws: seq<u32>): (bs: seq<byte>)
    ensures |bs| == 4 * |ws|
  {
    seq(4 * |ws|, k requires 0 <= k < 4 * |ws| => ByteOf(ws[k / 4], k % 4))
  }

  function Decode(bs: seq<byte>): (ws: seq<u32>)
    ensures |ws| == |bs| / 4
  {
    seq(|bs| / 4, k requires 0 <= k < |bs| / 4 => WordOf(bs[4 * k], bs[4 * k + 1], bs[4 * k + 2], bs[4 * k + 3]))
  }

  lemma ByteAt(ws: seq<u32>, k: nat, j: nat)
    requires k < |ws| && j < 4
    ensures Encode(ws)[4 * k + j] == ByteOf(ws[k], j)
  {
    assert (4 * k + j) / 4 == k && (4 * k + j) % 4 == j;
  }

  lemma WordBack(ws: seq<u32>, k: nat)
    requires k < |ws|
    ensures Decode(Encode(ws))[k] == ws[k]
  {
    hide ByteOf, WordOf, Encode;
    ByteAt(ws, k, 0);
    ByteAt(ws, k, 1);
    ByteAt(ws, k, 2);
    ByteAt(ws, k, 3);
    WordRoundTrip(ws[k]);
  }

  /** Word `k` starts at byte `4 * k`. */
  lemma WordAt(bs: seq<byte>, k: nat)
    requires k < |bs| / 4
    ensures Decode(bs)[k] == LittleEndian(bs[4 * k..4 * k + 4])
    ensures Decode(bs)[k] % 0x1_0000 == LittleEndian(bs[4 * k..4 * k + 2])
    ensures Decode(bs)[k] / 0x1_0000 == LittleEndian(bs[4 * k + 2..4 * k + 4])
  {
    hide WordOf, LittleEndian;
    WordIsNumber(bs, 4 * k);
  }

  lemma DecodeEncode(ws: seq<u32>)
    ensures Decode(Encode(ws)) == ws
  {
    hide Encode, Decode;
    forall k | 0 <= k < |ws| ensures Decode(Encode(ws))[k] == ws[k] {
      WordBack(ws, k);
    }
  }

  lemma EncodeDecode(bs: seq<byte>)
    requires |bs| % 4 == 0
    ensures Encode(Decode(bs)) == bs
  {
    hide ByteOf, WordOf;
    forall k | 0 <= k < |bs| ensures Encode(Decode(bs))[k] == bs[k] {
      var j := k / 4 * 4;
      BytesRoundTrip(bs[j], bs[j + 1], bs[j + 2], bs[j + 3]);
    }
  }

  // ------------------------------------------------------------------ structures

  type Words4 = s: seq<u32> | |s| == 4 witness [0, 0, 0, 0]
  type Words10 = s: seq<u32> | |s| == 10 witness [0, 0, 0, 0, 0, 0, 0, 0, 0, 0]
  type Words12 = s: seq<u32> | |s| == 12 witness [0, 0, 0, 0, 0, 0, 0, 0, 0, 0, 0, 0]

  /** struct ext2_inode; `rest` runs from the indirect blocks to the end. */
  datatype Inode = Inode(
    mode: u16, uid: u16, size: u32, times: Words4, gid: u16, links: u16,
    sectors: u32, flags: u32, osd1: u32, block: Words12, rest: Words10)

  const EMPTY_INODE: Inode :=
    Inode(0, 0, 0, [0, 0, 0, 0], 0, 0, 0, 0, 0, [0, 0, 0, 0, 0, 0, 0, 0, 0, 0, 0, 0], [0, 0, 0, 0, 0, 0, 0, 0, 0, 0])

  /** `(type_and_permissions >> 12) & 0xF` */
  function FileType(i: Inode): nat { i.mode / 0x1000 }

  /** The inode with block `b` in slot `k`. */
  function WithBlock(i: Inode, k: nat, b: u32): Inode
    requires k < 12
  {
    i.(block := i.block[k := b])
  }

  /** The slot of the first hole, 12 if there is none. */
  function FirstHole(ino: Inode, k: nat): (h: nat)
    requires k <= 12
    ensures k <= h <= 12 && (forall i | k <= i < h :: ino.block[i] != 0) && (h < 12 ==> ino.block[h] == 0)
    decreases 12 - k
  {
    if k == 12 || ino.block[k] == 0 then k else FirstHole(ino, k + 1)
  }

  const DIRECTORY: nat := 4
  const REGULAR: nat := 8

  function Pair(low: u16, high: u16): u32 { low + 0x1_0000 * high }

  function InodeWords(i: Inode): (ws: seq<u32>)
    ensures |ws| == 32
  {
    HeadWords(i) + i.block + i.rest
  }

  function HeadWords(i: Inode): (ws: seq<u32>)
    ensures |ws| == 10
  {
    [Pair(i.mode, i.uid), i.size] + i.times + [Pair(i.gid, i.links), i.sectors, i.flags, i.osd1]
  }

  function InodeOf(ws: seq<u32>): Inode
    requires |ws| == 32
  {
    Inode(ws[0] % 0x1_0000, ws[0] / 0x1_0000, ws[1], ws[2..6], ws[6] % 0x1_0000, ws[6] / 0x1_0000,
          ws[7], ws[8], ws[9], ws[10..22], ws[22..32])
  }

  function EncodeInode(i: Inode): (bs: seq<byte>)
    ensures |bs| == 128
  {
    Encode(InodeWords(i))
  }

  function DecodeInode(bs: seq<byte>): Inode
    requires |bs| == 128
  {
    InodeOf(Decode(bs))
  }

  lemma InodeRoundTrip(i: Inode)
    ensures DecodeInode(EncodeInode(i)) == i
  {
    hide Encode, Decode;
    DecodeEncode(InodeWords(i));
    var ws, head := InodeWords(i), HeadWords(i);
    assert ws[..10] == head && ws[10..22] == i.block && ws[22..32] == i.rest;
    assert forall k | 0 <= k < 10 :: ws[k] == head[k];
    assert ws[2..6] == head[2..6] == i.times;
  }

  /** ... and the 128 bytes survive being read as one. */
  lemma InodeBack(bs: seq<byte>)
    requires |bs| == 128
    ensures EncodeInode(DecodeInode(bs)) == bs
  {
    hide Encode, Decode;
    WordsOfInode(Decode(bs));
    EncodeDecode(bs);
  }

  lemma WordsOfInode(ws: seq<u32>)
    requires |ws| == 32
    ensures InodeWords(InodeOf(ws)) == ws
  {
    var i := InodeOf(ws);
    assert HeadWords(i) == ws[..10];
    assert ws == ws[..10] + ws[10..22] + ws[22..32];
  }

  /** Byte `k` of an inode that is zero but for mode and link count. */
  lemma NewInodeBytes(mode: u16, links: u16, k: nat)
    requires k < 128
    ensures EncodeInode(EMPTY_INODE.(mode := mode, links := links))[k] ==
              if k == 0 then mode % 0x100 else if k == 1 then mode / 0x100
              else if k == 26 then links % 0x100 else if k == 27 then links / 0x100 else 0
  {
    hide ByteOf, Encode;
    var i := EMPTY_INODE.(mode := mode, links := links);
    var ws := InodeWords(i);
    ByteAt(ws, k / 4, k % 4);
    FreshWord(mode, links, k / 4);
    PairBytes(if k / 4 == 0 then mode else 0, if k / 4 == 6 then links else 0, k % 4);
  }

  lemma FreshWord(mode: u16, links: u16, k: nat)
    requires k < 32
    ensures InodeWords(EMPTY_INODE.(mode := mode, links := links))[k] ==
              Pair(if k == 0 then mode else 0, if k == 6 then links else 0)
  {
  }

  lemma PairBytes(low: u16, high: u16, k: nat)
    requires k < 4
    ensures ByteOf(Pair(low, high), k) ==
              if k == 0 then low % 0x100 else if k == 1 then low / 0x100
              else if k == 2 then high % 0x100 else high / 0x100
  {
    hide ByteOf;
    BytesRoundTrip(low % 0x100, low / 0x100, high % 0x100, high / 0x100);
    assert WordOf(low % 0x100, low / 0x100, high % 0x100, high / 0x100) == Pair(low, high);
  }

  /** The bytes of each field, as the C structure lays them out. */
  lemma InodeFields(bs: seq<byte>)
    requires |bs| == 128
    ensures var i := DecodeInode(bs);
      && i.mode == LittleEndian(bs[0..2]) && i.uid == LittleEndian(bs[2..4]) && i.size == LittleEndian(bs[4..8])
      && (forall k | 0 <= k < 4 :: i.times[k] == LittleEndian(bs[8 + 4 * k..12 + 4 * k]))
      && i.gid == LittleEndian(bs[24..26]) && i.links == LittleEndian(bs[26..28])
      && i.sectors == LittleEndian(bs[28..32]) && i.flags == LittleEndian(bs[32..36])
      && i.osd1 == LittleEndian(bs[36..40])
      && (forall k | 0 <= k < 12 :: i.block[k] == LittleEndian(bs[40 + 4 * k..44 + 4 * k]))
      && forall k | 0 <= k < 10 :: i.rest[k] == LittleEndian(bs[88 + 4 * k..92 + 4 * k])
  {
    hide Decode, LittleEndian;
    forall k: nat | k < 32
      ensures Decode(bs)[k] == LittleEndian(bs[4 * k..4 * k + 4])
      ensures Decode(bs)[k] % 0x1_0000 == LittleEndian(bs[4 * k..4 * k + 2])
      ensures Decode(bs)[k] / 0x1_0000 == LittleEndian(bs[4 * k + 2..4 * k + 4])
    {
      WordAt(bs, k);
    }
    var w := Decode(bs);
    assert forall k | 0 <= k < 4 :: w[2..6][k] == w[2 + k];
    assert forall k | 0 <= k < 12 :: w[10..22][k] == w[10 + k];
    assert forall k | 0 <= k < 10 :: w[22..32][k] == w[22 + k];
  }

  /** The file type is the topmost four bits of the mode. */
  lemma FileTypeIs(i: Inode)
    ensures FileType(i) == REGULAR <==> 0x8000 <= i.mode < 0x9000
    ensures FileType(i) == DIRECTORY <==> 0x4000 <= i.mode < 0x5000
  {
  }

  /** struct ext2_superblock; `rest` runs from the mount times to the end. */
  datatype Superblock = Superblock(
    totalInodes: u32, totalBlocks: u32, reserved: u32, freeBlocks: u32, freeInodes: u32,
    firstBlock: u32, blockSize: u32, fragmentSize: u32, blocksPerGroup: u32, fragmentsPerGroup: u32,
    inodesPerGroup: u32, rest: Words10)

  function SuperWords(s: Superblock): (ws: seq<u32>)
    ensures |ws| == 21
  {
    [s.totalInodes, s.totalBlocks, s.reserved, s.freeBlocks, s.freeInodes, s.firstBlock, s.blockSize,
     s.fragmentSize, s.blocksPerGroup, s.fragmentsPerGroup, s.inodesPerGroup] + s.rest
  }

  function SuperOf(w: seq<u32>): Superblock
    requires |w| == 21
  {
    Superblock(w[0], w[1], w[2], w[3], w[4], w[5], w[6], w[7], w[8], w[9], w[10], w[11..])
  }

  function EncodeSuper(s: Superblock): (bs: seq<byte>)
    ensures |bs| == 84
  {
    Encode(SuperWords(s))
  }

  function DecodeSuper(bs: seq<byte>): Superblock
    requires |bs| == 84
  {
    SuperOf(Decode(bs))
  }

  /** Parsing a superblock loses nothing of its 84 bytes. */
  lemma SuperRoundTrip(bs: seq<byte>)
    requires |bs| == 84
    ensures EncodeSuper(DecodeSuper(bs)) == bs
  {
    hide Encode, Decode;
    assert SuperWords(SuperOf(Decode(bs))) == Decode(bs);
    EncodeDecode(bs);
  }

  /** ... and what was written is what is parsed. */
  lemma SuperBack(s: Superblock)
    ensures DecodeSuper(EncodeSuper(s)) == s
  {
    hide Encode, Decode;
    DecodeEncode(SuperWords(s));
    assert SuperWords(s)[11..] == s.rest;
  }

  lemma SuperFields(bs: seq<byte>)
    requires |bs| == 84
    ensures var s := DecodeSuper(bs);
      && s.totalInodes == LittleEndian(bs[0..4]) && s.totalBlocks == LittleEndian(bs[4..8])
      && s.reserved == LittleEndian(bs[8..12]) && s.freeBlocks == LittleEndian(bs[12..16])
      && s.freeInodes == LittleEndian(bs[16..20]) && s.firstBlock == LittleEndian(bs[20..24])
      && s.blockSize == LittleEndian(bs[24..28]) && s.fragmentSize == LittleEndian(bs[28..32])
      && s.blocksPerGroup == LittleEndian(bs[32..36]) && s.fragmentsPerGroup == LittleEndian(bs[36..40])
      && s.inodesPerGroup == LittleEndian(bs[40..44])
      && forall k | 0 <= k < 10 :: s.rest[k] == LittleEndian(bs[44 + 4 * k..48 + 4 * k])
  {
    hide Decode, LittleEndian;
    forall k: nat | k < 21 ensures Decode(bs)[k] == LittleEndian(bs[4 * k..4 * k + 4]) {
      WordAt(bs, k);
    }
    assert forall k | 0 <= k < 10 :: Decode(bs)[11..][k] == Decode(bs)[11 + k];
  }

  /** struct ext2_group_descriptor; `rest` is the directory count and the reserved bytes. */
  datatype Group = Group(
    blockBitmap: u32, inodeBitmap: u32, inodeTable: u32, freeBlocks: u16, freeInodes: u16, rest: Words4)

  type Groups = s: seq<Group> | |s| == 32 witness seq(32, _ => Group(0, 0, 0, 0, 0, [0, 0, 0, 0]))

  function GroupWords(g: Group): (ws: seq<u32>)
    ensures |ws| == 8
  {
    [g.blockBitmap, g.inodeBitmap, g.inodeTable, Pair(g.freeBlocks, g.freeInodes)] + g.rest
  }

  function GroupOf(ws: seq<u32>): Group
    requires |ws| == 8
  {
    Group(ws[0], ws[1], ws[2], ws[3] % 0x1_0000, ws[3] / 0x1_0000, ws[4..8])
  }

  function TableWords(gs: Groups): (ws: seq<u32>)
    ensures |ws| == 256
  {
    seq(256, k requires 0 <= k < 256 => GroupWords(gs[k / 8])[k % 8])
  }

  /** The whole table of 32 descriptors: exactly one block. */
  function EncodeGroups(gs: Groups): (bs: Block) {
    Encode(TableWords(gs))
  }

  function DecodeGroups(bs: Block): Groups {
    var ws := Decode(bs);
    seq(32, g requires 0 <= g < 32 => GroupOf(ws[8 * g..8 * g + 8]))
  }

  /** Descriptor `g` occupies bytes `32 * g` to `32 * g + 31`. */
  lemma GroupFields(bs: Block, g: nat)
    requires g < 32
    ensures var d, o := DecodeGroups(bs)[g], 32 * g;
      && d.blockBitmap == LittleEndian(bs[o..o + 4]) && d.inodeBitmap == LittleEndian(bs[o + 4..o + 8])
      && d.inodeTable == LittleEndian(bs[o + 8..o + 12])
      && d.freeBlocks == LittleEndian(bs[o + 12..o + 14]) && d.freeInodes == LittleEndian(bs[o + 14..o + 16])
      && forall k | 0 <= k < 4 :: d.rest[k] == LittleEndian(bs[o + 16 + 4 * k..o + 20 + 4 * k])
  {
    hide Decode, LittleEndian;
    var ws := Decode(bs)[8 * g..8 * g + 8];
    forall k: nat | k < 8
      ensures ws[k] == LittleEndian(bs[32 * g + 4 * k..32 * g + 4 * k + 4])
      ensures ws[k] % 0x1_0000 == LittleEndian(bs[32 * g + 4 * k..32 * g + 4 * k + 2])
      ensures ws[k] / 0x1_0000 == LittleEndian(bs[32 * g + 4 * k + 2..32 * g + 4 * k + 4])
    {
      WordAt(bs, 8 * g + k);
    }
    assert forall k | 0 <= k < 4 :: ws[4..8][k] == ws[4 + k];
  }

  lemma GroupBack(ws: seq<u32>)
    requires |ws| == 8
    ensures GroupWords(GroupOf(ws)) == ws
  {
    assert Pair(ws[3] % 0x1_0000, ws[3] / 0x1_0000) == ws[3];
  }

  lemma GroupWord(bs: Block, k: nat)
    requires k < 256
    ensures GroupWords(DecodeGroups(bs)[k / 8])[k % 8] == Decode(bs)[k]
  {
    hide Decode, GroupWords, GroupOf;
    var g := k / 8;
    GroupBack(Decode(bs)[8 * g..8 * g + 8]);
    assert Decode(bs)[8 * g..8 * g + 8][k % 8] == Decode(bs)[k];
  }

  lemma GroupsRoundTrip(bs: Block)
    ensures EncodeGroups(DecodeGroups(bs)) == bs
  {
    hide Decode, Encode, GroupWords, DecodeGroups;
    forall k | 0 <= k < 256 ensures TableWords(DecodeGroups(bs))[k] == Decode(bs)[k] {
      GroupWord(bs, k);
    }
    assert TableWords(DecodeGroups(bs)) == Decode(bs);
    EncodeDecode(bs);
  }

  lemma TableWord(gs: Groups, g: nat)
    requires g < 32
    ensures TableWords(gs)[8 * g..8 * g + 8] == GroupWords(gs[g])
  {
    hide GroupWords;
    forall j | 0 <= j < 8 ensures TableWords(gs)[8 * g + j] == GroupWords(gs[g])[j] {
      assert (8 * g + j) / 8 == g && (8 * g + j) % 8 == j;
    }
  }

  lemma WordsBack(g: Group)
    ensures GroupOf(GroupWords(g)) == g
  {
    assert GroupWords(g)[4..8] == g.rest;
  }

  lemma GroupsBack(gs: Groups)
    ensures DecodeGroups(EncodeGroups(gs)) == gs
  {
    hide Decode, Encode, GroupWords, GroupOf, TableWords;
    DecodeEncode(TableWords(gs));
    forall g | 0 <= g < 32 ensures DecodeGroups(EncodeGroups(gs))[g] == gs[g] {
      TableWord(gs, g);
      WordsBack(gs[g]);
    }
  }
}
