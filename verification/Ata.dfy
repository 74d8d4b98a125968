/** The multi-sector loops of src/ata.c over a disk of 512-byte sectors. A file system block is
    two sectors. */
module Ata {
  import opened Bits
  import opened Memory
  import opened Ext2Layout

  type Sector = s: seq<byte> | |s| == 512 witness Zeros(512)

  /** The disk as 1024-byte blocks. */
  function BlocksOf(ss: seq<Sector>): (bs: seq<Block>)
    ensures |bs| == |ss| / 2
  {
    seq(|ss| / 2, b requires 0 <= b < |ss| / 2 => BlockOf(ss[2 * b], ss[2 * b + 1]))
  }

  function BlockOf(first: seq<byte>, second: seq<byte>): seq<byte> { first + second }

  /** Byte `i` of block `b` is on sector `2 * b` or on the one behind it. */
  lemma BlockByte(ss: seq<Sector>, b: nat, i: nat)
    requires b < |ss| / 2 && i < 1024
    ensures BlocksOf(ss)[b][i] == ss[2 * b + i / 512][i % 512]
  {
  }

  /** The first `n` sectors from `start` on are in the buffer. */
  predicate Arrived(buf: seq<byte>, ss: seq<Sector>, start: nat, n: nat)
    requires 512 * n <= |buf| && start + n <= |ss|
  {
    forall i | 0 <= i < n :: buf[512 * i..512 * i + 512] == ss[start + i]
  }

  lemma OneMoreSector(buf: seq<byte>, ss: seq<Sector>, start: nat, n: nat)
    requires 512 * n + 512 <= |buf| && start + n < |ss| && Arrived(buf, ss, start, n)
    ensures var buf' := Splice(buf, 512 * n, ss[start + n]);
      Arrived(buf', ss, start, n + 1) && forall k | 512 * n + 512 <= k < |buf| :: buf'[k] == buf[k]
  {
    hide Splice;
    var buf' := Splice(buf, 512 * n, ss[start + n]);
    forall i | 0 <= i < n + 1 ensures buf'[512 * i..512 * i + 512] == ss[start + i] {
      SpliceSlice(buf, 512 * n, ss[start + n], 512 * i, 512 * i + 512);
    }
  }

  class Drive {
    const sectors: array<Sector>

    constructor (content: seq<Sector>)
      ensures fresh(sectors) && sectors[..] == content
    {
      sectors := new Sector[|content|](i requires 0 <= i < |content| => content[i]);
    }

    ghost function Blocks(): (bs: seq<Block>)
      reads sectors
      ensures |bs| == sectors.Length / 2
    {
      BlocksOf(sectors[..])
    }

    /** The transfer of one sector; the drive addresses 2^28 of them. */
    method ReadSector(lba: u32, buffer: array<byte>, offset: nat)
      requires lba < sectors.Length <= 0x1000_0000 && offset + 512 <= buffer.Length
      modifies buffer
      ensures buffer[..] == Splice(old(buffer[..]), offset, sectors[lba])
    {
      CopyIn(buffer, offset, sectors[lba]);
    }

    method WriteSector(lba: u32, data: Sector)
      requires lba < sectors.Length <= 0x1000_0000
      modifies sectors
      ensures sectors[..] == old(sectors[..])[lba := data]
    {
      sectors[lba] := data;
    }

    /** Reads `size / 512` sectors one behind the other; a rest of `size` is ignored. */
    method Read(startSector: u32, size: u32, buffer: array<byte>)
      requires startSector + size / 512 <= sectors.Length <= 0x1000_0000 && size <= buffer.Length
      modifies buffer
      ensures forall i | 0 <= i < size / 512 :: buffer[512 * i..512 * i + 512] == sectors[startSector + i]
      ensures forall k | size / 512 * 512 <= k < buffer.Length :: buffer[k] == old(buffer[k])
    {
      hide Splice;
      var totalSectors := size / 512;
      var offset := 0;
      var sector := startSector;
      while sector < totalSectors + startSector
        invariant startSector <= sector <= totalSectors + startSector && offset == 512 * (sector - startSector)
        invariant Arrived(buffer[..], sectors[..], startSector, sector - startSector)
        invariant forall k | offset <= k < buffer.Length :: buffer[k] == old(buffer[k])
      {
        OneMoreSector(buffer[..], sectors[..], startSector, sector - startSector);
        ReadSector(sector, buffer, offset);
        offset := offset + 512;
        sector := sector + 1;
      }
      assert forall i | 0 <= i < totalSectors :: buffer[512 * i..512 * i + 512] == buffer[..][512 * i..512 * i + 512];
    }

    /** Writes `size / 512` sectors one behind the other. */
    method Write(startSector: u32, size: u32, buffer: array<byte>)
      requires startSector + size / 512 <= sectors.Length <= 0x1000_0000 && size <= buffer.Length
      modifies sectors
      ensures forall i | 0 <= i < sectors.Length ::
                sectors[i] == if startSector <= i < startSector + size / 512
                              then buffer[512 * (i - startSector)..512 * (i - startSector) + 512] else old(sectors[i])
    {
      var totalSectors := size / 512;
      var offset := 0;
      var sector := startSector;
      while sector < totalSectors + startSector
        invariant startSector <= sector <= totalSectors + startSector && offset == 512 * (sector - startSector)
        invariant forall i | 0 <= i < sectors.Length ::
                sectors[i] == if startSector <= i < sector
                              then buffer[512 * (i - startSector)..512 * (i - startSector) + 512] else old(sectors[i])
      {
        WriteSector(sector, buffer[offset..offset + 512]);
        offset := offset + 512;
        sector := sector + 1;
      }
    }

    /** The two-sector case the file system uses: `read(block * 2, 1024, buffer)`. */
    method ReadBlock(sector: u32, buffer: array<byte>)
      requires sector % 2 == 0 && sector + 2 <= sectors.Length <= 0x1000_0000 && buffer.Length == 1024
      modifies buffer
      ensures buffer[..] == Blocks()[sector / 2]
    {
      Read(sector, 1024, buffer);
      assert buffer[512 * 0..512 * 0 + 512] == sectors[sector + 0];
      assert buffer[512 * 1..512 * 1 + 512] == sectors[sector + 1];
      assert buffer[..] == buffer[0..512] + buffer[512..1024];
    }

    /** `write(block * 2, 1024, buffer)` replaces exactly that block. */
    method WriteBlock(sector: u32, buffer: array<byte>)
      requires sector % 2 == 0 && sector + 2 <= sectors.Length <= 0x1000_0000 && buffer.Length == 1024
      modifies sectors
      ensures Blocks() == old(Blocks())[sector / 2 := buffer[..]]
    {
      Write(sector, 1024, buffer);
      assert sectors[sector] == buffer[0..512] && sectors[sector + 1] == buffer[512..1024];
      assert buffer[..] == buffer[0..512] + buffer[512..1024];
    }
  }
}
