/** Directory blocks: byte buffers tiled by records. Splitting a record's slack, which
    add_directory_entry does on the bytes, inserts one entry into the list of records. */
module Ext2Records {
  import opened Bits
  import opened Memory
  import opened Ext2Layout

  type Name = s: seq<byte> | |s| <= 255 witness []

  /** struct ext2_directory_entry; `size` is the distance to the next record. */
  datatype Record = Record(inode: u32, size: u16, kind: byte, name: Name)

  function Align4(n: nat): (r: nat)
    ensures r % 4 == 0 && n <= r < n + 4
  {
    if n % 4 == 0 then n else n + 4 - n % 4
  }

  /** The bytes a record with this name needs. */
  function Needed(name: Name): (r: u16)
    ensures r % 4 == 0 && 8 + |name| <= r < 12 + |name|
  {
    Align4(8 + |name|)
  }

  // ------------------------------------------------------------------ fields in a buffer

  function RInode(buf: Block, o: nat): u32
    requires o + 4 <= 1024
  {
    WordOf(buf[o], buf[o + 1], buf[o + 2], buf[o + 3])
  }

  function RSize(buf: Block, o: nat): u16
    requires o + 6 <= 1024
  {
    var low: int, high: int := buf[o + 4], buf[o + 5];
    low + 0x100 * high
  }

  function RNameLength(buf: Block, o: nat): byte
    requires o + 7 <= 1024
  {
    buf[o + 6]
  }

  /** The fields as numbers in the bytes. */
  lemma HeaderFields(buf: Block, o: nat)
    ensures o + 4 <= 1024 ==> RInode(buf, o) == LittleEndian(buf[o..o + 4])
    ensures o + 6 <= 1024 ==> RSize(buf, o) == LittleEndian(buf[o + 4..o + 6])
  {
    hide LittleEndian;
    if o + 4 <= 1024 { FourBytes(buf[o..o + 4]); }
    if o + 6 <= 1024 { TwoBytes(buf[o + 4..o + 6]); }
  }

  function RecordAt(buf: Block, o: nat): Record
    requires o + 8 <= 1024 && o + 8 + RNameLength(buf, o) <= 1024
  {
    Record(RInode(buf, o), RSize(buf, o), buf[o + 7], buf[o + 8..o + 8 + RNameLength(buf, o)])
  }

  function HalfBytes(h: u16): (r: seq<byte>)
    ensures |r| == 2
  {
    [h % 0x100, h / 0x100]
  }

  /** The `8 + name_length` bytes that memcpy takes from the structure. */
  function RecordBytes(r: Record): (bs: seq<byte>)
    ensures |bs| == 8 + |r.name|
  {
    [ByteOf(r.inode, 0), ByteOf(r.inode, 1), ByteOf(r.inode, 2), ByteOf(r.inode, 3)] +
    HalfBytes(r.size) + [|r.name|, r.kind] + r.name
  }

  lemma RecordBack(buf: Block, o: nat, r: Record)
    requires o + 8 + |r.name| <= 1024 && buf[o..o + 8 + |r.name|] == RecordBytes(r)
    ensures RNameLength(buf, o) == |r.name| && RecordAt(buf, o) == r
  {
    hide RecordBytes, ByteOf, WordOf;
    var bs := RecordBytes(r);
    HeadBytes(r);
    var part := buf[o..o + 8 + |r.name|];
    assert forall i | 0 <= i < 8 :: part[i] == buf[o + i];
    WordRoundTrip(r.inode);
    assert buf[o + 8..o + 8 + |r.name|] == part[8..];
  }

  lemma HeadBytes(r: Record)
    ensures var bs := RecordBytes(r);
      && bs[0] == ByteOf(r.inode, 0) && bs[1] == ByteOf(r.inode, 1)
      && bs[2] == ByteOf(r.inode, 2) && bs[3] == ByteOf(r.inode, 3)
      && bs[4] == r.size % 0x100 && bs[5] == r.size / 0x100
      && bs[6] == |r.name| && bs[7] == r.kind && bs[8..] == r.name
  {
  }

  /** Records are determined by their bytes. */
  lemma RecordSame(a: Block, b: Block, o: nat, end: nat)
    requires o + 8 <= end <= 1024 && a[o..end] == b[o..end] && o + 8 + RNameLength(a, o) <= end
    ensures RNameLength(b, o) == RNameLength(a, o) && RecordAt(b, o) == RecordAt(a, o)
  {
    assert forall i | o <= i < end :: a[i] == a[o..end][i - o] == b[i];
  }

  // ------------------------------------------------------------------ tiled blocks

  /** The record at `o` is in use, aligned, and long enough for its name. */
  predicate GoodRecord(buf: Block, o: nat) {
    && o + 8 <= 1024 && RInode(buf, o) != 0
    && RSize(buf, o) % 4 == 0 && RSize(buf, o) >= 8 + RNameLength(buf, o) && o + RSize(buf, o) <= 1024
  }

  /** From `o` on the block is exactly tiled by good records. */
  predicate Tiled(buf: Block, o: nat)
    decreases 1024 - o
  {
    o == 1024 || (o < 1024 && GoodRecord(buf, o) && Tiled(buf, o + RSize(buf, o)))
  }

  function Records(buf: Block, o: nat): seq<Record>
    requires Tiled(buf, o)
    decreases 1024 - o
  {
    if o == 1024 then [] else [RecordAt(buf, o)] + Records(buf, o + RSize(buf, o))
  }

  lemma {:induction false} TailSame(a: Block, b: Block, o: nat)
    requires o <= 1024 && Tiled(a, o) && a[o..] == b[o..]
    ensures Tiled(b, o) && Records(b, o) == Records(a, o)
    decreases 1024 - o
  {
    hide RecordAt, RSize, RNameLength, RInode;
    if o < 1024 {
      var next := o + RSize(a, o);
      HeadSame(a, b, o, next);
      assert a[next..] == a[o..][next - o..] == b[next..];
      TailSame(a, b, next);
    }
  }

  lemma HeadSame(a: Block, b: Block, o: nat, next: nat)
    requires o + 8 <= next <= 1024 && a[o..] == b[o..] && o + 8 + RNameLength(a, o) <= next
    ensures RSize(b, o) == RSize(a, o) && RInode(b, o) == RInode(a, o)
    ensures RNameLength(b, o) == RNameLength(a, o) && RecordAt(b, o) == RecordAt(a, o)
  {
    assert a[o..next] == a[o..][..next - o] == b[o..next];
    assert forall i | o <= i < next :: a[i] == a[o..next][i - o] == b[i];
    RecordSame(a, b, o, next);
  }

  // ------------------------------------------------------------------ inserting

  /** The record can give up enough bytes for an entry with this name. */
  predicate Slack(r: Record, name: Name) {
    r.size >= Needed(r.name) + Needed(name)
  }

  predicate HasSlack(rs: seq<Record>, name: Name) {
    exists i :: 0 <= i < |rs| && Slack(rs[i], name)
  }

  /** The records after the entry took the slack of the first record that has enough. */
  function Insert(rs: seq<Record>, e: Record): seq<Record> {
    if rs == [] then []
    else if Slack(rs[0], e.name) then
      [rs[0].(size := Needed(rs[0].name)), e.(size := rs[0].size - Needed(rs[0].name))] + rs[1..]
    else [rs[0]] + Insert(rs[1..], e)
  }

  function FirstSlack(rs: seq<Record>, name: Name): (i: nat)
    ensures i <= |rs| && (forall j | 0 <= j < i :: !Slack(rs[j], name)) && (i < |rs| ==> Slack(rs[i], name))
  {
    if rs == [] || Slack(rs[0], name) then 0 else 1 + FirstSlack(rs[1..], name)
  }

  /** What a listing shows of a record: everything but its length. */
  datatype Entry = Entry(inode: u32, kind: byte, name: Name)

  function Shown(rs: seq<Record>): (es: seq<Entry>)
    ensures |es| == |rs|
  {
    seq(|rs|, i requires 0 <= i < |rs| => Entry(rs[i].inode, rs[i].kind, rs[i].name))
  }

  lemma {:induction false} FirstSlackFinds(rs: seq<Record>, name: Name)
    ensures FirstSlack(rs, name) < |rs| <==> HasSlack(rs, name)
  {
  }

  /** Inserting puts the entry right behind the first record with enough slack and changes
      nothing else that a listing shows; without such a record nothing is inserted. */
  lemma {:induction false} InsertShows(rs: seq<Record>, e: Record)
    ensures FirstSlack(rs, e.name) == |rs| ==> Insert(rs, e) == rs
    ensures var i := FirstSlack(rs, e.name);
      i < |rs| ==>
        Shown(Insert(rs, e)) == Shown(rs)[..i + 1] + [Entry(e.inode, e.kind, e.name)] + Shown(rs)[i + 1..]
  {
    if rs != [] {
      ShownCons(rs);
      if Slack(rs[0], e.name) {
        assert Shown(Insert(rs, e)) == Shown(rs)[..1] + [Entry(e.inode, e.kind, e.name)] + Shown(rs)[1..];
      } else {
        InsertShows(rs[1..], e);
        var i := FirstSlack(rs[1..], e.name);
        if i < |rs[1..]| {
          ShownCons(Insert(rs, e));
          InsertBehind(Shown(rs), i, Entry(e.inode, e.kind, e.name));
        }
      }
    }
  }

  lemma ShownCons(rs: seq<Record>)
    requires rs != []
    ensures Shown(rs) == [Entry(rs[0].inode, rs[0].kind, rs[0].name)] + Shown(rs[1..])
  {
  }

  lemma InsertBehind(s: seq<Entry>, i: nat, x: Entry)
    requires i + 1 < |s|
    ensures [s[0]] + (s[1..][..i + 1] + [x] + s[1..][i + 1..]) == s[..i + 2] + [x] + s[i + 2..]
  {
  }

  /** Inserting conserves bytes: the records' lengths add up to the same total. */
  function Total(rs: seq<Record>): nat {
    if rs == [] then 0 else rs[0].size + Total(rs[1..])
  }

  lemma {:induction false} InsertTotal(rs: seq<Record>, e: Record)
    ensures Total(Insert(rs, e)) == Total(rs)
  {
    if rs != [] {
      if Slack(rs[0], e.name) {
        var a, b := rs[0].(size := Needed(rs[0].name)), e.(size := rs[0].size - Needed(rs[0].name));
        assert ([a, b] + rs[1..])[1..] == [b] + rs[1..];
        assert ([b] + rs[1..])[1..] == rs[1..];
      } else {
        InsertTotal(rs[1..], e);
        assert ([rs[0]] + Insert(rs[1..], e))[1..] == Insert(rs[1..], e);
      }
    }
  }

  // ------------------------------------------------------------------ the walks over bytes

  /** What is read at `o` to see whether a record starts there is inside the block. */
  predicate Header(buf: Block, o: nat) {
    o + 4 <= 1024 && (RInode(buf, o) != 0 ==> o + 6 <= 1024)
  }

  /** No record starts at `o`. */
  predicate Ends(buf: Block, o: nat)
    requires Header(buf, o)
  {
    RInode(buf, o) == 0 || RSize(buf, o) == 0
  }

  /** A block the listing can walk: all it reads, names included, is inside. A record's length
      may run past the block; the walk then ends. */
  predicate Walkable(buf: Block, o: nat)
    decreases 1024 - o
  {
    o >= 1024 ||
    (Header(buf, o) &&
      (Ends(buf, o) ||
        (o + 8 <= 1024 && o + 8 + RNameLength(buf, o) <= 1024 &&
          (RSize(buf, o) < 8 || Walkable(buf, o + RSize(buf, o))))))
  }

  /** What read_directory_entries lists of a block from offset `o` on. */
  function Walk(buf: Block, o: nat): seq<Record>
    requires Walkable(buf, o)
    decreases 1024 - o
  {
    if o >= 1024 || Ends(buf, o) then []
    else if RSize(buf, o) < 8 then [RecordAt(buf, o)]
    else [RecordAt(buf, o)] + Walk(buf, o + RSize(buf, o))
  }

  lemma WalkStep(buf: Block, o: nat)
    requires o < 1024 && Walkable(buf, o)
    ensures Header(buf, o)
    ensures if Ends(buf, o) then Walk(buf, o) == []
      else
        o + 8 <= 1024 && o + 8 + RNameLength(buf, o) <= 1024 &&
        if RSize(buf, o) < 8 then Walk(buf, o) == [RecordAt(buf, o)] + []
        else
          Walkable(buf, o + RSize(buf, o)) && Walk(buf, o) == [RecordAt(buf, o)] + Walk(buf, o + RSize(buf, o))
  {
    hide Header, Ends, RInode, RSize, RNameLength, RecordAt;
  }

  lemma WalkDone(buf: Block, o: nat)
    requires o >= 1024
    ensures Walkable(buf, o) && Walk(buf, o) == []
  {
  }

  /** The record at `o` can give up the bytes an entry with this name needs. */
  predicate Roomy(buf: Block, o: nat, name: Name)
    requires o + 7 <= 1024
  {
    var actual := Align4(8 + RNameLength(buf, o));
    RSize(buf, o) > actual && RSize(buf, o) - actual >= Needed(name)
  }

  /** A block the search for room can walk: what it reads is inside, and so is the place it
      settles on. It reads no names. */
  predicate Searchable(buf: Block, o: nat, name: Name)
    decreases 1024 - o
  {
    o >= 1024 ||
    (Header(buf, o) &&
      (Ends(buf, o) ||
        (o + 7 <= 1024 &&
          if Roomy(buf, o, name) then o + Align4(8 + RNameLength(buf, o)) + 8 + |name| <= 1024
          else RSize(buf, o) < 8 || Searchable(buf, o + RSize(buf, o), name))))
  }

  /** `Placed`: the new block, and the size the directory must have at least. `NoRoom`: the
      length now stored in the entry, for the next block to be tried. */
  datatype Placement = Placed(buf: Block, end: nat) | NoRoom(size: u16)

  /** The record at `o` cut to `actual` bytes, and another record put right behind it. */
  function Split(buf: Block, o: nat, actual: u16, added: Record): Block
    requires 8 <= actual && o + actual + 8 + |added.name| <= 1024
  {
    Splice(Splice(buf, o + 4, HalfBytes(actual)), o + actual, RecordBytes(added))
  }

  /** One round of a listing: an inode number or a length of 0 ends it, and so does the end of
      the block, or, behind a record, a length below 8. */
  lemma WalkFields(buf: Block, o: nat)
    requires o < 1024 && Walkable(buf, o)
    ensures o + 4 <= 1024 && (RInode(buf, o) != 0 ==> o + 6 <= 1024)
    ensures if RInode(buf, o) == 0 || RSize(buf, o) == 0 then Walk(buf, o) == []
      else
        && o + 8 + buf[o + 6] <= 1024 && (RSize(buf, o) >= 8 ==> Walkable(buf, o + RSize(buf, o)))
        && Walk(buf, o) ==
             [Record(RInode(buf, o), RSize(buf, o), buf[o + 7], buf[o + 8..o + 8 + buf[o + 6]])] +
             if RSize(buf, o) < 8 then [] else Walk(buf, o + RSize(buf, o))
  {
    hide RInode, RSize;
    WalkStep(buf, o);
  }

  /** A listing shows nothing that is not in use. */
  lemma {:induction false} WalkInUse(buf: Block, o: nat)
    requires Walkable(buf, o)
    ensures forall r | r in Walk(buf, o) :: r.inode != 0 && r.size != 0
    decreases 1024 - o
  {
    hide RInode, RSize, Walk, Walkable;
    if o >= 1024 {
      WalkDone(buf, o);
    } else {
      WalkFields(buf, o);
      if RInode(buf, o) != 0 && RSize(buf, o) >= 8 { WalkInUse(buf, o + RSize(buf, o)); }
    }
  }

  /** Four zero bytes end a listing, whatever comes behind them. */
  lemma ZerosEndWalk(buf: Block, o: nat)
    requires o + 4 <= 1024 && Walkable(buf, o) && buf[o] == buf[o + 1] == buf[o + 2] == buf[o + 3] == 0
    ensures Walk(buf, o) == []
  {
    hide Walk, Walkable, RSize;
    WalkFields(buf, o);
  }

  /** One block of add_directory_entry's search, from offset `o` on. */
  function PlaceEntry(buf: Block, o: nat, e: Record): Placement
    requires Searchable(buf, o, e.name)
    decreases 1024 - o
  {
    if o >= 1024 then NoRoom(e.size)
    else if Ends(buf, o) then
      var size := Needed(e.name);
      if o + size <= 1024 then Placed(Splice(buf, o, RecordBytes(e.(size := size))), o + size) else NoRoom(size)
    else if Roomy(buf, o, e.name) then
      var actual := Align4(8 + RNameLength(buf, o));
      Placed(Split(buf, o, actual, e.(size := RSize(buf, o) - actual)), 0)
    else if RSize(buf, o) < 8 then NoRoom(e.size)
    else PlaceEntry(buf, o + RSize(buf, o), e)
  }

  lemma PlaceAtEnd(buf: Block, o: nat, e: Record)
    requires o >= 1024
    ensures Searchable(buf, o, e.name) && PlaceEntry(buf, o, e) == NoRoom(e.size)
  {
  }

  /** One round of the search, taken apart as the loop does. */
  lemma PlaceStep(buf: Block, o: nat, e: Record)
    requires o < 1024 && Searchable(buf, o, e.name)
    ensures Header(buf, o)
    ensures if Ends(buf, o) then
        PlaceEntry(buf, o, e) ==
          if o + Needed(e.name) <= 1024
          then Placed(Splice(buf, o, RecordBytes(e.(size := Needed(e.name)))), o + Needed(e.name))
          else NoRoom(Needed(e.name))
      else
        var actual := Align4(8 + RNameLength(buf, o));
        o + 7 <= 1024 &&
        if Roomy(buf, o, e.name) then
          o + actual + 8 + |e.name| <= 1024 &&
          PlaceEntry(buf, o, e) == Placed(Split(buf, o, actual, e.(size := RSize(buf, o) - actual)), 0)
        else if RSize(buf, o) < 8 then PlaceEntry(buf, o, e) == NoRoom(e.size)
        else
          Searchable(buf, o + RSize(buf, o), e.name) && PlaceEntry(buf, o, e) == PlaceEntry(buf, o + RSize(buf, o), e)
  {
    hide Header, Ends, Roomy, Splice, Split, RecordBytes, RInode, RSize, RNameLength;
  }

  /** What one round of the search does to the bytes, and what it answers. An inode number or a
      length of 0 ends the records: the entry goes there with a length of its own, if it fits. A
      record that is longer than it needs by enough is cut, and the entry put behind it with the
      rest of its length. Nothing else is written. */
  lemma PlaceFields(buf: Block, o: nat, e: Record)
    requires o < 1024 && Searchable(buf, o, e.name)
    ensures o + 4 <= 1024 && (RInode(buf, o) != 0 ==> o + 6 <= 1024)
    ensures
      if RInode(buf, o) == 0 || RSize(buf, o) == 0 then
        if o + Needed(e.name) > 1024 then PlaceEntry(buf, o, e) == NoRoom(Needed(e.name))
        else
          && PlaceEntry(buf, o, e).Placed? && PlaceEntry(buf, o, e).end == o + Needed(e.name)
          && Copied(buf, PlaceEntry(buf, o, e).buf, o, e.(size := Needed(e.name)))
      else
        o + 7 <= 1024 &&
        var n: int := buf[o + 6];
        var used := Align4(8 + n);
        if RSize(buf, o) >= used + Needed(e.name) then
          && PlaceEntry(buf, o, e).Placed? && PlaceEntry(buf, o, e).end == 0
          && CutCopied(buf, PlaceEntry(buf, o, e).buf, o, used, e.(size := RSize(buf, o) - used))
        else if RSize(buf, o) < 8 then PlaceEntry(buf, o, e) == NoRoom(e.size)
        else
          Searchable(buf, o + RSize(buf, o), e.name) && PlaceEntry(buf, o, e) == PlaceEntry(buf, o + RSize(buf, o), e)
  {
    hide RInode, RSize, RecordBytes, PlaceEntry, Searchable;
    PlaceStep(buf, o, e);
  }

  /** The bytes of `r` were copied to `o`, and nothing else changed. */
  predicate Copied(buf: seq<byte>, buf': seq<byte>, o: nat, r: Record) {
    && |buf'| == |buf| && o + 8 + |r.name| <= |buf|
    && buf'[o..o + 8 + |r.name|] == RecordBytes(r)
    && forall i | 0 <= i < |buf| && !(o <= i < o + 8 + |r.name|) :: buf'[i] == buf[i]
  }

  /** The length at `o + 4` became `used`, and `r` was copied `used` bytes behind `o`. */
  predicate CutCopied(buf: seq<byte>, buf': seq<byte>, o: nat, used: u16, r: Record) {
    o + 6 <= |buf| && Copied(buf[o + 4 := used % 0x100][o + 5 := used / 0x100], buf', o + used, r)
  }

  /** A tiled block can be searched for any name. */
  lemma {:induction false} TiledSearch(buf: Block, o: nat, name: Name)
    requires Tiled(buf, o)
    ensures Searchable(buf, o, name)
    decreases 1024 - o
  {
    if o < 1024 { TiledSearch(buf, o + RSize(buf, o), name); }
  }

  lemma {:induction false} TiledWalk(buf: Block, o: nat)
    requires Tiled(buf, o)
    ensures Walkable(buf, o) && Walk(buf, o) == Records(buf, o)
    decreases 1024 - o
  {
    if o < 1024 { TiledWalk(buf, o + RSize(buf, o)); }
  }

  /** Splitting the record at `o` on the bytes. */
  lemma SplitBytes(buf: Block, o: nat, e: Record, r: Record, added: Record)
    requires r.size >= Needed(r.name) + Needed(e.name) && o + r.size <= 1024 && e.inode != 0
    requires added == e.(size := r.size - Needed(r.name))
    requires Tiled(buf, o) && Tiled(buf, o + r.size) && r == RecordAt(buf, o)
    ensures var buf' := Split(buf, o, Needed(r.name), added);
      && Tiled(buf', o) && buf'[..o] == buf[..o]
      && Records(buf', o) == [r.(size := Needed(r.name)), added] + Records(buf, o + r.size)
  {
    hide Split, RecordBytes, Tiled, Records, RecordAt, GoodRecord, RInode, RSize, Needed;
    TiledParts(buf, o);
    var actual, end := Needed(r.name), o + r.size;
    var buf' := Split(buf, o, actual, added);
    SplitRecords(buf, o, actual, added);
    TailSame(buf, buf', end);
    SplitTiled(buf', o, o + actual, end);
  }

  /** The two records the split leaves, and what it leaves alone. */
  lemma SplitRecords(buf: Block, o: nat, actual: u16, added: Record)
    requires o < 1024 && GoodRecord(buf, o) && actual == Needed(RecordAt(buf, o).name)
    requires added.inode != 0 && added.size == RSize(buf, o) - actual >= Needed(added.name)
    ensures var buf', mid, end := Split(buf, o, actual, added), o + actual, o + RSize(buf, o);
      && buf'[..o] == buf[..o] && buf'[end..] == buf[end..]
      && GoodRecord(buf', o) && RecordAt(buf', o) == RecordAt(buf, o).(size := actual)
      && GoodRecord(buf', mid) && RecordAt(buf', mid) == added
  {
    hide Split, RecordBytes, HalfBytes, RInode, RSize, RNameLength, RecordAt, GoodRecord, Needed;
    GoodInside(buf, o);
    GoodFields(buf, o);
    var mid, end := o + actual, o + RSize(buf, o);
    var buf' := Split(buf, o, actual, added);
    SplitFacts(buf, o, actual, added);
    FirstHalf(buf, o, buf', actual);
    RecordBack(buf', mid, added);
    GoodFields(buf', o);
    GoodFields(buf', mid);
  }

  /** A tiled block that is not exhausted starts with a good record. */
  lemma TiledParts(buf: Block, o: nat)
    requires o < 1024 && Tiled(buf, o)
    ensures GoodRecord(buf, o) && RSize(buf, o) == RecordAt(buf, o).size
    ensures o + RecordAt(buf, o).size <= 1024 && RecordAt(buf, o).size % 4 == 0
    ensures Tiled(buf, o + RecordAt(buf, o).size)
    ensures Records(buf, o) == [RecordAt(buf, o)] + Records(buf, o + RecordAt(buf, o).size)
  {
  }

  lemma GoodInside(buf: Block, o: nat)
    requires GoodRecord(buf, o)
    ensures o + 8 <= 1024 && o + 8 + RNameLength(buf, o) <= o + RSize(buf, o) <= 1024 && RSize(buf, o) % 4 == 0
  {
  }

  lemma GoodFields(buf: Block, o: nat)
    requires o + 8 <= 1024 && o + 8 + RNameLength(buf, o) <= 1024
    ensures var r := RecordAt(buf, o);
      && RSize(buf, o) == r.size && RNameLength(buf, o) == |r.name|
      && (GoodRecord(buf, o) <==>
            r.inode != 0 && r.size % 4 == 0 && r.size >= 8 + |r.name| && o + r.size <= 1024)
  {
  }

  lemma SplitFacts(buf: Block, o: nat, actual: u16, added: Record)
    requires 8 <= actual && o + actual + 8 + |added.name| <= 1024
    ensures var mid := o + actual;
      var buf' := Split(buf, o, actual, added);
      && buf'[..o] == buf[..o]
      && (forall i | o <= i < mid ::
          buf'[i] == if i == o + 4 || i == o + 5 then HalfBytes(actual)[i - o - 4] else buf[i])
      && buf'[mid..mid + 8 + |added.name|] == RecordBytes(added)
      && (forall end | mid + 8 + |added.name| <= end <= 1024 :: buf'[end..] == buf[end..])
  {
    hide RecordBytes, HalfBytes;
  }

  lemma TiledCons(buf: Block, o: nat)
    requires o < 1024 && GoodRecord(buf, o) && Tiled(buf, o + RecordAt(buf, o).size)
    ensures Tiled(buf, o)
    ensures Records(buf, o) == [RecordAt(buf, o)] + Records(buf, o + RecordAt(buf, o).size)
  {
    hide RecordAt, RInode, RSize, RNameLength, GoodRecord;
    GoodInside(buf, o);
    GoodFields(buf, o);
  }

  lemma TiledDone(buf: Block)
    ensures Tiled(buf, 1024) && Records(buf, 1024) == []
  {
  }

  /** Two good records in a row, the tiling going on behind them. */
  lemma SplitTiled(buf: Block, o: nat, mid: nat, end: nat)
    requires o < mid < end <= 1024 && Tiled(buf, end)
    requires GoodRecord(buf, o) && mid == o + RecordAt(buf, o).size
    requires GoodRecord(buf, mid) && end == mid + RecordAt(buf, mid).size
    ensures Tiled(buf, o) && Records(buf, o) == [RecordAt(buf, o), RecordAt(buf, mid)] + Records(buf, end)
  {
    hide Tiled, Records, GoodRecord, RecordAt;
    TiledCons(buf, mid);
    TiledCons(buf, o);
  }

  lemma FirstHalf(buf: Block, o: nat, buf': Block, actual: u16)
    requires o + 8 <= 1024 && o + 8 + RNameLength(buf, o) <= o + actual <= 1024
    requires forall i | o <= i < o + actual ::
        buf'[i] == if i == o + 4 || i == o + 5 then HalfBytes(actual)[i - o - 4] else buf[i]
    ensures RNameLength(buf', o) == RNameLength(buf, o)
    ensures RecordAt(buf', o) == RecordAt(buf, o).(size := actual)
  {
    var end := o + 8 + RNameLength(buf, o);
    assert buf'[o + 8..end] == buf[o + 8..end];
  }

  /** On a tiled block the search inserts into the records if some record has enough slack,
      and otherwise does nothing. */
  lemma {:induction false} PlaceInserts(buf: Block, o: nat, e: Record)
    requires o <= 1024 && o % 4 == 0 && Tiled(buf, o) && e.inode != 0
    ensures Walkable(buf, o) && Searchable(buf, o, e.name)
    ensures HasSlack(Records(buf, o), e.name) ==>
      && PlaceEntry(buf, o, e).Placed? && PlaceEntry(buf, o, e).end == 0
      && (var buf' := PlaceEntry(buf, o, e).buf;
          Tiled(buf', o) && buf'[..o] == buf[..o] && Records(buf', o) == Insert(Records(buf, o), e))
    ensures !HasSlack(Records(buf, o), e.name) ==> PlaceEntry(buf, o, e) == NoRoom(e.size)
    decreases 1024 - o
  {
    hide Split, PlaceEntry, Slack, HasSlack, RecordAt, RSize, Insert, Tiled, Records, GoodRecord, Walkable,
      Searchable;
    TiledWalk(buf, o);
    TiledSearch(buf, o, e.name);
    if o == 1024 {
      AtEnd(buf, e);
    } else {
      TiledParts(buf, o);
      var r := RecordAt(buf, o);
      var next := o + r.size;
      var rs, rest := Records(buf, o), Records(buf, next);
      assert rs[0] == r && rs[1..] == rest;
      InsertCons(rs, e);
      SlackCons(r, rest, e.name);
      if Slack(r, e.name) {
        SlackIs(r, e.name);
        SplitBytes(buf, o, e, r, e.(size := r.size - Needed(r.name)));
        PlaceHere(buf, o, e);
      } else {
        PlaceInserts(buf, next, e);
        PlaceNext(buf, o, e);
        if HasSlack(rest, e.name) {
          Prefixed(buf, o, next, PlaceEntry(buf, next, e).buf);
        }
      }
    }
  }

  lemma AtEnd(buf: Block, e: Record)
    ensures Tiled(buf, 1024) && Walkable(buf, 1024) && Searchable(buf, 1024, e.name)
    ensures Records(buf, 1024) == [] && !HasSlack(Records(buf, 1024), e.name) &&
        PlaceEntry(buf, 1024, e) == NoRoom(e.size)
  {
  }

  lemma InsertCons(rs: seq<Record>, e: Record)
    requires rs != []
    ensures Slack(rs[0], e.name) ==>
              Insert(rs, e) ==
                  [rs[0].(size := Needed(rs[0].name)), e.(size := rs[0].size - Needed(rs[0].name))] + rs[1..]
    ensures !Slack(rs[0], e.name) ==> Insert(rs, e) == [rs[0]] + Insert(rs[1..], e)
  {
  }

  lemma SlackIs(r: Record, name: Name)
    ensures Slack(r, name) <==> r.size >= Needed(r.name) + Needed(name)
  {
  }

  lemma SlackCons(r: Record, rest: seq<Record>, name: Name)
    ensures HasSlack([r] + rest, name) <==> Slack(r, name) || HasSlack(rest, name)
  {
    var rs := [r] + rest;
    if HasSlack(rest, name) {
      var i :| 0 <= i < |rest| && Slack(rest[i], name);
      assert Slack(rs[i + 1], name);
    }
    if Slack(r, name) { assert Slack(rs[0], name); }
  }

  lemma GoodRoom(buf: Block, o: nat, name: Name)
    requires GoodRecord(buf, o)
    ensures Header(buf, o) && !Ends(buf, o) && RSize(buf, o) >= 8
    ensures Align4(8 + RNameLength(buf, o)) == Needed(RecordAt(buf, o).name)
    ensures Roomy(buf, o, name) <==> Slack(RecordAt(buf, o), name)
  {
  }

  lemma PlaceHere(buf: Block, o: nat, e: Record)
    requires o < 1024 && Searchable(buf, o, e.name) && GoodRecord(buf, o) && Slack(RecordAt(buf, o), e.name)
    ensures var actual := Needed(RecordAt(buf, o).name);
      && o + actual + 8 + |e.name| <= 1024
      && PlaceEntry(buf, o, e) == Placed(Split(buf, o, actual, e.(size := RSize(buf, o) - actual)), 0)
  {
    hide Split, PlaceEntry, Searchable, Roomy, Header, Ends, Slack, Needed, RecordAt, RNameLength;
    GoodRoom(buf, o, e.name);
    PlaceStep(buf, o, e);
  }

  lemma PlaceNext(buf: Block, o: nat, e: Record)
    requires o < 1024 && Searchable(buf, o, e.name) && GoodRecord(buf, o) && !Slack(RecordAt(buf, o), e.name)
    ensures Searchable(buf, o + RSize(buf, o), e.name) && PlaceEntry(buf, o, e) == PlaceEntry(buf, o + RSize(buf, o), e)
  {
    hide Split, PlaceEntry, Searchable, Roomy, Header, Ends, Slack, Needed, RecordAt, RNameLength;
    GoodRoom(buf, o, e.name);
    PlaceStep(buf, o, e);
  }

  /** A change behind a record leaves the record. */
  lemma Prefixed(buf: Block, o: nat, next: nat, buf': Block)
    requires o < 1024 && GoodRecord(buf, o) && next == o + RSize(buf, o)
    requires Tiled(buf', next) && buf'[..next] == buf[..next]
    ensures Tiled(buf', o) && buf'[..o] == buf[..o] && Records(buf', o) == [RecordAt(buf, o)] + Records(buf', next)
  {
    assert buf'[o..next] == buf'[..next][o..] == buf[o..next];
    assert forall i | o <= i < next :: buf'[i] == buf'[o..next][i - o] == buf[i];
    RecordSame(buf, buf', o, next);
    assert buf'[..o] == buf'[..next][..o];
  }

  /** A zeroed block with an entry of length 0 at its start lists nothing. */
  function FreshBlock(e: Record): Block { Splice(Zeros(1024), 0, RecordBytes(e)) }

  lemma FreshBlockIs(e: Record, i: nat)
    requires i < 1024
    ensures FreshBlock(e)[i] == if i < 8 + |e.name| then RecordBytes(e)[i] else 0
  {
  }

  lemma FreshBlockHides(e: Record)
    requires e.size == 0
    ensures Walkable(FreshBlock(e), 0) && Walk(FreshBlock(e), 0) == []
  {
    FreshBytes(e);
    hide FreshBlock;
    ZeroSize(FreshBlock(e));
  }

  lemma FreshBytes(e: Record)
    requires e.size == 0
    ensures FreshBlock(e)[4] == 0 && FreshBlock(e)[5] == 0
  {
    assert RecordBytes(e)[4] == HalfBytes(0)[0] && RecordBytes(e)[5] == HalfBytes(0)[1];
  }

  lemma ZeroSize(buf: Block)
    requires buf[4] == 0 && buf[5] == 0
    ensures Walkable(buf, 0) && Walk(buf, 0) == []
  {
    assert RSize(buf, 0) == 0;
  }
}
