/** Four-level x86-64 page tables as a value: physical memory is a sequence of frames, a frame
    used as a table holds 512 entries, and an entry names the frame of the next table. */
module PageTables {
  import opened Bits
  import opened PhysicalPages

  const FRAMES: nat := 0x100_0000_0000   // the address field of an entry has 40 bits

  type Frame = x: nat | x < FRAMES
  type Index = x: nat | x < 512

  /** One 64-bit entry. `pageSize` is bit 7, which means nothing in the top table and is the
      PAT bit in the last one; `rest` holds the bits that paging.c never touches. */
  datatype Entry = Entry(present: bool, rw: bool, user: bool, pageSize: bool, address: Frame, rest: nat)

  const ZERO_ENTRY: Entry := Entry(false, false, false, false, 0, 0)
  function EmptyTable(): seq<Entry> { seq(512, _ => ZERO_ENTRY) }

  type Table = t: seq<Entry> | |t| == 512 witness EmptyTable()
  type Mem = m: seq<Table> | |m| == FRAMES ghost witness seq(FRAMES, _ => EmptyTable())

  /** The state of paging.c: allocator, physical memory and the frame of the top table. */
  datatype Vm = Vm(pmm: Pmm, mem: Mem, root: Frame)

  datatype Option<+T> = None | Some(value: T)

  function SetEntry(m: Mem, f: Frame, i: Index, e: Entry): Mem { m[f := m[f][i := e]] }

  function ZeroFrame(m: Mem, f: Frame): Mem { m[f := EmptyTable()] }

  // ------------------------------------------------------------------ addresses

  function I4(v: u64): Index { (v / 0x80_0000_0000) % 512 }
  function I3(v: u64): Index { (v / 0x4000_0000) % 512 }
  function I2(v: u64): Index { (v / 0x20_0000) % 512 }
  function I1(v: u64): Index { (v / 0x1000) % 512 }

  /** The number of the page `v` lies in: bits 47..12, as bits 63..48 do not count. */
  function Page(v: u64): nat { (v / 0x1000) % 0x10_0000_0000 }

  predicate SamePage(v: u64, w: u64) { Page(v) == Page(w) }

  /** Nine bits at a time, the four indices are the page number: bits 47..12 of the address. */
  lemma IndicesSpell(v: u64)
    ensures Page(v) == ((I4(v) * 512 + I3(v)) * 512 + I2(v)) * 512 + I1(v)
  {
    var p := v / 0x1000;
    var q, r, s := p / 512, p / 512 / 512, p / 512 / 512 / 512;
    Shifts(v);
    Digits(s / 512, s % 512, r % 512, q % 512, p % 512);
  }

  lemma Shifts(v: u64)
    ensures v / 0x20_0000 == v / 0x1000 / 512
    ensures v / 0x4000_0000 == v / 0x1000 / 512 / 512
    ensures v / 0x80_0000_0000 == v / 0x1000 / 512 / 512 / 512
  {
  }

  /** The low 36 bits of a number written in base 512. */
  lemma Digits(high: nat, a: Index, b: Index, c: Index, d: Index)
    ensures ((((high * 512 + a) * 512 + b) * 512 + c) * 512 + d) % 0x10_0000_0000 == ((a * 512 + b) * 512 + c) * 512 + d
  {
    var low := ((a * 512 + b) * 512 + c) * 512 + d;
    assert (((high * 512 + a) * 512 + b) * 512 + c) * 512 + d == high * 0x10_0000_0000 + low;
    assert 0 <= low < 0x10_0000_0000;
  }

  lemma SameDigits(a: Index, b: Index, c: Index, d: Index, a': Index, b': Index, c': Index, d': Index)
    requires ((a * 512 + b) * 512 + c) * 512 + d == ((a' * 512 + b') * 512 + c') * 512 + d'
    ensures a == a' && b == b' && c == c' && d == d'
  {
    assert d == d';
    assert c == c';
    assert b == b';
  }

  /** Two addresses share a page exactly when they take the same way through the tables. */
  lemma SamePageIndices(v: u64, w: u64)
    ensures SamePage(v, w) <==> I4(v) == I4(w) && I3(v) == I3(w) && I2(v) == I2(w) && I1(v) == I1(w)
  {
    hide I4, I3, I2, I1;
    IndicesSpell(v);
    IndicesSpell(w);
    if SamePage(v, w) {
      SameDigits(I4(v), I3(v), I2(v), I1(v), I4(w), I3(w), I2(w), I1(w));
    }
  }

  // ------------------------------------------------------------------ the tree

  /** A position in the tree: the top table, or entry `index` of the table at `up`. */
  datatype Node = Top | Sub(up: Node, index: Index)

  function Depth(n: Node): nat {
    match n case Top => 0 case Sub(u, _) => 1 + Depth(u)
  }

  /** The frame of the table at position `n`, if there is one. */
  function TableAt(m: Mem, root: Frame, n: Node): Option<Frame> {
    match n
    case Top => Some(root)
    case Sub(u, i) =>
      var t := TableAt(m, root, u);
      if t.None? || Depth(u) >= 3 then None
      else
        var e := m[t.value][i];
        if e.present && (u.Top? || !e.pageSize) then Some(e.address) else None
  }

  /** The way of address `v`: the positions of its tables at depth 1, 2 and 3. */
  function N1(v: u64): Node { Sub(Top, I4(v)) }
  function N2(v: u64): Node { Sub(N1(v), I3(v)) }
  function N3(v: u64): Node { Sub(N2(v), I2(v)) }

  datatype Mapping = Unmapped | Page4K(e: Entry) | Page2M(e: Entry) | Page1G(e: Entry)

  /** What the tables say about address `v`, walked from the top. */
  function Lookup(m: Mem, root: Frame, v: u64): Mapping {
    var e4 := m[root][I4(v)];
    if !e4.present then Unmapped else
    var e3 := m[e4.address][I3(v)];
    if !e3.present then Unmapped else
    if e3.pageSize then Page1G(e3) else
    var e2 := m[e3.address][I2(v)];
    if !e2.present then Unmapped else
    if e2.pageSize then Page2M(e2) else
    var e1 := m[e2.address][I1(v)];
    if !e1.present then Unmapped else Page4K(e1)
  }

  /** The physical address a mapping gives to `v`. */
  function Physical(p: Mapping, v: u64): Option<nat> {
    match p
    case Unmapped => None
    case Page4K(e) => Some(e.address * 0x1000 + v % 0x1000)
    case Page2M(e) => Some(e.address * 0x1000 + v % 0x20_0000)
    case Page1G(e) => Some(e.address * 0x1000 + v % 0x4000_0000)
  }

  function Translate(s: Vm, v: u64): Option<nat> { Physical(Lookup(s.mem, s.root, v), v) }

  /** No 1 GiB or 2 MiB entry lies on the way of `v`. */
  predicate NoHuge(m: Mem, root: Frame, v: u64) {
    var l := Lookup(m, root, v);
    !l.Page1G? && !l.Page2M?
  }

  /** The tables form a tree: no frame is a table at two positions. */
  ghost predicate Tree(m: Mem, root: Frame) {
    forall a, b :: TableAt(m, root, a).Some? && TableAt(m, root, a) == TableAt(m, root, b) ==> a == b
  }

  /** No table lies in a page the allocator could hand out. */
  ghost predicate Owned(s: Vm) {
    forall a :: TableAt(s.mem, s.root, a).Some? ==> TableAt(s.mem, s.root, a).value !in s.pmm.free
  }

  ghost predicate Inv(s: Vm) {
    Sound(s.pmm) && Tree(s.mem, s.root) && Owned(s)
  }

  /** How many tables the way of `v` lacks. */
  function Missing(m: Mem, root: Frame, v: u64): nat {
    if TableAt(m, root, N1(v)).None? then 3
    else if TableAt(m, root, N2(v)).None? then 2
    else if TableAt(m, root, N3(v)).None? then 1
    else 0
  }

  // ------------------------------------------------------------------ operations

  /** One level of map_page: follow a present entry, or link a fresh zeroed table. */
  ghost function Descend(s: Vm, t: Frame, i: Index, top: bool, user: bool): (Vm, Option<Frame>) {
    var e := s.mem[t][i];
    if e.present then (s, Some(e.address))
    else
      var (pmm, addr) := Allocate(s.pmm);
      if addr == 0 then (s.(pmm := pmm), None)
      else
        var f := (addr / 0x1000) % FRAMES;
        var m := ZeroFrame(s.mem, f);
        var link := m[t][i].(present := true, rw := true, user := user,
                             pageSize := if top then m[t][i].pageSize else false, address := f);
        (Vm(pmm, SetEntry(m, t, i, link), s.root), Some(f))
  }

  function Leaf(e: Entry, addr: u64, flags: u64): Entry {
    e.(present := true, rw := Bit(flags, 1), user := Bit(flags, 2), address := (addr / 0x1000) % FRAMES)
  }

  ghost function MapPage(s: Vm, v: u64, addr: u64, flags: u64): Vm {
    var user := Bit(flags, 2);
    var (s1, t3) := Descend(s, s.root, I4(v), true, user);
    if t3.None? then s1 else
    var (s2, t2) := Descend(s1, t3.value, I3(v), false, user);
    if t2.None? then s2 else
    var (s3, t1) := Descend(s2, t2.value, I2(v), false, user);
    if t1.None? then s3 else
    s3.(mem := SetEntry(s3.mem, t1.value, I1(v), Leaf(s3.mem[t1.value][I1(v)], addr, flags)))
  }

  function UnmapPage(s: Vm, v: u64): Vm {
    var e4 := s.mem[s.root][I4(v)];
    if !e4.present then s else
    var e3 := s.mem[e4.address][I3(v)];
    if !e3.present || e3.pageSize then s else
    var e2 := s.mem[e3.address][I2(v)];
    if !e2.present || e2.pageSize then s else
    var e1 := s.mem[e2.address][I1(v)];
    s.(mem := SetEntry(s.mem, e2.address, I1(v), e1.(present := false, address := 0)))
  }

  /** The page-fault branch; the second result is true when the handler halts instead. */
  ghost function PageFault(s: Vm, cr2: u64): (Vm, bool) {
    var (pmm, addr) := Allocate(s.pmm);
    if addr == 0 then (s.(pmm := pmm), true)
    else (MapPage(s.(pmm := pmm), cr2 - cr2 % 0x1000, Wrap(addr), 7), false)
  }

  // ------------------------------------------------------------------ frame lemmas

  /** Position `n` is entry `i` of `a`, or lies below it. */
  predicate Through(n: Node, a: Node, i: Index) {
    n.Sub? && ((n.up == a && n.index == i) || Through(n.up, a, i))
  }

  /** The walk of an address meets the tables on its way and one entry in each. */
  lemma LookupAlong(m: Mem, root: Frame, v: u64)
    ensures var t3, t2, t1 := TableAt(m, root, N1(v)), TableAt(m, root, N2(v)), TableAt(m, root, N3(v));
      Lookup(m, root, v) ==
        if t3.None? then Unmapped
        else if t2.None? then
          (var e := m[t3.value][I3(v)]; if e.present then Page1G(e) else Unmapped)
        else if t1.None? then
          (var e := m[t2.value][I2(v)]; if e.present then Page2M(e) else Unmapped)
        else
          (var e := m[t1.value][I1(v)]; if e.present then Page4K(e) else Unmapped)
  {
    assert TableAt(m, root, Top) == Some(root);
  }

  // ------------------------------------------------------------------ one level of map_page

  /** Where every table is after a fresh zeroed table at frame `f` was linked at entry `i` of `a`. */
  lemma {:induction false} LinkMoves(m: Mem, root: Frame, a: Node, i: Index, f: Frame, link: Entry, n: Node)
    requires Tree(m, root) && TableAt(m, root, a).Some? && Depth(a) < 3
    requires forall b :: TableAt(m, root, b) != Some(f)
    requires link.present && (a.Top? || !link.pageSize) && link.address == f
    ensures TableAt(SetEntry(ZeroFrame(m, f), TableAt(m, root, a).value, i, link), root, n) ==
              if n == Sub(a, i) then Some(f) else if Through(n, a, i) then None else TableAt(m, root, n)
  {
    var t := TableAt(m, root, a).value;
    if n.Sub? {
      LinkMoves(m, root, a, i, f, link, n.up);
      if n.up == a { NotThroughSelf(a, a, i); }
    }
  }

  /** A position is never below itself. */
  lemma {:induction false} NotThroughSelf(n: Node, a: Node, i: Index)
    ensures Through(n, a, i) ==> Depth(n) > Depth(a)
  {
    if n.Sub? { NotThroughSelf(n.up, a, i); }
  }

  /** The new table is empty and unused, so no address is translated differently. */
  lemma LinkKeepsLookup(m: Mem, root: Frame, a: Node, i: Index, f: Frame, link: Entry, w: u64)
    requires Tree(m, root) && TableAt(m, root, a).Some? && Depth(a) < 3
    requires !m[TableAt(m, root, a).value][i].present
    requires forall b :: TableAt(m, root, b) != Some(f)
    requires link.present && (a.Top? || !link.pageSize) && link.address == f
    ensures Lookup(SetEntry(ZeroFrame(m, f), TableAt(m, root, a).value, i, link), root, w) == Lookup(m, root, w)
  {
    var t := TableAt(m, root, a).value;
    var m' := SetEntry(ZeroFrame(m, f), t, i, link);
    LookupAlong(m, root, w);
    LookupAlong(m', root, w);
    LinkMoves(m, root, a, i, f, link, N1(w));
    LinkMoves(m, root, a, i, f, link, N2(w));
    LinkMoves(m, root, a, i, f, link, N3(w));
    NotThroughSelf(N1(w), a, i);
    NotThroughSelf(N2(w), a, i);
    NotThroughSelf(N3(w), a, i);
    assert TableAt(m, root, Top) == Some(root);
  }

  /** Following or creating one level: the tree stays a tree, no translation changes, and the
      only frame taken, if any, is now the table at the new position. */
  lemma DescendKeeps(s: Vm, a: Node, i: Index, user: bool)
    requires Inv(s) && TableAt(s.mem, s.root, a).Some? && Depth(a) < 3
    requires var e := s.mem[TableAt(s.mem, s.root, a).value][i];
             e.present ==> a.Top? || !e.pageSize
    ensures var (s', r) := Descend(s, TableAt(s.mem, s.root, a).value, i, a.Top?, user);
      && Inv(s') && s'.root == s.root
      && (forall w: u64 :: Lookup(s'.mem, s'.root, w) == Lookup(s.mem, s.root, w))
      && (if TableAt(s.mem, s.root, Sub(a, i)).Some? then
            s' == s && r == TableAt(s.mem, s.root, Sub(a, i))
          else if s.pmm.free == {} then
            s' == s && r == None
          else
            && r.Some? && s.pmm.free == s'.pmm.free + {r.value} && r.value !in s'.pmm.free
            && r.value == Least(s.pmm.free)
            && s'.mem == SetEntry(ZeroFrame(s.mem, r.value), TableAt(s.mem, s.root, a).value, i,
                                  s.mem[TableAt(s.mem, s.root, a).value][i].(
                                    present := true, rw := true, user := user, address := r.value,
                                    pageSize := a.Top? && s.mem[TableAt(s.mem, s.root, a).value][i].pageSize))
            && (forall n :: TableAt(s'.mem, s'.root, n) ==
                 if n == Sub(a, i) then r
                 else if Through(n, a, i) then None else TableAt(s.mem, s.root, n)))
  {
    var t := TableAt(s.mem, s.root, a).value;
    var e := s.mem[t][i];
    if !e.present && s.pmm.free != {} {
      var f := Least(s.pmm.free);
      var link := e.(present := true, rw := true, user := user,
                     pageSize := if a.Top? then e.pageSize else false, address := f);
      var (s', r) := Descend(s, t, i, a.Top?, user);
      assert f != t;
      assert s'.mem == SetEntry(ZeroFrame(s.mem, f), t, i, link);
      forall n ensures TableAt(s'.mem, s'.root, n) ==
            if n == Sub(a, i) then Some(f) else if Through(n, a, i) then None else TableAt(s.mem, s.root, n)
      {
        LinkMoves(s.mem, s.root, a, i, f, link, n);
      }
      forall w: u64 ensures Lookup(s'.mem, s'.root, w) == Lookup(s.mem, s.root, w) {
        LinkKeepsLookup(s.mem, s.root, a, i, f, link, w);
      }
    }
  }

  // ------------------------------------------------------------------ the last level

  /** Writing an entry of a last-level table moves no table. */
  lemma LeafKeepsTables(m: Mem, root: Frame, a: Node, i: Index, e: Entry, n: Node)
    requires Tree(m, root) && TableAt(m, root, a).Some? && Depth(a) == 3
    ensures TableAt(SetEntry(m, TableAt(m, root, a).value, i, e), root, n) == TableAt(m, root, n)
    decreases n
  {
    if n.Sub? {
      LeafKeepsTables(m, root, a, i, e, n.up);
    }
  }

  /** Writing the last-level entry of `v` changes the translation of that page and of no other. */
  lemma LeafChangesOnePage(m: Mem, root: Frame, v: u64, e: Entry, w: u64)
    requires Tree(m, root) && TableAt(m, root, N3(v)).Some?
    ensures var m' := SetEntry(m, TableAt(m, root, N3(v)).value, I1(v), e);
      Lookup(m', root, w) ==
        if SamePage(v, w) then (if e.present then Page4K(e) else Unmapped) else Lookup(m, root, w)
  {
    var t := TableAt(m, root, N3(v)).value;
    var m' := SetEntry(m, t, I1(v), e);
    LookupAlong(m, root, w);
    LookupAlong(m', root, w);
    assert Depth(N3(v)) == 3;
    LeafKeepsTables(m, root, N3(v), I1(v), e, N1(w));
    LeafKeepsTables(m, root, N3(v), I1(v), e, N2(w));
    LeafKeepsTables(m, root, N3(v), I1(v), e, N3(w));
    SamePageIndices(v, w);
    assert Depth(N1(w)) == 1 && Depth(N2(w)) == 2;
  }
}
