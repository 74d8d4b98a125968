/** The walk of an address as the processor's manuals describe it, level by level: what it gives
    is what `Translate` and get_physical_address give, inside huge pages too. */
module PageWalk {
  import opened Bits
  import opened PhysicalPages
  import opened PageTables

  /** How many bytes one entry of a table spans; the last level is level 0. */
  function Span(level: nat): (n: nat)
    ensures n > 0
  {
    if level == 0 then 0x1000 else 512 * Span(level - 1)
  }

  /** From a table of the given level on. An entry of level 0, or one of level 1 or 2 with bit 7
      set, maps all it spans. */
  function Walk(m: Mem, f: Frame, level: nat, v: u64): Option<nat>
    decreases level
  {
    var e := m[f][v / Span(level) % 512];
    if !e.present then None
    else if level == 0 || (level < 3 && e.pageSize) then Some(e.address * 0x1000 + v % Span(level))
    else Walk(m, e.address, level - 1, v)
  }

  lemma Spans()
    ensures Span(0) == 0x1000 && Span(1) == 0x20_0000 && Span(2) == 0x4000_0000 && Span(3) == 0x80_0000_0000
  {
  }

  lemma WalkStep(m: Mem, f: Frame, level: nat, v: u64)
    ensures var e := m[f][v / Span(level) % 512];
      Walk(m, f, level, v) ==
        if !e.present then None
        else if level == 0 || (level < 3 && e.pageSize) then Some(e.address * 0x1000 + v % Span(level))
        else Walk(m, e.address, level - 1, v)
  {
  }

  /** The four levels of `Lookup` and the offsets of `Physical` are this walk. */
  lemma TranslateIsWalk(s: Vm, v: u64)
    ensures Translate(s, v) == Walk(s.mem, s.root, 3, v)
  {
    hide Walk, Span;
    Spans();
    var e4 := s.mem[s.root][I4(v)];
    var e3 := s.mem[e4.address][I3(v)];
    var e2 := s.mem[e3.address][I2(v)];
    WalkStep(s.mem, s.root, 3, v);
    WalkStep(s.mem, e4.address, 2, v);
    WalkStep(s.mem, e3.address, 1, v);
    WalkStep(s.mem, e2.address, 0, v);
  }

  // ------------------------------------------------------------------ map_page, level by level

  /** From a table of the given level on: follow the entry, linking a cleared page where it is
      absent, and at level 0 write frame and flags. */
  ghost function MapFrom(s: Vm, f: Frame, level: nat, v: u64, addr: u64, flags: u64): Vm
    decreases level
  {
    var i := v / Span(level) % 512;
    var e := s.mem[f][i];
    if level == 0 then
      s.(mem := s.mem[f := s.mem[f][i := Entry(true, Bit(flags, 1), Bit(flags, 2), e.pageSize,
                                               addr / 0x1000 % 0x100_0000_0000, e.rest)]])
    else if e.present then MapFrom(s, e.address, level - 1, v, addr, flags)
    else
      var (pmm, page) := Allocate(s.pmm);
      if page == 0 then s.(pmm := pmm)
      else
        var t := page / 0x1000 % 0x100_0000_0000;
        var m: Mem := s.mem[t := seq(512, _ => Entry(false, false, false, false, 0, 0))];
        var link := Entry(true, true, Bit(flags, 2), level == 3 && m[f][i].pageSize, t, m[f][i].rest);
        MapFrom(Vm(pmm, m[f := m[f][i := link]], s.root), t, level - 1, v, addr, flags)
  }

  lemma MapStep(s: Vm, f: Frame, level: nat, v: u64, addr: u64, flags: u64)
    requires 0 < level <= 3
    ensures var (s', t) := Descend(s, f, v / Span(level) % 512, level == 3, Bit(flags, 2));
      MapFrom(s, f, level, v, addr, flags) ==
        if t.None? then s' else MapFrom(s', t.value, level - 1, v, addr, flags)
  {
    hide Span, Bit, Allocate;
    assert EmptyTable() == seq(512, _ => Entry(false, false, false, false, 0, 0));
  }

  lemma MapLast(s: Vm, f: Frame, v: u64, addr: u64, flags: u64)
    ensures MapFrom(s, f, 0, v, addr, flags) ==
              s.(mem := SetEntry(s.mem, f, v / Span(0) % 512, Leaf(s.mem[f][v / Span(0) % 512], addr, flags)))
  {
    hide Span, Bit;
  }

  /** The four blocks of map_page are this recursion, on every machine, consistent or not. */
  lemma MapIsWalk(s: Vm, v: u64, addr: u64, flags: u64)
    ensures MapPage(s, v, addr, flags) == MapFrom(s, s.root, 3, v, addr, flags)
  {
    hide MapFrom, Span, Descend, Leaf, SetEntry;
    Spans();
    MapStep(s, s.root, 3, v, addr, flags);
    var (s1, t3) := Descend(s, s.root, I4(v), true, Bit(flags, 2));
    if t3.Some? {
      MapStep(s1, t3.value, 2, v, addr, flags);
      var (s2, t2) := Descend(s1, t3.value, I3(v), false, Bit(flags, 2));
      if t2.Some? {
        MapStep(s2, t2.value, 1, v, addr, flags);
        var (s3, t1) := Descend(s2, t2.value, I2(v), false, Bit(flags, 2));
        if t1.Some? { MapLast(s3, t1.value, v, addr, flags); }
      }
    }
  }

  // ------------------------------------------------------------------ regions

  /** The two addresses lie in one aligned region of that size, as far as bits 47..0 tell. */
  predicate SameRegion(v: u64, w: u64, size: nat)
    requires 0 < size <= 0x1_0000_0000_0000
  {
    v / size % (0x1_0000_0000_0000 / size) == w / size % (0x1_0000_0000_0000 / size)
  }

  const KB4: nat := 0x1000
  const MB2: nat := 0x20_0000
  const GB1: nat := 0x4000_0000

  /** Nine bits at a time, indices spell the number of a region. */
  lemma RegionSpelled(v: u64)
    ensures v / GB1 % 0x4_0000 == I4(v) * 512 + I3(v)
    ensures v / MB2 % 0x800_0000 == (I4(v) * 512 + I3(v)) * 512 + I2(v)
  {
    var p, q, r := v / MB2, v / GB1, v / 0x80_0000_0000;
    RegionShifts(v);
    LastDigit(p);
    LastDigit(q);
    LastDigit(r);
    Low18(r / 512, r % 512 * 512 + q % 512);
    Low27(r / 512, (r % 512 * 512 + q % 512) * 512 + p % 512);
  }

  lemma RegionShifts(v: u64)
    ensures v / GB1 == v / MB2 / 512 && v / 0x80_0000_0000 == v / GB1 / 512
  {
  }

  lemma LastDigit(n: nat)
    ensures n == n / 512 * 512 + n % 512 && n % 512 < 512
  {
  }

  lemma Low18(high: nat, low: nat)
    requires low < 0x4_0000
    ensures (high * 0x4_0000 + low) % 0x4_0000 == low
  {
  }

  lemma Low27(high: nat, low: nat)
    requires low < 0x800_0000
    ensures (high * 0x800_0000 + low) % 0x800_0000 == low
  {
  }

  /** The addresses of one region take the same way to its entry. */
  lemma RegionIndices(v: u64, w: u64)
    ensures SameRegion(v, w, GB1) <==> I4(v) == I4(w) && I3(v) == I3(w)
    ensures SameRegion(v, w, MB2) <==> I4(v) == I4(w) && I3(v) == I3(w) && I2(v) == I2(w)
  {
    hide I4, I3, I2;
    RegionSpelled(v);
    RegionSpelled(w);
    if SameRegion(v, w, GB1) { SameDigits(0, 0, I4(v), I3(v), 0, 0, I4(w), I3(w)); }
    if SameRegion(v, w, MB2) { SameDigits(0, I4(v), I3(v), I2(v), 0, I4(w), I3(w), I2(w)); }
  }

  /** How much memory an entry maps at once. */
  function Size(p: Mapping): nat {
    match p
    case Unmapped => 0
    case Page4K(_) => KB4
    case Page2M(_) => MB2
    case Page1G(_) => GB1
  }

  /** All of a page, whatever its size, is mapped by one entry, byte after byte from the first byte
      of the frame that the entry names: distances inside it are kept. */
  lemma MappedInOrder(s: Vm, v: u64, w: u64)
    requires Lookup(s.mem, s.root, v) != Unmapped
    requires SameRegion(v, w, Size(Lookup(s.mem, s.root, v)))
    ensures var p := Lookup(s.mem, s.root, v);
      && Lookup(s.mem, s.root, w) == p && Translate(s, v).Some? && Translate(s, w).Some?
      && Translate(s, w).value - Translate(s, v).value == w % Size(p) - v % Size(p)
      && (v / Size(p) == w / Size(p) ==> Translate(s, w).value - Translate(s, v).value == w - v)
      && Translate(s, v - v % Size(p)) == Some(p.e.address * 0x1000)
  {
    hide Lookup, Physical, SameRegion, Size;
    var p := Lookup(s.mem, s.root, v);
    Sizes(p);
    SameEntry(s, v, w);
    RegionStart(v, Size(p));
    Offset(p, v);
    Offset(p, w);
    Offset(p, v - v % Size(p));
    SameEntry(s, v, v - v % Size(p));
    if v / Size(p) == w / Size(p) { InRegion(v, w, Size(p)); }
  }

  lemma Sizes(p: Mapping)
    ensures p != Unmapped ==> Size(p) == KB4 || Size(p) == MB2 || Size(p) == GB1
  {
  }

  lemma Offset(p: Mapping, v: u64)
    requires p != Unmapped
    ensures Size(p) > 0 && Physical(p, v) == Some(p.e.address * 0x1000 + v % Size(p))
  {
  }

  lemma SameEntry(s: Vm, v: u64, w: u64)
    requires Lookup(s.mem, s.root, v) != Unmapped
    requires SameRegion(v, w, Size(Lookup(s.mem, s.root, v)))
    ensures Lookup(s.mem, s.root, w) == Lookup(s.mem, s.root, v)
  {
    hide I4, I3, I2, I1;
    RegionIndices(v, w);
    if Lookup(s.mem, s.root, v).Page4K? { SamePageIndices(v, w); }
  }

  lemma RegionStart(v: u64, size: nat)
    requires size == KB4 || size == MB2 || size == GB1
    ensures SameRegion(v, v - v % size, size) && (v - v % size) % size == 0
  {
  }

  lemma InRegion(v: u64, w: u64, size: nat)
    requires size > 0 && v / size == w / size
    ensures w % size - v % size == w - v
  {
    assert v == v / size * size + v % size && w == w / size * size + w % size;
  }
}
