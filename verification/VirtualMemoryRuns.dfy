/** Unmapping, page faults, and what holds over every run of the virtual-memory operations. */
module VirtualMemoryRuns {
  import opened Bits
  import opened PhysicalPages
  import opened PageTables
  import opened VirtualMemory
  import opened HugePages

  // ------------------------------------------------------------------ unmap_page

  /** unmap_page removes exactly a 4 KiB mapping of the page of `v`; an address that is unmapped
      or lies in a 2 MiB or 1 GiB mapping is left alone. No table is removed or freed. */
  lemma UnmapPageCorrect(s: Vm, v: u64)
    requires Inv(s)
    ensures var s' := UnmapPage(s, v);
      && Inv(s') && s'.root == s.root && s'.pmm == s.pmm
      && (forall n :: TableAt(s'.mem, s'.root, n) == TableAt(s.mem, s.root, n))
      && (forall w: u64 :: Lookup(s'.mem, s'.root, w) ==
            if SamePage(v, w) && Lookup(s.mem, s.root, v).Page4K? then Unmapped else Lookup(s.mem, s.root, w))
      && (Lookup(s.mem, s.root, v).Page1G? || Lookup(s.mem, s.root, v).Page2M? ==> s' == s)
  {
    LookupAlong(s.mem, s.root, v);
    assert TableAt(s.mem, s.root, Top) == Some(s.root);
    var t := TableAt(s.mem, s.root, N3(v));
    if t.Some? {
      WriteLeaf(s, v, s.mem[t.value][I1(v)].(present := false, address := 0));
      forall w: u64 | SamePage(v, w) ensures Lookup(s.mem, s.root, w) == Lookup(s.mem, s.root, v) {
        LookupSamePage(s.mem, s.root, v, w);
      }
    }
  }

  /** On every machine, consistent or not: of memory only the last entry of the way changes, if the
      way has a last table. It is no longer present, and loses its address but no other bit. */
  lemma UnmapWrites(s: Vm, v: u64)
    ensures var s' := UnmapPage(s, v);
      && s'.pmm == s.pmm && s'.root == s.root
      && forall f: Frame, i: Index :: s'.mem[f][i] ==
           if TableAt(s.mem, s.root, N3(v)) == Some(f) && i == I1(v) then s.mem[f][i].(present := false, address := 0)
           else s.mem[f][i]
  {
    LastTable(s, v);
    hide TableAt, N3, I4, I3, I2, I1;
  }

  lemma LastTable(s: Vm, v: u64)
    ensures var e4 := s.mem[s.root][I4(v)];
      var e3 := s.mem[e4.address][I3(v)];
      var e2 := s.mem[e3.address][I2(v)];
      TableAt(s.mem, s.root, N3(v)) ==
        if e4.present && e3.present && !e3.pageSize && e2.present && !e2.pageSize then Some(e2.address) else None
  {
    hide I4, I3, I2;
    var e4 := s.mem[s.root][I4(v)];
    var e3 := s.mem[e4.address][I3(v)];
    assert Depth(N1(v)) == 1 && Depth(N2(v)) == 2 && TableAt(s.mem, s.root, Top) == Some(s.root);
    assert TableAt(s.mem, s.root, N1(v)) == if e4.present then Some(e4.address) else None;
    assert TableAt(s.mem, s.root, N2(v)) ==
      if e4.present && e3.present && !e3.pageSize then Some(e3.address) else None;
  }

  /** Mapping a page that was not mapped and unmapping it again gives back the translation of
      every address, whether or not the mapping found enough free pages. */
  lemma MapThenUnmap(s: Vm, v: u64, addr: u64, flags: u64)
    requires Inv(s) && Lookup(s.mem, s.root, v) == Unmapped
    ensures var s' := UnmapPage(MapPage(s, v, addr, flags), v);
      Inv(s') && forall w: u64 :: Lookup(s'.mem, s'.root, w) == Lookup(s.mem, s.root, w)
  {
    MapPageCorrect(s, v, addr, flags);
    UnmapPageCorrect(MapPage(s, v, addr, flags), v);
    forall w: u64 | SamePage(v, w) ensures Lookup(s.mem, s.root, w) == Unmapped {
      LookupSamePage(s.mem, s.root, v, w);
    }
  }

  // ------------------------------------------------------------------ page faults

  /** The frame address `w` is translated to, for pages of any size. */
  ghost predicate InFrame(s: Vm, w: u64, f: nat) {
    var t := Translate(s, w);
    t.Some? && t.value / 0x1000 == f
  }

  /** Every frame mapped outside the `exempt` pages has been taken from the allocator (or was
      never in it). Boot loaders map all of physical memory in one window: that window is what
      `exempt` is for; the empty set gives the plain statement. */
  ghost predicate Taken(s: Vm, exempt: iset<nat>) {
    forall w: u64, f: nat | Page(w) !in exempt && InFrame(s, w, f) :: f !in s.pmm.free
  }

  /** The demand-mapped pages `mine` are each alone on their frame, and no frame is a table. */
  ghost predicate Private(s: Vm, exempt: iset<nat>, mine: set<nat>) {
    && (forall v: u64 | Page(v) in mine ::
          && Page(v) !in exempt && Lookup(s.mem, s.root, v).Page4K?
          && (forall n :: TableAt(s.mem, s.root, n) != Some(Lookup(s.mem, s.root, v).e.address)))
    && (forall v: u64, w: u64, f: nat | Page(v) in mine && Page(w) !in exempt && Page(v) != Page(w)
          && InFrame(s, v, f) :: !InFrame(s, w, f))
  }

  /** A 4 KiB page is in the frame its entry names. */
  lemma PageFrame(s: Vm, v: u64)
    requires Lookup(s.mem, s.root, v).Page4K?
    ensures InFrame(s, v, Lookup(s.mem, s.root, v).e.address)
    ensures Translate(s, v).value % 0x1000 == v % 0x1000
  {
  }

  /** The allocator's part of a fault: page `Least` is taken, then the page of CR2 is mapped. */
  lemma FaultTakes(s: Vm, cr2: u64)
    requires Inv(s) && s.pmm.free != {}
    ensures var f, v, s1 := Least(s.pmm.free), cr2 - cr2 % 0x1000, s.(pmm := Allocate(s.pmm).0);
      && PageFault(s, cr2) == (MapPage(s1, v, f * 0x1000, 7), false)
      && 0 < f < PAGES && SamePage(cr2, v) && Page(v) == Page(cr2)
      && Inv(s1) && s1.pmm.free == s.pmm.free - {f} && |s1.pmm.free| == |s.pmm.free| - 1
      && NoHuge(s1.mem, s1.root, v) == NoHuge(s.mem, s.root, cr2)
      && HugeApart(s1, v) == HugeApart(s, cr2)
      && Missing(s1.mem, s1.root, v) == Missing(s.mem, s.root, cr2)
  {
    hide MapPage, Lookup, TableAt, N1, N2, N3, I1, I2;
    var v := cr2 - cr2 % 0x1000;
    SamePageStart(cr2);
    LookupSamePage(s.mem, s.root, cr2, v);
    SameWay(cr2, v);
  }

  lemma SamePageStart(v: u64)
    ensures SamePage(v, v - v % 0x1000) && Page(v - v % 0x1000) == Page(v)
  {
    assert (v - v % 0x1000) / 0x1000 == v / 0x1000;
  }

  lemma SameWay(v: u64, w: u64)
    requires SamePage(v, w)
    ensures N1(v) == N1(w) && N2(v) == N2(w) && N3(v) == N3(w) && I2(v) == I2(w)
  {
    SamePageIndices(v, w);
  }

  /** A fault maps exactly when no huge page is on the way and the tables missing there leave a
      page over. */
  ghost predicate CanFault(s: Vm, cr2: u64) {
    s.pmm.free != {} && NoHuge(s.mem, s.root, cr2) && |s.pmm.free| > Missing(s.mem, s.root, cr2)
  }

  /** A page fault as a whole, on every way that meets no huge page overlapping a table. It puts
      the page of the faulting address on the lowest free page exactly when `CanFault`, at the
      same offset and never at address 0; no other translation ever changes. */
  lemma FaultTranslates(s: Vm, cr2: u64)
    requires Inv(s) && HugeApart(s, cr2)
    ensures var (s', halted) := PageFault(s, cr2);
      && Inv(s') && s'.root == s.root && (halted <==> s.pmm.free == {})
      && forall w: u64 :: Translate(s', w) ==
           if CanFault(s, cr2) && SamePage(cr2, w) then Some(Least(s.pmm.free) * 0x1000 + w % 0x1000)
           else Translate(s, w)
    ensures s.pmm.free != {} ==> Least(s.pmm.free) > 0
  {
    hide MapPage, Inv, Missing, Lookup, NoHuge, SamePage, Least, Physical, HugeApart;
    if s.pmm.free != {} {
      hide PageFault, Allocate;
      FaultTakes(s, cr2);
      var f, v, s1 := Least(s.pmm.free), cr2 - cr2 % 0x1000, s.(pmm := Allocate(s.pmm).0);
      MapTranslates(s1, v, f * 0x1000, 7);
      assert f * 0x1000 / 0x1000 % FRAMES * 0x1000 == f * 0x1000;
      forall w: u64 ensures SamePage(v, w) == SamePage(cr2, w) {
        SamePageAlike(cr2, v, w);
      }
    }
  }

  lemma SamePageAlike(v: u64, v': u64, w: u64)
    requires SamePage(v, v')
    ensures SamePage(v', w) == SamePage(v, w)
  {
  }

  /** map_page in terms of translated addresses: every address of the page is translated to the
      frame that bits 51..12 of the physical address name, at the same offset, exactly when
      `CanMap`; every other address, and otherwise every address, is translated as before. */
  lemma MapTranslates(s: Vm, v: u64, addr: u64, flags: u64)
    requires Inv(s) && HugeApart(s, v)
    ensures var s' := MapPage(s, v, addr, flags);
      && Inv(s') && s'.root == s.root
      && forall w: u64 :: Translate(s', w) ==
           if CanMap(s, v) && SamePage(v, w) then Some(addr / 0x1000 % 0x100_0000_0000 * 0x1000 + w % 0x1000)
           else Translate(s, w)
  {
    hide MapPage, Inv, CanMap, Lookup, HugeApart;
    MapPageAlways(s, v, addr, flags);
  }

  /** Such a fault leaves one more private page. */
  lemma FaultMaps(s: Vm, cr2: u64, exempt: iset<nat>, mine: set<nat>)
    requires Inv(s) && Taken(s, exempt) && Private(s, exempt, mine)
    requires NoHuge(s.mem, s.root, cr2) && Page(cr2) !in exempt
    requires |s.pmm.free| > Missing(s.mem, s.root, cr2)
    ensures var (s', halted) := PageFault(s, cr2);
      Inv(s') && Taken(s', exempt) && Private(s', exempt, mine + {Page(cr2)})
  {
    hide MapPage, Lookup, Taken, Private, Tree, Owned, Missing, Least, Sound;
    var f, v, s1 := Least(s.pmm.free), cr2 - cr2 % 0x1000, s.(pmm := Allocate(s.pmm).0);
    FaultTakes(s, cr2);
    FreshMapping(s, s1, v, f, exempt, mine);
  }

  /** Mapping a page to a frame just taken from the allocator makes it private. */
  lemma FreshMapping(s: Vm, s1: Vm, v: u64, f: nat, exempt: iset<nat>, mine: set<nat>)
    requires Inv(s) && Taken(s, exempt) && Private(s, exempt, mine)
    requires f in s.pmm.free && f < PAGES && Page(v) !in exempt
    requires s1.mem == s.mem && s1.root == s.root && s1.pmm.free == s.pmm.free - {f}
    requires Inv(s1) && NoHuge(s1.mem, s1.root, v) && Missing(s1.mem, s1.root, v) <= |s1.pmm.free|
    ensures var s' := MapPage(s1, v, f * 0x1000, 7);
      && Inv(s') && Taken(s', exempt) && Private(s', exempt, mine + {Page(v)})
      && Lookup(s'.mem, s'.root, v).Page4K? && Lookup(s'.mem, s'.root, v).e.address == f
  {
    hide MapPage, Tree, Missing, Lookup, NoHuge, TableAt, Taken, Private;
    MapPageCorrect(s1, v, f * 0x1000, 7);
    OthersKeep(s, s1, MapPage(s1, v, f * 0x1000, 7), v, f, exempt, mine);
  }

  /** The new page is alone on its frame because no page outside the window used a free frame. */
  lemma OthersKeep(s: Vm, s1: Vm, s': Vm, v: u64, f: Frame, exempt: iset<nat>, mine: set<nat>)
    requires Owned(s) && Taken(s, exempt) && Private(s, exempt, mine) && f in s.pmm.free
    requires s1.mem == s.mem && s1.root == s.root && s1.pmm.free == s.pmm.free - {f}
    requires s'.pmm.free <= s1.pmm.free && TablesGrow(s1, s', v)
    requires Page(v) !in exempt
    requires forall w: u64 :: Lookup(s'.mem, s'.root, w) ==
               if SamePage(v, w) then Lookup(s'.mem, s'.root, v) else Lookup(s.mem, s.root, w)
    requires Lookup(s'.mem, s'.root, v).Page4K? && Lookup(s'.mem, s'.root, v).e.address == f
    ensures Taken(s', exempt) && Private(s', exempt, mine + {Page(v)})
  {
    forall n ensures TableAt(s'.mem, s'.root, n) != Some(f) {
      assert TableAt(s.mem, s.root, n) != Some(f);
    }
    forall w: u64, g: nat | Page(w) !in exempt && InFrame(s', w, g)
      ensures g !in s'.pmm.free
      ensures Page(w) == Page(v) <==> g == f
    {
      if Page(w) != Page(v) { assert InFrame(s, w, g); }
    }
    forall w: u64 | Page(w) in mine + {Page(v)}
      ensures Page(w) !in exempt && Lookup(s'.mem, s'.root, w).Page4K?
      ensures forall n :: TableAt(s'.mem, s'.root, n) != Some(Lookup(s'.mem, s'.root, w).e.address)
    {
      if Page(w) != Page(v) {
        PageFrame(s, w);
        forall n ensures TableAt(s'.mem, s'.root, n) != Some(Lookup(s'.mem, s'.root, w).e.address) {
          assert TableAt(s.mem, s.root, n) != Some(Lookup(s.mem, s.root, w).e.address);
          assert TableAt(s1.mem, s1.root, n) == TableAt(s.mem, s.root, n);
        }
      }
    }
    forall x: u64, w: u64, g: nat | Page(x) in mine + {Page(v)} && Page(w) !in exempt && Page(x) != Page(w)
          && InFrame(s', x, g)
      ensures !InFrame(s', w, g)
    {
      if Page(x) != Page(v) && Page(w) != Page(v) {
        assert InFrame(s, x, g);
      }
    }
  }

  /** Any other fault changes no translation and disturbs no private page; it halts exactly when
      there was no free page at all. */
  lemma FaultFails(s: Vm, cr2: u64, exempt: iset<nat>, mine: set<nat>)
    requires Inv(s) && Taken(s, exempt) && Private(s, exempt, mine)
    requires HugeApart(s, cr2) && !CanFault(s, cr2)
    ensures var (s', halted) := PageFault(s, cr2);
      && (halted <==> s.pmm.free == {})
      && (NoHuge(s.mem, s.root, cr2) ==> s'.pmm.free == {})
      && Inv(s') && Taken(s', exempt) && Private(s', exempt, mine)
      && forall w: u64 :: Lookup(s'.mem, s'.root, w) == Lookup(s.mem, s.root, w)
  {
    hide MapPage, Inv, Missing, Lookup, NoHuge, SamePage, Least, HugeApart, Taken, Private, TablesGrow,
      TakenAreLinked, OnlyWayWritten, Links, LastWritten, WayEntry;
    if s.pmm.free != {} {
      var f, v, s1 := Least(s.pmm.free), cr2 - cr2 % 0x1000, s.(pmm := Allocate(s.pmm).0);
      FaultTakes(s, cr2);
      MapPageAlways(s1, v, f * 0x1000, 7);
      if NoHuge(s.mem, s.root, cr2) { MapPageCorrect(s1, v, f * 0x1000, 7); }
      KeepPrivate(s, s1, MapPage(s1, v, f * 0x1000, 7), v, exempt, mine);
    }
  }

  /** Taking pages for tables disturbs no private page. */
  lemma KeepPrivate(s: Vm, s1: Vm, s': Vm, v: u64, exempt: iset<nat>, mine: set<nat>)
    requires Taken(s, exempt) && Private(s, exempt, mine)
    requires s1.mem == s.mem && s1.root == s.root && s1.pmm.free <= s.pmm.free
    requires s'.pmm.free <= s1.pmm.free && TablesGrow(s1, s', v)
    requires forall w: u64 :: Lookup(s'.mem, s'.root, w) == Lookup(s.mem, s.root, w)
    ensures Taken(s', exempt) && Private(s', exempt, mine)
  {
    forall w: u64, g: nat ensures InFrame(s', w, g) == InFrame(s, w, g) {
    }
    forall w: u64 | Page(w) in mine
      ensures forall n :: TableAt(s'.mem, s'.root, n) != Some(Lookup(s'.mem, s'.root, w).e.address)
    {
      PageFrame(s, w);
      assert Page(w) !in exempt;
      forall n ensures TableAt(s'.mem, s'.root, n) != Some(Lookup(s'.mem, s'.root, w).e.address) {
        assert TableAt(s.mem, s.root, n) != Some(Lookup(s.mem, s.root, w).e.address);
        assert TableAt(s1.mem, s1.root, n) == TableAt(s.mem, s.root, n);
      }
    }
  }

  // ------------------------------------------------------------------ runs

  /** A machine to start from: an empty top table outside the free pages maps nothing. */
  lemma EmptyTables(s: Vm)
    requires Sound(s.pmm) && s.root !in s.pmm.free
    requires forall i: Index :: !s.mem[s.root][i].present
    ensures Inv(s) && Taken(s, iset{}) && forall w: u64 :: Translate(s, w) == None
  {
    forall n ensures TableAt(s.mem, s.root, n) == if n.Top? then Some(s.root) else None {
      NothingBelow(s.mem, s.root, n);
    }
  }

  lemma {:induction false} NothingBelow(m: Mem, root: Frame, n: Node)
    requires forall i: Index :: !m[root][i].present
    ensures TableAt(m, root, n) == if n.Top? then Some(root) else None
  {
    if n.Sub? { NothingBelow(m, root, n.up); }
  }

  datatype Call =
    | AllocatePage
    | FreePage(addr: u64)
    | Map(v: u64, addr: u64, flags: u64)
    | Unmap(v: u64)
    | Fault(cr2: u64)

  ghost function After(s: Vm, c: Call): Vm {
    match c
    case AllocatePage => s.(pmm := Allocate(s.pmm).0)
    case FreePage(addr) => s.(pmm := Release(s.pmm, addr))
    case Map(v, addr, flags) => MapPage(s, v, addr, flags)
    case Unmap(v) => UnmapPage(s, v)
    case Fault(cr2) => PageFault(s, cr2).0
  }

  /** What each call asks of its caller: no huge page on the way that overlaps a table, and
      neither page 0 nor a table may be freed unless it is beyond the bitmap. */
  ghost predicate Allowed(s: Vm, c: Call) {
    match c
    case AllocatePage => true
    case FreePage(addr) =>
      addr / 0x1000 >= PAGES || (addr / 0x1000 != 0 && NoTable(s, addr / 0x1000))
    case Map(v, _, _) => HugeApart(s, v)
    case Unmap(v) => true
    case Fault(cr2) => HugeApart(s, cr2)
  }

  ghost function AfterAll(s: Vm, cs: seq<Call>): Vm
    decreases |cs|
  {
    if cs == [] then s else After(AfterAll(s, cs[..|cs| - 1]), cs[|cs| - 1])
  }

  ghost predicate AllAllowed(s: Vm, cs: seq<Call>) {
    forall k | 0 <= k < |cs| :: Allowed(AfterAll(s, cs[..k]), cs[k])
  }

  /** free_page keeps the tables out of the allocator exactly when the page is beyond the bitmap,
      or is neither page 0 nor a table. */
  lemma FreeKeepsTree(s: Vm, addr: u64)
    requires Inv(s)
    ensures Inv(After(s, FreePage(addr))) <==> Allowed(s, FreePage(addr))
  {
    var f := addr / 0x1000;
    var s' := After(s, FreePage(addr));
    if f < PAGES {
      assert f in s'.pmm.free;
    }
  }

  lemma CallKeepsTree(s: Vm, c: Call)
    requires Inv(s) && Allowed(s, c)
    ensures Inv(After(s, c))
  {
    match c
    case AllocatePage =>
    case FreePage(addr) => FreeKeepsTree(s, addr);
    case Map(v, addr, flags) => MapPageAlways(s, v, addr, flags);
    case Unmap(v) => UnmapPageCorrect(s, v);
    case Fault(cr2) =>
      FaultKeepsTree(s, cr2);
  }

  lemma FaultKeepsTree(s: Vm, cr2: u64)
    requires Inv(s) && HugeApart(s, cr2)
    ensures Inv(PageFault(s, cr2).0)
  {
    hide Inv, HugeApart;
    FaultTranslates(s, cr2);
  }

  /** Over every run the page tables stay a tree of pages the allocator does not own. */
  lemma {:induction false} RunsKeepTree(s: Vm, cs: seq<Call>)
    requires Inv(s) && AllAllowed(s, cs)
    ensures Inv(AfterAll(s, cs))
    decreases |cs|
  {
    if cs == [] {
    } else {
      var before := cs[..|cs| - 1];
      AllowedPrefix(s, cs);
      RunsKeepTree(s, before);
      CallKeepsTree(AfterAll(s, before), cs[|cs| - 1]);
    }
  }

  lemma AllowedPrefix(s: Vm, cs: seq<Call>)
    requires cs != [] && AllAllowed(s, cs)
    ensures AllAllowed(s, cs[..|cs| - 1])
    ensures Allowed(AfterAll(s, cs[..|cs| - 1]), cs[|cs| - 1])
  {
    var before := cs[..|cs| - 1];
    forall k | 0 <= k < |before| ensures Allowed(AfterAll(s, before[..k]), before[k]) {
      assert before[..k] == cs[..k] && before[k] == cs[k];
    }
  }

  /** Mapping and faulting take pages only through the allocator, so the counters follow. */
  lemma CallCounts(s: Vm, c: Call, usable: set<nat>)
    requires Sound(s.pmm) && Counted(s.pmm, usable)
    requires c.FreePage? ==> c.addr / 0x1000 in usable - s.pmm.free && c.addr / 0x1000 != 0
    ensures Sound(After(s, c).pmm) && Counted(After(s, c).pmm, usable)
  {
    match c
    case AllocatePage => AllocateCounts(s.pmm, usable);
    case FreePage(addr) => ReleaseCounts(s.pmm, usable, addr);
    case Map(v, addr, flags) => MapCounts(s, v, addr, flags, usable);
    case Unmap(v) =>
    case Fault(cr2) => FaultCounts(s, cr2, usable);
  }

  lemma FaultCounts(s: Vm, cr2: u64, usable: set<nat>)
    requires Sound(s.pmm) && Counted(s.pmm, usable)
    ensures Sound(PageFault(s, cr2).0.pmm) && Counted(PageFault(s, cr2).0.pmm, usable)
  {
    AllocateCounts(s.pmm, usable);
    var (pmm, addr) := Allocate(s.pmm);
    if addr != 0 {
      MapCounts(s.(pmm := pmm), cr2 - cr2 % 0x1000, Wrap(addr), 7, usable);
    }
  }

  lemma DescendCounts(s: Vm, t: Frame, i: Index, top: bool, user: bool, usable: set<nat>)
    requires Sound(s.pmm) && Counted(s.pmm, usable)
    ensures var s' := Descend(s, t, i, top, user).0; Sound(s'.pmm) && Counted(s'.pmm, usable)
  {
    AllocateCounts(s.pmm, usable);
  }

  lemma MapCounts(s: Vm, v: u64, addr: u64, flags: u64, usable: set<nat>)
    requires Sound(s.pmm) && Counted(s.pmm, usable)
    ensures Sound(MapPage(s, v, addr, flags).pmm) && Counted(MapPage(s, v, addr, flags).pmm, usable)
  {
    var user := Bit(flags, 2);
    DescendCounts(s, s.root, I4(v), true, user, usable);
    var (s1, t3) := Descend(s, s.root, I4(v), true, user);
    if t3.Some? {
      DescendCounts(s1, t3.value, I3(v), false, user, usable);
      var (s2, t2) := Descend(s1, t3.value, I3(v), false, user);
      if t2.Some? { DescendCounts(s2, t2.value, I2(v), false, user, usable); }
    }
  }

  /** Over every run whose frees are valid, the printed counters count: total_pages the usable
      pages, used_pages those that are not free, their difference the clear bits. */
  lemma {:induction false} RunsKeepCounts(s: Vm, cs: seq<Call>, usable: set<nat>)
    requires Sound(s.pmm) && Counted(s.pmm, usable)
    requires forall k | 0 <= k < |cs| && cs[k].FreePage? ::
               cs[k].addr / 0x1000 in usable - AfterAll(s, cs[..k]).pmm.free && cs[k].addr / 0x1000 != 0
    ensures Sound(AfterAll(s, cs).pmm) && Counted(AfterAll(s, cs).pmm, usable)
    ensures var p := AfterAll(s, cs).pmm; Wrap(p.total - p.used) == |p.free|
    decreases |cs|
  {
    hide After;
    if cs != [] {
      var before, c := cs[..|cs| - 1], cs[|cs| - 1];
      assert forall k | 0 <= k < |before| :: before[..k] == cs[..k] && before[k] == cs[k];
      RunsKeepCounts(s, before, usable);
      assert c.FreePage? ==> c.addr / 0x1000 in usable - AfterAll(s, before).pmm.free;
      CallCounts(AfterAll(s, before), c, usable);
    }
    FreeCountPrinted(AfterAll(s, cs).pmm, usable);
  }

  /** Entry `i` of table frame `p` links table frame `f`. */
  ghost predicate Links(s: Vm, p: Frame, i: Index, f: Frame) {
    exists a :: TableAt(s.mem, s.root, a) == Some(p) && TableAt(s.mem, s.root, Sub(a, i)) == Some(f)
  }

  /** The tree in terms of frames: the top table has no parent, every other table has exactly
      one parent entry, and no table's page can be handed out. */
  lemma OneParent(s: Vm, n: Node)
    requires Inv(s) && TableAt(s.mem, s.root, n).Some?
    ensures var f := TableAt(s.mem, s.root, n).value;
      && f !in s.pmm.free
      && (n.Top? ==> forall p, i :: !Links(s, p, i, f))
      && (n.Sub? ==> TableAt(s.mem, s.root, n.up).Some?)
      && (n.Sub? ==> forall p, i :: Links(s, p, i, f) <==>
                       p == TableAt(s.mem, s.root, n.up).value && i == n.index)
  {
    var f := TableAt(s.mem, s.root, n).value;
    forall p, i | Links(s, p, i, f)
      ensures n.Sub? && p == TableAt(s.mem, s.root, n.up).value && i == n.index
    {
      var a :| TableAt(s.mem, s.root, a) == Some(p) && TableAt(s.mem, s.root, Sub(a, i)) == Some(f);
      assert Sub(a, i) == n;
    }
    if n.Sub? {
      assert TableAt(s.mem, s.root, Sub(n.up, n.index)) == Some(f);
    }
  }

  // ------------------------------------------------------------------ private pages over all calls

  /** The demand-mapped pages after one more call: mapping or unmapping a page by hand ends it. */
  ghost function Mine(s: Vm, c: Call, mine: set<nat>): set<nat> {
    match c
    case Fault(cr2) => if CanFault(s, cr2) then mine + {Page(cr2)} else mine
    case Map(v, _, _) => mine - {Page(v)}
    case Unmap(v) => mine - {Page(v)}
    case _ => mine
  }

  ghost function MineAfterAll(s: Vm, cs: seq<Call>): set<nat>
    decreases |cs|
  {
    if cs == [] then {}
    else Mine(AfterAll(s, cs[..|cs| - 1]), cs[|cs| - 1], MineAfterAll(s, cs[..|cs| - 1]))
  }

  /** What privacy asks of the calls: faults come from outside the window, a frame mapped by hand
      is neither free nor another page's private frame, and a page is freed only when nothing
      outside the window is mapped to it. */
  ghost predicate Careful(s: Vm, c: Call, exempt: iset<nat>, mine: set<nat>) {
    match c
    case AllocatePage => true
    case FreePage(addr) => forall w: u64 | Page(w) !in exempt :: !InFrame(s, w, addr / 0x1000)
    case Map(v, addr, _) => Page(v) in exempt || Unshared(s, v, addr / 0x1000 % FRAMES, mine)
    case Unmap(v) => true
    case Fault(cr2) => Page(cr2) !in exempt
  }

  ghost predicate Unshared(s: Vm, v: u64, f: Frame, mine: set<nat>) {
    f !in s.pmm.free && forall x: u64 | Page(x) in mine && Page(x) != Page(v) :: !InFrame(s, x, f)
  }

  ghost predicate AllCareful(s: Vm, cs: seq<Call>, exempt: iset<nat>) {
    forall k | 0 <= k < |cs| :: Careful(AfterAll(s, cs[..k]), cs[k], exempt, MineAfterAll(s, cs[..k]))
  }

  lemma CarefulPrefix(s: Vm, cs: seq<Call>, exempt: iset<nat>)
    requires cs != [] && AllCareful(s, cs, exempt)
    ensures AllCareful(s, cs[..|cs| - 1], exempt)
    ensures Careful(AfterAll(s, cs[..|cs| - 1]), cs[|cs| - 1], exempt, MineAfterAll(s, cs[..|cs| - 1]))
  {
    hide Careful;
    var before := cs[..|cs| - 1];
    forall k | 0 <= k < |before|
      ensures Careful(AfterAll(s, before[..k]), before[k], exempt, MineAfterAll(s, before[..k]))
    {
      assert before[..k] == cs[..k] && before[k] == cs[k];
    }
  }

  lemma UnmapKeepsPrivate(s: Vm, v: u64, exempt: iset<nat>, mine: set<nat>)
    requires Inv(s) && Taken(s, exempt) && Private(s, exempt, mine)
    ensures Taken(UnmapPage(s, v), exempt) && Private(UnmapPage(s, v), exempt, mine - {Page(v)})
  {
    UnmapPageCorrect(s, v);
    var s' := UnmapPage(s, v);
    forall w: u64, f: nat ensures InFrame(s', w, f) ==> InFrame(s, w, f) {
    }
    forall w: u64 | Page(w) in mine - {Page(v)} ensures Lookup(s'.mem, s'.root, w) == Lookup(s.mem, s.root, w) {
    }
  }

  /** Mapping a frame that is nobody's leaves every other private page private. */
  lemma MapKeepsPrivate(s: Vm, v: u64, addr: u64, flags: u64, exempt: iset<nat>, mine: set<nat>)
    requires Inv(s) && Taken(s, exempt) && Private(s, exempt, mine) && HugeApart(s, v)
    requires Page(v) in exempt || Unshared(s, v, addr / 0x1000 % FRAMES, mine)
    ensures var s' := MapPage(s, v, addr, flags);
      Taken(s', exempt) && Private(s', exempt, mine - {Page(v)})
  {
    hide MapPage, Inv, HugeApart, NoHuge, Missing, Lookup, Taken, Private, TablesGrow, TakenAreLinked, SamePage,
      Unshared;
    var s' := MapPage(s, v, addr, flags);
    MapPageAlways(s, v, addr, flags);
    if CanMap(s, v) {
      OthersStayPrivate(s, s', v, addr / 0x1000 % FRAMES, exempt, mine);
    } else {
      KeepPrivate(s, s, s', v, exempt, mine);
      FewerPrivate(s', exempt, mine, mine - {Page(v)});
    }
  }

  lemma FewerPrivate(s: Vm, exempt: iset<nat>, mine: set<nat>, fewer: set<nat>)
    requires Private(s, exempt, mine) && fewer <= mine
    ensures Private(s, exempt, fewer)
  {
  }

  lemma OthersStayPrivate(s: Vm, s': Vm, v: u64, f: Frame, exempt: iset<nat>, mine: set<nat>)
    requires Taken(s, exempt) && Private(s, exempt, mine)
    requires Page(v) in exempt || Unshared(s, v, f, mine)
    requires s'.pmm.free <= s.pmm.free && TablesGrow(s, s', v)
    requires Lookup(s'.mem, s'.root, v).Page4K? && Lookup(s'.mem, s'.root, v).e.address == f
    requires forall w: u64 :: Lookup(s'.mem, s'.root, w) ==
               if SamePage(v, w) then Lookup(s'.mem, s'.root, v) else Lookup(s.mem, s.root, w)
    ensures Taken(s', exempt) && Private(s', exempt, mine - {Page(v)})
  {
    forall w: u64, g: nat | InFrame(s', w, g)
      ensures if Page(w) == Page(v) then g == f else InFrame(s, w, g)
    {
    }
    forall x: u64 | Page(x) in mine - {Page(v)}
      ensures Page(x) !in exempt && Lookup(s'.mem, s'.root, x).Page4K?
      ensures forall n :: TableAt(s'.mem, s'.root, n) != Some(Lookup(s'.mem, s'.root, x).e.address)
    {
      PageFrame(s, x);
      forall n ensures TableAt(s'.mem, s'.root, n) != Some(Lookup(s.mem, s.root, x).e.address) {
        assert TableAt(s.mem, s.root, n) != Some(Lookup(s.mem, s.root, x).e.address);
      }
    }
  }

  /** Freeing a page that no page outside the window is mapped to. */
  lemma FreeKeepsPrivate(s: Vm, addr: u64, exempt: iset<nat>, mine: set<nat>)
    requires Taken(s, exempt) && Private(s, exempt, mine)
    requires forall w: u64 | Page(w) !in exempt :: !InFrame(s, w, addr / 0x1000)
    ensures var s' := s.(pmm := Release(s.pmm, addr)); Taken(s', exempt) && Private(s', exempt, mine)
  {
    var s' := s.(pmm := Release(s.pmm, addr));
    assert forall w: u64, g: nat :: InFrame(s', w, g) == InFrame(s, w, g);
  }

  /** One call. */
  lemma CallKeepsPrivate(s: Vm, c: Call, exempt: iset<nat>, mine: set<nat>)
    requires Inv(s) && Taken(s, exempt) && Private(s, exempt, mine)
    requires Allowed(s, c) && Careful(s, c, exempt, mine)
    ensures Taken(After(s, c), exempt) && Private(After(s, c), exempt, Mine(s, c, mine))
  {
    hide Inv, Taken, Private, HugeApart, NoHuge, Missing, Lookup, MapPage, UnmapPage, PageFault, InFrame, Unshared;
    match c
    case AllocatePage => AllocateKeepsPrivate(s, exempt, mine);
    case FreePage(addr) => FreeKeepsPrivate(s, addr, exempt, mine);
    case Map(v, addr, flags) => MapKeepsPrivate(s, v, addr, flags, exempt, mine);
    case Unmap(v) => UnmapKeepsPrivate(s, v, exempt, mine);
    case Fault(cr2) =>
      if CanFault(s, cr2) {
        FaultMaps(s, cr2, exempt, mine);
      } else {
        FaultFails(s, cr2, exempt, mine);
      }
  }

  lemma AllocateKeepsPrivate(s: Vm, exempt: iset<nat>, mine: set<nat>)
    requires Taken(s, exempt) && Private(s, exempt, mine)
    ensures var s' := s.(pmm := Allocate(s.pmm).0); Taken(s', exempt) && Private(s', exempt, mine)
  {
    var s' := s.(pmm := Allocate(s.pmm).0);
    assert forall w: u64, f: nat :: InFrame(s', w, f) == InFrame(s, w, f);
  }

  /** Over every run of all five calls the demand-mapped pages have frames of their own: two of
      them never share a frame, none is a page table, and none is mapped anywhere else. */
  lemma {:induction false} RunsKeepPrivate(s: Vm, cs: seq<Call>, exempt: iset<nat>)
    requires Inv(s) && Taken(s, exempt) && AllAllowed(s, cs) && AllCareful(s, cs, exempt)
    ensures Inv(AfterAll(s, cs)) && Taken(AfterAll(s, cs), exempt)
    ensures Private(AfterAll(s, cs), exempt, MineAfterAll(s, cs))
    decreases |cs|
  {
    hide Inv, Taken, Allowed, Careful, After, Mine, AllAllowed, AllCareful;
    if cs == [] {
    } else {
      var before, c := cs[..|cs| - 1], cs[|cs| - 1];
      AllowedPrefix(s, cs);
      CarefulPrefix(s, cs, exempt);
      RunsKeepPrivate(s, before, exempt);
      var q, mine := AfterAll(s, before), MineAfterAll(s, before);
      CallKeepsTree(q, c);
      CallKeepsPrivate(q, c, exempt, mine);
    }
  }
}
