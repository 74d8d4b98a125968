/** src/paging.c and the page-fault branch of src/interrupts.c as they run: a packed bitmap with
    a hint, and table entries rewritten in physical memory. Every method is tied to the value
    level operation of the same name, whose meaning is proved in the modules imported here. */
module Paging {
  import opened Bits
  import opened PhysicalPages
  import opened PageTables
  import opened HugePages
  import PageWalk
  import VirtualMemoryRuns
  import Memory

  const LIMINE_MEMMAP_USABLE: u64 := 0

  datatype MemmapEntry = MemmapEntry(base: u64, length: u64, kind: u64)

  // ------------------------------------------------------------------ the boot memory map

  /** The pages of a usable entry that the bitmap covers. */
  ghost function EntryPages(e: MemmapEntry): set<nat> {
    if e.kind != LIMINE_MEMMAP_USABLE then {}
    else
      var first, last := e.base / PAGE_SIZE, e.base / PAGE_SIZE + e.length / PAGE_SIZE;
      Interval(first, if last < PAGES then last else PAGES)
  }

  ghost function UsablePages(es: seq<MemmapEntry>): set<nat> {
    if es == [] then {} else UsablePages(es[..|es| - 1]) + EntryPages(es[|es| - 1])
  }

  ghost function CountedPages(es: seq<MemmapEntry>): nat {
    if es == [] then 0 else CountedPages(es[..|es| - 1]) + |EntryPages(es[|es| - 1])|
  }

  /** What the boot protocol promises: usable entries do not overlap and leave out page 0. */
  ghost predicate Disjoint(es: seq<MemmapEntry>) {
    forall i, j | 0 <= i < j < |es| :: EntryPages(es[i]) !! EntryPages(es[j])
  }

  ghost predicate InSome(es: seq<MemmapEntry>, p: nat) {
    exists i :: 0 <= i < |es| && p in EntryPages(es[i])
  }

  lemma {:induction false} UsableIsUnion(es: seq<MemmapEntry>, p: nat)
    ensures p in UsablePages(es) <==> InSome(es, p)
  {
    hide EntryPages;
    if es != [] {
      var n := |es| - 1;
      var init := es[..n];
      UsableIsUnion(init, p);
      assert forall i | 0 <= i < n :: init[i] == es[i];
      if InSome(es, p) {
        var i :| 0 <= i < |es| && p in EntryPages(es[i]);
        assert i == n || p in EntryPages(init[i]);
      }
      if InSome(init, p) {
        var i :| 0 <= i < n && p in EntryPages(init[i]);
        assert p in EntryPages(es[i]);
      }
    }
  }

  lemma UsableMeets(es: seq<MemmapEntry>, b: set<nat>)
    ensures UsablePages(es) !! b <==> forall i | 0 <= i < |es| :: EntryPages(es[i]) !! b
  {
    hide EntryPages, UsablePages;
    forall p ensures p in UsablePages(es) <==> InSome(es, p) {
      UsableIsUnion(es, p);
    }
  }

  lemma DisjointInit(es: seq<MemmapEntry>)
    requires es != []
    ensures Disjoint(es) <==>
              Disjoint(es[..|es| - 1]) && UsablePages(es[..|es| - 1]) !! EntryPages(es[|es| - 1])
  {
    hide EntryPages, UsablePages;
    var n := |es| - 1;
    var init := es[..n];
    UsableMeets(init, EntryPages(es[n]));
    assert forall i | 0 <= i < n :: init[i] == es[i];
    if Disjoint(init) && UsablePages(init) !! EntryPages(es[n]) {
      forall i, j | 0 <= i < j < |es| ensures EntryPages(es[i]) !! EntryPages(es[j]) {
        assert EntryPages(init[i]) !! EntryPages(if j == n then es[n] else init[j]);
      }
    }
    if Disjoint(es) {
      forall i, j | 0 <= i < j < n ensures EntryPages(init[i]) !! EntryPages(init[j]) {
        assert EntryPages(es[i]) !! EntryPages(es[j]);
      }
      forall i | 0 <= i < n ensures EntryPages(init[i]) !! EntryPages(es[n]) {
        assert EntryPages(es[i]) !! EntryPages(es[n]);
      }
    }
  }

  /** total_pages counts every entry by itself, so it is the number of usable pages exactly
      when no two entries overlap. */
  lemma {:induction false} CountedIffDisjoint(es: seq<MemmapEntry>)
    ensures |UsablePages(es)| <= CountedPages(es)
    ensures |UsablePages(es)| == CountedPages(es) <==> Disjoint(es)
  {
    if es != [] {
      CountedIffDisjoint(es[..|es| - 1]);
      DisjointInit(es);
      UnionSize(UsablePages(es[..|es| - 1]), EntryPages(es[|es| - 1]));
    }
  }

  lemma UnionSize(a: set<nat>, b: set<nat>)
    ensures |a + b| <= |a| + |b|
    ensures |a + b| == |a| + |b| <==> a !! b
  {
    assert |a + b| == |a| + |b| - |a * b|;
    if !(a !! b) {
      var x :| x in a && x in b;
      assert x in a * b;
    } else {
      assert a * b == {};
    }
  }

  lemma NextEntry(es: seq<MemmapEntry>, i: nat)
    requires i < |es|
    ensures UsablePages(es[..i + 1]) == UsablePages(es[..i]) + EntryPages(es[i])
    ensures CountedPages(es[..i + 1]) == CountedPages(es[..i]) + |EntryPages(es[i])|
  {
    assert es[..i + 1][..i] == es[..i];
  }

  /** Where the loop over an entry's pages stops: at its end or at the end of the bitmap. */
  lemma EntryInterval(e: MemmapEntry, p: nat)
    requires e.kind == LIMINE_MEMMAP_USABLE && p <= e.length / PAGE_SIZE
    requires p > 0 ==> e.base / PAGE_SIZE + p <= PAGES
    requires p == e.length / PAGE_SIZE || e.base / PAGE_SIZE + p >= PAGES
    ensures EntryPages(e) == Interval(e.base / PAGE_SIZE, e.base / PAGE_SIZE + p)
    ensures |EntryPages(e)| == p
  {
  }

  lemma EntryBelow(e: MemmapEntry)
    ensures forall p | p in EntryPages(e) :: p < PAGES
  {
  }

  lemma NotUsable(e: MemmapEntry)
    requires e.kind != LIMINE_MEMMAP_USABLE
    ensures EntryPages(e) == {}
  {
  }

  lemma NoEntries(es: seq<MemmapEntry>)
    ensures UsablePages(es[..0]) == {} && CountedPages(es[..0]) == 0
  {
  }

  /** The free pages with `n` more from `lo` on. */
  ghost function Freed(free: set<nat>, lo: nat, n: nat): set<nat> { free + Interval(lo, lo + n) }

  lemma NoneFreed(free: set<nat>, lo: nat)
    ensures Freed(free, lo, 0) == free
  {
  }

  lemma OneMore(free: set<nat>, lo: nat, n: nat)
    ensures Freed(free, lo, n) + {lo + n} == Freed(free, lo, n + 1)
  {
  }

  /** A page counts as part of an entry of type 0 exactly when all of it is, the entry being moved
      down to a page boundary first; other entries have no pages. */
  lemma PagesOfEntry(e: MemmapEntry, p: nat)
    ensures p in EntryPages(e) <==>
              && e.kind == 0 && p < 0x4_0000
              && e.base - e.base % 0x1000 <= p * 0x1000 && (p + 1) * 0x1000 <= e.base - e.base % 0x1000 + e.length
  {
    WholePages(e.base, e.length, p);
  }

  lemma WholePages(base: nat, length: nat, p: nat)
    ensures base / 0x1000 <= p <==> base - base % 0x1000 <= p * 0x1000
    ensures p < base / 0x1000 + length / 0x1000 <==> (p + 1) * 0x1000 <= base - base % 0x1000 + length
  {
  }

  /** After boot on a memory map as promised, allocator and counters are consistent. */
  lemma BootCounts(es: seq<MemmapEntry>, p: Pmm)
    requires Disjoint(es) && 0 !in UsablePages(es)
    requires p == Pmm(UsablePages(es), Wrap(CountedPages(es)), 0)
    ensures Sound(p) && Counted(p, p.free)
  {
    hide EntryPages, UsablePages, CountedPages, Disjoint;
    CountedIffDisjoint(es);
    forall f | f in p.free ensures f < PAGES {
      UsableIsUnion(es, f);
      var i :| 0 <= i < |es| && f in EntryPages(es[i]);
      EntryBelow(es[i]);
    }
    BoundedSet(p.free, PAGES);
    assert p.free - p.free == {};
  }

  // ------------------------------------------------------------------ the kernel's state

  class Kernel {
    const pageBitmap: array<byte>
    var totalPages: u64
    var usedPages: u64
    var nextFreePage: u64
    var pml4: Option<Frame>
    var memory: Mem

    /** Everything below the hint is marked used. */
    ghost predicate Valid()
      reads this, pageBitmap
    {
      && pageBitmap.Length == BITMAP_SIZE
      && nextFreePage <= PAGES
      && forall i: nat | i < nextFreePage :: Used(pageBitmap[..], i)
    }

    ghost function Pages(): Pmm
      requires Valid()
      reads this, pageBitmap
    {
      Pmm(ClearBits(pageBitmap[..], PAGES), totalPages, usedPages)
    }

    ghost function State(): Vm
      requires Valid() && pml4.Some?
      reads this, pageBitmap
    {
      Vm(Pages(), memory, pml4.value)
    }

    /** Static storage before boot: all zero, no top table. */
    constructor (physical: Mem)
      ensures Valid() && fresh(pageBitmap)
      ensures totalPages == 0 && usedPages == 0 && nextFreePage == 0 && pml4 == None && memory == physical
    {
      pageBitmap := new byte[BITMAP_SIZE](_ => 0);
      totalPages, usedPages, nextFreePage := 0, 0, 0;
      pml4 := None;
      memory := physical;
    }

    /** Takes over the top table named by CR3; without a higher-half map nothing is set up. */
    method SetupPaging(hhdmAvailable: bool, cr3: u64)
      requires cr3 < FRAMES * 0x1000
      modifies this`pml4
      ensures pml4 == if hhdmAvailable then Some(cr3 / 0x1000) else old(pml4)
    {
      if !hhdmAvailable { return; }
      pml4 := Some(cr3 / 0x1000);
    }

    /** The two statements both pmm_init and free_page clear a bit with. */
    method ClearPageBit(pageNum: nat)
      requires pageBitmap.Length == BITMAP_SIZE && pageNum < PAGES
      modifies pageBitmap
      ensures forall j: nat | j < PAGES :: Used(pageBitmap[..], j) == (j != pageNum && Used(old(pageBitmap[..]), j))
      ensures ClearBits(pageBitmap[..], PAGES) == ClearBits(old(pageBitmap[..]), PAGES) + {pageNum}
    {
      var byteIndex := pageNum / 8;
      var bitIndex := pageNum % 8;
      ClearBitsMarkFree(pageBitmap[..], PAGES, pageNum);
      ghost var marked := MarkFree(pageBitmap[..], pageNum);
      pageBitmap[byteIndex] := Clear1(pageBitmap[byteIndex], bitIndex);
      assert pageBitmap[..] == marked;
    }

    /** The inner loop of pmm_init: frees pages one by one up to the end of the bitmap. */
    method FreeRange(basePage: nat, numPages: nat) returns (p: nat)
      requires pageBitmap.Length == BITMAP_SIZE
      modifies this`totalPages, pageBitmap
      ensures p <= numPages && (p > 0 ==> basePage + p <= PAGES)
      ensures p == numPages || basePage + p >= PAGES
      ensures ClearBits(pageBitmap[..], PAGES) == Freed(ClearBits(old(pageBitmap[..]), PAGES), basePage, p)
      ensures totalPages == Wrap(old(totalPages) + p)
    {
      hide Used, ClearBits, Freed, Wrap;
      ghost var free, counted := ClearBits(pageBitmap[..], PAGES), totalPages;
      WrapAdd(counted, 0);
      NoneFreed(free, basePage);
      p := 0;
      while p < numPages
        invariant p <= numPages && (p > 0 ==> basePage + p <= PAGES)
        invariant ClearBits(pageBitmap[..], PAGES) == Freed(free, basePage, p)
        invariant totalPages == Wrap(counted + p)
      {
        var pageNum := basePage + p;
        if pageNum >= BITMAP_SIZE * 8 { break; }
        ClearPageBit(pageNum);
        OneMore(free, basePage, p);
        WrapAdd(counted + p, 1);
        totalPages := Wrap(totalPages + 1);
        p := p + 1;
      }
    }

    /** The body of pmm_init's outer loop: one entry of the memory map. */
    method FreeEntry(entry: MemmapEntry)
      requires Valid() && nextFreePage == 0
      modifies this`totalPages, pageBitmap
      ensures Valid()
      ensures Pages() ==
          Pmm(old(Pages()).free + EntryPages(entry), Wrap(old(totalPages) + |EntryPages(entry)|), usedPages)
    {
      hide Used, ClearBits, Interval, EntryPages, Wrap;
      if entry.kind != LIMINE_MEMMAP_USABLE {
        WrapAdd(totalPages, 0);
        NotUsable(entry);
        return;
      }
      var basePage := entry.base / PAGE_SIZE;
      var numPages := entry.length / PAGE_SIZE;
      var p := FreeRange(basePage, numPages);
      EntryInterval(entry, p);
    }

    /** Marks every page used, then frees the usable ones and counts them. */
    method PmmInit(memmap: Option<seq<MemmapEntry>>)
      requires Valid() && nextFreePage == 0
      modifies this`totalPages, pageBitmap
      ensures Valid()
      ensures memmap.None? ==> Pages() == old(Pages())
      ensures memmap.Some? ==>
        Pages() == Pmm(UsablePages(memmap.value), Wrap(old(totalPages) + CountedPages(memmap.value)), usedPages)
    {
      hide Used, ClearBits, EntryPages, UsablePages, CountedPages, Wrap;
      if memmap.None? { return; }
      Memory.Memset(pageBitmap, 0, 0xFF, pageBitmap.Length);
      AllOnes(pageBitmap[..], PAGES);
      var entries := memmap.value;
      NoEntries(entries);
      WrapAdd(old(totalPages), 0);
      var i := 0;
      while i < |entries|
        invariant i <= |entries| && Valid()
        invariant Pages() ==
            Pmm(UsablePages(entries[..i]), Wrap(old(totalPages) + CountedPages(entries[..i])), usedPages)
      {
        NextEntry(entries, i);
        WrapAdd(old(totalPages) + CountedPages(entries[..i]), |EntryPages(entries[i])|);
        FreeEntry(entries[i]);
        i := i + 1;
      }
      assert entries[..i] == entries;
    }

    /** First fit from the hint on, which finds the lowest free page of the whole bitmap. */
    method AllocatePage() returns (addr: u64)
      requires Valid()
      modifies this`usedPages, this`nextFreePage, pageBitmap
      ensures Valid()
      ensures (Pages(), addr) == Allocate(old(Pages()))
      ensures addr / 0x1000 < PAGES
    {
      var i := nextFreePage;
      while i < BITMAP_SIZE * 8
        invariant nextFreePage <= i <= PAGES
        invariant unchanged(this) && pageBitmap[..] == old(pageBitmap[..])
        invariant forall j: nat | j < i :: Used(pageBitmap[..], j)
      {
        var byteIndex := i / 8;
        var bitIndex := i % 8;
        AndShl1(pageBitmap[byteIndex], bitIndex);
        if And(pageBitmap[byteIndex], Shl1(bitIndex)) == 0 {
          assert !Used(pageBitmap[..], i);
          assert i in Pages().free;
          ClearBitsMarkUsed(pageBitmap[..], PAGES, i);
          ghost var marked := MarkUsed(pageBitmap[..], i);
          pageBitmap[byteIndex] := Set1(pageBitmap[byteIndex], bitIndex);
          assert pageBitmap[..] == marked;
          usedPages := Wrap(usedPages + 1);
          nextFreePage := i + 1;
          return i * PAGE_SIZE;
        }
        assert Used(pageBitmap[..], i);
        i := i + 1;
      }
      assert Pages() == old(Pages()) && Pages().free == {};
      return 0;
    }

    /** Clears the bit of a page without looking at it, and lowers the hint if needed. */
    method FreePage(addr: u64)
      requires Valid()
      modifies this`usedPages, this`nextFreePage, pageBitmap
      ensures Valid()
      ensures Pages() == Release(old(Pages()), addr)
    {
      var pageNum := addr / PAGE_SIZE;
      if pageNum >= BITMAP_SIZE * 8 { return; }
      ClearPageBit(pageNum);
      usedPages := Wrap(usedPages - 1);
      if pageNum < nextFreePage { nextFreePage := pageNum; }
    }

    /** The block that map_page repeats for each of the three upper levels. */
    method Descend(table: Frame, i: Index, top: bool, user: bool) returns (next: Option<Frame>)
      requires Valid() && pml4.Some?
      modifies this`usedPages, this`nextFreePage, this`memory, pageBitmap
      ensures Valid()
      ensures (State(), next) == PageTables.Descend(old(State()), table, i, top, user)
    {
      hide Least, ClearBits, Used;
      var e := memory[table][i];
      if !e.present {
        var addr := AllocatePage();
        if addr == 0 { return None; }
        memory := ZeroFrame(memory, addr / 0x1000);
        e := memory[table][i].(present := true, rw := true, user := user, address := addr / 0x1000);
        if !top { e := e.(pageSize := false); }
        memory := SetEntry(memory, table, i, e);
      }
      return Some(e.address);
    }

    method MapPage(v: u64, addr: u64, flags: u64)
      requires Valid()
      modifies this`usedPages, this`nextFreePage, this`memory, pageBitmap
      ensures Valid()
      ensures pml4.Some? ==> State() == PageTables.MapPage(old(State()), v, addr, flags)
      ensures pml4.None? ==> Pages() == old(Pages()) && memory == old(memory)
    {
      if pml4.None? { return; }
      var user := Bit(flags, 2);
      var pdpt := Descend(pml4.value, I4(v), true, user);
      if pdpt.None? { return; }
      var pd := Descend(pdpt.value, I3(v), false, user);
      if pd.None? { return; }
      var pt := Descend(pd.value, I2(v), false, user);
      if pt.None? { return; }
      var pte := memory[pt.value][I1(v)];
      pte := pte.(present := true);
      pte := pte.(rw := Bit(flags, 1));
      pte := pte.(user := user);
      pte := pte.(address := (addr / 0x1000) % FRAMES);
      memory := SetEntry(memory, pt.value, I1(v), pte);
    }

    method UnmapPage(v: u64)
      requires Valid()
      modifies this`memory
      ensures Valid()
      ensures pml4.Some? ==> State() == PageTables.UnmapPage(old(State()), v)
      ensures pml4.None? ==> memory == old(memory)
    {
      if pml4.None? { return; }
      var pml4e := memory[pml4.value][I4(v)];
      if !pml4e.present { return; }
      var pdpte := memory[pml4e.address][I3(v)];
      if !pdpte.present || pdpte.pageSize { return; }
      var pde := memory[pdpte.address][I2(v)];
      if !pde.present || pde.pageSize { return; }
      var pte := memory[pde.address][I1(v)];
      pte := pte.(present := false);
      pte := pte.(address := 0);
      memory := SetEntry(memory, pde.address, I1(v), pte);
    }

    /** 0 stands for "not mapped", as well as for a mapping to physical address 0. */
    method GetPhysicalAddress(v: u64) returns (addr: u64)
      requires Valid()
      ensures addr == if pml4.Some? && Translate(State(), v).Some? then Translate(State(), v).value else 0
      ensures pml4.Some? ==>
        addr == match PageWalk.Walk(memory, pml4.value, 3, v)
                case Some(a) => a
                case None => 0
    {
      if pml4.Some? { PageWalk.TranslateIsWalk(State(), v); }
      if pml4.None? { return 0; }
      var offset := v % 0x1000;
      var pml4e := memory[pml4.value][I4(v)];
      if !pml4e.present { return 0; }
      var pdpte := memory[pml4e.address][I3(v)];
      if !pdpte.present { return 0; }
      if pdpte.pageSize { return pdpte.address * 0x1000 + v % 0x4000_0000; }
      var pde := memory[pdpte.address][I2(v)];
      if !pde.present { return 0; }
      if pde.pageSize { return pde.address * 0x1000 + v % 0x20_0000; }
      var pte := memory[pde.address][I1(v)];
      if !pte.present { return 0; }
      return pte.address * 0x1000 + offset;
    }

    /** The page-fault branch of the exception handler; `halted` when no page was left. */
    method HandlePageFault(cr2: u64) returns (halted: bool)
      requires Valid() && pml4.Some?
      modifies this`usedPages, this`nextFreePage, this`memory, pageBitmap
      ensures Valid()
      ensures (State(), halted) == PageFault(old(State()), cr2)
    {
      hide PageTables.MapPage, PageTables.Descend, Least, ClearBits, Used;
      var virtPage := cr2 - cr2 % 0x1000;
      var physPage := AllocatePage();
      if physPage == 0 { return true; }
      MapPage(virtPage, physPage, 7);
      return false;
    }
  }

  /** The state after boot. */
  ghost function Booted(physical: Mem, cr3: u64, es: seq<MemmapEntry>): Vm
    requires cr3 < FRAMES * 0x1000
  {
    Vm(Pmm(UsablePages(es), Wrap(CountedPages(es)), 0), physical, cr3 / 0x1000)
  }

  /** A boot and a first page fault: the faulting address ends up on the lowest usable page if
      that is possible, and else where it was. */
  method BootAndFault(physical: Mem, cr3: u64, es: seq<MemmapEntry>, cr2: u64) returns (k: Kernel, addr: u64)
    requires cr3 < FRAMES * 0x1000
    requires Inv(Booted(physical, cr3, es)) && HugeApart(Booted(physical, cr3, es), cr2)
    ensures k.Valid() && k.pml4.Some? && Inv(k.State())
    ensures Disjoint(es) ==> Counted(k.Pages(), UsablePages(es))
    ensures var s := Booted(physical, cr3, es);
      addr == if VirtualMemoryRuns.CanFault(s, cr2) then Least(UsablePages(es)) * 0x1000 + cr2 % 0x1000
              else if Translate(s, cr2).Some? then Translate(s, cr2).value else 0
  {
    hide PageFault, Inv, NoHuge, Missing, Lookup, Physical, UsablePages, CountedPages, Disjoint, ClearBits, Least, Wrap,
      HugeApart, Sound, Counted;
    WrapAdd(0, CountedPages(es));
    k := new Kernel(physical);
    k.SetupPaging(true, cr3);
    k.PmmInit(Some(es));
    ghost var s := k.State();
    SoundOf(s);
    if Disjoint(es) {
      BootCounts(es, k.Pages());
      VirtualMemoryRuns.CallCounts(s, VirtualMemoryRuns.Fault(cr2), UsablePages(es));
    }
    VirtualMemoryRuns.FaultTranslates(s, cr2);
    var halted := k.HandlePageFault(cr2);
    addr := k.GetPhysicalAddress(cr2);
  }

  lemma SoundOf(s: Vm)
    requires Inv(s)
    ensures Sound(s.pmm) && 0 !in s.pmm.free
  {
  }
}
