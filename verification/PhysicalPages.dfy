/** The physical page allocator as a value: which pages are free and what the two counters
    say. `Paging.Kernel` keeps the same information in a packed bitmap with a hint. */
module PhysicalPages {
  import opened Bits

  const PAGE_SIZE: nat := 4096
  const BITMAP_SIZE: nat := 32768
  const PAGES: nat := 262144          // BITMAP_SIZE * 8
  const TWO_64: nat := 0x1_0000_0000_0000_0000

  /** uint64_t arithmetic wraps. */
  function Wrap(x: int): u64 { x % TWO_64 }

  lemma WrapAdd(x: int, y: int)
    ensures Wrap(Wrap(x) + y) == Wrap(x + y)
    ensures 0 <= x < TWO_64 ==> Wrap(x) == x
    ensures Wrap(-1) == TWO_64 - 1
  {
  }

  datatype Pmm = Pmm(free: set<nat>, total: u64, used: u64)

  /** First fit over the whole bitmap; the result is a physical address, 0 for failure. */
  ghost function Allocate(p: Pmm): (Pmm, nat) {
    if p.free == {} then (p, 0)
    else
      var page := Least(p.free);
      (Pmm(p.free - {page}, p.total, Wrap(p.used + 1)), page * PAGE_SIZE)
  }

  ghost function Release(p: Pmm, addr: u64): Pmm {
    var page := addr / PAGE_SIZE;
    if page >= PAGES then p else Pmm(p.free + {page}, p.total, Wrap(p.used - 1))
  }

  /** The allocator after boot: only real, nonzero pages are free. */
  ghost predicate Sound(p: Pmm) {
    0 !in p.free && forall f | f in p.free :: f < PAGES
  }

  /** The counters agree with the bitmap, `usable` being the pages found at boot. */
  ghost predicate Counted(p: Pmm, usable: set<nat>) {
    && p.free <= usable
    && (forall f | f in usable :: f < PAGES)
    && p.total == |usable|
    && p.used == |usable - p.free|
  }

  /** pmm_stats prints `total_pages - used_pages`: that difference counts the clear bits. */
  lemma FreeCountPrinted(p: Pmm, usable: set<nat>)
    requires Counted(p, usable)
    ensures Wrap(p.total - p.used) == |p.free|
  {
    Contained(p.free, usable);
    BoundedSet(usable, PAGES);
  }

  // ------------------------------------------------------------------ runs

  datatype Event = Alloc | Free(addr: u64)

  ghost function Step(p: Pmm, e: Event): Pmm {
    match e
    case Alloc => Allocate(p).0
    case Free(a) => Release(p, a)
  }

  ghost function Run(p: Pmm, es: seq<Event>): Pmm
    decreases |es|
  {
    if es == [] then p else Step(Run(p, es[..|es| - 1]), es[|es| - 1])
  }

  /** The pages handed out and not returned in a run. */
  ghost function Outstanding(p: Pmm, es: seq<Event>): set<nat>
    decreases |es|
  {
    if es == [] then {}
    else
      var before := Outstanding(p, es[..|es| - 1]);
      match es[|es| - 1]
      case Alloc =>
        var addr := Allocate(Run(p, es[..|es| - 1])).1;
        if addr == 0 then before else before + {addr / PAGE_SIZE}
      case Free(a) => before - {a / PAGE_SIZE}
  }

  /** Every free returns a page that is outstanding at that moment. */
  ghost predicate ValidFrees(p: Pmm, es: seq<Event>) {
    forall k | 0 <= k < |es| && es[k].Free? :: es[k].addr / PAGE_SIZE in Outstanding(p, es[..k])
  }

  /** Over every run with valid frees the counters count, the bits and the hand-outs agree. */
  lemma {:induction false} RunsCount(p: Pmm, es: seq<Event>)
    requires Sound(p) && Counted(p, p.free)
    requires ValidFrees(p, es)
    ensures Sound(Run(p, es)) && Counted(Run(p, es), p.free)
    ensures Outstanding(p, es) == p.free - Run(p, es).free
    ensures Run(p, es).used == |Outstanding(p, es)|
    decreases |es|
  {
    if es == [] {
    } else {
      var before, e := es[..|es| - 1], es[|es| - 1];
      assert ValidFrees(p, before) by {
        assert forall k | 0 <= k < |before| :: before[..k] == es[..k] && before[k] == es[k];
      }
      RunsCount(p, before);
      var q := Run(p, before);
      match e
      case Alloc => AllocateCounts(q, p.free);
      case Free(a) =>
        assert e.addr / PAGE_SIZE in Outstanding(p, es[..|es| - 1]);
        ReleaseCounts(q, p.free, a);
    }
  }

  /** How many allocations of a run were served, and how many frees named a page of the bitmap. */
  ghost function Served(p: Pmm, es: seq<Event>): nat
    decreases |es|
  {
    if es == [] then 0
    else
      var before := es[..|es| - 1];
      Served(p, before) + if es[|es| - 1].Alloc? && Run(p, before).free != {} then 1 else 0
  }

  function Returned(es: seq<Event>): nat
    decreases |es|
  {
    if es == [] then 0
    else
      var e := es[|es| - 1];
      Returned(es[..|es| - 1]) + if e.Free? && e.addr / 0x1000 < 0x4_0000 then 1 else 0
  }

  /** Over every run at all, double frees and frees of pages that never were usable included:
      total_pages stays, and used_pages moves by the allocations served less the frees of pages
      the bitmap has, in 64 bits. */
  lemma {:induction false} RunsBalance(p: Pmm, es: seq<Event>)
    ensures Run(p, es).total == p.total
    ensures Run(p, es).used == (p.used + Served(p, es) - Returned(es)) % 0x1_0000_0000_0000_0000
    decreases |es|
  {
    hide Least;
    if es != [] {
      var before := es[..|es| - 1];
      RunsBalance(p, before);
      var n := p.used + Served(p, before) - Returned(before);
      WrapAdd(n, 1);
      WrapAdd(n, -1);
    } else {
      WrapAdd(p.used, 0);
    }
  }

  /** Which pages are free after one call: allocate_page takes the lowest. */
  lemma StepFree(p: Pmm, e: Event, page: nat)
    ensures page in Step(p, e).free <==>
              match e
              case Alloc => page in p.free && exists q :: q in p.free && q < page
              case Free(a) => page in p.free || (page == a / 0x1000 && page < 0x4_0000)
  {
    if e.Alloc? && p.free != {} {
      var q := Least(p.free);
      if page != q && page in p.free { assert q in p.free && q < page; }
    }
  }

  /** Handing out a page takes the lowest free one, and the counters follow. */
  lemma AllocateCounts(p: Pmm, usable: set<nat>)
    requires Sound(p) && Counted(p, usable)
    ensures var (q, addr) := Allocate(p);
            && Sound(q) && Counted(q, usable)
            && (addr == 0 <==> p.free == {})
            && (addr == 0 ==> q == p)
            && (addr != 0 ==> addr % PAGE_SIZE == 0 && p.free == q.free + {addr / PAGE_SIZE}
                              && addr / PAGE_SIZE !in q.free
                              && usable - q.free == (usable - p.free) + {addr / PAGE_SIZE})
  {
    hide Wrap, Least;
    if p.free != {} {
      var page := Least(p.free);
      HandOut(p.free, usable, page);
      WrapAdd(p.used + 1, 0);
      assert page * PAGE_SIZE / PAGE_SIZE == page && page * PAGE_SIZE % PAGE_SIZE == 0;
      assert p.free == (p.free - {page}) + {page};
    }
  }

  /** Handing out one page moves it from the free to the outstanding ones. */
  lemma HandOut(free: set<nat>, usable: set<nat>, page: nat)
    requires free <= usable && page in free && forall f | f in usable :: f < PAGES
    ensures usable - (free - {page}) == (usable - free) + {page}
    ensures |usable - (free - {page})| == |usable - free| + 1 <= PAGES
  {
    var out := (usable - free) + {page};
    assert usable - (free - {page}) == out;
    BoundedSet(out, PAGES);
  }

  /** free_page does not look at the bit: the counters survive it exactly when the page is
      beyond the bitmap or is a usable page that is not free already. */
  lemma ReleaseCounts(p: Pmm, usable: set<nat>, a: u64)
    requires Sound(p) && Counted(p, usable)
    ensures Counted(Release(p, a), usable) <==>
              a / PAGE_SIZE >= PAGES || a / PAGE_SIZE in usable - p.free
    ensures a / PAGE_SIZE in usable - p.free ==>
              usable - Release(p, a).free == (usable - p.free) - {a / PAGE_SIZE}
  {
    hide Wrap;
    var page := a / PAGE_SIZE;
    WrapAdd(p.used - 1, 0);
    if page in usable - p.free {
      TakeBack(p.free, usable, page);
    } else if page in p.free {
      assert p.free + {page} == p.free;
    }
  }

  lemma TakeBack(free: set<nat>, usable: set<nat>, page: nat)
    requires free <= usable && page in usable - free && forall f | f in usable :: f < PAGES
    ensures usable - (free + {page}) == (usable - free) - {page}
    ensures |usable - (free + {page})| == |usable - free| - 1 <= PAGES
  {
    var out := (usable - free) - {page};
    assert usable - (free + {page}) == out;
    BoundedSet(out, PAGES);
  }
}
