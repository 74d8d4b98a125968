/** map_page on every way. It never looks at `page_size`: where the way of the address meets a
    2 MiB or 1 GiB page, it takes that page's memory for a table. */
module HugePages {
  import opened Bits
  import opened PhysicalPages
  import opened PageTables
  import opened VirtualMemory

  // ------------------------------------------------------------------ words and tables

  /** A word that a walk does not read decides neither its way nor its end. */
  lemma UnreadWord(m: Mem, root: Frame, f: Frame, i: Index, e: Entry, w: u64)
    requires !Reads(m, root, w, f, i)
    ensures var m' := SetEntry(m, f, i, e);
      && Lookup(m', root, w) == Lookup(m, root, w)
      && forall d: nat | d <= 3 :: TableAt(m', root, Way(w, d)) == TableAt(m, root, Way(w, d))
  {
    hide Lookup;
    var m' := SetEntry(m, f, i, e);
    forall d: nat | d <= 3 ensures TableAt(m', root, Way(w, d)) == TableAt(m, root, Way(w, d)) {
      UnreadWay(m, root, f, i, e, w, d);
    }
    UnreadAt(m, root, f, i, e, w, 0);
    UnreadAt(m, root, f, i, e, w, 1);
    UnreadAt(m, root, f, i, e, w, 2);
    UnreadAt(m, root, f, i, e, w, 3);
    LookupAlong(m, root, w);
    LookupAlong(m', root, w);
  }

  /** The words the walk reads are not this one. */
  lemma UnreadAt(m: Mem, root: Frame, f: Frame, i: Index, e: Entry, w: u64, d: nat)
    requires !Reads(m, root, w, f, i) && d <= 3
    ensures TableAt(m, root, Way(w, d)).Some? ==>
      var t := TableAt(m, root, Way(w, d)).value;
      SetEntry(m, f, i, e)[t][WayIndex(w, d)] == m[t][WayIndex(w, d)]
  {
    hide Way, WayIndex;
  }

  lemma {:induction false} UnreadWay(m: Mem, root: Frame, f: Frame, i: Index, e: Entry, w: u64, d: nat)
    requires !Reads(m, root, w, f, i) && d <= 3
    ensures TableAt(SetEntry(m, f, i, e), root, Way(w, d)) == TableAt(m, root, Way(w, d))
  {
    hide Reads;
    if d > 0 {
      UnreadWay(m, root, f, i, e, w, d - 1);
      UnreadAt(m, root, f, i, e, w, d - 1);
      assert Way(w, d) == Sub(Way(w, d - 1), WayIndex(w, d - 1));
      hide Way, WayIndex, SetEntry;
    }
  }

  /** Frame `f` is no table. */
  ghost predicate NoTable(s: Vm, f: Frame) {
    forall n :: TableAt(s.mem, s.root, n) != Some(f)
  }

  /** All tables are as they were. */
  ghost predicate SameTables(s: Vm, s': Vm) {
    forall n :: TableAt(s.mem, s.root, n).Some? ==>
      s'.mem[TableAt(s.mem, s.root, n).value] == s.mem[TableAt(s.mem, s.root, n).value]
  }

  lemma {:induction false} TableStays(s: Vm, s': Vm, n: Node)
    requires s'.root == s.root && SameTables(s, s')
    ensures TableAt(s'.mem, s'.root, n) == TableAt(s.mem, s.root, n)
  {
    if n.Sub? { TableStays(s, s', n.up); }
  }

  /** What happens outside the tables moves no table and changes no translation. */
  lemma TablesUntouched(s: Vm, s': Vm)
    requires s'.root == s.root && SameTables(s, s')
    ensures forall n :: TableAt(s'.mem, s'.root, n) == TableAt(s.mem, s.root, n)
    ensures forall w: u64 :: Lookup(s'.mem, s'.root, w) == Lookup(s.mem, s.root, w)
  {
    forall n ensures TableAt(s'.mem, s'.root, n) == TableAt(s.mem, s.root, n) { TableStays(s, s', n); }
    forall w: u64 ensures Lookup(s'.mem, s'.root, w) == Lookup(s.mem, s.root, w) {
      LookupAlong(s.mem, s.root, w);
      LookupAlong(s'.mem, s'.root, w);
      assert TableAt(s.mem, s.root, Top) == Some(s.root);
    }
  }

  // ------------------------------------------------------------------ what map_page does to a huge page

  /** On a 2 MiB page map_page writes its last-level entry into the page's own first frame. That
      is all it does, and it changes the translation of no address whose walk does not read
      that word. */
  lemma HugePageSwallowsMapping(s: Vm, v: u64, addr: u64, flags: u64)
    requires Lookup(s.mem, s.root, v).Page2M?
    ensures var s', f := MapPage(s, v, addr, flags), Lookup(s.mem, s.root, v).e.address;
      && s' == s.(mem := SetEntry(s.mem, f, I1(v), s.mem[f][I1(v)].(
                                    present := true, rw := Bit(flags, 1), user := Bit(flags, 2),
                                    address := addr / 0x1000 % FRAMES)))
      && forall w: u64 | !Reads(s.mem, s.root, w, f, I1(v)) :: Lookup(s'.mem, s'.root, w) == Lookup(s.mem, s.root, w)
  {
    var f := Lookup(s.mem, s.root, v).e.address;
    var e := Leaf(s.mem[f][I1(v)], addr, flags);
    forall w: u64 | !Reads(s.mem, s.root, w, f, I1(v))
      ensures Lookup(SetEntry(s.mem, f, I1(v), e), s.root, w) == Lookup(s.mem, s.root, w)
    {
      UnreadWord(s.mem, s.root, f, I1(v), e, w);
    }
  }

  /** The word in a 1 GiB page that map_page takes for an entry. */
  function Word(s: Vm, v: u64): Entry
    requires Lookup(s.mem, s.root, v).Page1G?
  {
    s.mem[Lookup(s.mem, s.root, v).e.address][I2(v)]
  }

  /** The entry map_page makes of an absent word. */
  function Link(e: Entry, f: Frame, user: bool): Entry {
    e.(present := true, rw := true, user := user, pageSize := false, address := f)
  }

  /** On a 1 GiB page it takes a word of the page's first frame for an entry. If that says
      "present", the last-level entry goes wherever the word points; if not, a page is taken,
      cleared and written to, and the word made to point there; without a free page nothing
      happens. */
  lemma GigaPageSwallowsMapping(s: Vm, v: u64, addr: u64, flags: u64)
    requires Sound(s.pmm) && Lookup(s.mem, s.root, v).Page1G?
    ensures var s', f, e := MapPage(s, v, addr, flags), Lookup(s.mem, s.root, v).e.address, Word(s, v);
      if e.present then
        s' == s.(mem := SetEntry(s.mem, e.address, I1(v), s.mem[e.address][I1(v)].(
                                   present := true, rw := Bit(flags, 1), user := Bit(flags, 2),
                                   address := addr / 0x1000 % FRAMES)))
      else if s.pmm.free == {} then s' == s
      else
        var h := Least(s.pmm.free);
        var m := ZeroFrame(s.mem, h);
        var m' := SetEntry(m, f, I2(v), Link(m[f][I2(v)], h, Bit(flags, 2)));
        s' == Vm(Allocate(s.pmm).0,
                 SetEntry(m', h, I1(v), m'[h][I1(v)].(
                            present := true, rw := Bit(flags, 1), user := Bit(flags, 2),
                            address := addr / 0x1000 % FRAMES)),
                 s.root)
  {
    hide Descend, SetEntry, ZeroFrame, Allocate, Least;
    var e4 := s.mem[s.root][I4(v)];
    FollowsPresent(s, s.root, I4(v), true, Bit(flags, 2));
    FollowsPresent(s, e4.address, I3(v), false, Bit(flags, 2));
    Follows(s, Lookup(s.mem, s.root, v).e.address, I2(v), Bit(flags, 2));
  }

  lemma FollowsPresent(s: Vm, t: Frame, i: Index, top: bool, user: bool)
    requires s.mem[t][i].present
    ensures Descend(s, t, i, top, user) == (s, Some(s.mem[t][i].address))
  {
  }

  /** One level of map_page below the top one, on any word. */
  lemma Follows(s: Vm, f: Frame, i: Index, user: bool)
    requires Sound(s.pmm)
    ensures Descend(s, f, i, false, user) ==
              if s.mem[f][i].present then (s, Some(s.mem[f][i].address))
              else if s.pmm.free == {} then (s, None)
              else
                var h := Least(s.pmm.free);
                var m := ZeroFrame(s.mem, h);
                (Vm(Allocate(s.pmm).0, SetEntry(m, f, i, Link(m[f][i], h, user)), s.root), Some(h))
  {
    hide SetEntry, ZeroFrame;
  }

  /** The one word map_page writes that a walk could notice, if the huge page overlaps a table. */
  ghost function Written(s: Vm, v: u64): (Frame, Index)
    requires !NoHuge(s.mem, s.root, v)
  {
    var l := Lookup(s.mem, s.root, v);
    if l.Page2M? then (l.e.address, I1(v))
    else if Word(s, v).present then (Word(s, v).address, I1(v))
    else (l.e.address, I2(v))
  }

  /** Even if the huge page overlaps tables, no address is translated differently whose walk does
      not read that word. */
  lemma HugePageUnnoticed(s: Vm, v: u64, addr: u64, flags: u64, w: u64)
    requires Inv(s) && !NoHuge(s.mem, s.root, v)
    requires !Reads(s.mem, s.root, w, Written(s, v).0, Written(s, v).1)
    ensures var s' := MapPage(s, v, addr, flags); Lookup(s'.mem, s'.root, w) == Lookup(s.mem, s.root, w)
  {
    var l := Lookup(s.mem, s.root, v);
    if l.Page2M? {
      HugePageSwallowsMapping(s, v, addr, flags);
    } else {
      GigaPageSwallowsMapping(s, v, addr, flags);
      var f, e := l.e.address, Word(s, v);
      if e.present {
        UnreadWord(s.mem, s.root, e.address, I1(v), Leaf(s.mem[e.address][I1(v)], addr, flags), w);
      } else if s.pmm.free != {} {
        var h := Least(s.pmm.free);
        var m := ZeroFrame(s.mem, h);
        var link := Link(m[f][I2(v)], h, Bit(flags, 2));
        var m' := SetEntry(m, f, I2(v), link);
        FreeWordUnnoticed(s, h, f, I2(v), link, I1(v), Leaf(m'[h][I1(v)], addr, flags), w);
      }
    }
  }

  lemma FreeWordUnnoticed(s: Vm, h: Frame, f: Frame, i: Index, link: Entry, j: Index, leaf: Entry, w: u64)
    requires Inv(s) && h in s.pmm.free && !Reads(s.mem, s.root, w, f, i)
    ensures var m' := SetEntry(ZeroFrame(s.mem, h), f, i, link);
      Lookup(SetEntry(m', h, j, leaf), s.root, w) == Lookup(s.mem, s.root, w)
  {
    hide Lookup, SetEntry, ZeroFrame;
    var m := ZeroFrame(s.mem, h);
    FreshZero(s, h);
    TablesUntouched(s, s.(mem := m));
    assert !Reads(m, s.root, w, f, i);
    UnreadWord(m, s.root, f, i, link, w);
    assert !Reads(SetEntry(m, f, i, link), s.root, w, h, j);
    UnreadWord(SetEntry(m, f, i, link), s.root, h, j, leaf, w);
  }

  lemma FreshZero(s: Vm, h: Frame)
    requires Inv(s) && h in s.pmm.free
    ensures SameTables(s, s.(mem := ZeroFrame(s.mem, h)))
    ensures forall n :: TableAt(s.mem, s.root, n) != Some(h)
  {
  }

  // ------------------------------------------------------------------ the whole of map_page

  /** The memory that map_page would take for tables, should the way of `v` meet a huge page,
      holds no table. */
  ghost predicate HugeApart(s: Vm, v: u64) {
    var l := Lookup(s.mem, s.root, v);
    && (l.Page1G? || l.Page2M? ==> NoTable(s, l.e.address))
    && (l.Page1G? && Word(s, v).present ==> NoTable(s, Word(s, v).address))
  }

  /** No huge page on the way, and a free page for every table it lacks. */
  ghost predicate CanMap(s: Vm, v: u64) {
    NoHuge(s.mem, s.root, v) && Missing(s.mem, s.root, v) <= |s.pmm.free|
  }

  /** map_page takes a page and makes it no table: nobody can find it again. */
  ghost predicate Leaks(s: Vm, v: u64) {
    Lookup(s.mem, s.root, v).Page1G? && !Word(s, v).present && s.pmm.free != {}
  }

  /** The page of `v` is mapped as asked for. */
  ghost predicate Mapped(s: Vm, v: u64, addr: u64, flags: u64) {
    var l := Lookup(s.mem, s.root, v);
    && l.Page4K? && l.e.address == (addr / 0x1000) % FRAMES
    && l.e.rw == Bit(flags, 1) && l.e.user == Bit(flags, 2)
  }

  /** What a huge page makes of map_page, as long as it overlaps no table. */
  lemma HugeKeeps(s: Vm, v: u64, addr: u64, flags: u64)
    requires Inv(s) && HugeApart(s, v) && !NoHuge(s.mem, s.root, v)
    ensures var s' := MapPage(s, v, addr, flags);
      && s'.root == s.root && SameTables(s, s') && Sound(s'.pmm)
      && s'.pmm.free == if Leaks(s, v) then s.pmm.free - {Least(s.pmm.free)} else s.pmm.free
  {
    if Lookup(s.mem, s.root, v).Page2M? {
      HugePageSwallowsMapping(s, v, addr, flags);
    } else {
      GigaPageSwallowsMapping(s, v, addr, flags);
    }
  }

  /** map_page as a whole, on every way that meets no huge page overlapping a table. The page of
      `v` is mapped as asked for exactly when no huge page is on its way and there are enough
      pages for the missing tables. Then no other translation changes; otherwise none does.
      Every page taken ends up as a table on the way of `v`, except that a page is lost in a
      1 GiB page whose word looks absent. Where no huge page is on the way, memory is written as
      `MapPageCorrect` says. */
  lemma MapPageAlways(s: Vm, v: u64, addr: u64, flags: u64)
    requires Inv(s) && HugeApart(s, v)
    ensures var s' := MapPage(s, v, addr, flags);
      && Inv(s') && s'.root == s.root && s'.pmm.free <= s.pmm.free && TablesGrow(s, s', v)
      && (Mapped(s', v, addr, flags) <==> CanMap(s, v))
      && (TakenAreLinked(s, s', v) <==> !Leaks(s, v))
      && (NoHuge(s.mem, s.root, v) ==> OnlyWayWritten(s, s', v) && Links(s, s', v, Bit(flags, 2)))
      && (CanMap(s, v) ==>
            LastWritten(s, s', v, addr, flags) && Lookup(s'.mem, s'.root, v) == Page4K(WayEntry(s', v, 3)))
      && (NoHuge(s.mem, s.root, v) && !CanMap(s, v) ==> WayEntry(s', v, 3) == WayEntry(s, v, 3))
      && forall w: u64 :: Lookup(s'.mem, s'.root, w) ==
           if CanMap(s, v) && SamePage(v, w) then Lookup(s'.mem, s'.root, v) else Lookup(s.mem, s.root, w)
  {
    hide MapPage, Inv, Tree, Owned, OnlyWayWritten, Links, WayEntry;
    var s' := MapPage(s, v, addr, flags);
    if NoHuge(s.mem, s.root, v) {
      MapPageCorrect(s, v, addr, flags);
      LookupAlong(s.mem, s.root, v);
    } else {
      HugeInv(s, v, addr, flags);
      TablesUntouched(s, s');
      if Leaks(s, v) { LostPage(s, v); }
    }
  }

  lemma HugeInv(s: Vm, v: u64, addr: u64, flags: u64)
    requires Inv(s) && HugeApart(s, v) && !NoHuge(s.mem, s.root, v)
    ensures var s' := MapPage(s, v, addr, flags);
      && Inv(s') && s'.root == s.root && SameTables(s, s')
      && s'.pmm.free == if Leaks(s, v) then s.pmm.free - {Least(s.pmm.free)} else s.pmm.free
  {
    hide MapPage, HugeApart, Leaks, Least;
    HugeKeeps(s, v, addr, flags);
    TablesUntouched(s, MapPage(s, v, addr, flags));
  }

  /** The page taken for a 1 GiB page was free, so it is no table. */
  lemma LostPage(s: Vm, v: u64)
    requires Inv(s) && Leaks(s, v)
    ensures Least(s.pmm.free) in s.pmm.free && Least(s.pmm.free) < FRAMES && NoTable(s, Least(s.pmm.free))
  {
  }

  // ------------------------------------------------------------------ two machines with huge pages

  ghost function EmptyMem(): Mem { seq(FRAMES, _ => EmptyTable()) }

  function To(f: Frame, huge: bool): Entry { Entry(true, true, true, huge, f, 0) }

  /** Address 0 lies in a 1 GiB page at frame 0x40000; pages 4 and 5 are free. */
  ghost function Gigabyte(): Vm {
    Vm(Pmm({4, 5}, 2, 0), SetEntry(SetEntry(EmptyMem(), 1, 0, To(2, false)), 2, 0, To(0x40000, true)), 1)
  }

  /** Address 0 lies in a 2 MiB page at frame 0x200; pages 4 and 5 are free. */
  ghost function TwoMegabytes(): Vm {
    var m := SetEntry(SetEntry(EmptyMem(), 1, 0, To(2, false)), 2, 0, To(3, false));
    Vm(Pmm({4, 5}, 2, 0), SetEntry(m, 3, 0, To(0x200, true)), 1)
  }

  lemma {:induction false} GigabyteTables(n: Node)
    ensures TableAt(Gigabyte().mem, 1, n) ==
              if n == Top then Some(1) else if n == Sub(Top, 0) then Some(2) else None
  {
    if n.Sub? { GigabyteTables(n.up); }
  }

  lemma {:induction false} TwoMegabytesTables(n: Node)
    ensures TableAt(TwoMegabytes().mem, 1, n) ==
              if n == Top then Some(1) else if n == Sub(Top, 0) then Some(2)
              else if n == Sub(Sub(Top, 0), 0) then Some(3) else None
  {
    if n.Sub? { TwoMegabytesTables(n.up); }
  }

  /** The machine is consistent and has pages enough, and yet map_page does not map address 0;
      the page it takes is lost. */
  lemma GigabyteFails(addr: u64, flags: u64)
    ensures var s := Gigabyte();
      && Inv(s) && HugeApart(s, 0) && Lookup(s.mem, s.root, 0).Page1G? && Leaks(s, 0)
      && (var s' := MapPage(s, 0, addr, flags);
          !Mapped(s', 0, addr, flags) && s'.pmm.free == {5} && NoTable(s', 4))
  {
    hide MapPage;
    var s := Gigabyte();
    forall n ensures TableAt(s.mem, s.root, n) ==
        if n == Top then Some(1) else if n == Sub(Top, 0) then Some(2) else None
    {
      GigabyteTables(n);
    }
    assert Lookup(s.mem, s.root, 0) == Page1G(To(0x40000, true));
    LeastOfTwo();
    MapPageAlways(s, 0, addr, flags);
    HugeInv(s, 0, addr, flags);
    TablesUntouched(s, MapPage(s, 0, addr, flags));
  }

  /** Here it overwrites a word of the page instead, and maps nothing. */
  lemma TwoMegabytesFails(addr: u64, flags: u64)
    ensures var s := TwoMegabytes();
      && Inv(s) && HugeApart(s, 0) && Lookup(s.mem, s.root, 0).Page2M? && s.pmm.free != {}
      && (var s' := MapPage(s, 0, addr, flags);
          !Mapped(s', 0, addr, flags) && s'.mem[0x200][0].present && !s.mem[0x200][0].present)
  {
    hide MapPage;
    var s := TwoMegabytes();
    forall n ensures TableAt(s.mem, s.root, n) ==
        if n == Top then Some(1) else if n == Sub(Top, 0) then Some(2)
        else if n == Sub(Sub(Top, 0), 0) then Some(3) else None
    {
      TwoMegabytesTables(n);
    }
    assert Lookup(s.mem, s.root, 0) == Page2M(To(0x200, true));
    MapPageAlways(s, 0, addr, flags);
    HugePageSwallowsMapping(s, 0, addr, flags);
  }

  lemma LeastOfTwo()
    ensures Least({4, 5}) == 4
  {
    assert 4 in {4, 5};
  }
}
