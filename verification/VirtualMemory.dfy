/** What mapping, unmapping and page faults mean: the tables behave as a plain map from pages
    to frames, and stay a tree of pages the allocator does not own, over every run. */
module VirtualMemory {
  import opened Bits
  import opened PageTables

  /** Addresses of one page are looked up alike. */
  lemma LookupSamePage(m: Mem, root: Frame, v: u64, w: u64)
    requires SamePage(v, w)
    ensures Lookup(m, root, v) == Lookup(m, root, w)
    ensures N3(v) == N3(w) && I1(v) == I1(w)
  {
    SamePageIndices(v, w);
  }

  /** Every frame taken between `s` and `s'` is now a table on the way of `v`. */
  ghost predicate TakenAreLinked(s: Vm, s': Vm, v: u64) {
    forall f | f in s.pmm.free && f !in s'.pmm.free ::
      || TableAt(s'.mem, s'.root, N1(v)) == Some(f)
      || TableAt(s'.mem, s'.root, N2(v)) == Some(f)
      || TableAt(s'.mem, s'.root, N3(v)) == Some(f)
  }

  /** Old tables stay where they were; new ones lie on the way of `v`, in frames that were free. */
  ghost predicate TablesGrow(s: Vm, s': Vm, v: u64) {
    forall n ::
      && (TableAt(s.mem, s.root, n).Some? ==> TableAt(s'.mem, s'.root, n) == TableAt(s.mem, s.root, n))
      && (TableAt(s'.mem, s'.root, n).Some? && TableAt(s.mem, s.root, n).None? ==>
            n in {N1(v), N2(v), N3(v)} && TableAt(s'.mem, s'.root, n).value in s.pmm.free)
  }

  function Way(v: u64, d: nat): Node
    requires d <= 3
  {
    if d == 0 then Top else if d == 1 then N1(v) else if d == 2 then N2(v) else N3(v)
  }

  function WayIndex(v: u64, d: nat): Index {
    if d == 0 then I4(v) else if d == 1 then I3(v) else if d == 2 then I2(v) else I1(v)
  }

  /** The walk of `w` reads entry `i` of frame `f`. */
  ghost predicate Reads(m: Mem, root: Frame, w: u64, f: Frame, i: Index) {
    exists d: nat :: d <= 3 && TableAt(m, root, Way(w, d)) == Some(f) && WayIndex(w, d) == i
  }

  /** The entry for `v` in the table at depth `d` of its way; where there is no table yet, the one
      that a cleared page will have. */
  function WayEntry(s: Vm, v: u64, d: nat): Entry
    requires d <= 3
  {
    var t := TableAt(s.mem, s.root, Way(v, d));
    if t.Some? then s.mem[t.value][WayIndex(v, d)] else Entry(false, false, false, false, 0, 0)
  }

  /** Outside the way of `v` memory is as it was, but for the pages taken: they are zero. */
  ghost predicate OnlyWayWritten(s: Vm, s': Vm, v: u64) {
    forall f: Frame, i: Index | !Reads(s'.mem, s'.root, v, f, i) ::
      s'.mem[f][i] ==
        if f in s.pmm.free && f !in s'.pmm.free then Entry(false, false, false, false, 0, 0) else s.mem[f][i]
  }

  /** The link to the table at depth `d + 1` of the way of `v`: as it was, unless that table is
      new. Then the link is present, writable, open to users if `user`, and names the table; in the
      top table, where bit 7 means nothing, that bit is kept, and below it is cleared. All other
      bits are those the entry had. */
  ghost predicate LinkAt(s: Vm, s': Vm, v: u64, user: bool, d: nat)
    requires d < 3
  {
    var e, child := WayEntry(s, v, d), TableAt(s'.mem, s'.root, Way(v, d + 1));
    WayEntry(s', v, d) ==
      if child.Some? && TableAt(s.mem, s.root, Way(v, d + 1)).None? then
        e.(present := true, rw := true, user := user, pageSize := d == 0 && e.pageSize, address := child.value)
      else e
  }

  ghost predicate Links(s: Vm, s': Vm, v: u64, user: bool) {
    LinkAt(s, s', v, user, 0) && LinkAt(s, s', v, user, 1) && LinkAt(s, s', v, user, 2)
  }

  /** What creating tables on the way of `v` may do: nothing an address can see. */
  ghost predicate Extends(s: Vm, s': Vm, v: u64, user: bool) {
    && Inv(s') && s'.root == s.root
    && s'.pmm.free <= s.pmm.free && TakenAreLinked(s, s', v) && TablesGrow(s, s', v)
    && |s.pmm.free| - |s'.pmm.free| == Missing(s.mem, s.root, v) - Missing(s'.mem, s'.root, v)
    && OnlyWayWritten(s, s', v) && Links(s, s', v, user) && WayEntry(s', v, 3) == WayEntry(s, v, 3)
    && forall w: u64 :: Lookup(s'.mem, s'.root, w) == Lookup(s.mem, s.root, w)
  }

  /** Level `d` of map_page, after the levels above have turned `s0` into `s`. */
  lemma DescendStep(s0: Vm, s: Vm, v: u64, d: nat, user: bool)
    requires d < 3 && Inv(s0) && Extends(s0, s, v, user) && NoHuge(s0.mem, s0.root, v)
    requires TableAt(s.mem, s.root, Way(v, d)).Some?
    ensures var (s', r) := Descend(s, TableAt(s.mem, s.root, Way(v, d)).value, WayIndex(v, d), d == 0, user);
      && Extends(s0, s', v, user)
      && (r.None? ==> s'.pmm.free == {} && Missing(s'.mem, s'.root, v) == 3 - d)
      && (r.Some? ==> TableAt(s'.mem, s'.root, Way(v, d + 1)) == r)
  {
    hide Lookup, Descend, OnlyWayWritten, Links, NewTable, Inv, TakenAreLinked, TablesGrow, Missing, Way, WayIndex,
      TableAt, Depth, WayEntry;
    var a, i := Way(v, d), WayIndex(v, d);
    var t := TableAt(s.mem, s.root, a).value;
    WayDepth(v, d);
    TopIsFirst(v, d);
    MeetsNoHuge(s0, s, v, d);
    DescendKeeps(s, a, i, user);
    var (s', r) := Descend(s, t, i, d == 0, user);
    if TableAt(s.mem, s.root, Sub(a, i)).None? {
      FirstMissing(s, v, d);
      if s.pmm.free != {} {
        NewTableIs(s, v, d, user, r.value);
        NewOnWay(s0, s, s', v, d, user, r.value);
      }
    }
  }

  lemma TopIsFirst(v: u64, d: nat)
    requires d <= 3
    ensures Way(v, d).Top? <==> d == 0
  {
  }

  /** No entry that is followed is a huge page. */
  lemma MeetsNoHuge(s0: Vm, s: Vm, v: u64, d: nat)
    requires d < 3 && NoHuge(s0.mem, s0.root, v) && Lookup(s.mem, s.root, v) == Lookup(s0.mem, s0.root, v)
    requires TableAt(s.mem, s.root, Way(v, d)).Some?
    ensures var e := s.mem[TableAt(s.mem, s.root, Way(v, d)).value][WayIndex(v, d)];
      e.present ==> d == 0 || !e.pageSize
  {
    LookupAlong(s.mem, s.root, v);
  }

  lemma FirstMissing(s: Vm, v: u64, d: nat)
    requires d < 3 && TableAt(s.mem, s.root, Way(v, d)).Some? && TableAt(s.mem, s.root, Way(v, d + 1)).None?
    ensures Missing(s.mem, s.root, v) == 3 - d
  {
  }

  lemma NewTableIs(s: Vm, v: u64, d: nat, user: bool, f: Frame)
    requires d < 3 && TableAt(s.mem, s.root, Way(v, d)).Some?
    ensures var t, i := TableAt(s.mem, s.root, Way(v, d)).value, WayIndex(v, d);
      NewTable(s, v, d, user, f) ==
        SetEntry(ZeroFrame(s.mem, f), t, i,
                 s.mem[t][i].(present := true, rw := true, user := user, address := f,
                              pageSize := d == 0 && s.mem[t][i].pageSize))
  {
    hide Way, WayIndex, TableAt, SetEntry, ZeroFrame;
  }

  /** Memory after the page at `f` was cleared and linked at depth `d` of the way of `v`. */
  function NewTable(s: Vm, v: u64, d: nat, user: bool, f: Frame): Mem
    requires d < 3 && TableAt(s.mem, s.root, Way(v, d)).Some?
  {
    var e := WayEntry(s, v, d);
    SetEntry(ZeroFrame(s.mem, f), TableAt(s.mem, s.root, Way(v, d)).value, WayIndex(v, d),
             e.(present := true, rw := true, user := user, pageSize := d == 0 && e.pageSize, address := f))
  }

  lemma WayDepth(v: u64, d: nat)
    requires d <= 3
    ensures Depth(Way(v, d)) == d
    ensures d < 3 ==> Way(v, d + 1) == Sub(Way(v, d), WayIndex(v, d))
  {
    assert Depth(N1(v)) == 1 && Depth(N2(v)) == 2;
  }

  /** Where there is a table at depth `d`, there is one at every depth above it. */
  lemma {:induction false} WayAbove(s: Vm, v: u64, c: nat, d: nat)
    requires c <= d <= 3 && TableAt(s.mem, s.root, Way(v, d)).Some?
    ensures TableAt(s.mem, s.root, Way(v, c)).Some?
  {
    if c < d {
      WayDepth(v, d - 1);
      WayAbove(s, v, c, d - 1);
    }
  }

  /** What a new table at depth `d + 1` does to depth `c` of the way. */
  lemma NewWay(s: Vm, s': Vm, v: u64, d: nat, user: bool, f: Frame, c: nat)
    requires d < 3 && c <= 3 && Inv(s) && s'.root == s.root && f in s.pmm.free
    requires TableAt(s.mem, s.root, Way(v, d)).Some? && TableAt(s.mem, s.root, Way(v, d + 1)).None?
    requires forall n :: TableAt(s'.mem, s'.root, n) ==
               if n == Way(v, d + 1) then Some(f)
               else if Through(n, Way(v, d), WayIndex(v, d)) then None else TableAt(s.mem, s.root, n)
    requires s'.mem == NewTable(s, v, d, user, f)
    ensures TableAt(s.mem, s.root, Way(v, c)).Some? <==> c <= d
    ensures TableAt(s'.mem, s'.root, Way(v, c)) == if c == d + 1 then Some(f) else TableAt(s.mem, s.root, Way(v, c))
    ensures WayEntry(s', v, c) ==
              if c == d then
                WayEntry(s, v, d).(present := true, rw := true, user := user, address := f,
                                   pageSize := d == 0 && WayEntry(s, v, d).pageSize)
              else WayEntry(s, v, c)
  {
    WayDepth(v, c);
    WayDepth(v, d);
    WayDepth(v, d + 1);
    if c <= d {
      WayAbove(s, v, c, d);
      NotThroughSelf(Way(v, c), Way(v, d), WayIndex(v, d));
    } else {
      if TableAt(s.mem, s.root, Way(v, c)).Some? {
        WayAbove(s, v, d + 1, c);
        assert false;
      }
      if TableAt(s'.mem, s'.root, Way(v, c)).Some? && c > d + 1 {
        NewIsLast(s, s', v, d, f, c);
        assert false;
      }
    }
  }

  /** A new table is empty: nothing lies further down the way. */
  lemma NewIsLast(s: Vm, s': Vm, v: u64, d: nat, f: Frame, c: nat)
    requires d + 1 < c <= 3
    requires forall n :: TableAt(s'.mem, s'.root, n) ==
               if n == Way(v, d + 1) then Some(f)
               else if Through(n, Way(v, d), WayIndex(v, d)) then None else TableAt(s.mem, s.root, n)
    ensures TableAt(s'.mem, s'.root, Way(v, c)).None?
  {
    WayDepth(v, d);
    WayDepth(v, d + 1);
    WayDepth(v, c);
    WayDepth(v, c - 1);
    assert Through(Way(v, d + 1), Way(v, d), WayIndex(v, d));
    assert Through(Way(v, d + 2), Way(v, d), WayIndex(v, d));
    assert Through(Way(v, c), Way(v, d), WayIndex(v, d));
  }

  /** ... and to memory. */
  lemma NewWritten(s0: Vm, s: Vm, s': Vm, v: u64, d: nat, user: bool, f: Frame)
    requires d < 3 && Inv(s0) && Extends(s0, s, v, user) && Inv(s') && s'.root == s.root
    requires TableAt(s.mem, s.root, Way(v, d)).Some? && TableAt(s.mem, s.root, Way(v, d + 1)).None?
    requires s.pmm.free == s'.pmm.free + {f} && f !in s'.pmm.free
    requires forall n :: TableAt(s'.mem, s'.root, n) ==
               if n == Way(v, d + 1) then Some(f)
               else if Through(n, Way(v, d), WayIndex(v, d)) then None else TableAt(s.mem, s.root, n)
    requires s'.mem == NewTable(s, v, d, user, f)
    ensures OnlyWayWritten(s0, s', v) && Links(s0, s', v, user) && WayEntry(s', v, 3) == WayEntry(s0, v, 3)
  {
    hide Inv, WayEntry, Way, WayIndex, TableAt, Missing, Lookup, NewTable, Reads;
    NewWay(s, s', v, d, user, f, 0);
    NewWay(s, s', v, d, user, f, 1);
    NewWay(s, s', v, d, user, f, 2);
    NewWay(s, s', v, d, user, f, 3);
    forall g: Frame, i: Index | !Reads(s'.mem, s'.root, v, g, i)
      ensures s'.mem[g][i] == if g in s0.pmm.free && g !in s'.pmm.free then ZERO_ENTRY else s0.mem[g][i]
    {
      NewOffWay(s, s', v, d, user, f, g, i);
    }
  }

  lemma NewOffWay(s: Vm, s': Vm, v: u64, d: nat, user: bool, f: Frame, g: Frame, i: Index)
    requires d < 3 && Inv(s) && s'.root == s.root && f in s.pmm.free
    requires TableAt(s.mem, s.root, Way(v, d)).Some? && TableAt(s.mem, s.root, Way(v, d + 1)).None?
    requires forall n :: TableAt(s'.mem, s'.root, n) ==
               if n == Way(v, d + 1) then Some(f)
               else if Through(n, Way(v, d), WayIndex(v, d)) then None else TableAt(s.mem, s.root, n)
    requires s'.mem == NewTable(s, v, d, user, f) && !Reads(s'.mem, s'.root, v, g, i)
    ensures !Reads(s.mem, s.root, v, g, i)
    ensures s'.mem[g][i] == if g == f then ZERO_ENTRY else s.mem[g][i]
  {
    hide Inv, Way, WayIndex, TableAt;
    forall c: nat | c <= 3 && TableAt(s.mem, s.root, Way(v, c)) == Some(g) ensures WayIndex(v, c) != i {
      NewWay(s, s', v, d, user, f, c);
    }
    NewWay(s, s', v, d, user, f, d);
  }

  /** A table created on the way of `v` keeps the summary of what map_page has done so far. */
  lemma NewOnWay(s0: Vm, s: Vm, s': Vm, v: u64, d: nat, user: bool, f: Frame)
    requires d < 3 && Inv(s0) && Extends(s0, s, v, user) && Inv(s') && s'.root == s.root
    requires TableAt(s.mem, s.root, Way(v, d)).Some? && TableAt(s.mem, s.root, Way(v, d + 1)).None?
    requires s.pmm.free == s'.pmm.free + {f} && f !in s'.pmm.free
    requires forall w: u64 :: Lookup(s'.mem, s'.root, w) == Lookup(s.mem, s.root, w)
    requires forall n :: TableAt(s'.mem, s'.root, n) ==
               if n == Way(v, d + 1) then Some(f)
               else if Through(n, Way(v, d), WayIndex(v, d)) then None else TableAt(s.mem, s.root, n)
    requires s'.mem == NewTable(s, v, d, user, f)
    ensures Extends(s0, s', v, user)
  {
    hide Lookup, OnlyWayWritten, Links, WayEntry, NewTable, Tree, Owned, TakenAreLinked, TablesGrow, Missing, TableAt,
      Way;
    NewWritten(s0, s, s', v, d, user, f);
    NewGrows(s0, s, s', v, d, f);
    NewTaken(s0, s, s', v, d, user, f);
  }

  lemma NewGrows(s0: Vm, s: Vm, s': Vm, v: u64, d: nat, f: Frame)
    requires d < 3 && TablesGrow(s0, s, v) && f in s0.pmm.free
    requires TableAt(s.mem, s.root, Way(v, d)).Some? && TableAt(s.mem, s.root, Way(v, d + 1)).None?
    requires forall n :: TableAt(s'.mem, s'.root, n) ==
               if n == Way(v, d + 1) then Some(f)
               else if Through(n, Way(v, d), WayIndex(v, d)) then None else TableAt(s.mem, s.root, n)
    ensures TablesGrow(s0, s', v)
  {
    hide TableAt;
    WayDepth(v, d);
    BelowAbsent(s.mem, s.root, Way(v, d), WayIndex(v, d));
    forall n
      ensures TableAt(s0.mem, s0.root, n).Some? ==> TableAt(s'.mem, s'.root, n) == TableAt(s0.mem, s0.root, n)
      ensures TableAt(s'.mem, s'.root, n).Some? && TableAt(s0.mem, s0.root, n).None? ==>
                n in {N1(v), N2(v), N3(v)} && TableAt(s'.mem, s'.root, n).value in s0.pmm.free
    {
    }
  }

  lemma NewTaken(s0: Vm, s: Vm, s': Vm, v: u64, d: nat, user: bool, f: Frame)
    requires d < 3 && Inv(s) && s'.root == s.root && TakenAreLinked(s0, s, v)
    requires TableAt(s.mem, s.root, Way(v, d)).Some? && TableAt(s.mem, s.root, Way(v, d + 1)).None?
    requires s.pmm.free == s'.pmm.free + {f} && f !in s'.pmm.free
    requires forall n :: TableAt(s'.mem, s'.root, n) ==
               if n == Way(v, d + 1) then Some(f)
               else if Through(n, Way(v, d), WayIndex(v, d)) then None else TableAt(s.mem, s.root, n)
    requires s'.mem == NewTable(s, v, d, user, f)
    ensures TakenAreLinked(s0, s', v) && Missing(s'.mem, s'.root, v) == Missing(s.mem, s.root, v) - 1
    ensures |s'.pmm.free| == |s.pmm.free| - 1
  {
    hide Inv, TableAt, NewTable, WayEntry;
    NewWay(s, s', v, d, user, f, 1);
    NewWay(s, s', v, d, user, f, 2);
    NewWay(s, s', v, d, user, f, 3);
  }

  /** Nothing hangs below an absent position. */
  lemma BelowAbsent(m: Mem, root: Frame, a: Node, i: Index)
    requires TableAt(m, root, Sub(a, i)).None?
    ensures forall n | Through(n, a, i) :: TableAt(m, root, n).None?
  {
    forall n | Through(n, a, i) ensures TableAt(m, root, n).None? {
      BelowAbsentAt(m, root, a, i, n);
    }
  }

  lemma {:induction false} BelowAbsentAt(m: Mem, root: Frame, a: Node, i: Index, n: Node)
    requires TableAt(m, root, Sub(a, i)).None? && Through(n, a, i)
    ensures TableAt(m, root, n).None?
  {
    if n.up == a && n.index == i {
    } else {
      BelowAbsentAt(m, root, a, i, n.up);
    }
  }

  /** The last step of map_page and the only step of unmap_page. */
  lemma WriteLeaf(s: Vm, v: u64, e: Entry)
    requires Inv(s) && TableAt(s.mem, s.root, N3(v)).Some?
    ensures var s' := s.(mem := SetEntry(s.mem, TableAt(s.mem, s.root, N3(v)).value, I1(v), e));
      && Inv(s')
      && (forall n :: TableAt(s'.mem, s'.root, n) == TableAt(s.mem, s.root, n))
      && (forall w: u64 :: Lookup(s'.mem, s'.root, w) ==
            if SamePage(v, w) then (if e.present then Page4K(e) else Unmapped) else Lookup(s.mem, s.root, w))
  {
    var t := TableAt(s.mem, s.root, N3(v)).value;
    var s' := s.(mem := SetEntry(s.mem, t, I1(v), e));
    assert Depth(N3(v)) == 3;
    forall n ensures TableAt(s'.mem, s'.root, n) == TableAt(s.mem, s.root, n) {
      LeafKeepsTables(s.mem, s.root, N3(v), I1(v), e, n);
    }
    forall w: u64 ensures Lookup(s'.mem, s'.root, w) ==
          if SamePage(v, w) then (if e.present then Page4K(e) else Unmapped) else Lookup(s.mem, s.root, w)
    {
      LeafChangesOnePage(s.mem, s.root, v, e, w);
    }
  }

  /** Writing the last entry leaves the others. */
  lemma LeafWritten(s: Vm, s': Vm, v: u64, e: Entry)
    requires Inv(s) && TableAt(s.mem, s.root, N3(v)).Some?
    requires s' == s.(mem := SetEntry(s.mem, TableAt(s.mem, s.root, N3(v)).value, I1(v), e))
    requires forall n :: TableAt(s'.mem, s'.root, n) == TableAt(s.mem, s.root, n)
    ensures WayEntry(s', v, 0) == WayEntry(s, v, 0) && WayEntry(s', v, 1) == WayEntry(s, v, 1)
    ensures WayEntry(s', v, 2) == WayEntry(s, v, 2) && WayEntry(s', v, 3) == e
    ensures forall f: Frame, i: Index | !Reads(s'.mem, s'.root, v, f, i) ::
              !Reads(s.mem, s.root, v, f, i) && s'.mem[f][i] == s.mem[f][i]
  {
    WayDepth(v, 0);
    WayDepth(v, 1);
    WayDepth(v, 2);
    WayDepth(v, 3);
    assert Way(v, 3) == N3(v) && WayIndex(v, 3) == I1(v);
    hide SetEntry, Way, WayIndex;
  }

  /** The entry written last is the only thing an address can see. */
  lemma FinishMapping(s: Vm, s3: Vm, v: u64, user: bool, e: Entry)
    requires Extends(s, s3, v, user) && TableAt(s3.mem, s3.root, N3(v)).Some? && e.present
    ensures var s' := s3.(mem := SetEntry(s3.mem, TableAt(s3.mem, s3.root, N3(v)).value, I1(v), e));
      && Inv(s') && s'.pmm.free <= s.pmm.free && TakenAreLinked(s, s', v) && TablesGrow(s, s', v)
      && Missing(s.mem, s.root, v) == |s.pmm.free| - |s'.pmm.free|
      && OnlyWayWritten(s, s', v) && Links(s, s', v, user) && WayEntry(s', v, 3) == e
      && forall w: u64 :: Lookup(s'.mem, s'.root, w) == if SamePage(v, w) then Page4K(e) else Lookup(s.mem, s.root, w)
  {
    hide Lookup, Inv, WayEntry, Reads, SetEntry, TableAt, TakenAreLinked, TablesGrow, OnlyWayWritten, Links, Missing,
      SamePage;
    var s' := s3.(mem := SetEntry(s3.mem, TableAt(s3.mem, s3.root, N3(v)).value, I1(v), e));
    NoneMissing(s3, v);
    WriteLeaf(s3, v, e);
    LeafWritten(s3, s', v, e);
    SameTablesKept(s, s3, s', v);
    SameWayKept(s, s3, s', v, user);
  }

  lemma NoneMissing(s: Vm, v: u64)
    requires TableAt(s.mem, s.root, N3(v)).Some?
    ensures Missing(s.mem, s.root, v) == 0
  {
  }

  lemma SameTablesKept(s: Vm, s3: Vm, s': Vm, v: u64)
    requires TakenAreLinked(s, s3, v) && TablesGrow(s, s3, v) && s'.pmm == s3.pmm
    requires forall n :: TableAt(s'.mem, s'.root, n) == TableAt(s3.mem, s3.root, n)
    ensures TakenAreLinked(s, s', v) && TablesGrow(s, s', v)
  {
    hide TableAt;
  }

  lemma SameWayKept(s: Vm, s3: Vm, s': Vm, v: u64, user: bool)
    requires OnlyWayWritten(s, s3, v) && Links(s, s3, v, user) && s'.pmm == s3.pmm
    requires forall n :: TableAt(s'.mem, s'.root, n) == TableAt(s3.mem, s3.root, n)
    requires WayEntry(s', v, 0) == WayEntry(s3, v, 0) && WayEntry(s', v, 1) == WayEntry(s3, v, 1)
    requires WayEntry(s', v, 2) == WayEntry(s3, v, 2)
    requires forall f: Frame, i: Index | !Reads(s'.mem, s'.root, v, f, i) ::
               !Reads(s3.mem, s3.root, v, f, i) && s'.mem[f][i] == s3.mem[f][i]
    ensures OnlyWayWritten(s, s', v) && Links(s, s', v, user)
  {
    hide TableAt, WayEntry, Reads;
  }

  /** The entry of the page of `v` with the frame and flags asked for; its other bits stay. */
  ghost predicate LastWritten(s: Vm, s': Vm, v: u64, addr: u64, flags: u64) {
    WayEntry(s', v, 3) == WayEntry(s, v, 3).(present := true, rw := Bit(flags, 1), user := Bit(flags, 2),
                                             address := addr / 0x1000 % FRAMES)
  }

  /** map_page as a whole. With enough free pages for the tables the way of `v` lacks, exactly
      the page of `v` is mapped, to the frame of `addr` and with the flags asked for, and every
      other translation (of any size) is as before. Otherwise no translation changes at all.
      Either way the tables stay a tree, every page taken is linked into it, and memory is as
      it was but for the links, the last entry, and the pages taken, which are zero. Bits that
      the flags do not name are those the entries had, zero in a new table. */
  lemma MapPageCorrect(s: Vm, v: u64, addr: u64, flags: u64)
    requires Inv(s) && NoHuge(s.mem, s.root, v)
    ensures var s' := MapPage(s, v, addr, flags);
      && Inv(s') && s'.root == s.root
      && s'.pmm.free <= s.pmm.free && TakenAreLinked(s, s', v) && TablesGrow(s, s', v)
      && OnlyWayWritten(s, s', v) && Links(s, s', v, Bit(flags, 2))
    ensures var s' := MapPage(s, v, addr, flags);
      Missing(s.mem, s.root, v) <= |s.pmm.free| ==>
        && |s'.pmm.free| == |s.pmm.free| - Missing(s.mem, s.root, v)
        && LastWritten(s, s', v, addr, flags) && Lookup(s'.mem, s'.root, v) == Page4K(WayEntry(s', v, 3))
        && forall w: u64 :: Lookup(s'.mem, s'.root, w) ==
             if SamePage(v, w) then Lookup(s'.mem, s'.root, v) else Lookup(s.mem, s.root, w)
    ensures var s' := MapPage(s, v, addr, flags);
      Missing(s.mem, s.root, v) > |s.pmm.free| ==>
        && s'.pmm.free == {} && WayEntry(s', v, 3) == WayEntry(s, v, 3)
        && forall w: u64 :: Lookup(s'.mem, s'.root, w) == Lookup(s.mem, s.root, w)
  {
    var user := Bit(flags, 2);
    assert TableAt(s.mem, s.root, Way(v, 0)) == Some(s.root);
    hide Descend, Lookup, NoHuge, Inv, TableAt, TablesGrow, TakenAreLinked, WayEntry, OnlyWayWritten, Links;
    SameWritten(s, v, user);
    DescendStep(s, s, v, 0, user);
    var (s1, t3) := Descend(s, s.root, I4(v), true, user);
    if t3.Some? {
      DescendStep(s, s1, v, 1, user);
      var (s2, t2) := Descend(s1, t3.value, I3(v), false, user);
      if t2.Some? {
        DescendStep(s, s2, v, 2, user);
        var (s3, t1) := Descend(s2, t2.value, I2(v), false, user);
        if t1.Some? {
          LastIs(s3, v, t1.value);
          FinishMapping(s, s3, v, user, Leaf(s3.mem[t1.value][I1(v)], addr, flags));
        }
      }
    }
  }

  lemma SameWritten(s: Vm, v: u64, user: bool)
    ensures OnlyWayWritten(s, s, v) && Links(s, s, v, user)
  {
  }

  lemma LastIs(s: Vm, v: u64, t: Frame)
    requires TableAt(s.mem, s.root, N3(v)) == Some(t)
    ensures WayEntry(s, v, 3) == s.mem[t][I1(v)]
  {
  }
}
