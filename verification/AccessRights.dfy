/** Who may use a mapped page: the processor lets an access through only if every entry on the
    way of the address allows it. */
module AccessRights {
  import opened Bits
  import opened PageTables
  import opened VirtualMemory
  import opened HugePages

  /** The way of `v` has a table at depth `d`. */
  predicate Exists(s: Vm, v: u64, d: nat)
    requires d <= 3
  {
    TableAt(s.mem, s.root, Way(v, d)).Some?
  }

  /** Every entry on the way of `v`, the last one included, lets a user in, or lets one write. */
  ghost predicate UserMay(s: Vm, v: u64) {
    forall d: nat | d <= 3 :: Exists(s, v, d) && WayEntry(s, v, d).present && WayEntry(s, v, d).user
  }

  ghost predicate MayWrite(s: Vm, v: u64) {
    forall d: nat | d <= 3 :: Exists(s, v, d) && WayEntry(s, v, d).present && WayEntry(s, v, d).rw
  }

  /** The links to the tables that are there already do. */
  ghost predicate LinksLetUser(s: Vm, v: u64) {
    forall d: nat | d < 3 && Exists(s, v, d + 1) :: WayEntry(s, v, d).user
  }

  ghost predicate LinksLetWrite(s: Vm, v: u64) {
    forall d: nat | d < 3 && Exists(s, v, d + 1) :: WayEntry(s, v, d).rw
  }

  /** With enough pages: after map_page a user may use the page exactly when the flags say so and
      the tables that were there already let users in, and likewise for writing. The code never
      widens a link it finds. */
  lemma MapRights(s: Vm, v: u64, addr: u64, flags: u64)
    requires Inv(s) && CanMap(s, v)
    ensures var s' := MapPage(s, v, addr, flags);
      && (UserMay(s', v) <==> Bit(flags, 2) && LinksLetUser(s, v))
      && (MayWrite(s', v) <==> Bit(flags, 1) && LinksLetWrite(s, v))
  {
    hide MapPage, Lookup, NoHuge, Inv, TablesGrow, TakenAreLinked, WayEntry, OnlyWayWritten, UserMay, MayWrite,
      LinksLetUser, LinksLetWrite, Missing;
    var s' := MapPage(s, v, addr, flags);
    MapPageCorrect(s, v, addr, flags);
    WholeWay(s', v);
    EachLink(s, s', v, Bit(flags, 2));
    EachEntry(s', v);
    EachOld(s, v);
  }

  /** A mapped page has all its tables, and all entries on its way are present. */
  lemma WholeWay(s: Vm, v: u64)
    requires Lookup(s.mem, s.root, v).Page4K?
    ensures forall d: nat | d <= 3 :: Exists(s, v, d) && WayEntry(s, v, d).present
  {
    LookupAlong(s.mem, s.root, v);
    forall d: nat | d <= 3 ensures Exists(s, v, d) && WayEntry(s, v, d).present {
      WayAbove(s, v, d, 3);
      WayDepth(v, d);
      if d < 3 { WayAbove(s, v, d + 1, 3); }
    }
  }

  /** The links of the finished way: old ones as they were, new ones as asked for. */
  lemma EachLink(s: Vm, s': Vm, v: u64, user: bool)
    requires Links(s, s', v, user) && forall d: nat | d <= 3 :: Exists(s', v, d)
    ensures forall d: nat | d < 3 ::
              && WayEntry(s', v, d).user == (if Exists(s, v, d + 1) then WayEntry(s, v, d).user else user)
              && WayEntry(s', v, d).rw == (if Exists(s, v, d + 1) then WayEntry(s, v, d).rw else true)
  {
    hide WayEntry, Way, TableAt;
    assert Exists(s', v, 1) && Exists(s', v, 2) && Exists(s', v, 3);
    assert LinkAt(s, s', v, user, 0) && LinkAt(s, s', v, user, 1) && LinkAt(s, s', v, user, 2);
  }

  lemma EachEntry(s: Vm, v: u64)
    requires forall d: nat | d <= 3 :: Exists(s, v, d) && WayEntry(s, v, d).present
    ensures UserMay(s, v) <==>
              WayEntry(s, v, 0).user && WayEntry(s, v, 1).user && WayEntry(s, v, 2).user && WayEntry(s, v, 3).user
    ensures MayWrite(s, v) <==>
              WayEntry(s, v, 0).rw && WayEntry(s, v, 1).rw && WayEntry(s, v, 2).rw && WayEntry(s, v, 3).rw
  {
    hide Exists, WayEntry;
  }

  lemma EachOld(s: Vm, v: u64)
    ensures LinksLetUser(s, v) <==>
              && (Exists(s, v, 1) ==> WayEntry(s, v, 0).user) && (Exists(s, v, 2) ==> WayEntry(s, v, 1).user)
              && (Exists(s, v, 3) ==> WayEntry(s, v, 2).user)
    ensures LinksLetWrite(s, v) <==>
              && (Exists(s, v, 1) ==> WayEntry(s, v, 0).rw) && (Exists(s, v, 2) ==> WayEntry(s, v, 1).rw)
              && (Exists(s, v, 3) ==> WayEntry(s, v, 2).rw)
  {
    hide Exists, WayEntry;
  }
}
