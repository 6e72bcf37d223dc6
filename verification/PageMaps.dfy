/** What each write of the mapper does to the page map a tree denotes. */
module PageMaps {
  import opened Common
  import opened PageEntries
  import opened PageTree

  const PAGES: nat := 0x10_0000_0000 // 2^36 pages of 48-bit virtual addresses

  datatype Mapping = Mapping(entry: Word, level: nat)

  function Lookup(mem: Memory, root: nat, v: nat): Option<Leaf>
  {
    Walk(mem, root, 4, v)
  }

  function MappingOf(leaf: Option<Leaf>): Option<Mapping>
  {
    match leaf
    case None => None
    case Some(l) => Some(Mapping(l.entry, l.level))
  }

  /** The page map: page number to the entry that maps it and the level of that entry. */
  ghost function PageMap(mem: Memory, root: nat): imap<nat, Mapping>
  {
    imap p: nat | p < PAGES && Lookup(mem, root, p * PAGE_SIZE).Some? ::
      MappingOf(Lookup(mem, root, p * PAGE_SIZE)).value
  }

  ghost function MappedAt(pages: imap<nat, Mapping>, page: nat): Option<Mapping>
  {
    if page in pages then Some(pages[page]) else None
  }

  /** The bytes one entry at `level` maps: a page, or 512 times what an entry below maps. */
  function Span(level: nat): (n: nat)
    ensures n > 0
  {
    if level <= 1 then PAGE_SIZE else ENTRIES * Span(level - 1)
  }

  lemma {:induction false} SpanBits(level: nat)
    requires 1 <= level <= 4
    ensures Bits.Pow2(OffsetBits(level)) == Span(level)
  {
    Powers();
    if level > 1 {
      SpanBits(level - 1);
      Bits.Pow2Add(9, OffsetBits(level - 1));
    }
  }

  /** The physical address of `v` under the mapping of its page: the frame plus the place
      of `v` in what the entry maps. */
  function Resolve(m: Option<Mapping>, v: nat): Option<nat>
  {
    match m
    case Some(Mapping(entry, level)) =>
      if 1 <= level <= 4 then Some(Addr(entry) + v % Span(level)) else None
    case None => None
  }

  /** The tree denotes its page map: every walk of every address is a lookup of its page. */
  lemma WalkIsPageMap(mem: Memory, root: nat, v: nat)
    ensures Page(v) < PAGES
    ensures MappingOf(Lookup(mem, root, v)) == MappedAt(PageMap(mem, root), Page(v))
  {
    var p := Page(v);
    assert Page(p * PAGE_SIZE) == p;
    WalkCongruent(mem, root, 4, v, p * PAGE_SIZE);
  }

  lemma PageMapsEqual(mem: Memory, mem': Memory, root: nat, pages: imap<nat, Mapping>)
    requires forall p | p in pages :: p < PAGES
    requires forall v: nat :: MappingOf(Lookup(mem', root, v)) == MappedAt(pages, Page(v))
    ensures PageMap(mem', root) == pages
  {
    forall p: nat
      ensures p < PAGES ==> MappingOf(Lookup(mem', root, p * PAGE_SIZE)) == MappedAt(pages, p)
    {
      if p < PAGES {
        assert Page(p * PAGE_SIZE) == p;
      }
    }
  }

  lemma {:induction false} WalkLevel(mem: Memory, table: nat, level: nat, v: nat)
    requires 1 <= level <= 4
    ensures Walk(mem, table, level, v).Some? ==> 1 <= Walk(mem, table, level, v).value.level <= level
    decreases level
  {
    var e := Entry(mem, table, TableIndex(v, level));
    if level > 1 {
      WalkLevel(mem, Addr(e), level - 1, v);
    }
  }

  /** The user bit of a mapped page is set on every entry above it, so the access the MMU
      grants to user mode is the page's own bit. */
  ghost predicate UserPaths(mem: Memory, root: nat)
  {
    forall v: nat :: Lookup(mem, root, v).Some? && User(Lookup(mem, root, v).value.entry) ==>
      Lookup(mem, root, v).value.user
  }

  /** Only user bits of intermediate entries were added, and only empty tables. */
  ghost predicate Opened(mem: Memory, mem': Memory, root: nat)
  {
    forall v: nat ::
      && MappingOf(Lookup(mem', root, v)) == MappingOf(Lookup(mem, root, v))
      && (Lookup(mem, root, v).Some? && Lookup(mem, root, v).value.user ==> Lookup(mem', root, v).value.user)
  }

  lemma OpenedKeepsMap(mem: Memory, mem': Memory, root: nat)
    requires Opened(mem, mem', root)
    ensures PageMap(mem', root) == PageMap(mem, root)
    ensures UserPaths(mem, root) ==> UserPaths(mem', root)
  {
    forall p: nat
      ensures MappingOf(Lookup(mem', root, p * PAGE_SIZE)) == MappingOf(Lookup(mem, root, p * PAGE_SIZE))
    {
    }
  }

  lemma OpenedTrans(a: Memory, b: Memory, c: Memory, root: nat)
    requires Opened(a, b, root) && Opened(b, c, root)
    ensures Opened(a, c, root)
  {
    forall v: nat
      ensures MappingOf(Lookup(c, root, v)) == MappingOf(Lookup(a, root, v))
      ensures Lookup(a, root, v).Some? && Lookup(a, root, v).value.user ==> Lookup(c, root, v).value.user
    {
      assert MappingOf(Lookup(b, root, v)) == MappingOf(Lookup(a, root, v));
    }
  }

  // ------------------------------------------------------------ through one entry

  /** The walks that pass entry TableIndex(v, level) of the table `v` reaches at `level`. */
  lemma PassingWalks(mem: Memory, mem': Memory, place: map<nat, Place>, root: nat,
                     v: nat, level: nat, x: Word, w: nat)
    requires Tree(mem, place, root) && 1 <= level <= 4
    requires Descend(mem, root, 4, v, level).Some?
    requires var t := Descend(mem, root, 4, v, level).value.table;
             Wrote(mem, mem', t, TableIndex(v, level), x)
    ensures var n := Descend(mem, root, 4, v, level).value;
            && At(place, n.table, level, v)
            && Descend(mem', root, 4, v, level) == Some(n)
            && Entry(mem', n.table, TableIndex(v, level)) == x
            && (if Prefix(w, level - 1) == Prefix(v, level - 1)
                then At(place, n.table, level, w)
                     && Lookup(mem, root, w) == Through(Walk(mem, n.table, level, w), n.user)
                     && Lookup(mem', root, w) == Through(Walk(mem', n.table, level, w), n.user)
                     && TableIndex(w, level) == TableIndex(v, level)
                else Lookup(mem', root, w) == Lookup(mem, root, w))
  {
    var n := Descend(mem, root, 4, v, level).value;
    var i := TableIndex(v, level);
    TableIndexPrefix(v, level);
    RootAt(mem, place, root, v);
    RootAt(mem, place, root, w);
    DescendAt(mem, place, root, root, 4, v, level);
    DescendAbove(mem, mem', place, root, n.table, i, x, root, 4, v, level);
    WroteEntry(mem, mem', n.table, i, x, n.table, i);
    if Prefix(w, level - 1) == Prefix(v, level - 1) {
      PrefixBelow(v, w, level);
      DescendCongruent(mem, root, 4, v, w, level);
      DescendCongruent(mem', root, 4, v, w, level);
      WalkVia(mem, root, 4, w, level);
      WalkVia(mem', root, 4, w, level);
    } else {
      WalkElsewhere(mem, mem', place, root, n.table, i, x, root, 4, w);
    }
  }

  /** Writing a level-1 entry changes the mapping of its own page and of no other. */
  lemma WriteLeaf(mem: Memory, mem': Memory, place: map<nat, Place>, root: nat, v: nat, x: Word, w: nat)
    requires Tree(mem, place, root)
    requires Descend(mem, root, 4, v, 1).Some?
    requires Wrote(mem, mem', Descend(mem, root, 4, v, 1).value.table, TableIndex(v, 1), x)
    ensures Lookup(mem', root, w) ==
            if Page(w) != Page(v) then Lookup(mem, root, w)
            else if Present(x) then Some(Leaf(x, 1, User(x) && Descend(mem, root, 4, v, 1).value.user))
            else None
    ensures Tree(mem', place, root)
  {
    PassingWalks(mem, mem', place, root, v, 1, x, w);
    TableIndexPrefix(v, 1);
    TreeWrite(mem, mem', place, root, Descend(mem, root, 4, v, 1).value.table, TableIndex(v, 1), x);
  }

  ghost function Without(pages: imap<nat, Mapping>, page: nat): imap<nat, Mapping>
  {
    imap p | p in pages && p != page :: pages[p]
  }

  /** The page map with the entry of one page replaced. */
  ghost function WithLeaf(pages: imap<nat, Mapping>, page: nat, x: Word): imap<nat, Mapping>
  {
    if Present(x) then pages[page := Mapping(x, 1)] else Without(pages, page)
  }

  lemma WriteLeafMap(mem: Memory, mem': Memory, place: map<nat, Place>, root: nat, v: nat, x: Word)
    requires Tree(mem, place, root)
    requires Descend(mem, root, 4, v, 1).Some?
    requires Wrote(mem, mem', Descend(mem, root, 4, v, 1).value.table, TableIndex(v, 1), x)
    ensures PageMap(mem', root) == WithLeaf(PageMap(mem, root), Page(v), x)
  {
    WalkIsPageMap(mem, root, v);
    forall w: nat
      ensures MappingOf(Lookup(mem', root, w)) == MappedAt(WithLeaf(PageMap(mem, root), Page(v), x), Page(w))
    {
      WriteLeaf(mem, mem', place, root, v, x, w);
      WalkIsPageMap(mem, root, w);
    }
    PageMapsEqual(mem, mem', root, WithLeaf(PageMap(mem, root), Page(v), x));
  }

  lemma WriteLeafUser(mem: Memory, mem': Memory, place: map<nat, Place>, root: nat, v: nat, x: Word)
    requires Tree(mem, place, root)
    requires Descend(mem, root, 4, v, 1).Some?
    requires Wrote(mem, mem', Descend(mem, root, 4, v, 1).value.table, TableIndex(v, 1), x)
    requires UserPaths(mem, root)
    requires Present(x) && User(x) ==> Descend(mem, root, 4, v, 1).value.user
    ensures UserPaths(mem', root)
  {
    forall w: nat | Lookup(mem', root, w).Some? && User(Lookup(mem', root, w).value.entry)
      ensures Lookup(mem', root, w).value.user
    {
      WriteLeaf(mem, mem', place, root, v, x, w);
    }
  }

  lemma OpenedWalk(mem: Memory, mem': Memory, place: map<nat, Place>, root: nat, v: nat, level: nat, w: nat)
    requires Tree(mem, place, root) && 1 < level <= 4
    requires Descend(mem, root, 4, v, level).Some?
    requires var n := Descend(mem, root, 4, v, level).value;
             var e := Entry(mem, n.table, TableIndex(v, level));
             Present(e) && !Huge(e) && Wrote(mem, mem', n.table, TableIndex(v, level), OrWords(e, USER))
    ensures MappingOf(Lookup(mem', root, w)) == MappingOf(Lookup(mem, root, w))
    ensures Lookup(mem, root, w).Some? && Lookup(mem, root, w).value.user ==> Lookup(mem', root, w).value.user
  {
    var n := Descend(mem, root, 4, v, level).value;
    var i := TableIndex(v, level);
    var e := Entry(mem, n.table, i);
    var x := OrWords(e, USER);
    OpenEntryFields(e);
    TableIndexPrefix(v, level);
    PassingWalks(mem, mem', place, root, v, level, x, w);
    if Prefix(w, level - 1) == Prefix(v, level - 1) {
      assert EntryPlaced(mem, place, n.table, i);
      ChildAt(mem, place, root, n.table, level, w);
      WalkElsewhere(mem, mem', place, root, n.table, i, x, Addr(e), level - 1, w);
      OpenedStep(mem, mem', n.table, level, w);
    }
  }

  /** An entry that only gained the user bit leads to the same leaf, at least as open. */
  lemma {:induction false} OpenedStep(mem: Memory, mem': Memory, table: nat, level: nat, w: nat)
    requires 1 < level <= 4
    requires var e, x := Entry(mem, table, TableIndex(w, level)), Entry(mem', table, TableIndex(w, level));
             && Present(e) && !Huge(e) && Present(x) && !Huge(x) && Addr(x) == Addr(e) && User(x)
             && Walk(mem', Addr(e), level - 1, w) == Walk(mem, Addr(e), level - 1, w)
    ensures var a, b := Walk(mem, table, level, w), Walk(mem', table, level, w);
            MappingOf(b) == MappingOf(a) && (a.Some? && a.value.user ==> b.value.user)
  {
  }

  /** Setting the user bit of an intermediate entry changes no mapping. */
  lemma OpenEntry(mem: Memory, mem': Memory, place: map<nat, Place>, root: nat, v: nat, level: nat)
    requires Tree(mem, place, root) && 1 < level <= 4
    requires Descend(mem, root, 4, v, level).Some?
    requires var n := Descend(mem, root, 4, v, level).value;
             var e := Entry(mem, n.table, TableIndex(v, level));
             Present(e) && !Huge(e) && Wrote(mem, mem', n.table, TableIndex(v, level), OrWords(e, USER))
    ensures Tree(mem', place, root) && Opened(mem, mem', root)
    ensures var n := Descend(mem, root, 4, v, level).value;
            var e := Entry(mem, n.table, TableIndex(v, level));
            Descend(mem', root, 4, v, level - 1) == Some(Node(Addr(e), n.user))
  {
    var n := Descend(mem, root, 4, v, level).value;
    var i := TableIndex(v, level);
    var e := Entry(mem, n.table, i);
    var x := OrWords(e, USER);
    OpenEntryFields(e);
    TableIndexPrefix(v, level);
    PassingWalks(mem, mem', place, root, v, level, x, v);
    assert EntryPlaced(mem, place, n.table, i);
    TreeWrite(mem, mem', place, root, n.table, i, x);
    DescendStep(mem', root, 4, v, level);
    forall w: nat
      ensures MappingOf(Lookup(mem', root, w)) == MappingOf(Lookup(mem, root, w))
      ensures Lookup(mem, root, w).Some? && Lookup(mem, root, w).value.user ==> Lookup(mem', root, w).value.user
    {
      OpenedWalk(mem, mem', place, root, v, level, w);
    }
  }

  /** Hanging an empty table from an empty entry changes no mapping. */
  lemma HangTable(mem: Memory, mem': Memory, place: map<nat, Place>, root: nat, v: nat, level: nat,
                  table: Word, flags: Word)
    requires Tree(mem, place, root) && 1 < level <= 4
    requires Descend(mem, root, 4, v, level).Some?
    requires table !in place && InRam(mem, table)
    requires forall i: nat | i < ENTRIES :: Entry(mem, table, i) == 0
    requires var n := Descend(mem, root, 4, v, level).value;
             && !Present(Entry(mem, n.table, TableIndex(v, level)))
             && Wrote(mem, mem', n.table, TableIndex(v, level), TableEntry(table, flags))
    ensures Tree(mem', place[table := Place(level - 1, Prefix(v, level - 1))], root)
    ensures Opened(mem, mem', root)
    ensures Descend(mem', root, 4, v, level - 1)
            == Some(Node(table, Descend(mem, root, 4, v, level).value.user && User(flags)))
  {
    var n := Descend(mem, root, 4, v, level).value;
    var i := TableIndex(v, level);
    var x := TableEntry(table, flags);
    var place' := place[table := Place(level - 1, Prefix(v, level - 1))];
    TableEntryFields(table, flags);
    TableIndexPrefix(v, level);
    PlaceEmptyTable(mem, place, root, table, place'[table]);
    PassingWalks(mem, mem', place, root, v, level, x, v);
    TreeWrite(mem, mem', place', root, n.table, i, x);
    DescendStep(mem', root, 4, v, level);
    forall w: nat
      ensures Lookup(mem', root, w) == Lookup(mem, root, w)
    {
      HungWalk(mem, mem', place, root, v, level, table, flags, w);
    }
  }

  lemma HungWalk(mem: Memory, mem': Memory, place: map<nat, Place>, root: nat, v: nat, level: nat,
                 table: Word, flags: Word, w: nat)
    requires Tree(mem, place, root) && 1 < level <= 4
    requires Descend(mem, root, 4, v, level).Some?
    requires table !in place && InRam(mem, table)
    requires forall i: nat | i < ENTRIES :: Entry(mem, table, i) == 0
    requires var n := Descend(mem, root, 4, v, level).value;
             && n.table in place
             && !Present(Entry(mem, n.table, TableIndex(v, level)))
             && Wrote(mem, mem', n.table, TableIndex(v, level), TableEntry(table, flags))
    ensures Lookup(mem', root, w) == Lookup(mem, root, w)
  {
    var n := Descend(mem, root, 4, v, level).value;
    var i := TableIndex(v, level);
    var x := TableEntry(table, flags);
    TableEntryFields(table, flags);
    TableIndexPrefix(v, level);
    PassingWalks(mem, mem', place, root, v, level, x, w);
    if Prefix(w, level - 1) == Prefix(v, level - 1) {
      TableIndexPrefix(w, level - 1);
      WroteEntry(mem, mem', n.table, i, x, table, TableIndex(w, level - 1));
      Fields(0);
    }
  }

  lemma PlaceEmptyTable(mem: Memory, place: map<nat, Place>, root: nat, table: nat, p: Place)
    requires Tree(mem, place, root) && table !in place && InRam(mem, table) && 1 <= p.level <= 4
    requires forall i: nat | i < ENTRIES :: Entry(mem, table, i) == 0
    ensures Tree(mem, place[table := p], root)
  {
    var place' := place[table := p];
    Fields(0);
    forall t, i: nat | t in place' && i < ENTRIES
      ensures EntryPlaced(mem, place', t, i)
    {
      if t != table {
        assert EntryPlaced(mem, place, t, i);
      }
    }
  }

  // ------------------------------------------------------------ laws of the page map

  /** After a successful `map` every address of the page translates into the frame, with
      its own offset, and every other address translates as before. */
  lemma TranslationAfterMap(pages: imap<nat, Mapping>, v: nat, frame: Word, flags: Word, w: nat)
    requires IsFrame(frame) && Addr(flags) == 0
    ensures Resolve(MappedAt(pages[Page(v) := Mapping(LeafEntry(frame, flags), 1)], Page(w)), w) ==
            if Page(w) == Page(v) then Some(frame + w % PAGE_SIZE) else Resolve(MappedAt(pages, Page(w)), w)
  {
    LeafEntryExact(frame, flags);
  }

  /** Mapping an unmapped page and unmapping it again restores the page map. */
  lemma UnmapUndoesMap(pages: imap<nat, Mapping>, page: nat, m: Mapping)
    requires page !in pages
    ensures Without(pages[page := m], page) == pages
  {
  }

  /** Replacing flags that carry no address bits changes no translation. */
  lemma TranslationAfterUpdate(pages: imap<nat, Mapping>, v: nat, flags: Word, w: nat)
    requires Page(v) in pages && pages[Page(v)].level == 1 && Addr(flags) == 0
    ensures Resolve(MappedAt(pages[Page(v) := Mapping(LeafEntry(Addr(pages[Page(v)].entry), flags), 1)], Page(w)), w) ==
            Resolve(MappedAt(pages, Page(w)), w)
  {
    var frame := Addr(pages[Page(v)].entry);
    Fields(pages[Page(v)].entry);
    LeafEntryExact(frame, flags);
  }

  /** The access the MMU grants to user mode: the user bit on every level of the walk. */
  predicate UserAccess(mem: Memory, root: nat, v: nat)
  {
    Lookup(mem, root, v).Some? && Lookup(mem, root, v).value.user
  }

  lemma {:induction false} WalkUser(mem: Memory, table: nat, level: nat, v: nat)
    requires 1 <= level <= 4
    ensures var l := Walk(mem, table, level, v);
            l.Some? && l.value.user ==> User(l.value.entry)
    decreases level
  {
    var e := Entry(mem, table, TableIndex(v, level));
    if level > 1 {
      WalkUser(mem, Addr(e), level - 1, v);
    }
  }

  /** Under the user-bit invariant, user access is decided by the page map alone, so an
      operation that leaves a page's mapping alone leaves its access alone. */
  lemma UserAccessIsOwnBit(mem: Memory, root: nat, v: nat)
    requires UserPaths(mem, root)
    ensures UserAccess(mem, root, v) <==>
            MappedAt(PageMap(mem, root), Page(v)).Some? && User(MappedAt(PageMap(mem, root), Page(v)).value.entry)
  {
    WalkIsPageMap(mem, root, v);
    WalkUser(mem, root, 4, v);
  }

  // ------------------------------------------------------------ memory outside the tables

  ghost predicate SameTables(mem: Memory, mem': Memory, place: map<nat, Place>)
  {
    && |mem'| == |mem|
    && forall t, i: nat | t in place && i < ENTRIES :: Entry(mem', t, i) == Entry(mem, t, i)
  }

  lemma {:induction false} SameWalks(mem: Memory, mem': Memory, place: map<nat, Place>, root: nat,
                                     table: nat, level: nat, v: nat)
    requires Tree(mem, place, root) && SameTables(mem, mem', place)
    requires 1 <= level <= 4 && At(place, table, level, v)
    ensures Walk(mem', table, level, v) == Walk(mem, table, level, v)
    ensures forall to | 1 <= to <= level ::
              Descend(mem', table, level, v, to) == Descend(mem, table, level, v, to)
    decreases level
  {
    TableIndexPrefix(v, level);
    var e := Entry(mem, table, TableIndex(v, level));
    if level > 1 && Present(e) && !Huge(e) {
      ChildAt(mem, place, root, table, level, v);
      SameWalks(mem, mem', place, root, Addr(e), level - 1, v);
    }
  }

  lemma SameLookups(mem: Memory, mem': Memory, place: map<nat, Place>, root: nat, v: nat)
    requires Tree(mem, place, root) && SameTables(mem, mem', place)
    ensures Lookup(mem', root, v) == Lookup(mem, root, v)
    ensures forall to | 1 <= to <= 4 :: Descend(mem', root, 4, v, to) == Descend(mem, root, 4, v, to)
  {
    RootAt(mem, place, root, v);
    SameWalks(mem, mem', place, root, root, 4, v);
  }

  /** Writes to memory that holds no table change neither the tree nor any walk. */
  lemma WriteOutsideTables(mem: Memory, mem': Memory, place: map<nat, Place>, root: nat)
    requires Tree(mem, place, root) && SameTables(mem, mem', place)
    ensures Tree(mem', place, root)
    ensures Opened(mem, mem', root)
  {
    forall t, i: nat | t in place && i < ENTRIES
      ensures EntryPlaced(mem', place, t, i)
    {
      assert EntryPlaced(mem, place, t, i);
    }
    forall v: nat
      ensures Lookup(mem', root, v) == Lookup(mem, root, v)
    {
      SameLookups(mem, mem', place, root, v);
    }
  }
}
