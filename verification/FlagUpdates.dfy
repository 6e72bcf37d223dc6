/** The walk of update_flags, which takes every present entry to lead to a table: where it
    keeps its promise, and where it does not. */
module FlagUpdates {
  import opened Common
  import opened PageEntries
  import opened PageTree
  import opened PageMaps
  import opened MapperSpecs
  import Bits

  /** Where a walk ends that takes every present entry to lead to a table. */
  function BlindTable(mem: Memory, table: nat, level: nat, v: nat): Option<nat>
    requires 1 <= level <= 4
    decreases level
  {
    var e := Entry(mem, table, TableIndex(v, level));
    if level == 1 then Some(table)
    else if !Present(e) then None
    else BlindTable(mem, Addr(e), level - 1, v)
  }

  /** All the words such a walk looks at are memory. */
  predicate BlindInRam(mem: Memory, table: nat, level: nat, v: nat)
    requires 1 <= level <= 4
    decreases level
  {
    var e := Entry(mem, table, TableIndex(v, level));
    Slot(table, TableIndex(v, level)) < |mem| && (level > 1 && Present(e) ==> BlindInRam(mem, Addr(e), level - 1, v))
  }

  /** The word such a walk ends at gets the flags; without one nothing changes. */
  ghost predicate BlindUpdate(mem: Memory, mem': Memory, root: nat, v: nat, flags: Word, r: Result<(), MapError>)
  {
    var t := BlindTable(mem, root, 4, v);
    if t.Some? && Present(Entry(mem, t.value, TableIndex(v, 1)))
    then r == Ok(()) && Wrote(mem, mem', t.value, TableIndex(v, 1),
                              LeafEntry(Addr(Entry(mem, t.value, TableIndex(v, 1))), flags))
    else r == Err(NotMapped) && mem' == mem
  }

  ghost predicate InHugePage(pages: imap<nat, Mapping>, page: nat)
  {
    page in pages && pages[page].level > 1
  }

  /** The walk without the check does not end in a table. */
  ghost predicate MissesTables(mem: Memory, place: map<nat, Place>, root: nat, v: nat)
  {
    var t := BlindTable(mem, root, 4, v);
    t.Some? ==> IsFrame(t.value) && t.value !in place
  }

  /** Where no huge page is in the way, the walk without the check is the walk. */
  lemma {:induction false} BlindDescend(mem: Memory, table: nat, level: nat, v: nat)
    requires 1 <= level <= 4
    requires Walk(mem, table, level, v).Some? ==> Walk(mem, table, level, v).value.level == 1
    ensures Descend(mem, table, level, v, 1).None? ==>
              BlindTable(mem, table, level, v) == None && Walk(mem, table, level, v) == None
    ensures Descend(mem, table, level, v, 1).Some? ==>
              BlindTable(mem, table, level, v) == Some(Descend(mem, table, level, v, 1).value.table)
    decreases level
  {
    if level > 1 {
      var e := Entry(mem, table, TableIndex(v, level));
      if Present(e) && !Huge(e) {
        BlindDescend(mem, Addr(e), level - 1, v);
      }
    }
  }

  lemma UpdateOutsideHuge(mem: Memory, mem': Memory, place: map<nat, Place>, root: nat,
                          v: nat, flags: Word, r: Result<(), MapError>)
    requires Tree(mem, place, root) && BlindUpdate(mem, mem', root, v, flags, r)
    requires !InHugePage(PageMap(mem, root), Page(v))
    ensures Tree(mem', place, root)
    ensures UpdateAnswers(PageMap(mem, root), Page(v), flags, r, PageMap(mem', root))
    ensures OnlyTablesWritten(mem, mem', place)
    ensures UserPaths(mem, root) && r.Ok? ==> (UserPaths(mem', root) <==> (User(flags) ==> PathOpen(mem, root, v)))
  {
    WalkIsPageMap(mem, root, v);
    WalkLevel(mem, root, 4, v);
    BlindDescend(mem, root, 4, v);
    var n := Descend(mem, root, 4, v, 1);
    if n.Some? {
      WalkVia(mem, root, 4, v, 1);
      if r.Ok? {
        var e := Entry(mem, n.value.table, TableIndex(v, 1));
        UpdateLeaf(mem, mem', place, root, v, e, flags);
      }
    }
  }

  lemma UpdateLeaf(mem: Memory, mem': Memory, place: map<nat, Place>, root: nat, v: nat, e: Word, flags: Word)
    requires Tree(mem, place, root) && Descend(mem, root, 4, v, 1).Some?
    requires Wrote(mem, mem', Descend(mem, root, 4, v, 1).value.table, TableIndex(v, 1), LeafEntry(Addr(e), flags))
    ensures Tree(mem', place, root)
    ensures PageMap(mem', root) == PageMap(mem, root)[Page(v) := Mapping(LeafEntry(Addr(e), flags), 1)]
    ensures OnlyTablesWritten(mem, mem', place)
    ensures UserPaths(mem, root) ==> (UserPaths(mem', root) <==> (User(flags) ==> PathOpen(mem, root, v)))
  {
    var n := Descend(mem, root, 4, v, 1).value;
    var x := LeafEntry(Addr(e), flags);
    Fields(e);
    FrameFields(Addr(e));
    LeafEntryFields(Addr(e), flags);
    WriteLeaf(mem, mem', place, root, v, x, v);
    WriteLeafMap(mem, mem', place, root, v, x);
    if UserPaths(mem, root) && (User(x) ==> n.user) {
      WriteLeafUser(mem, mem', place, root, v, x);
    }
    RootAt(mem, place, root, v);
    DescendAt(mem, place, root, root, 4, v, 1);
    TableIndexPrefix(v, 1);
    SlotInPage(n.table, TableIndex(v, 1));
  }

  /** The number of the other page of a pair that shares its level-1 table. */
  function Neighbour(page: nat): nat
  {
    if page % 2 == 0 then page + 1 else page - 1
  }

  lemma NeighbourShares(v: nat, w: nat)
    requires w == Neighbour(Page(v)) * PAGE_SIZE
    ensures Page(w) == Neighbour(Page(v)) != Page(v) && Prefix(w, 1) == Prefix(v, 1)
  {
    var p := Page(v);
    Bits.DivUnique(w, PAGE_SIZE, Neighbour(p), 0);
    SameHalf(p, p / 2);
  }

  /** The two numbers of a pair have the same bits above the lowest. */
  lemma SameHalf(p: nat, h: nat)
    requires p < PAGES && h == p / 2
    ensures Neighbour(p) < PAGES && p / ENTRIES == h / 256 && Neighbour(p) / ENTRIES == h / 256
  {
    var d, r := h / 256, h % 256;
    Bits.DivUnique(p, ENTRIES, d, 2 * r + p % 2);
    Bits.DivUnique(Neighbour(p), ENTRIES, d, 2 * r + 1 - p % 2);
  }

  /** Addresses that share a level-1 prefix lie in the same huge page. */
  lemma {:induction false} WalkHuge(mem: Memory, table: nat, level: nat, v: nat, w: nat)
    requires 1 <= level <= 4 && Prefix(v, 1) == Prefix(w, 1)
    requires Walk(mem, table, level, v).Some? && Walk(mem, table, level, v).value.level > 1
    ensures Walk(mem, table, level, w) == Walk(mem, table, level, v)
    decreases level
  {
    var e := Entry(mem, table, TableIndex(v, level));
    if level > 1 {
      PrefixUp(v, w, 1, level - 1);
      PrefixBelow(v, w, level);
      if !Huge(e) {
        WalkHuge(mem, Addr(e), level - 1, v, w);
      }
    }
  }

  /** Where one of them has a small page, the other has a small page or none. */
  lemma {:induction false} WalkSmall(mem: Memory, table: nat, level: nat, v: nat, w: nat)
    requires 1 <= level <= 4 && Prefix(v, 1) == Prefix(w, 1)
    requires Walk(mem, table, level, v).Some? && Walk(mem, table, level, v).value.level == 1
    ensures Walk(mem, table, level, w).Some? ==> Walk(mem, table, level, w).value.level == 1
    decreases level
  {
    var e := Entry(mem, table, TableIndex(v, level));
    if level > 1 {
      PrefixUp(v, w, 1, level - 1);
      PrefixBelow(v, w, level);
      WalkSmall(mem, Addr(e), level - 1, v, w);
    }
  }

  /** In a huge page the promise cannot be kept, whatever is written: a small mapping for the
      page would take its neighbour out of the huge page. */
  lemma UpdateInsideHuge(mem: Memory, mem': Memory, root: nat, v: nat, flags: Word, r: Result<(), MapError>)
    requires InHugePage(PageMap(mem, root), Page(v))
    ensures !UpdateAnswers(PageMap(mem, root), Page(v), flags, r, PageMap(mem', root))
  {
    var w := Neighbour(Page(v)) * PAGE_SIZE;
    NeighbourShares(v, w);
    WalkIsPageMap(mem, root, v);
    WalkIsPageMap(mem, root, w);
    WalkIsPageMap(mem', root, v);
    WalkIsPageMap(mem', root, w);
    WalkHuge(mem, root, 4, v, w);
    var l := Lookup(mem', root, v);
    if l.Some? && l.value.level == 1 {
      WalkSmall(mem', root, 4, v, w);
    }
  }

  /** What a correct call could promise of any page: a refusal changes nothing, and a success
      does what it says. */
  ghost predicate UpdateHonest(mem: Memory, mem': Memory, root: nat, page: nat, flags: Word, r: Result<(), MapError>)
  {
    if r.Err? then mem' == mem else UpdateAnswers(PageMap(mem, root), page, flags, r, PageMap(mem', root))
  }

  /** The walk without the check ends at a word that looks like a present entry. */
  predicate BlindHit(mem: Memory, root: nat, v: nat)
  {
    var t := BlindTable(mem, root, 4, v);
    t.Some? && Present(Entry(mem, t.value, TableIndex(v, 1)))
  }

  /** The exact condition: the call reports a success it has not had if and only if the page
      lies in a huge page and the walk through its data ends at an odd word. */
  lemma UpdateHonestExactly(mem: Memory, mem': Memory, place: map<nat, Place>, root: nat,
                            v: nat, flags: Word, r: Result<(), MapError>)
    requires Tree(mem, place, root) && BlindUpdate(mem, mem', root, v, flags, r)
    ensures UpdateHonest(mem, mem', root, Page(v), flags, r) <==>
            !(InHugePage(PageMap(mem, root), Page(v)) && BlindHit(mem, root, v))
  {
    if InHugePage(PageMap(mem, root), Page(v)) {
      UpdateInsideHuge(mem, mem', root, v, flags, r);
    } else {
      UpdateOutsideHuge(mem, mem', place, root, v, flags, r);
    }
  }

  /** Where the walk ends in data, the flags land in a word of the data and no mapping changes. */
  lemma UpdateMissesTables(mem: Memory, mem': Memory, place: map<nat, Place>, root: nat,
                           v: nat, flags: Word, r: Result<(), MapError>)
    requires Tree(mem, place, root) && BlindUpdate(mem, mem', root, v, flags, r) && MissesTables(mem, place, root, v)
    ensures Tree(mem', place, root) && PageMap(mem', root) == PageMap(mem, root)
  {
    if r.Ok? {
      var t := BlindTable(mem, root, 4, v).value;
      TableIndexPrefix(v, 1);
      forall t', i: nat | t' in place && i < ENTRIES
        ensures Entry(mem', t', i) == Entry(mem, t', i)
      {
        WroteEntry(mem, mem', t, TableIndex(v, 1), LeafEntry(Addr(Entry(mem, t, TableIndex(v, 1))), flags), t', i);
      }
    }
    WriteOutsideTables(mem, mem', place, root);
    OpenedKeepsMap(mem, mem', root);
  }

  // ------------------------------------------------------------ a memory where it fails

  const EXAMPLE_ROOT: nat := 0x1000
  const HUGE_FRAME: nat := 0x20_0000

  /** Four megabytes: tables at the frames 1, 2 and 3, one below the other, a 2 MiB page that
      fills the upper half, and one word `b` in it. */
  function HugePageMemory(a: Word, b: Word): Memory
  {
    seq(0x8_0000, i => if i == 0x200 then 0x2003 else if i == 0x400 then 0x3003 else if i == 0x600 then a
                       else if i == 0x4_0000 then b else 0)
  }

  const EXAMPLE_PLACES: map<nat, Place> := map[0x1000 := Place(4, 0), 0x2000 := Place(3, 0), 0x3000 := Place(2, 0)]

  predicate ExampleWords(a4: Word, a3: Word, a: Word, b: Word)
  {
    && Present(a4) && !Huge(a4) && Addr(a4) == 0x2000
    && Present(a3) && !Huge(a3) && Addr(a3) == 0x3000
    && Present(a) && Huge(a) && Addr(a) == HUGE_FRAME
    && Present(b)
  }

  /** The entries point down to a 2 MiB page whose first word is odd. */
  lemma ExampleWordsHold(a4: Word, a3: Word, a: Word, b: Word)
    requires a4 == 0x2003 && a3 == 0x3003 && a == 0x20_0083 && b == 1
    ensures ExampleWords(a4, a3, a, b)
  {
    EntryWord(a4, 2, 3);
    EntryWord(a3, 3, 3);
    EntryWord(a, 0x200, 0x83);
    EntryWord(b, 0, 1);
  }

  lemma EntryWord(e: Word, k: nat, flags: nat)
    requires flags < 256 && k < 0x1000 && e == 4096 * k + flags
    ensures Addr(e) == 4096 * k && (Present(e) <==> flags % 2 == 1) && (Huge(e) <==> flags >= 128)
  {
    FlagBits(e);
    AddressBits(e);
    Bits.DivUnique(e, PHYSICAL, 0, e);
    Bits.DivUnique(e, 4096, k, flags);
    Bits.DivUnique(e, 256, 16 * k, flags);
    Bits.DivUnique(e, 2, 2048 * k + flags / 2, flags % 2);
  }

  /** So the failure is real: in this memory the call reports success for the first page, and
      the page keeps its old flags. */
  lemma HugeUpdateFails(v: nat, flags: Word, a4: Word, a3: Word, a: Word, b: Word)
    requires v < PAGE_SIZE && a4 == 0x2003 && a3 == 0x3003 && a == 0x20_0083 && b == 1
    ensures var mem, place := HugePageMemory(a, b), EXAMPLE_PLACES;
            && Tree(mem, place, EXAMPLE_ROOT) && BlindInRam(mem, EXAMPLE_ROOT, 4, v)
            && MappedAt(PageMap(mem, EXAMPLE_ROOT), Page(v)) == Some(Mapping(a, 2))
            && MissesTables(mem, place, EXAMPLE_ROOT, v)
            && BlindHit(mem, EXAMPLE_ROOT, v)
            && (forall mem', r | BlindUpdate(mem, mem', EXAMPLE_ROOT, v, flags, r) ::
                  r == Ok(()) && PageMap(mem', EXAMPLE_ROOT) == PageMap(mem, EXAMPLE_ROOT))
  {
    var mem, place := HugePageMemory(a, b), EXAMPLE_PLACES;
    ExampleWordsHold(a4, a3, a, b);
    ExampleTree(mem, a4, a3, a, b);
    FirstPageIndex(v, 1);
    FirstPageIndex(v, 2);
    FirstPageIndex(v, 3);
    FirstPageIndex(v, 4);
    ExampleWalk(mem, v, a4, a3, a, b);
    WalkIsPageMap(mem, EXAMPLE_ROOT, v);
    forall mem', r | BlindUpdate(mem, mem', EXAMPLE_ROOT, v, flags, r)
      ensures r == Ok(()) && PageMap(mem', EXAMPLE_ROOT) == PageMap(mem, EXAMPLE_ROOT)
    {
      UpdateMissesTables(mem, mem', place, EXAMPLE_ROOT, v, flags, r);
    }
  }

  lemma ExampleEntries(mem: Memory, a: Word, b: Word, t: nat, i: nat)
    requires mem == HugePageMemory(a, b) && t in EXAMPLE_PLACES && i < ENTRIES
    ensures Entry(mem, t, i) == if i > 0 then 0 else if t == 0x1000 then 0x2003 else if t == 0x2000 then 0x3003 else a
    ensures Entry(mem, HUGE_FRAME, 0) == b && InRam(mem, t)
  {
  }

  lemma ExampleTree(mem: Memory, a4: Word, a3: Word, a: Word, b: Word)
    requires a4 == 0x2003 && a3 == 0x3003 && mem == HugePageMemory(a, b) && ExampleWords(a4, a3, a, b)
    ensures Entry(mem, 0x1000, 0) == a4 && Entry(mem, 0x2000, 0) == a3
    ensures Entry(mem, 0x3000, 0) == a && Entry(mem, HUGE_FRAME, 0) == b
    ensures Tree(mem, EXAMPLE_PLACES, EXAMPLE_ROOT)
  {
    forall t, i: nat | t in EXAMPLE_PLACES && i < ENTRIES
      ensures EntryPlaced(mem, EXAMPLE_PLACES, t, i) && InRam(mem, t)
    {
      ExampleEntries(mem, a, b, t, i);
      ExamplePlaced(mem, a4, a3, a, b, t, i);
    }
    ExampleEntries(mem, a, b, 0x1000, 0);
    ExampleEntries(mem, a, b, 0x2000, 0);
    ExampleEntries(mem, a, b, 0x3000, 0);
  }

  lemma ExamplePlaced(mem: Memory, a4: Word, a3: Word, a: Word, b: Word, t: nat, i: nat)
    requires a4 == 0x2003 && a3 == 0x3003 && ExampleWords(a4, a3, a, b) && t in EXAMPLE_PLACES
    requires Entry(mem, t, i) == if i > 0 then 0 else if t == 0x1000 then a4 else if t == 0x2000 then a3 else a
    ensures EntryPlaced(mem, EXAMPLE_PLACES, t, i)
  {
    Fields(0);
  }

  lemma ExampleWalk(mem: Memory, v: nat, a4: Word, a3: Word, a: Word, b: Word)
    requires |mem| == 0x8_0000 && ExampleWords(a4, a3, a, b)
    requires Entry(mem, 0x1000, 0) == a4 && Entry(mem, 0x2000, 0) == a3
    requires Entry(mem, 0x3000, 0) == a && Entry(mem, HUGE_FRAME, 0) == b
    requires TableIndex(v, 1) == TableIndex(v, 2) == TableIndex(v, 3) == TableIndex(v, 4) == 0
    ensures MappingOf(Lookup(mem, EXAMPLE_ROOT, v)) == Some(Mapping(a, 2))
    ensures BlindTable(mem, EXAMPLE_ROOT, 4, v) == Some(HUGE_FRAME) && BlindInRam(mem, EXAMPLE_ROOT, 4, v)
  {
    assert Walk(mem, 0x3000, 2, v) == Some(Leaf(a, 2, User(a)));
    assert Walk(mem, 0x2000, 3, v) == Through(Walk(mem, 0x3000, 2, v), User(a3));
    assert BlindTable(mem, HUGE_FRAME, 1, v) == Some(HUGE_FRAME);
    assert BlindTable(mem, 0x3000, 2, v) == Some(HUGE_FRAME);
    assert BlindTable(mem, 0x2000, 3, v) == Some(HUGE_FRAME);
    assert BlindInRam(mem, HUGE_FRAME, 1, v);
    assert BlindInRam(mem, 0x3000, 2, v);
    assert BlindInRam(mem, 0x2000, 3, v);
  }

  lemma {:induction false} FirstPageIndex(v: nat, level: nat)
    requires v < PAGE_SIZE && 1 <= level <= 4
    ensures TableIndex(v, level) == 0 && Prefix(v, level) == 0
  {
    if level > 1 {
      FirstPageIndex(v, level - 1);
    } else {
      assert Prefix(v, 0) == 0;
    }
    TableIndexPrefix(v, level);
  }
}
