/** What the operations of the mapper answer, in terms of the page map, the frames and the
    tables alone. */
module MapperSpecs {
  import opened Common
  import opened PageEntries
  import opened PageTree
  import opened PageMaps
  import opened TablePaths
  import opened Frames

  datatype MapError = NoFrames | HugePage | AlreadyMapped | NotMapped

  /** Fewer frames are left behind the cursor than the path lacks tables. */
  predicate Short(missing: nat, next: nat, frames: nat)
  {
    missing > 0 && next + missing > frames
  }

  /** What `map` answers, seen on the page map alone: an unmapped page is added, unless the
      frames are too few; a mapped page is refused, and the kind of mapping says how. */
  ghost predicate MapAnswers(pages: imap<nat, Mapping>, page: nat, x: Word, short: bool,
                             r: Result<(), MapError>, pages': imap<nat, Mapping>)
  {
    match MappedAt(pages, page)
    case Some(m) => r == Err(if m.level == 1 then AlreadyMapped else HugePage) && pages' == pages
    case None =>
      if short then r == Err(NoFrames) && pages' == pages
      else r == Ok(()) && pages' == pages[page := Mapping(x, 1)]
  }

  /** What `unmap` answers: the frame of a mapped page, which leaves the map, or an error
      that says why not. */
  ghost predicate UnmapAnswers(pages: imap<nat, Mapping>, page: nat,
                               r: Result<nat, MapError>, pages': imap<nat, Mapping>)
  {
    match MappedAt(pages, page)
    case Some(m) =>
      if m.level == 1 then r == Ok(Addr(m.entry)) && pages' == Without(pages, page)
      else r == Err(HugePage) && pages' == pages
    case None => r == Err(NotMapped) && pages' == pages
  }

  /** What `update_flags` promises: a mapped page keeps its frame and gets the flags. */
  ghost predicate UpdateAnswers(pages: imap<nat, Mapping>, page: nat, flags: Word,
                                r: Result<(), MapError>, pages': imap<nat, Mapping>)
  {
    match MappedAt(pages, page)
    case Some(m) => r == Ok(()) && pages' == pages[page := Mapping(LeafEntry(Addr(m.entry), flags), 1)]
    case None => r == Err(NotMapped) && pages' == pages
  }

  lemma UpdatedHolds(pages: imap<nat, Mapping>, page: nat, flags: Word, r: Result<(), MapError>, pages': imap<nat, Mapping>)
    requires UpdateAnswers(pages, page, flags, r, pages')
    ensures r.Ok? ==> page in pages && page in pages' && Holds(pages'[page].entry, Addr(pages[page].entry), flags)
  {
    if page in pages {
      LeafEntryHolds(Addr(pages[page].entry), flags);
    }
  }

  /** The page that holds word `k` of physical memory. */
  function PageOfWord(k: nat): nat
  {
    k / ENTRIES * PAGE_SIZE
  }

  lemma WordsOfPage(frame: nat, k: nat)
    requires IsFrame(frame)
    ensures PageOfWord(k) == frame <==> Slot(frame, 0) <= k < Slot(frame, ENTRIES)
  {
    var a := frame / 4096;
    assert frame == 4096 * a && frame / 8 == 512 * a;
  }

  lemma SlotInPage(table: nat, i: nat)
    requires IsFrame(table) && i < ENTRIES
    ensures PageOfWord(Slot(table, i)) == table
  {
    WordsOfPage(table, Slot(table, i));
  }

  /** The frames the allocator has yet to hand out are memory, and none is a table. */
  ghost predicate FreshFrames(words: nat, place: map<nat, Place>, frames: seq<nat>, next: nat)
  {
    && Distinct(frames)
    && forall j: nat | next <= j < |frames| ::
         frames[j] !in place && IsFrame(frames[j]) && Slot(frames[j], ENTRIES) <= words
  }

  /** The tables of `place'` are those of `place` and frames handed out in between. */
  ghost predicate TablesFrom(place: map<nat, Place>, place': map<nat, Place>, frames: seq<nat>, from: nat, to: nat)
  {
    && from <= to
    && (forall t | t in place :: t in place')
    && (forall t | t in place' && t !in place :: exists j: nat | from <= j < to && j < |frames| :: frames[j] == t)
  }

  lemma TablesFromTrans(a: map<nat, Place>, b: map<nat, Place>, c: map<nat, Place>, frames: seq<nat>,
                        x: nat, y: nat, z: nat)
    requires TablesFrom(a, b, frames, x, y) && TablesFrom(b, c, frames, y, z)
    ensures TablesFrom(a, c, frames, x, z)
  {
  }

  /** Memory that holds no table is as it was. */
  ghost predicate OnlyTablesWritten(mem: Memory, mem': Memory, place: map<nat, Place>)
  {
    |mem'| == |mem| && forall k: nat | k < |mem| && PageOfWord(k) !in place :: mem'[k] == mem[k]
  }

  /** Every entry above the level-1 table of `v` has the user bit. */
  predicate PathOpen(mem: Memory, root: nat, v: nat)
  {
    var n := Descend(mem, root, 4, v, 1);
    n.Some? && n.value.user
  }

  /** One table more on the path of `v`, at level `at`, and one missing less. */
  ghost predicate AddsOne(mem: Memory, mem': Memory, root: nat, v: nat, at: nat)
  {
    Gains(mem, mem', root, v, at, at) && Missing(mem', root, v) + 1 == Missing(mem, root, v)
  }

  /** The tables from `top` down to `bottom` are on the path of `v`, and each one gained has
      cost one frame. */
  ghost predicate Ledger(mem: Memory, mem': Memory, root: nat, v: nat, top: nat, bottom: nat, from: nat, to: nat, frames: nat)
  {
    && Gains(mem, mem', root, v, top, bottom)
    && to + Missing(mem', root, v) == from + Missing(mem, root, v)
    && (to == from || from < to <= frames)
  }

  /** Why a walk of `map` ends early: a huge page, or a missing table and no frame for it. */
  predicate StopsWith(m: Option<Mapping>, missing: nat, from: nat, to: nat, frames: nat, error: MapError)
  {
    match m
    case Some(mapping) => error == HugePage && mapping.level > 1
    case None => error == NoFrames && Short(missing, from, frames) && to > frames
  }

  lemma LedgerStep(a: Memory, b: Memory, c: Memory, root: nat, v: nat, at: nat, x: nat, y: nat, z: nat, frames: nat)
    requires at <= 3 && Ledger(a, b, root, v, 3, at + 1, x, y, frames) && Ledger(b, c, root, v, at, at, y, z, frames)
    ensures Ledger(a, c, root, v, 3, at, x, z, frames)
  {
    GainsTrans(a, b, c, root, v, at);
  }

  lemma AddedTable(before: Memory, zeroed: Memory, after: Memory, place: map<nat, Place>, root: nat,
                   v: nat, level: nat, table: nat, newTable: Word, flags: Word)
    requires Tree(before, place, root) && Tree(zeroed, place, root) && SameTables(before, zeroed, place) && 1 < level <= 4
    requires At(place, table, level, v) && IsFrame(newTable) && newTable !in place
    requires Descend(zeroed, root, 4, v, level).Some? && Descend(zeroed, root, 4, v, level).value.table == table
    requires !Present(Entry(zeroed, table, TableIndex(v, level)))
    requires forall i: nat | i < ENTRIES :: Entry(zeroed, newTable, i) == 0
    requires Wrote(zeroed, after, table, TableIndex(v, level), TableEntry(newTable, flags))
    ensures AddsOne(before, after, root, v, level - 1)
  {
    var x := TableEntry(newTable, flags);
    TableEntryFields(newTable, flags);
    TableIndexPrefix(v, level);
    Fields(0);
    forall i: nat | i < ENTRIES
      ensures !Present(Entry(after, newTable, i))
    {
      WroteEntry(zeroed, after, table, TableIndex(v, level), x, newTable, i);
    }
    SameTablesReached(before, zeroed, place, root, v);
    HangGains(zeroed, after, place, root, v, level, x);
    GainCounts(zeroed, after, root, v, level - 1);
    SameMissing(before, zeroed, root, v, v);
    SameThenGains(before, zeroed, after, root, v, level - 1, level - 1);
  }

  /** Opening an entry to user mode adds no table. */
  lemma OpenedSame(mem: Memory, mem': Memory, place: map<nat, Place>, root: nat, v: nat, t: nat, i: nat)
    requires Tree(mem, place, root) && t in place && i < ENTRIES
    requires Wrote(mem, mem', t, i, OrWords(Entry(mem, t, i), USER))
    ensures Gains(mem, mem', root, v, 0, 1)
  {
    var e := Entry(mem, t, i);
    OpenEntryFields(e);
    forall t', i': nat | t' in place && place[t'].level > 1 && i' < ENTRIES
      ensures SameShape(Entry(mem, t', i'), Entry(mem', t', i'))
    {
      WroteEntry(mem, mem', t, i, OrWords(e, USER), t', i');
    }
    SameTablesReached(mem, mem', place, root, v);
  }

  lemma OpenedStepDown(mem: Memory, mem': Memory, root: nat, v: nat, level: nat)
    requires 1 < level <= 4 && Gains(mem, mem', root, v, 0, 1) && Descend(mem', root, 4, v, level - 1).Some?
    ensures Gains(mem, mem', root, v, level - 1, level - 1)
    ensures Missing(mem', root, v) == Missing(mem, root, v)
  {
    ReachesDescend(mem', root, 4, v, level - 1);
    NothingGained(mem, mem', root, v, level - 1);
  }

  /** Writing a level-1 entry adds no table. */
  lemma LeafSame(mem: Memory, mem': Memory, place: map<nat, Place>, root: nat, v: nat, t: nat, i: nat, x: Word)
    requires Tree(mem, place, root) && t in place && place[t].level == 1 && i < ENTRIES && Wrote(mem, mem', t, i, x)
    ensures Gains(mem, mem', root, v, 0, 1)
  {
    forall t', i': nat | t' in place && place[t'].level > 1 && i' < ENTRIES
      ensures SameShape(Entry(mem, t', i'), Entry(mem', t', i'))
    {
      WroteEntry(mem, mem', t, i, x, t', i');
    }
    SameTablesReached(mem, mem', place, root, v);
  }

  lemma ZeroedElsewhere(mem: Memory, mem': Memory, place: map<nat, Place>, frame: nat)
    requires |mem'| == |mem| && IsFrame(frame) && frame !in place
    requires forall t | t in place :: IsFrame(t)
    requires forall k: nat | k < |mem| :: mem'[k] == if PageOfWord(k) == frame then 0 else mem[k]
    ensures SameTables(mem, mem', place)
    ensures forall i: nat | i < ENTRIES :: Entry(mem', frame, i) == 0
  {
    forall t, i: nat | t in place && i < ENTRIES
      ensures Entry(mem', t, i) == Entry(mem, t, i)
    {
      SlotInPage(t, i);
    }
    forall i: nat | i < ENTRIES
      ensures Entry(mem', frame, i) == 0
    {
      SlotInPage(frame, i);
    }
  }
}
