/** The mapper: translate, map, unmap and update_flags on tables in physical memory. */
module Mappers {
  import opened Common
  import opened PageEntries
  import opened PageTree
  import opened PageMaps
  import opened TablePaths
  import opened Frames
  import opened MapperSpecs
  import opened TableGrowth
  import opened FlagUpdates
  import Bits

  /** Overwrites one page frame with zeros. */
  method ZeroPage(ram: array<Word>, frame: nat)
    requires InRam(ram[..], frame)
    modifies ram
    ensures forall k: nat | k < ram.Length :: ram[k] == if PageOfWord(k) == frame then 0 else old(ram[k])
  {
    var base := frame / 8;
    for i := 0 to ENTRIES
      invariant forall k: nat | k < ram.Length :: ram[k] == if base <= k < base + i then 0 else old(ram[k])
    {
      ram[base + i] := 0;
    }
    forall k: nat | k < ram.Length
      ensures PageOfWord(k) == frame <==> base <= k < base + ENTRIES
    {
      WordsOfPage(frame, k);
    }
  }

  class Mapper {
    const ram: array<Word>
    const root: nat
    ghost var place: map<nat, Place>

    ghost predicate Valid()
      reads this, ram
    {
      Tree(ram[..], place, root)
    }

    ghost function Pages(): imap<nat, Mapping>
      reads this, ram
    {
      PageMap(ram[..], root)
    }

    constructor (ram: array<Word>, root: nat, ghost place: map<nat, Place>)
      requires Tree(ram[..], place, root)
      ensures this.ram == ram && this.root == root && this.place == place && Valid()
    {
      this.ram := ram;
      this.root := root;
      this.place := place;
    }

    /** The walk of `v` has come down to `table`; if `flags` asks for user access, every
        entry so far grants it. */
    ghost predicate Reached(v: nat, level: nat, table: nat, flags: Word)
      requires 1 <= level <= 4
      reads this, ram
    {
      && Tree(ram[..], place, root)
      && var n := Descend(ram[..], root, 4, v, level);
         n.Some? && n.value.table == table && (User(flags) ==> n.value.user)
    }

    lemma ReachedTable(v: nat, level: nat, table: nat, flags: Word)
      requires 1 <= level <= 4 && Reached(v, level, table, flags)
      ensures At(place, table, level, v) && InRam(ram[..], table)
      ensures TableIndex(v, level) < ENTRIES
      ensures Slot(table, TableIndex(v, level)) < ram.Length
      ensures ram[Slot(table, TableIndex(v, level))] == Entry(ram[..], table, TableIndex(v, level))
    {
      RootAt(ram[..], place, root, v);
      DescendAt(ram[..], place, root, root, 4, v, level);
      TableIndexPrefix(v, level);
    }

    /** Walks the tables: `v` translates to what the page map says of its page. */
    method Translate(v: nat) returns (r: Option<nat>)
      requires Valid()
      ensures r == Resolve(MappedAt(Pages(), Page(v)), v)
    {
      var table: nat := root;
      var level: nat := 4;
      ghost var found := MappedAt(Pages(), Page(v));
      WalkIsPageMap(ram[..], root, v);
      RootAt(ram[..], place, root, v);
      while level > 1
        modifies {}
        invariant 1 <= level <= 4 && At(place, table, level, v)
        invariant found == MappingOf(Walk(ram[..], table, level, v))
        decreases level
      {
        var entry := ReadEntry(v, level, table);
        if !Present(entry) {
          return None;
        }
        if Huge(entry) {
          r := WithOffset(entry, level, v);
          return;
        }
        ChildAt(ram[..], place, root, table, level, v);
        table := Addr(entry);
        level := level - 1;
      }
      var entry := ReadEntry(v, 1, table);
      if !Present(entry) {
        return None;
      }
      r := WithOffset(entry, 1, v);
    }

    method ReadEntry(v: nat, level: nat, table: nat) returns (entry: Word)
      requires Valid() && 1 <= level <= 4 && At(place, table, level, v)
      ensures entry == Entry(ram[..], table, TableIndex(v, level))
      ensures MappingOf(Walk(ram[..], table, level, v)) ==
              if !Present(entry) then None
              else if level == 1 || Huge(entry) then Some(Mapping(entry, level))
              else MappingOf(Walk(ram[..], Addr(entry), level - 1, v))
    {
      TableIndexPrefix(v, level);
      entry := ram[table / 8 + TableIndex(v, level)];
    }

    /** The frame of a leaf entry plus the address bits its level leaves untranslated. */
    static method WithOffset(entry: Word, level: nat, v: nat) returns (r: Option<nat>)
      requires 1 <= level <= 4
      ensures r == Resolve(Some(Mapping(entry, level)), v)
    {
      var frame: nat := Addr(entry);
      var offset := LowBits(v, OffsetBits(level));
      ResolveLeaf(entry, level, v, frame, offset);
      r := Some(frame + offset);
    }

    static method LowBits(v: nat, n: nat) returns (low: nat)
      ensures low == v % Bits.Pow2(n)
    {
      var mask := Bits.Pow2(n) - 1;
      Bits.AndLow(v, n);
      low := Bits.And(v, mask);
    }

    /** The allocator's remaining frames are memory that holds no table. */
    ghost predicate Feeds(allocator: FrameAllocator)
      reads this, allocator
    {
      FreshFrames(ram.Length, place, allocator.Frames(), allocator.next)
    }

    /** Allocates a table, zeroes it and hangs it from the empty entry of `v` at `level`. */
    method NewTable(v: nat, level: nat, table: nat, flags: Word, allocator: FrameAllocator) returns (r: Option<nat>)
      requires 1 < level <= 4 && Reached(v, level, table, flags) && Feeds(allocator)
      requires !Present(Entry(ram[..], table, TableIndex(v, level)))
      modifies this, ram, allocator
      ensures Feeds(allocator) && Valid()
      ensures r.Some? ==> Reached(v, level - 1, r.value, flags)
      ensures allocator.next == old(allocator.next) + 1
      ensures r.None? <==> old(allocator.next) >= |allocator.Frames()|
      ensures r.None? ==> ram[..] == old(ram[..])
      ensures Missing(old(ram[..]), root, v) > 0
      ensures r.Some? ==> AddsOne(old(ram[..]), ram[..], root, v, level - 1)
      ensures Walked(old(ram[..]), ram[..], root, old(place), place, allocator.Frames(), old(allocator.next), allocator.next)
    {
      ReachesStops(ram[..], root, 4, v, level, level - 1);
      r := allocator.Allocate();
      if r.None? {
        return;
      }
      var newTable: Word := r.value;
      assert newTable == allocator.Frames()[old(allocator.next)];
      ReachedTable(v, level, table, flags);
      ClearTable(newTable);
      ghost var mem := ram[..];
      SameLookups(old(ram[..]), mem, place, root, v);
      ram[table / 8 + TableIndex(v, level)] := TableEntry(newTable, flags);
      HangTable(mem, ram[..], place, root, v, level, newTable, flags);
      HungTable(old(ram[..]), mem, ram[..], place, root, v, level, table, newTable, flags);
      OpenedTrans(old(ram[..]), mem, ram[..], root);
      SlotInPage(table, TableIndex(v, level));
      place := place[newTable := Place(level - 1, Prefix(v, level - 1))];
    }

    /** Zeroes a frame that holds no table. */
    method ClearTable(newTable: Word)
      requires Valid() && InRam(ram[..], newTable) && newTable !in place
      modifies ram
      ensures Valid() && SameTables(old(ram[..]), ram[..], place) && Opened(old(ram[..]), ram[..], root)
      ensures forall i: nat | i < ENTRIES :: Entry(ram[..], newTable, i) == 0
      ensures forall k: nat | k < ram.Length && PageOfWord(k) != newTable :: ram[..][k] == old(ram[..])[k]
    {
      ZeroPage(ram, newTable);
      ZeroedElsewhere(old(ram[..]), ram[..], place, newTable);
      WriteOutsideTables(old(ram[..]), ram[..], place, root);
    }

    /** Steps through a table entry, opening it to user mode if the request needs that. */
    method OpenTable(v: nat, level: nat, table: nat, flags: Word) returns (r: nat)
      requires 1 < level <= 4 && Reached(v, level, table, flags)
      requires Present(Entry(ram[..], table, TableIndex(v, level))) && !Huge(Entry(ram[..], table, TableIndex(v, level)))
      modifies ram
      ensures Opened(old(ram[..]), ram[..], root)
      ensures OnlyTablesWritten(old(ram[..]), ram[..], place)
      ensures Reached(v, level - 1, r, flags)
      ensures Gains(old(ram[..]), ram[..], root, v, level - 1, level - 1)
      ensures Missing(ram[..], root, v) == Missing(old(ram[..]), root, v)
      ensures TablesGrow(old(ram[..]), ram[..], place, place)
    {
      ReachedTable(v, level, table, flags);
      var slot := table / 8 + TableIndex(v, level);
      var value := ram[slot];
      if User(flags) && !User(value) {
        ram[slot] := OrWords(value, USER);
        OpenEntry(old(ram[..]), ram[..], place, root, v, level);
        SlotInPage(table, TableIndex(v, level));
        OpenedSame(old(ram[..]), ram[..], place, root, v, table, TableIndex(v, level));
        OpenGrows(old(ram[..]), ram[..], place, root, table, TableIndex(v, level));
      } else {
        DescendStep(ram[..], root, 4, v, level);
      }
      OpenedStepDown(old(ram[..]), ram[..], root, v, level);
      r := Addr(value);
    }

    /** The mapping of `v` found from the table its walk has reached. */
    lemma FoundFrom(v: nat, level: nat, table: nat, flags: Word)
      requires 1 <= level <= 4 && Reached(v, level, table, flags)
      ensures MappedAt(Pages(), Page(v)) == MappingOf(Walk(ram[..], table, level, v))
    {
      WalkIsPageMap(ram[..], root, v);
      WalkVia(ram[..], root, 4, v, level);
    }

    /** Maps the page of `v` to `frame`. On success the page map gains exactly that page;
        on failure it is unchanged, even where tables were added on the way. */
    method Map(v: nat, frame: Word, flags: Word, allocator: FrameAllocator) returns (r: Result<(), MapError>)
      requires Valid() && Feeds(allocator)
      modifies this, ram, allocator
      ensures Valid() && Feeds(allocator)
      ensures MapAnswers(old(Pages()), Page(v), LeafEntry(frame, flags),
                         old(Short(Missing(ram[..], root, v), allocator.next, |allocator.Frames()|)), r, Pages())
      ensures r.Ok? ==>
                && allocator.next == old(allocator.next + Missing(ram[..], root, v))
                && Gains(old(ram[..]), ram[..], root, v, 3, 1)
      ensures r == Err(NoFrames) ==> allocator.next > |allocator.Frames()|
      ensures old(UserPaths(ram[..], root)) && IsFrame(frame) ==> UserPaths(ram[..], root)
      ensures OnlyTablesWritten(old(ram[..]), ram[..], place)
      ensures TablesFrom(old(place), place, allocator.Frames(), old(allocator.next), allocator.next)
      ensures TablesGrow(old(ram[..]), ram[..], old(place), place)
      ensures r.Ok? ==> Page(v) in Pages() && Holds(Pages()[Page(v)].entry, frame, flags)
    {
      var table := WalkDown(v, flags, allocator);
      OpenedKeepsMap(old(ram[..]), ram[..], root);
      if table.Err? {
        return Err(table.error);
      }
      ghost var open := ram[..];
      NoneMissing(open, root, v);
      r := WriteFreshLeaf(v, table.value, frame, flags, old(ram[..]));
      GainsThenSame(old(ram[..]), open, ram[..], root, v, 3, 1);
      TablesGrowTrans(old(ram[..]), open, ram[..], old(place), place, place);
      LeafEntryHolds(frame, flags);
    }

    /** The loop of `Map`: down to the level-1 table of `v`, or out of it with an error. */
    method WalkDown(v: nat, flags: Word, allocator: FrameAllocator) returns (r: Result<nat, MapError>)
      requires Valid() && Feeds(allocator)
      modifies this, ram, allocator
      ensures Valid() && Feeds(allocator)
      ensures r.Ok? ==>
                && Reached(v, 1, r.value, flags)
                && Ledger(old(ram[..]), ram[..], root, v, 3, 1, old(allocator.next), allocator.next, |allocator.Frames()|)
      ensures Walked(old(ram[..]), ram[..], root, old(place), place, allocator.Frames(), old(allocator.next), allocator.next)
      ensures r.Err? ==> StopsWith(old(MappedAt(Pages(), Page(v))), old(Missing(ram[..], root, v)), old(allocator.next),
                                   allocator.next, |allocator.Frames()|, r.error)
    {
      var table: nat := root;
      var level: nat := 4;
      while level >= 2
        invariant 1 <= level <= 4 && Reached(v, level, table, flags) && Feeds(allocator)
        invariant Walked(old(ram[..]), ram[..], root, old(place), place, allocator.Frames(), old(allocator.next), allocator.next)
        invariant Ledger(old(ram[..]), ram[..], root, v, 3, level, old(allocator.next), allocator.next, |allocator.Frames()|)
        decreases level
      {
        ghost var mem, tables, next := ram[..], place, allocator.next;
        OpenedKeepsMap(old(ram[..]), mem, root);
        var below := StepDown(v, level, table, flags, allocator);
        WalkedTrans(old(ram[..]), mem, ram[..], root, old(place), tables, place, allocator.Frames(), old(allocator.next), next, allocator.next);
        if below.Err? {
          return Err(below.error);
        }
        LedgerStep(old(ram[..]), mem, ram[..], root, v, level - 1, old(allocator.next), next, allocator.next, |allocator.Frames()|);
        table := below.value;
        level := level - 1;
      }
      r := Ok(table);
    }

    /** One level of the walk of `Map`: into the table below, which is created if missing. */
    method StepDown(v: nat, level: nat, table: nat, flags: Word, allocator: FrameAllocator) returns (r: Result<nat, MapError>)
      requires 1 < level <= 4 && Reached(v, level, table, flags) && Feeds(allocator)
      modifies this, ram, allocator
      ensures Feeds(allocator) && Valid()
      ensures Walked(old(ram[..]), ram[..], root, old(place), place, allocator.Frames(), old(allocator.next), allocator.next)
      ensures r.Err? ==> StopsWith(old(MappedAt(Pages(), Page(v))), old(Missing(ram[..], root, v)), old(allocator.next),
                                   allocator.next, |allocator.Frames()|, r.error)
      ensures r.Ok? ==>
                && Reached(v, level - 1, r.value, flags)
                && Ledger(old(ram[..]), ram[..], root, v, level - 1, level - 1, old(allocator.next), allocator.next, |allocator.Frames()|)
    {
      FoundFrom(v, level, table, flags);
      ReachedTable(v, level, table, flags);
      var value := ReadEntry(v, level, table);
      if !Present(value) {
        var newTable := NewTable(v, level, table, flags, allocator);
        r := if newTable.Some? then Ok(newTable.value) else Err(NoFrames);
      } else if Huge(value) {
        r := Err(HugePage);
      } else {
        var below := OpenTable(v, level, table, flags);
        r := Ok(below);
      }
    }

    /** The last step of `Map`: writes the level-1 entry unless the page is already mapped. */
    method WriteFreshLeaf(v: nat, table: nat, frame: Word, flags: Word, ghost before: Memory) returns (r: Result<(), MapError>)
      requires Reached(v, 1, table, flags) && Opened(before, ram[..], root)
      modifies ram
      ensures Valid()
      ensures MapAnswers(PageMap(before, root), Page(v), LeafEntry(frame, flags), false, r, Pages())
      ensures UserPaths(before, root) && IsFrame(frame) ==> UserPaths(ram[..], root)
      ensures OnlyTablesWritten(old(ram[..]), ram[..], place)
      ensures Gains(old(ram[..]), ram[..], root, v, 0, 1)
      ensures TablesGrow(old(ram[..]), ram[..], place, place)
    {
      OpenedKeepsMap(before, ram[..], root);
      ReachedTable(v, 1, table, flags);
      FoundFrom(v, 1, table, flags);
      var value := ReadEntry(v, 1, table);
      if Present(value) {
        return Err(AlreadyMapped);
      }
      LeafEntryFields(frame, flags);
      WriteEntry(v, table, LeafEntry(frame, flags));
      if UserPaths(before, root) && IsFrame(frame) {
        FrameFields(frame);
      }
      r := Ok(());
    }

    /** Overwrites the level-1 entry of `v`. */
    method WriteEntry(v: nat, table: nat, x: Word)
      requires Reached(v, 1, table, 0)
      modifies ram
      ensures Valid()
      ensures Pages() == WithLeaf(old(Pages()), Page(v), x)
      ensures old(UserPaths(ram[..], root)) ==>
                (UserPaths(ram[..], root) <==> (Present(x) && User(x) ==> PathOpen(old(ram[..]), root, v)))
      ensures OnlyTablesWritten(old(ram[..]), ram[..], place)
      ensures Gains(old(ram[..]), ram[..], root, v, 0, 1)
      ensures TablesGrow(old(ram[..]), ram[..], place, place)
    {
      ReachedTable(v, 1, table, 0);
      ghost var mem := ram[..];
      ram[table / 8 + TableIndex(v, 1)] := x;
      WriteLeaf(mem, ram[..], place, root, v, x, v);
      WriteLeafMap(mem, ram[..], place, root, v, x);
      if UserPaths(mem, root) && (Present(x) && User(x) ==> Descend(mem, root, 4, v, 1).value.user) {
        WriteLeafUser(mem, ram[..], place, root, v, x);
      }
      SlotInPage(table, TableIndex(v, 1));
      LeafSame(mem, ram[..], place, root, v, table, TableIndex(v, 1), x);
      LeafGrows(mem, ram[..], place, root, table, TableIndex(v, 1), x);
    }

    /** Into the table below, as `unmap` and `update_flags` walk. */
    method EnterTable(v: nat, level: nat, table: nat, entry: Word) returns (below: nat)
      requires 1 < level <= 4 && Reached(v, level, table, 0)
      requires entry == Entry(ram[..], table, TableIndex(v, level)) && Present(entry) && !Huge(entry)
      ensures below == Addr(entry) && Reached(v, level - 1, below, 0)
    {
      DescendStep(ram[..], root, 4, v, level);
      below := Addr(entry);
    }

    /** Unmaps the page of `v` and returns the frame it was mapped to. */
    method Unmap(v: nat) returns (r: Result<nat, MapError>)
      requires Valid()
      modifies ram
      ensures Valid()
      ensures UnmapAnswers(old(Pages()), Page(v), r, Pages())
      ensures old(UserPaths(ram[..], root)) ==> UserPaths(ram[..], root)
      ensures OnlyTablesWritten(old(ram[..]), ram[..], place)
    {
      var table: nat := root;
      var level: nat := 4;
      while level >= 2
        modifies {}
        invariant ram[..] == old(ram[..])
        invariant 1 <= level <= 4 && Reached(v, level, table, 0)
        decreases level
      {
        var entry := LookAt(v, level, table);
        if !Present(entry) {
          return Err(NotMapped);
        }
        if Huge(entry) {
          return Err(HugePage);
        }
        table := EnterTable(v, level, table, entry);
        level := level - 1;
      }
      var entry := LookAt(v, 1, table);
      if !Present(entry) {
        return Err(NotMapped);
      }
      Fields(0);
      WriteEntry(v, table, 0);
      r := Ok(Addr(entry));
    }

    /** Mapping a page and, if that succeeds, unmapping it again restores the page map, and
        gives the frame back. */
    method MapAndUnmap(v: nat, frame: Word, flags: Word, allocator: FrameAllocator) returns (mapped: Result<(), MapError>, freed: Option<nat>)
      requires Valid() && Feeds(allocator)
      modifies this, ram, allocator
      ensures Valid() && Feeds(allocator) && Pages() == old(Pages())
      ensures old(UserPaths(ram[..], root)) && IsFrame(frame) ==> UserPaths(ram[..], root)
      ensures mapped.Ok? <==> old(Page(v) !in Pages() && !Short(Missing(ram[..], root, v), allocator.next, |allocator.Frames()|))
      ensures freed.Some? <==> mapped.Ok?
      ensures mapped.Ok? && IsFrame(frame) && Addr(flags) == 0 ==> freed == Some(frame)
    {
      freed := None;
      mapped := Map(v, frame, flags, allocator);
      if mapped.Ok? {
        var r := Unmap(v);
        UnmapUndoesMap(old(Pages()), Page(v), Mapping(LeafEntry(frame, flags), 1));
        freed := Some(r.value);
        if IsFrame(frame) && Addr(flags) == 0 {
          LeafEntryExact(frame, flags);
        }
      }
    }

    /** Reads the entry of `v` at `level`, which says what the page map holds for its page
        as soon as it is absent, huge or at level 1. */
    method LookAt(v: nat, level: nat, table: nat) returns (entry: Word)
      requires 1 <= level <= 4 && Reached(v, level, table, 0)
      ensures entry == Entry(ram[..], table, TableIndex(v, level))
      ensures !Present(entry) ==> MappedAt(Pages(), Page(v)) == None
      ensures Present(entry) && (level == 1 || Huge(entry)) ==> MappedAt(Pages(), Page(v)) == Some(Mapping(entry, level))
    {
      ReachedTable(v, level, table, 0);
      FoundFrom(v, level, table, 0);
      entry := ReadEntry(v, level, table);
    }

    /** Replaces the flags of a mapped page. The walk has no huge-page check: a success is not
        one exactly if the page lies in a huge page and the walk through its data ends at a
        word that looks like an entry. Unlike `Map` it opens no entry
        on the way: the user-bit invariant survives exactly when the new flags ask for no
        more than the path grants. */
    method UpdateFlags(v: nat, flags: Word) returns (r: Result<(), MapError>)
      requires Valid() && BlindInRam(ram[..], root, 4, v)
      modifies ram
      ensures UpdateHonest(old(ram[..]), ram[..], root, Page(v), flags, r) <==>
                !(InHugePage(old(Pages()), Page(v)) && BlindHit(old(ram[..]), root, v))
      ensures UpdateAnswers(old(Pages()), Page(v), flags, r, Pages()) <==> !InHugePage(old(Pages()), Page(v))
      ensures BlindUpdate(old(ram[..]), ram[..], root, v, flags, r)
      ensures !InHugePage(old(Pages()), Page(v)) ==> Valid() && OnlyTablesWritten(old(ram[..]), ram[..], place)
      ensures old(UserPaths(ram[..], root)) && !InHugePage(old(Pages()), Page(v)) && r.Ok? ==>
                (UserPaths(ram[..], root) <==> (User(flags) ==> PathOpen(old(ram[..]), root, v)))
      ensures MissesTables(old(ram[..]), place, root, v) ==> Valid() && Pages() == old(Pages())
      ensures r.Ok? && !InHugePage(old(Pages()), Page(v)) ==>
                && Page(v) in old(Pages()) && Page(v) in Pages()
                && Holds(Pages()[Page(v)].entry, Addr(old(Pages())[Page(v)].entry), flags)
    {
      ghost var mem := ram[..];
      r := UpdateFound(v, flags);
      UpdateHonestExactly(mem, ram[..], place, root, v, flags, r);
      if !InHugePage(PageMap(mem, root), Page(v)) {
        UpdateOutsideHuge(mem, ram[..], place, root, v, flags, r);
        UpdatedHolds(PageMap(mem, root), Page(v), flags, r, Pages());
      } else {
        UpdateInsideHuge(mem, ram[..], root, v, flags, r);
      }
      if MissesTables(mem, place, root, v) {
        UpdateMissesTables(mem, ram[..], place, root, v, flags, r);
      }
    }

    method UpdateFound(v: nat, flags: Word) returns (r: Result<(), MapError>)
      requires BlindInRam(ram[..], root, 4, v)
      modifies ram
      ensures BlindUpdate(old(ram[..]), ram[..], root, v, flags, r)
    {
      var table: nat := root;
      var level: nat := 4;
      while level >= 2
        modifies {}
        invariant ram[..] == old(ram[..])
        invariant 1 <= level <= 4 && BlindInRam(ram[..], table, level, v)
        invariant BlindTable(ram[..], table, level, v) == BlindTable(ram[..], root, 4, v)
        decreases level
      {
        var entry := ram[table / 8 + TableIndex(v, level)];
        if !Present(entry) {
          return Err(NotMapped);
        }
        table := Addr(entry);
        level := level - 1;
      }
      var entry := ram[table / 8 + TableIndex(v, 1)];
      if !Present(entry) {
        return Err(NotMapped);
      }
      var frame := Addr(entry);
      ram[table / 8 + TableIndex(v, 1)] := LeafEntry(frame, flags);
      r := Ok(());
    }
  }

  lemma ResolveLeaf(entry: Word, level: nat, v: nat, frame: nat, offset: nat)
    requires 1 <= level <= 4 && frame == Addr(entry) && offset == v % Bits.Pow2(OffsetBits(level))
    ensures Resolve(Some(Mapping(entry, level)), v) == Some(frame + offset)
  {
    SpanBits(level);
  }
}
