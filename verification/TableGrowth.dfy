/** What mapping a page may do to the entries that point from table to table. */
module TableGrowth {
  import opened PageEntries
  import opened PageTree
  import opened PageMaps
  import opened MapperSpecs
  import Bits

  /** An entry above level 1 stays as it is, is opened to user mode, or is a fresh entry
      where there was none: a table, present and writable, perhaps open to user mode. */
  predicate EntryGrows(before: Word, after: Word)
  {
    || after == before
    || (!User(before) && after == before + USER)
    || (!Present(before) && (after == Addr(after) + 3 || after == Addr(after) + 7))
  }

  /** The entry before the call; a frame that was no table yet counts as empty. */
  function EntryBefore(mem: Memory, place: map<nat, Place>, t: nat, i: nat): Word
  {
    if t in place then Entry(mem, t, i) else 0
  }

  ghost predicate TablesGrow(mem: Memory, mem': Memory, place: map<nat, Place>, place': map<nat, Place>)
  {
    && (forall t | t in place :: t in place' && place'[t] == place[t])
    && forall t, i: nat | t in place' && place'[t].level > 1 && i < ENTRIES ::
         EntryGrows(EntryBefore(mem, place, t, i), Entry(mem', t, i))
  }

  lemma EntryGrowsTrans(a: Word, b: Word, c: Word)
    requires EntryGrows(a, b) && EntryGrows(b, c)
    ensures EntryGrows(a, c)
  {
    if b != a && c != b {
      if !User(a) && b == a + USER {
        OpenedOnce(a);
      } else {
        FreshEntry(b);
      }
    }
  }

  /** An opened entry is open, and present only if it was. */
  lemma OpenedOnce(e: Word)
    requires !User(e) && e + USER < Bits.WORD
    ensures User(e + USER) && (Present(e + USER) <==> Present(e))
  {
    FlagBits(e);
    FlagBits(e + USER);
    UserDigit(e);
  }

  /** A fresh entry is present; opened, it is still one. */
  lemma FreshEntry(e: Word)
    requires e == Addr(e) + 3 || e == Addr(e) + 7
    ensures Present(e)
    ensures !User(e) ==> e == Addr(e) + 3 && Addr(e + USER) == Addr(e)
  {
    Fields(e);
    var frame := Addr(e);
    Digits(frame, 3);
    Digits(frame, 7);
    AddressBits(frame + 7);
  }

  lemma UserDigit(e: Word)
    requires e % 8 / 4 == 0
    ensures (e + 4) % 8 / 4 == 1 && (e + 4) % 2 == e % 2
  {
    Bits.DivUnique(e + 4, 8, e / 8, e % 8 + 4);
    assert (e + 4) % 2 == e % 2;
  }

  lemma Digits(frame: nat, low: nat)
    requires IsFrame(frame) && low < 8
    ensures (frame + low) % PHYSICAL / 4096 * 4096 == frame
    ensures (frame + low) % 8 == low && (frame + low) % 2 == low % 2
  {
    FrameDigits(frame, frame / 4096);
    LowDigits(frame, low, frame / 4096);
    Bits.DivUnique(frame + low, PHYSICAL, 0, frame + low);
  }

  lemma LowDigits(frame: nat, low: nat, k: nat)
    requires frame == 4096 * k && low < 8
    ensures (frame + low) / 4096 == k && (frame + low) % 8 == low && (frame + low) % 2 == low % 2
  {
    Bits.DivUnique(frame + low, 4096, k, low);
    Bits.DivUnique(frame + low, 8, 512 * k, low);
    Bits.DivUnique(frame + low, 2, 2048 * k + low / 2, low % 2);
  }

  lemma TablesGrowTrans(a: Memory, b: Memory, c: Memory,
                        p: map<nat, Place>, q: map<nat, Place>, r: map<nat, Place>)
    requires TablesGrow(a, b, p, q) && TablesGrow(b, c, q, r)
    ensures TablesGrow(a, c, p, r)
  {
    forall t, i: nat | t in r && r[t].level > 1 && i < ENTRIES
      ensures EntryGrows(EntryBefore(a, p, t, i), Entry(c, t, i))
    {
      if t in q {
        EntryGrowsTrans(EntryBefore(a, p, t, i), Entry(b, t, i), Entry(c, t, i));
      }
    }
  }

  /** A write to a level-1 table touches no entry above it. */
  lemma LeafGrows(mem: Memory, mem': Memory, place: map<nat, Place>, root: nat, t: nat, i: nat, x: Word)
    requires Tree(mem, place, root) && t in place && place[t].level == 1 && i < ENTRIES && Wrote(mem, mem', t, i, x)
    ensures TablesGrow(mem, mem', place, place)
  {
    forall t', i': nat | t' in place && place[t'].level > 1 && i' < ENTRIES
      ensures EntryGrows(Entry(mem, t', i'), Entry(mem', t', i'))
    {
      WroteEntry(mem, mem', t, i, x, t', i');
    }
  }

  lemma OpenGrows(mem: Memory, mem': Memory, place: map<nat, Place>, root: nat, t: nat, i: nat)
    requires Tree(mem, place, root) && t in place && i < ENTRIES && !User(Entry(mem, t, i))
    requires Wrote(mem, mem', t, i, OrWords(Entry(mem, t, i), USER))
    ensures TablesGrow(mem, mem', place, place)
  {
    var e := Entry(mem, t, i);
    OpenEntrySum(e);
    forall t', i': nat | t' in place && place[t'].level > 1 && i' < ENTRIES
      ensures EntryGrows(Entry(mem, t', i'), Entry(mem', t', i'))
    {
      WroteEntry(mem, mem', t, i, OrWords(e, USER), t', i');
    }
  }

  /** Hanging an empty table below an empty entry. */
  lemma HangGrows(mem: Memory, zeroed: Memory, mem': Memory, place: map<nat, Place>, place': map<nat, Place>, root: nat,
                  t: nat, i: nat, table: Word, flags: Word)
    requires Tree(mem, place, root) && Tree(zeroed, place, root) && SameTables(mem, zeroed, place)
    requires t in place && i < ENTRIES && IsFrame(table) && table !in place
    requires !Present(Entry(zeroed, t, i)) && Wrote(zeroed, mem', t, i, TableEntry(table, flags))
    requires forall j: nat | j < ENTRIES :: Entry(zeroed, table, j) == 0
    requires table in place' && place' == place[table := place'[table]]
    ensures TablesGrow(mem, mem', place, place')
  {
    TableEntrySum(table, flags);
    TableEntryFields(table, flags);
    forall t', i': nat | t' in place' && i' < ENTRIES
      ensures EntryGrows(EntryBefore(mem, place, t', i'), Entry(mem', t', i'))
    {
      WroteEntry(zeroed, mem', t, i, TableEntry(table, flags), t', i');
    }
  }

  /** The new table both gives the walk of `v` its missing table and grows the tables. */
  lemma HungTable(before: Memory, zeroed: Memory, after: Memory, place: map<nat, Place>, root: nat,
                  v: nat, level: nat, table: nat, newTable: Word, flags: Word)
    requires Tree(before, place, root) && Tree(zeroed, place, root) && SameTables(before, zeroed, place) && 1 < level <= 4
    requires At(place, table, level, v) && IsFrame(newTable) && newTable !in place
    requires Descend(zeroed, root, 4, v, level).Some? && Descend(zeroed, root, 4, v, level).value.table == table
    requires !Present(Entry(zeroed, table, TableIndex(v, level)))
    requires forall i: nat | i < ENTRIES :: Entry(zeroed, newTable, i) == 0
    requires Wrote(zeroed, after, table, TableIndex(v, level), TableEntry(newTable, flags))
    ensures AddsOne(before, after, root, v, level - 1)
    ensures TablesGrow(before, after, place, place[newTable := Place(level - 1, Prefix(v, level - 1))])
  {
    AddedTable(before, zeroed, after, place, root, v, level, table, newTable, flags);
    TableIndexPrefix(v, level);
    var place' := place[newTable := Place(level - 1, Prefix(v, level - 1))];
    HangGrows(before, zeroed, after, place, place', root, table, TableIndex(v, level), newTable, flags);
  }

  /** What a part of the walk of `map` does to memory: no page becomes or stops being
      mapped, the tables grow, and only tables, old or taken from the allocator, are written. */
  ghost predicate Walked(mem: Memory, mem': Memory, root: nat, place: map<nat, Place>, place': map<nat, Place>,
                         frames: seq<nat>, next: nat, next': nat)
  {
    && Opened(mem, mem', root)
    && TablesGrow(mem, mem', place, place')
    && OnlyTablesWritten(mem, mem', place')
    && TablesFrom(place, place', frames, next, next')
  }

  lemma WalkedTrans(a: Memory, b: Memory, c: Memory, root: nat, p: map<nat, Place>, q: map<nat, Place>, r: map<nat, Place>,
                    frames: seq<nat>, x: nat, y: nat, z: nat)
    requires Walked(a, b, root, p, q, frames, x, y) && Walked(b, c, root, q, r, frames, y, z)
    ensures Walked(a, c, root, p, r, frames, x, z)
  {
    OpenedTrans(a, b, c, root);
    TablesGrowTrans(a, b, c, p, q, r);
    TablesFromTrans(p, q, r, frames, x, y, z);
  }
}
