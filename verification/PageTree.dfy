/** The four-level table tree as it lies in physical memory, and the page map it denotes.

    Physical memory is a sequence of 64-bit words. The walk of the MMU is `Walk`; the
    page map it denotes is `PageMap`. `Tree` says that the tables share nothing: a
    placement gives every table one level and one address prefix, and each entry that
    points to a table points to the one placed at its own index. */
module PageTree {
  import opened Common
  import opened PageEntries

  type Memory = seq<Word>

  datatype Place = Place(level: nat, prefix: nat)

  /** What an address resolves to: the entry that ends the walk, the level it was found
      at, and whether every entry on the way, itself included, has the user bit. */
  datatype Leaf = Leaf(entry: Word, level: nat, user: bool)

  function Slot(table: nat, i: nat): nat
  {
    table / 8 + i
  }

  function Entry(mem: Memory, table: nat, i: nat): Word
  {
    if Slot(table, i) < |mem| then mem[Slot(table, i)] else 0
  }

  predicate InRam(mem: Memory, table: nat)
  {
    IsFrame(table) && Slot(table, ENTRIES) <= |mem|
  }

  predicate EntryPlaced(mem: Memory, place: map<nat, Place>, t: nat, i: nat)
    requires t in place
  {
    var e := Entry(mem, t, i);
    place[t].level > 1 && Present(e) && !Huge(e) ==>
      Addr(e) in place && place[Addr(e)] == Place(place[t].level - 1, place[t].prefix * ENTRIES + i)
  }

  ghost predicate Tree(mem: Memory, place: map<nat, Place>, root: nat)
  {
    && root in place && place[root] == Place(4, 0)
    && (forall t | t in place :: InRam(mem, t) && 1 <= place[t].level <= 4)
    && (forall t, i: nat | t in place && i < ENTRIES :: EntryPlaced(mem, place, t, i))
  }

  lemma SlotsApart(t: nat, i: nat, t': nat, i': nat)
    requires IsFrame(t) && IsFrame(t') && i < ENTRIES && i' < ENTRIES
    requires Slot(t, i) == Slot(t', i')
    ensures t == t' && i == i'
  {
    var a, a' := t / 4096, t' / 4096;
    assert t == 4096 * a && t' == 4096 * a';
    assert t / 8 == 512 * a && t' / 8 == 512 * a';
  }

  // ------------------------------------------------------------ the walk

  function Walk(mem: Memory, table: nat, level: nat, v: nat): Option<Leaf>
    requires 1 <= level <= 4
    decreases level
  {
    var e := Entry(mem, table, TableIndex(v, level));
    if !Present(e) then None
    else if level == 1 || Huge(e) then Some(Leaf(e, level, User(e)))
    else Through(Walk(mem, Addr(e), level - 1, v), User(e))
  }

  function Through(leaf: Option<Leaf>, user: bool): Option<Leaf>
  {
    match leaf
    case None => None
    case Some(l) => Some(l.(user := l.user && user))
  }

  datatype Node = Node(table: nat, user: bool)

  /** The table a walk reaches at level `to`, if it gets that far, and whether all the
      entries above that table have the user bit. */
  function Descend(mem: Memory, table: nat, level: nat, v: nat, to: nat): Option<Node>
    requires 1 <= to <= level <= 4
    decreases level
  {
    if level == to then Some(Node(table, true))
    else
      var e := Entry(mem, table, TableIndex(v, level));
      if !Present(e) || Huge(e) then None
      else
        match Descend(mem, Addr(e), level - 1, v, to)
        case None => None
        case Some(n) => Some(Node(n.table, n.user && User(e)))
  }

  lemma {:induction false} WalkVia(mem: Memory, table: nat, level: nat, v: nat, to: nat)
    requires 1 <= to <= level <= 4
    requires Descend(mem, table, level, v, to).Some?
    ensures var n := Descend(mem, table, level, v, to).value;
            Walk(mem, table, level, v) == Through(Walk(mem, n.table, to, v), n.user)
    decreases level
  {
    var e := Entry(mem, table, TableIndex(v, level));
    if to < level {
      WalkVia(mem, Addr(e), level - 1, v, to);
    }
  }

  /** One more step down. */
  lemma {:induction false} DescendStep(mem: Memory, table: nat, level: nat, v: nat, to: nat)
    requires 1 < to <= level <= 4
    requires Descend(mem, table, level, v, to).Some?
    ensures var n := Descend(mem, table, level, v, to).value;
            var e := Entry(mem, n.table, TableIndex(v, to));
            Present(e) && !Huge(e) ==>
              Descend(mem, table, level, v, to - 1) == Some(Node(Addr(e), n.user && User(e)))
    decreases level
  {
    var e := Entry(mem, table, TableIndex(v, level));
    if to < level {
      DescendStep(mem, Addr(e), level - 1, v, to);
    }
  }

  /** Addresses that agree above a level reach the same table there. */
  lemma {:induction false} DescendCongruent(mem: Memory, table: nat, level: nat, v: nat, w: nat, to: nat)
    requires 1 <= to <= level <= 4
    requires Prefix(v, to) == Prefix(w, to)
    ensures Descend(mem, table, level, v, to) == Descend(mem, table, level, w, to)
    ensures Prefix(v, level) == Prefix(w, level)
    decreases level
  {
    if to < level {
      PrefixUp(v, w, to, level - 1);
      PrefixBelow(v, w, level);
      var e := Entry(mem, table, TableIndex(v, level));
      DescendCongruent(mem, Addr(e), level - 1, v, w, to);
    }
  }

  lemma {:induction false} PrefixUp(v: nat, w: nat, from: nat, level: nat)
    requires from <= level <= 4
    requires Prefix(v, from) == Prefix(w, from)
    ensures Prefix(v, level) == Prefix(w, level)
  {
    if from < level {
      PrefixUp(v, w, from, level - 1);
    }
  }

  lemma {:induction false} WalkCongruent(mem: Memory, table: nat, level: nat, v: nat, w: nat)
    requires 1 <= level <= 4
    requires Page(v) == Page(w)
    ensures Walk(mem, table, level, v) == Walk(mem, table, level, w)
    decreases level
  {
    PrefixUp(v, w, 0, level - 1);
    PrefixBelow(v, w, level);
    var e := Entry(mem, table, TableIndex(v, level));
    if level > 1 {
      WalkCongruent(mem, Addr(e), level - 1, v, w);
    }
  }

  predicate At(place: map<nat, Place>, table: nat, level: nat, v: nat)
    requires level <= 4
  {
    table in place && place[table] == Place(level, Prefix(v, level))
  }

  lemma RootAt(mem: Memory, place: map<nat, Place>, root: nat, v: nat)
    requires Tree(mem, place, root)
    ensures At(place, root, 4, v)
  {
    PrefixTop(v);
  }

  lemma ChildAt(mem: Memory, place: map<nat, Place>, root: nat, table: nat, level: nat, v: nat)
    requires Tree(mem, place, root) && 1 < level <= 4 && At(place, table, level, v)
    ensures var e := Entry(mem, table, TableIndex(v, level));
            Present(e) && !Huge(e) ==> At(place, Addr(e), level - 1, v)
  {
    TableIndexPrefix(v, level);
    assert EntryPlaced(mem, place, table, TableIndex(v, level));
  }

  lemma {:induction false} DescendAt(mem: Memory, place: map<nat, Place>, root: nat,
                                     table: nat, level: nat, v: nat, to: nat)
    requires Tree(mem, place, root) && 1 <= to <= level <= 4
    requires At(place, table, level, v)
    requires Descend(mem, table, level, v, to).Some?
    ensures At(place, Descend(mem, table, level, v, to).value.table, to, v)
    decreases level
  {
    if to < level {
      ChildAt(mem, place, root, table, level, v);
      DescendAt(mem, place, root, Addr(Entry(mem, table, TableIndex(v, level))), level - 1, v, to);
    }
  }

  /** No aliasing: walks that reach the same table reach it at the same level, for
      addresses with the same bits above it. */
  lemma TablesNotShared(mem: Memory, place: map<nat, Place>, root: nat, v: nat, to: nat, w: nat, to': nat)
    requires Tree(mem, place, root) && 1 <= to <= 4 && 1 <= to' <= 4
    requires Descend(mem, root, 4, v, to).Some? && Descend(mem, root, 4, w, to').Some?
    requires Descend(mem, root, 4, v, to).value.table == Descend(mem, root, 4, w, to').value.table
    ensures to == to' && Prefix(v, to) == Prefix(w, to')
  {
    RootAt(mem, place, root, v);
    RootAt(mem, place, root, w);
    DescendAt(mem, place, root, root, 4, v, to);
    DescendAt(mem, place, root, root, 4, w, to');
  }

  // ------------------------------------------------------------ one entry changes

  /** `mem'` is `mem` except for entry `i` of table `t`. */
  predicate Wrote(mem: Memory, mem': Memory, t: nat, i: nat, x: Word)
  {
    Slot(t, i) < |mem| && mem' == mem[Slot(t, i) := x]
  }

  lemma WroteEntry(mem: Memory, mem': Memory, t: nat, i: nat, x: Word, t': nat, i': nat)
    requires Wrote(mem, mem', t, i, x)
    requires IsFrame(t) && IsFrame(t') && i < ENTRIES && i' < ENTRIES
    ensures Entry(mem', t', i') == if t == t' && i == i' then x else Entry(mem, t', i')
  {
    if Slot(t, i) == Slot(t', i') {
      SlotsApart(t, i, t', i');
    }
  }

  /** The addresses a walk takes through entry `i` of table `t`. */
  predicate PassesEntry(place: map<nat, Place>, t: nat, i: nat, v: nat)
    requires t in place && 1 <= place[t].level <= 4
  {
    Prefix(v, place[t].level - 1) == place[t].prefix * ENTRIES + i
  }

  /** A walk that does not pass the changed entry, or starts below it, sees no change. */
  lemma {:induction false} WalkElsewhere(mem: Memory, mem': Memory, place: map<nat, Place>, root: nat,
                                         t: nat, i: nat, x: Word, table: nat, level: nat, v: nat)
    requires Tree(mem, place, root) && t in place && i < ENTRIES && Wrote(mem, mem', t, i, x)
    requires 1 <= level <= 4 && At(place, table, level, v)
    requires level < place[t].level || !PassesEntry(place, t, i, v)
    ensures Walk(mem', table, level, v) == Walk(mem, table, level, v)
    decreases level
  {
    var j := TableIndex(v, level);
    TableIndexPrefix(v, level);
    WroteEntry(mem, mem', t, i, x, table, j);
    var e := Entry(mem, table, j);
    if Present(e) && level > 1 && !Huge(e) {
      ChildAt(mem, place, root, table, level, v);
      WalkElsewhere(mem, mem', place, root, t, i, x, Addr(e), level - 1, v);
    }
  }

  /** The tables above the changed entry are found as before. */
  lemma {:induction false} DescendAbove(mem: Memory, mem': Memory, place: map<nat, Place>, root: nat,
                                        t: nat, i: nat, x: Word, table: nat, level: nat, v: nat, to: nat)
    requires Tree(mem, place, root) && t in place && i < ENTRIES && Wrote(mem, mem', t, i, x)
    requires 1 <= to <= level <= 4 && At(place, table, level, v)
    requires place[t].level <= to
    ensures Descend(mem', table, level, v, to) == Descend(mem, table, level, v, to)
    decreases level
  {
    if to < level {
      var j := TableIndex(v, level);
      TableIndexPrefix(v, level);
      WroteEntry(mem, mem', t, i, x, table, j);
      var e := Entry(mem, table, j);
      if Present(e) && !Huge(e) {
        ChildAt(mem, place, root, table, level, v);
        DescendAbove(mem, mem', place, root, t, i, x, Addr(e), level - 1, v, to);
      }
    }
  }

  /** The tree survives a write whose new entry, if it points to a table, points to the
      one placed there. */
  lemma TreeWrite(mem: Memory, mem': Memory, place: map<nat, Place>, root: nat, t: nat, i: nat, x: Word)
    requires Tree(mem, place, root) && t in place && i < ENTRIES && Wrote(mem, mem', t, i, x)
    requires place[t].level > 1 && Present(x) && !Huge(x) ==>
               Addr(x) in place && place[Addr(x)] == Place(place[t].level - 1, place[t].prefix * ENTRIES + i)
    ensures Tree(mem', place, root)
  {
    forall t', i': nat | t' in place && i' < ENTRIES
      ensures EntryPlaced(mem', place, t', i')
    {
      WroteEntry(mem, mem', t, i, x, t', i');
      assert EntryPlaced(mem, place, t', i');
    }
  }
}
