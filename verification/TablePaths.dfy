/** Which tables exist, which are missing on the path of an address, and what adds them. */
module TablePaths {
  import opened PageEntries
  import opened PageTree
  import opened PageMaps

  /** The walk of `v` finds a table at level `to`. */
  predicate Reaches(mem: Memory, table: nat, level: nat, v: nat, to: nat)
    requires 1 <= to <= level <= 4
    decreases level
  {
    level == to ||
    (var e := Entry(mem, table, TableIndex(v, level));
     Present(e) && !Huge(e) && Reaches(mem, Addr(e), level - 1, v, to))
  }

  predicate HasTable(mem: Memory, root: nat, v: nat, to: nat)
    requires 1 <= to <= 3
  {
    Reaches(mem, root, 4, v, to)
  }

  function CountMissing(has: bool): nat
  {
    if has then 0 else 1
  }

  /** How many tables the path of `v` lacks. */
  function Missing(mem: Memory, root: nat, v: nat): nat
  {
    CountMissing(HasTable(mem, root, v, 3)) + CountMissing(HasTable(mem, root, v, 2)) + CountMissing(HasTable(mem, root, v, 1))
  }

  /** The tables of `mem'` are those of `mem` and the ones on the path of `v` from `top` down
      to `bottom`. */
  ghost predicate Gains(mem: Memory, mem': Memory, root: nat, v: nat, top: nat, bottom: nat)
  {
    forall w: nat, to: nat | 1 <= to <= 3 ::
      HasTable(mem', root, w, to) <==> HasTable(mem, root, w, to) || (bottom <= to <= top && Prefix(w, to) == Prefix(v, to))
  }

  lemma {:induction false} ReachesDescend(mem: Memory, table: nat, level: nat, v: nat, to: nat)
    requires 1 <= to <= level <= 4
    ensures Reaches(mem, table, level, v, to) <==> Descend(mem, table, level, v, to).Some?
    decreases level
  {
    if to < level {
      ReachesDescend(mem, Addr(Entry(mem, table, TableIndex(v, level))), level - 1, v, to);
    }
  }

  /** A walk that gets down to one level got to the levels above it. */
  lemma {:induction false} ReachesAbove(mem: Memory, table: nat, level: nat, v: nat, to: nat, to': nat)
    requires 1 <= to <= to' <= level <= 4 && Reaches(mem, table, level, v, to)
    ensures Reaches(mem, table, level, v, to')
    decreases level
  {
    if to' < level {
      ReachesAbove(mem, Addr(Entry(mem, table, TableIndex(v, level))), level - 1, v, to, to');
    }
  }

  /** A walk that stops at an absent or huge entry of the table it reached gets no further. */
  lemma {:induction false} ReachesStops(mem: Memory, table: nat, level: nat, v: nat, at: nat, to: nat)
    requires 1 <= to < at <= level <= 4 && Descend(mem, table, level, v, at).Some?
    requires var e := Entry(mem, Descend(mem, table, level, v, at).value.table, TableIndex(v, at));
             !Present(e) || Huge(e)
    ensures !Reaches(mem, table, level, v, to)
    decreases level
  {
    if at < level {
      ReachesStops(mem, Addr(Entry(mem, table, TableIndex(v, level))), level - 1, v, at, to);
    }
  }

  // ------------------------------------------------------------ writes that add no table

  predicate SameShape(a: Word, b: Word)
  {
    (Present(a) <==> Present(b)) && (Huge(a) <==> Huge(b)) && Addr(a) == Addr(b)
  }

  /** The entries above level 1 lead where they led. */
  ghost predicate SameShapes(mem: Memory, mem': Memory, place: map<nat, Place>)
  {
    forall t, i: nat | t in place && place[t].level > 1 && i < ENTRIES :: SameShape(Entry(mem, t, i), Entry(mem', t, i))
  }

  lemma {:induction false} SameReaches(mem: Memory, mem': Memory, place: map<nat, Place>, root: nat,
                                       table: nat, level: nat, v: nat, to: nat)
    requires Tree(mem, place, root) && SameShapes(mem, mem', place)
    requires 1 <= to <= level <= 4 && At(place, table, level, v)
    ensures Reaches(mem', table, level, v, to) == Reaches(mem, table, level, v, to)
    decreases level
  {
    if to < level {
      var e := Entry(mem, table, TableIndex(v, level));
      TableIndexPrefix(v, level);
      assert SameShape(e, Entry(mem', table, TableIndex(v, level)));
      if Present(e) && !Huge(e) {
        ChildAt(mem, place, root, table, level, v);
        SameReaches(mem, mem', place, root, Addr(e), level - 1, v, to);
      }
    }
  }

  lemma SameTablesReached(mem: Memory, mem': Memory, place: map<nat, Place>, root: nat, v: nat)
    requires Tree(mem, place, root) && SameShapes(mem, mem', place)
    ensures Gains(mem, mem', root, v, 0, 1)
  {
    forall w: nat, to: nat | 1 <= to <= 3
      ensures HasTable(mem', root, w, to) == HasTable(mem, root, w, to)
    {
      RootAt(mem, place, root, w);
      SameReaches(mem, mem', place, root, root, 4, w, to);
    }
  }

  // ------------------------------------------------------------ one more table

  lemma {:induction false} ReachesVia(mem: Memory, table: nat, level: nat, v: nat, at: nat, to: nat)
    requires 1 <= to <= at <= level <= 4 && Descend(mem, table, level, v, at).Some?
    ensures Reaches(mem, table, level, v, to) == Reaches(mem, Descend(mem, table, level, v, at).value.table, at, v, to)
    decreases level
  {
    if at < level {
      ReachesVia(mem, Addr(Entry(mem, table, TableIndex(v, level))), level - 1, v, at, to);
    }
  }

  lemma {:induction false} ReachesElsewhere(mem: Memory, mem': Memory, place: map<nat, Place>, root: nat,
                                            t: nat, i: nat, x: Word, table: nat, level: nat, v: nat, to: nat)
    requires Tree(mem, place, root) && t in place && i < ENTRIES && Wrote(mem, mem', t, i, x)
    requires 1 <= to <= level <= 4 && At(place, table, level, v) && !PassesEntry(place, t, i, v)
    ensures Reaches(mem', table, level, v, to) == Reaches(mem, table, level, v, to)
    decreases level
  {
    if to < level {
      var j := TableIndex(v, level);
      TableIndexPrefix(v, level);
      WroteEntry(mem, mem', t, i, x, table, j);
      var e := Entry(mem, table, j);
      if Present(e) && !Huge(e) {
        ChildAt(mem, place, root, table, level, v);
        ReachesElsewhere(mem, mem', place, root, t, i, x, Addr(e), level - 1, v, to);
      }
    }
  }

  /** The entry of `v` at level `at` starts to point to a table without entries. */
  ghost predicate Hangs(mem: Memory, mem': Memory, root: nat, v: nat, at: nat, x: Word)
    requires 1 < at <= 4
  {
    var n := Descend(mem, root, 4, v, at);
    && n.Some? && !Present(Entry(mem, n.value.table, TableIndex(v, at)))
    && Wrote(mem, mem', n.value.table, TableIndex(v, at), x)
    && Present(x) && !Huge(x)
    && forall i: nat | i < ENTRIES :: !Present(Entry(mem', Addr(x), i))
  }

  lemma HungReaches(mem: Memory, mem': Memory, place: map<nat, Place>, root: nat, v: nat, at: nat, x: Word, w: nat, to: nat)
    requires Tree(mem, place, root) && 1 < at <= 4 && Hangs(mem, mem', root, v, at, x) && 1 <= to <= 3
    ensures HasTable(mem', root, w, to) <==>
            HasTable(mem, root, w, to) || (to == at - 1 && Prefix(w, to) == Prefix(v, to))
  {
    var t, i := Descend(mem, root, 4, v, at).value.table, TableIndex(v, at);
    PassingWalks(mem, mem', place, root, v, at, x, w);
    TableIndexPrefix(v, at);
    if Prefix(w, at - 1) == Prefix(v, at - 1) {
      HungPath(mem, mem', root, v, at, x, w, to);
    } else {
      RootAt(mem, place, root, w);
      ReachesElsewhere(mem, mem', place, root, t, i, x, root, 4, w, to);
    }
  }

  lemma HungPath(mem: Memory, mem': Memory, root: nat, v: nat, at: nat, x: Word, w: nat, to: nat)
    requires 1 < at <= 4 && Hangs(mem, mem', root, v, at, x) && 1 <= to <= 3
    requires Prefix(w, at - 1) == Prefix(v, at - 1)
    requires Descend(mem', root, 4, v, at) == Descend(mem, root, 4, v, at)
    requires Entry(mem', Descend(mem, root, 4, v, at).value.table, TableIndex(v, at)) == x
    ensures HasTable(mem', root, w, to) <==> HasTable(mem, root, w, to) || to == at - 1
    ensures to == at - 1 ==> Prefix(w, to) == Prefix(v, to)
  {
    PrefixBelow(v, w, at);
    DescendCongruent(mem, root, 4, v, w, at);
    DescendCongruent(mem', root, 4, v, w, at);
    if to < at {
      ReachesStops(mem, root, 4, w, at, to);
      ReachesVia(mem', root, 4, w, at, to);
      if to < at - 1 {
        TableIndexPrefix(w, at - 1);
      }
    } else {
      ReachesDescend(mem, root, 4, w, at);
      ReachesDescend(mem', root, 4, w, at);
      ReachesAbove(mem, root, 4, w, at, to);
      ReachesAbove(mem', root, 4, w, at, to);
    }
  }

  lemma HangGains(mem: Memory, mem': Memory, place: map<nat, Place>, root: nat, v: nat, at: nat, x: Word)
    requires Tree(mem, place, root) && 1 < at <= 4 && Hangs(mem, mem', root, v, at, x)
    ensures Gains(mem, mem', root, v, at - 1, at - 1)
    ensures !HasTable(mem, root, v, at - 1)
  {
    forall w: nat, to: nat | 1 <= to <= 3
      ensures HasTable(mem', root, w, to) <==>
              HasTable(mem, root, w, to) || (at - 1 <= to <= at - 1 && Prefix(w, to) == Prefix(v, to))
    {
      HungReaches(mem, mem', place, root, v, at, x, w, to);
    }
    ReachesStops(mem, root, 4, v, at, at - 1);
  }

  // ------------------------------------------------------------ counting

  /** Each table gained on the path is one missing less. */
  lemma GainCounts(mem: Memory, mem': Memory, root: nat, v: nat, at: nat)
    requires 1 <= at <= 3 && Gains(mem, mem', root, v, at, at) && !HasTable(mem, root, v, at)
    ensures Missing(mem', root, v) + 1 == Missing(mem, root, v)
  {
    assert HasTable(mem', root, v, at);
    assert forall to: nat | 1 <= to <= 3 && to != at :: HasTable(mem', root, v, to) == HasTable(mem, root, v, to);
  }

  lemma NoneMissing(mem: Memory, root: nat, v: nat)
    requires Descend(mem, root, 4, v, 1).Some?
    ensures Missing(mem, root, v) == 0
  {
    ReachesDescend(mem, root, 4, v, 1);
    ReachesAbove(mem, root, 4, v, 1, 2);
    ReachesAbove(mem, root, 4, v, 1, 3);
  }

  /** A table that exists is no gain, so it may be named as one. */
  lemma NothingGained(mem: Memory, mem': Memory, root: nat, v: nat, at: nat)
    requires 1 <= at <= 3 && Gains(mem, mem', root, v, 0, 1) && HasTable(mem, root, v, at)
    ensures Gains(mem, mem', root, v, at, at) && Missing(mem', root, v) == Missing(mem, root, v)
  {
    forall w: nat, to: nat | 1 <= to <= 3
      ensures HasTable(mem', root, w, to) <==>
              HasTable(mem, root, w, to) || (at <= to <= at && Prefix(w, to) == Prefix(v, to))
    {
      if to == at && Prefix(w, to) == Prefix(v, to) {
        HasCongruent(mem, root, v, w, to);
      }
    }
  }

  lemma GainsTrans(a: Memory, b: Memory, c: Memory, root: nat, v: nat, at: nat)
    requires at <= 3 && Gains(a, b, root, v, 3, at + 1) && Gains(b, c, root, v, at, at)
    ensures Gains(a, c, root, v, 3, at)
  {
  }

  lemma GainsThenSame(a: Memory, b: Memory, c: Memory, root: nat, v: nat, top: nat, bottom: nat)
    requires Gains(a, b, root, v, top, bottom) && Gains(b, c, root, v, 0, 1)
    ensures Gains(a, c, root, v, top, bottom)
  {
  }

  lemma SameThenGains(a: Memory, b: Memory, c: Memory, root: nat, v: nat, top: nat, bottom: nat)
    requires Gains(a, b, root, v, 0, 1) && Gains(b, c, root, v, top, bottom)
    ensures Gains(a, c, root, v, top, bottom)
  {
  }

  lemma SameMissing(a: Memory, b: Memory, root: nat, v: nat, w: nat)
    requires Gains(a, b, root, v, 0, 1)
    ensures Missing(a, root, w) == Missing(b, root, w)
  {
  }

  /** Addresses with the same prefix have the table at that level in common. */
  lemma HasCongruent(mem: Memory, root: nat, v: nat, w: nat, to: nat)
    requires 1 <= to <= 3 && Prefix(v, to) == Prefix(w, to)
    ensures HasTable(mem, root, v, to) == HasTable(mem, root, w, to)
  {
    ReachesDescend(mem, root, 4, v, to);
    ReachesDescend(mem, root, 4, w, to);
    DescendCongruent(mem, root, 4, v, w, to);
  }
}
