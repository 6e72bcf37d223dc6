/** Page table entries and the virtual address layout of the four-level tables. */
module PageEntries {
  import opened Bits

  type Word = x: int | 0 <= x < 0x1_0000_0000_0000_0000

  const PAGE_SIZE: nat := 4096
  const ENTRIES: nat := 512
  const PHYSICAL: nat := 0x10_0000_0000_0000 // 2^52: one past the largest address an entry can hold

  const PRESENT: Word := 1
  const WRITABLE: Word := 2
  const USER: Word := 4
  const HUGE: Word := 128
  const ADDRESS_MASK: Word := 0x000f_ffff_ffff_f000

  predicate Present(entry: nat) { And(entry, PRESENT) != 0 }
  predicate User(entry: nat) { And(entry, USER) != 0 }
  predicate Huge(entry: nat) { And(entry, HUGE) != 0 }
  function Addr(entry: nat): Word
  {
    Powers();
    AndMask(entry, 52, 12);
    And(entry, ADDRESS_MASK)
  }

  /** A physical frame address: page aligned and inside the address field of an entry. */
  predicate IsFrame(address: nat)
  {
    address % PAGE_SIZE == 0 && address < PHYSICAL
  }

  lemma Powers()
    ensures Pow2(0) == 1 && Pow2(1) == 2 && Pow2(2) == 4 && Pow2(3) == 8 && Pow2(7) == 128 && Pow2(8) == 256
    ensures Pow2(9) == 512 && Pow2(12) == 4096 && Pow2(21) == 0x20_0000 && Pow2(30) == 0x4000_0000
    ensures Pow2(39) == 0x80_0000_0000 && Pow2(48) == 0x1_0000_0000_0000 && Pow2(52) == PHYSICAL
  {
    assert Pow2(3) == 8;
    Pow2Add(3, 4);
    Pow2Add(3, 6);
    Pow2Add(3, 9);
    Pow2Add(9, 12);
    Pow2Add(9, 21);
    Pow2Add(9, 30);
    Pow2Add(9, 39);
    Pow2Add(4, 48);
  }

  /** The flag tests and the address field, as remainders and quotients. */
  lemma Fields(e: nat)
    ensures Present(e) <==> e % 2 != 0
    ensures User(e) <==> e % 8 / 4 != 0
    ensures Huge(e) <==> e % 256 / 128 != 0
    ensures Addr(e) == e % PHYSICAL / 4096 * 4096
    ensures IsFrame(Addr(e))
  {
    FlagBits(e);
    AddressBits(e);
  }

  lemma FlagBits(e: nat)
    ensures Present(e) <==> e % 2 != 0
    ensures User(e) <==> e % 8 / 4 != 0
    ensures Huge(e) <==> e % 256 / 128 != 0
  {
    Powers();
    AndMask(e, 1, 0);
    AndMask(e, 3, 2);
    AndMask(e, 8, 7);
  }

  lemma AddressBits(e: nat)
    ensures Addr(e) == e % PHYSICAL / 4096 * 4096
    ensures IsFrame(Addr(e))
  {
    Powers();
    AndMask(e, 52, 12);
  }

  /** Setting bits never clears one, and the fields of a union are the unions of the fields. */
  lemma OrFields(a: nat, b: nat)
    ensures Present(Or(a, b)) <==> Present(a) || Present(b)
    ensures User(Or(a, b)) <==> User(a) || User(b)
    ensures Huge(Or(a, b)) <==> Huge(a) || Huge(b)
    ensures Addr(Or(a, b)) == Or(Addr(a), Addr(b))
  {
    AndOr(a, b, PRESENT);
    OrZero(And(a, PRESENT), And(b, PRESENT));
    AndOr(a, b, USER);
    OrZero(And(a, USER), And(b, USER));
    AndOr(a, b, HUGE);
    OrZero(And(a, HUGE), And(b, HUGE));
    AndOr(a, b, ADDRESS_MASK);
  }

  /** A frame address carries no flag, and a bare set of low flags carries no address. */
  lemma FrameFields(frame: nat)
    requires IsFrame(frame)
    ensures Addr(frame) == frame && !Present(frame) && !User(frame) && !Huge(frame)
  {
    Fields(frame);
    FrameDigits(frame, frame / 4096);
  }

  lemma FrameDigits(frame: nat, k: nat)
    requires frame == 4096 * k && frame < PHYSICAL
    ensures frame % 2 == 0 && frame % 8 == 0 && frame % 256 == 0
    ensures frame % PHYSICAL / 4096 * 4096 == frame
  {
    DivUnique(frame, 2, 2048 * k, 0);
    DivUnique(frame, 8, 512 * k, 0);
    DivUnique(frame, 256, 16 * k, 0);
    DivUnique(frame, PHYSICAL, 0, frame);
    DivUnique(frame, 4096, k, 0);
  }

  lemma FlagFields(flags: nat)
    requires flags < 8
    ensures Addr(flags) == 0 && !Huge(flags)
    ensures Present(flags) <==> flags % 2 == 1
    ensures User(flags) <==> flags >= 4
  {
    Fields(flags);
  }

  function OrWords(a: Word, b: Word): (r: Word)
    ensures r == Or(a, b)
  {
    Pow2Word();
    OrBound(a, b, 64);
    Or(a, b)
  }

  function UserFlag(flags: Word): (r: Word)
    ensures r == if User(flags) then USER else 0
  {
    Powers();
    AndMask(flags, 3, 2);
    And(flags, USER)
  }

  /** The entry `map` writes for a table it has just created. */
  function TableEntry(table: Word, flags: Word): Word
  {
    OrWords(OrWords(OrWords(table, PRESENT), WRITABLE), UserFlag(flags))
  }

  /** A fresh table entry is present, is not a huge page, points at the table and
      carries the user bit exactly when the request does. */
  lemma TableEntryFields(table: Word, flags: Word)
    requires IsFrame(table)
    ensures var e := TableEntry(table, flags);
            Present(e) && !Huge(e) && Addr(e) == table && (User(e) <==> User(flags))
  {
    FrameFields(table);
    FlagFields(PRESENT);
    FlagFields(WRITABLE);
    FlagFields(UserFlag(flags));
    OrEntry(table, PRESENT);
    OrEntry(OrWords(table, PRESENT), WRITABLE);
    OrEntry(OrWords(OrWords(table, PRESENT), WRITABLE), UserFlag(flags));
  }

  lemma OrEntry(entry: Word, flags: Word)
    requires Addr(flags) == 0
    ensures var e := OrWords(entry, flags);
            && Addr(e) == Addr(entry)
            && (Present(e) <==> Present(entry) || Present(flags))
            && (User(e) <==> User(entry) || User(flags))
            && (Huge(e) <==> Huge(entry) || Huge(flags))
  {
    OrFields(entry, flags);
    OrNothing(Addr(entry));
  }

  /** The entry `map` and `update_flags` write for a page. */
  function LeafEntry(frame: Word, flags: Word): Word
  {
    OrWords(OrWords(frame, flags), PRESENT)
  }

  lemma LeafEntryFields(frame: Word, flags: Word)
    ensures var e := LeafEntry(frame, flags);
            Present(e) && (User(e) <==> User(frame) || User(flags)) && Addr(e) == Or(Addr(frame), Addr(flags))
  {
    FlagFields(PRESENT);
    OrFields(frame, flags);
    OrEntry(OrWords(frame, flags), PRESENT);
  }

  /** For a page-aligned frame and flags without address bits the entry holds exactly both. */
  lemma LeafEntryExact(frame: Word, flags: Word)
    requires IsFrame(frame) && Addr(flags) == 0
    ensures Addr(LeafEntry(frame, flags)) == frame
    ensures User(LeafEntry(frame, flags)) <==> User(flags)
  {
    LeafEntryFields(frame, flags);
    FrameFields(frame);
    OrNothing(frame);
  }

  /** Whatever the caller passes, each bit of the entry is one the frame or the flags
      have, or the present bit. */
  lemma LeafEntryBits(frame: Word, flags: Word, n: nat)
    ensures Bit(LeafEntry(frame, flags), n) <==> Bit(frame, n) || Bit(flags, n) || n == 0
  {
    OrBit(Or(frame, flags), PRESENT, n);
    OrBit(frame, flags, n);
    PresentBit(n);
  }

  lemma PresentBit(n: nat)
    ensures Bit(PRESENT, n) <==> n == 0
  {
    if n > 0 {
      assert Pow2(n) == 2 * Pow2(n - 1);
      DivUnique(1, Pow2(n), 0, 1);
    }
  }

  /** For a page-aligned frame and flags without address bits the entry is their sum,
      present: no writable, user, huge or no-execute bit the caller did not pass. */
  lemma LeafEntrySum(frame: Word, flags: Word)
    requires IsFrame(frame) && Addr(flags) == 0
    ensures LeafEntry(frame, flags) == frame + flags + if flags % 2 == 0 then 1 else 0
  {
    FrameAndFlags(frame, flags);
    FrameDigits(frame, frame / 4096);
    OrOne(frame + flags);
  }

  lemma FrameAndFlags(frame: Word, flags: Word)
    requires IsFrame(frame) && Addr(flags) == 0
    ensures Or(frame, flags) == frame + flags
  {
    FrameFields(frame);
    DisjointSum(frame, flags, ADDRESS_MASK);
  }

  lemma DisjointSum(a: nat, b: nat, mask: nat)
    requires And(a, mask) == a && And(b, mask) == 0
    ensures Or(a, b) == a + b
  {
    MaskedApart(a, b, mask);
    OrSum(a, b);
  }

  /** An entry that holds a frame and flags, present, and nothing besides. */
  ghost predicate Holds(entry: Word, frame: Word, flags: Word)
  {
    && (forall n: nat :: Bit(entry, n) <==> Bit(frame, n) || Bit(flags, n) || n == 0)
    && (IsFrame(frame) && Addr(flags) == 0 ==> entry == frame + flags + if flags % 2 == 0 then 1 else 0)
  }

  lemma LeafEntryHolds(frame: Word, flags: Word)
    ensures Holds(LeafEntry(frame, flags), frame, flags)
  {
    forall n: nat
      ensures Bit(LeafEntry(frame, flags), n) <==> Bit(frame, n) || Bit(flags, n) || n == 0
    {
      LeafEntryBits(frame, flags, n);
    }
    if IsFrame(frame) && Addr(flags) == 0 {
      LeafEntrySum(frame, flags);
    }
  }

  lemma OrOne(e: nat)
    ensures Or(e, PRESENT) == if e % 2 == 0 then e + 1 else e
  {
    OrNothing(e / 2);
    if e != 0 {
      assert Or(e, 1) == 2 * Or(e / 2, 0) + 1;
    }
  }

  /** A fresh table entry holds the table, the present and writable bits, and the user bit
      of the request; no other. */
  lemma TableEntrySum(table: Word, flags: Word)
    requires IsFrame(table)
    ensures TableEntry(table, flags) == table + 3 + if User(flags) then 4 else 0
  {
    assert table % 8 == 0 by {
      FrameDigits(table, table / 4096);
    }
    OrTwoFlags(table);
    OrUser(table + 3);
  }

  lemma OrTwoFlags(e: nat)
    requires e % 8 == 0
    ensures Or(Or(e, PRESENT), WRITABLE) == e + 3
  {
    OrOne(e);
    OrHalves(e / 2, 1, 1, 0);
    OrOne(e / 2);
  }

  lemma OrUser(e: nat)
    requires e % 8 == 3
    ensures Or(e, USER) == e + 4 && Or(e, 0) == e
  {
    OrHalves(e / 2, 2, 1, 0);
    OrHalves(e / 4, 1, 1, 0);
    OrOne(e / 4);
    assert e / 2 == 2 * (e / 4) + 1;
    OrNothing(e);
  }

  lemma OrNothing(a: nat)
    ensures Or(a, 0) == a
  {
  }

  /** Opening an intermediate entry to user mode changes nothing else in it. */
  lemma OpenEntryFields(entry: Word)
    ensures var e := OrWords(entry, USER);
            User(e) && Addr(e) == Addr(entry) && (Present(e) <==> Present(entry)) && (Huge(e) <==> Huge(entry))
  {
    FlagFields(USER);
    OrEntry(entry, USER);
  }

  /** Opening a closed entry adds the user bit and nothing else. */
  lemma OpenEntrySum(entry: Word)
    requires !User(entry)
    ensures OrWords(entry, USER) == entry + USER
  {
    OrSum(entry, USER);
  }

  // ------------------------------------------------------------ virtual addresses

  /** The nine address bits that select an entry of a table at `level`. */
  function TableIndex(v: nat, level: nat): nat
    requires 1 <= level <= 4
  {
    And(Shr(v, 12 + 9 * (level - 1)), 0x1FF)
  }

  function OffsetBits(level: nat): nat
    requires 1 <= level <= 4
  {
    12 + 9 * (level - 1)
  }

  /** The address bits above those a table at `level` decides: what all addresses that
      share such a table have in common. Level 0 gives the page number, bits 12 to 47. */
  function Prefix(v: nat, level: nat): nat
    requires level <= 4
  {
    if level == 0 then v / PAGE_SIZE % 0x10_0000_0000 else Prefix(v, level - 1) / ENTRIES
  }

  function Page(v: nat): nat { Prefix(v, 0) }

  lemma TableIndexPrefix(v: nat, level: nat)
    requires 1 <= level <= 4
    ensures TableIndex(v, level) < ENTRIES
    ensures TableIndex(v, level) == Prefix(v, level - 1) % ENTRIES
    ensures Prefix(v, level) == Prefix(v, level - 1) / ENTRIES
    ensures Prefix(v, level - 1) == Prefix(v, level) * ENTRIES + TableIndex(v, level)
  {
    IndexBits(v, level);
  }

  lemma IndexBits(v: nat, level: nat)
    requires 1 <= level <= 4
    ensures TableIndex(v, level) == Prefix(v, level - 1) % ENTRIES
  {
    Powers();
    ShrDivides(v, OffsetBits(level));
    AndMask(Shr(v, OffsetBits(level)), 9, 0);
    PrefixBits(v, level - 1);
    DivMod(v / Pow2(OffsetBits(level)), 512, Pow2(27 - 9 * (level - 1)));
    Pow2Add(9, 27 - 9 * (level - 1));
  }

  lemma {:induction false} PrefixBits(v: nat, level: nat)
    requires level <= 4
    ensures Prefix(v, level) == v / Pow2(12 + 9 * level) % Pow2(36 - 9 * level)
  {
    Powers();
    Pow2Add(9, 27);
    Pow2Add(9, 18);
    if level > 0 {
      PrefixBits(v, level - 1);
      var m := Pow2(36 - 9 * level);
      var s := Pow2(3 + 9 * level);
      Pow2Add(9, 36 - 9 * level);
      Pow2Add(3 + 9 * level, 9);
      DivMod(v, s, 512);
      DivMod(v / s, 512, m);
    }
  }

  lemma PrefixTop(v: nat)
    ensures Prefix(v, 4) == 0
  {
    PrefixBits(v, 4);
    assert Pow2(0) == 1;
  }

  lemma PrefixBelow(v: nat, w: nat, level: nat)
    requires 1 <= level <= 4
    ensures Prefix(v, level - 1) == Prefix(w, level - 1) ==>
              Prefix(v, level) == Prefix(w, level) && TableIndex(v, level) == TableIndex(w, level)
  {
    TableIndexPrefix(v, level);
    TableIndexPrefix(w, level);
  }
}
