/** The coalescing free-list allocator, with its nodes in memory at the holes they describe. */
module HeapAllocators {
  import opened Common
  import opened FreeLists
  import opened Bits

  const ADDRESS_LIMIT: nat := 0x8000_0000_0000_0000 // 2^63: heap addresses stay below

  // ------------------------------------------------------------ alignment and layouts

  /** Rounds up to a multiple of a power of two, with the kernel's mask. */
  function AlignUp(address: nat, align: nat): nat
    requires 0 < align <= WORD
  {
    And(address + align - 1, WORD - align)
  }

  ghost predicate IsAlign(align: nat)
  {
    exists n: nat | n <= 62 :: align == Pow2(n)
  }

  lemma AlignUpRounds(address: nat, align: nat)
    requires IsAlign(align) && address < ADDRESS_LIMIT
    ensures 0 < align < ADDRESS_LIMIT
    ensures AlignUp(address, align) % align == 0
    ensures address <= AlignUp(address, align) < address + align
    ensures address % align == 0 ==> AlignUp(address, align) == address
  {
    var n: nat :| n <= 62 && align == Pow2(n);
    AlignBound(n);
    AlignUpDivides(address + align - 1, align, n);
    RoundsUp(address, align);
  }

  lemma AlignUpDivides(x: nat, align: nat, n: nat)
    requires n <= 64 && align == Pow2(n) && x < WORD && align <= WORD
    ensures And(x, WORD - align) == x / align * align
  {
    Pow2Word();
    AndMask(x, 64, n);
    DivUnique(x, WORD, 0, x);
  }

  lemma AlignBound(n: nat)
    requires n <= 62
    ensures Pow2(n) <= 0x4000_0000_0000_0000
  {
    Pow2Word();
    Pow2Add(62 - n, n);
    assert Pow2(64) == 2 * (2 * Pow2(62));
    MulLe(Pow2(n), 1, Pow2(62 - n));
  }

  lemma RoundsUp(address: nat, align: nat)
    requires align > 0
    ensures var y := (address + align - 1) / align * align;
            && y % align == 0 && address <= y < address + align
            && (address % align == 0 ==> y == address)
  {
    var q, r := address / align, address % align;
    assert address == align * q + r;
    if r == 0 {
      DivUnique(address + align - 1, align, q, align - 1);
      DivUnique(q * align, align, q, 0);
    } else {
      assert address + align - 1 == align * (q + 1) + (r - 1);
      DivUnique(address + align - 1, align, q + 1, r - 1);
      DivUnique((q + 1) * align, align, q + 1, 0);
    }
  }

  datatype Layout = Layout(size: nat, align: nat)

  /** A layout the language allows whose padded size still is one. */
  ghost predicate ValidLayout(l: Layout)
  {
    && 0 < l.align <= WORD && IsAlign(l.align)
    && l.size + l.align < ADDRESS_LIMIT && l.size + NODE_ALIGN < ADDRESS_LIMIT
  }

  /** The size and alignment a request is served with: aligned and large enough for a node. */
  function SizeAlign(l: Layout): (r: (nat, nat))
    requires 0 < l.align <= WORD
    ensures 0 < r.1 <= WORD
  {
    var align := if l.align < NODE_ALIGN then NODE_ALIGN else l.align;
    var size := AlignUp(l.size, align);
    (if size < NODE_SIZE then NODE_SIZE else size, align)
  }

  lemma AlignPowers()
    ensures IsAlign(1) && IsAlign(2) && IsAlign(4) && IsAlign(8)
  {
    assert Pow2(0) == 1 && Pow2(1) == 2 && Pow2(2) == 4 && Pow2(3) == 8;
  }

  lemma {:induction false} SmallAlign(n: nat)
    ensures n <= 3 ==> Pow2(n) <= 8
    ensures n >= 3 ==> Pow2(n) % 8 == 0 && Pow2(n) >= 8
  {
    assert Pow2(0) == 1 && Pow2(1) == 2 && Pow2(2) == 4 && Pow2(3) == 8;
    if n > 3 {
      SmallAlign(n - 1);
    }
  }

  /** The adjusted request covers the layout, and blocks of it always start and end where a
      node can be placed. */
  lemma SizeAlignFits(l: Layout)
    requires ValidLayout(l)
    ensures var (size, align) := SizeAlign(l);
            && size >= l.size && size >= NODE_SIZE && size % NODE_ALIGN == 0 && size < ADDRESS_LIMIT
            && IsAlign(align) && align % NODE_ALIGN == 0 && align >= l.align
            && (l.align <= NODE_ALIGN ==> align == NODE_ALIGN)
  {
    var n: nat :| n <= 62 && l.align == Pow2(n);
    SmallAlign(n);
    AlignPowers();
    var align := if l.align < NODE_ALIGN then NODE_ALIGN else l.align;
    assert IsAlign(align) && align % NODE_ALIGN == 0;
    SizeRounds(l.size, align);
  }

  /** What a request is served with, said without computing it: the alignment of a node or a
      stricter one, and the fewest whole alignments that hold the layout, but at least a node. */
  predicate IsRequest(l: Layout, size: nat, align: nat)
  {
    && align > 0 && align == (if l.align < NODE_ALIGN then NODE_ALIGN else l.align)
    && size >= l.size && size >= NODE_SIZE
    && (l.size == 0 ==> size == NODE_SIZE)
    && (l.size > 0 ==> size % align == 0)
    && (size > NODE_SIZE ==> size < l.size + align)
  }

  /** The adjusted request is that one and no other: a block is never larger than it must be. */
  lemma SizeAlignExactly(l: Layout, size: nat, align: nat)
    requires ValidLayout(l)
    ensures SizeAlign(l) == (size, align) <==> IsRequest(l, size, align)
  {
    var (s, a) := SizeAlign(l);
    SizeAlignFits(l);
    AlignUpRounds(l.size, a);
    NodeInAligns(AlignUp(l.size, a), a);
    assert IsRequest(l, s, a);
    if IsRequest(l, size, align) {
      OneRequest(l, s, size, align);
    }
  }

  lemma OneRequest(l: Layout, s: nat, t: nat, align: nat)
    requires IsRequest(l, s, align) && IsRequest(l, t, align)
    ensures s == t
  {
    if l.size > 0 && s < t {
      MultiplesApart(s, t, align);
    } else if l.size > 0 && t < s {
      MultiplesApart(t, s, align);
    }
  }

  lemma MultiplesApart(s: nat, t: nat, align: nat)
    requires align > 0 && s % align == 0 && t % align == 0 && s < t
    ensures s + align <= t
  {
    var p, q := s / align, t / align;
    assert s == align * p && t == align * q;
    if q <= p {
      MulLe(align, q, p);
    }
    MulLe(align, p + 1, q);
  }

  /** Whole alignments short of a node make up none, or half a node. */
  lemma NodeInAligns(size: nat, align: nat)
    requires IsAlign(align) && align % NODE_ALIGN == 0 && align > 0 && size % align == 0
    ensures size < NODE_SIZE && size > 0 ==> NODE_SIZE % align == 0
  {
    if 0 < size < NODE_SIZE {
      MultiplesApart(0, size, align);
    }
  }

  lemma RequestAligned(l: Layout, p: nat, align: nat)
    requires ValidLayout(l) && SizeAlign(l).1 == align && p % align == 0
    ensures p % l.align == 0
  {
    SizeAlignFits(l);
    var n: nat :| n <= 62 && l.align == Pow2(n);
    SmallAlign(n);
    if n < 3 {
      assert Pow2(0) == 1 && Pow2(1) == 2 && Pow2(2) == 4;
      MultipleOfMultiple(p, 8, l.align);
    }
  }

  lemma SizeRounds(size: nat, align: nat)
    requires IsAlign(align) && align % NODE_ALIGN == 0 && size + align < ADDRESS_LIMIT && 0 < align <= WORD
    ensures var s := AlignUp(size, align); size <= s < ADDRESS_LIMIT && s % NODE_ALIGN == 0
  {
    AlignUpRounds(size, align);
    MultipleOfMultiple(AlignUp(size, align), align, NODE_ALIGN);
  }

  lemma MultipleOfMultiple(x: nat, a: nat, b: nat)
    requires a > 0 && b > 0 && x % a == 0 && a % b == 0
    ensures x % b == 0
  {
    var p, q := x / a, a / b;
    assert x == a * p && a == b * q;
    assert x == b * (q * p);
    DivUnique(x, b, q * p, 0);
  }

  // ------------------------------------------------------------ the fit test

  /** Where a request lands in a hole, if it fits and leaves nothing too small for a node. */
  function AllocateFrom(h: Hole, size: nat, align: nat): Option<nat>
    requires 0 < align <= WORD
  {
    var start := AlignUp(h.start, align);
    if start + size >= WORD || start + size > h.End() then None
    else
      var excess := h.End() - (start + size);
      if 0 < excess < NODE_SIZE then None else Some(start)
  }

  // ------------------------------------------------------------ nodes in memory

  datatype ListNode = ListNode(size: nat, next: Option<nat>)

  function LinkTo(holes: seq<Hole>, i: nat): Option<nat>
  {
    if i < |holes| then Some(holes[i].start) else None
  }

  predicate NodeAt(nodes: map<nat, ListNode>, holes: seq<Hole>, i: nat)
    requires i < |holes|
  {
    holes[i].start in nodes && nodes[holes[i].start] == ListNode(holes[i].size, LinkTo(holes, i + 1))
  }

  /** The chain of nodes from `head` spells the list: each node lies at its hole. */
  ghost predicate Linked(nodes: map<nat, ListNode>, head: Option<nat>, holes: seq<Hole>)
  {
    head == LinkTo(holes, 0) && forall i: nat | i < |holes| :: NodeAt(nodes, holes, i)
  }

  lemma StartsApart(holes: seq<Hole>, i: nat, j: nat)
    requires Canonical(holes) && i < |holes| && j < |holes| && i != j
    ensures holes[i].start != holes[j].start
  {
    assert i < j ==> holes[i].End() < holes[j].start;
    assert j < i ==> holes[j].End() < holes[i].start;
  }

  /** The node of hole `i` after its neighbours may have changed: only the node before the
      redirected link is written. */
  lemma NodeKept(nodes: map<nat, ListNode>, nodes': map<nat, ListNode>, holes: seq<Hole>, holes': seq<Hole>,
                 i: nat, j: nat)
    requires i < |holes| && j < |holes'| && NodeAt(nodes, holes, i) && holes'[j] == holes[i]
    requires holes[i].start in nodes' && nodes'[holes[i].start] == nodes[holes[i].start]
    requires LinkTo(holes', j + 1) == LinkTo(holes, i + 1)
    ensures NodeAt(nodes', holes', j)
  {
  }

  /** Hole `h` replaces the holes from `lo` to `hi`; the link before it is redirected. */
  lemma LinkedSplice(nodes: map<nat, ListNode>, head: Option<nat>, holes: seq<Hole>, lo: nat, h: Hole, hi: nat,
                     nodes': map<nat, ListNode>, head': Option<nat>)
    requires Linked(nodes, head, holes) && Canonical(holes) && lo <= hi <= |holes|
    requires forall i: nat | i < lo || hi <= i < |holes| :: holes[i].start != h.start
    requires h.start in nodes' && nodes'[h.start] == ListNode(h.size, LinkTo(holes, hi))
    requires lo > 0 ==> holes[lo - 1].start in nodes' && nodes'[holes[lo - 1].start] == ListNode(holes[lo - 1].size, Some(h.start))
    requires head' == if lo == 0 then Some(h.start) else head
    requires forall a | a in nodes && a != h.start && (lo > 0 ==> a != holes[lo - 1].start) :: a in nodes' && nodes'[a] == nodes[a]
    ensures Linked(nodes', head', holes[..lo] + [h] + holes[hi..])
  {
    var holes' := holes[..lo] + [h] + holes[hi..];
    forall j: nat | j < |holes'|
      ensures NodeAt(nodes', holes', j)
    {
      if j + 1 < lo {
        StartsApart(holes, j, lo - 1);
        assert NodeAt(nodes, holes, j);
        NodeKept(nodes, nodes', holes, holes', j, j);
      } else if j > lo {
        var i := hi + j - lo - 1;
        if lo > 0 {
          StartsApart(holes, i, lo - 1);
        }
        assert NodeAt(nodes, holes, i);
        NodeKept(nodes, nodes', holes, holes', i, j);
      }
    }
  }

  /** Hole `k` leaves the chain; the link before it is redirected to the hole after it. */
  lemma LinkedRemove(nodes: map<nat, ListNode>, head: Option<nat>, holes: seq<Hole>, k: nat,
                     nodes': map<nat, ListNode>, head': Option<nat>)
    requires Linked(nodes, head, holes) && Canonical(holes) && k < |holes|
    requires head' == if k == 0 then LinkTo(holes, 1) else head
    requires nodes' == if k == 0 then nodes
                       else nodes[holes[k - 1].start := ListNode(holes[k - 1].size, LinkTo(holes, k + 1))]
    ensures Linked(nodes', head', RemoveAt(holes, k))
  {
    var holes' := RemoveAt(holes, k);
    forall j: nat | j < |holes'|
      ensures NodeAt(nodes', holes', j)
    {
      var i := if j < k then j else j + 1;
      assert NodeAt(nodes, holes, i);
      if j + 1 != k {
        if k > 0 {
          StartsApart(holes, i, k - 1);
        }
        NodeKept(nodes, nodes', holes, holes', i, j);
      }
    }
  }

  // ------------------------------------------------------------ blocks in use

  function SaturatingAdd(a: nat, b: nat): nat
  {
    if a + b < WORD then a + b else WORD - 1
  }

  function SaturatingSub(a: nat, b: nat): nat
  {
    if b <= a then a - b else 0
  }

  function RemoveAt<T>(s: seq<T>, i: nat): seq<T>
    requires i < |s|
  {
    s[..i] + s[i + 1..]
  }

  datatype Block = Block(start: nat, size: nat, align: nat)
  {
    function End(): nat { start + size }
    predicate Covers(x: nat) { start <= x < End() }
  }

  function Total(blocks: seq<Block>): nat
  {
    if blocks == [] then 0 else blocks[0].size + Total(blocks[1..])
  }

  lemma {:induction false} TotalConcat(a: seq<Block>, b: seq<Block>)
    ensures Total(a + b) == Total(a) + Total(b)
  {
    if a == [] {
      assert a + b == b;
    } else {
      assert (a + b)[1..] == a[1..] + b;
      TotalConcat(a[1..], b);
    }
  }

  ghost predicate GoodBlock(b: Block, heapStart: nat, heapEnd: nat)
  {
    && b.size >= NODE_SIZE && b.start % NODE_ALIGN == 0
    && b.align > 0 && b.start % b.align == 0
    && heapStart <= b.start && b.End() <= heapEnd
  }

  /** Live blocks are aligned, inside the heap, pairwise disjoint and disjoint from every hole. */
  ghost predicate LiveBlocks(live: seq<Block>, holes: seq<Hole>, heapStart: nat, heapEnd: nat)
  {
    && (forall i | 0 <= i < |live| :: GoodBlock(live[i], heapStart, heapEnd))
    && (forall i, x: nat | 0 <= i < |live| && live[i].Covers(x) :: !Free(holes, x))
    && (forall i, j, x: nat | 0 <= i < j < |live| && live[i].Covers(x) :: !live[j].Covers(x))
  }

  /** Every byte of the heap is free, in a live block or lost, and the counters say so. */
  ghost predicate Accounted(holes: seq<Hole>, live: seq<Block>, lost: nat, heapStart: nat, heapSize: nat, allocatedBytes: nat)
  {
    && Within(holes, heapStart, heapStart + heapSize) && heapStart + heapSize <= ADDRESS_LIMIT
    && LiveBlocks(live, holes, heapStart, heapStart + heapSize)
    && allocatedBytes == Total(live)
    && Sum(holes) + Total(live) + lost == heapSize
  }

  // ------------------------------------------------------------ where nodes are written

  function NodeOf(nodes: map<nat, ListNode>, a: nat): Option<ListNode>
  {
    if a in nodes then Some(nodes[a]) else None
  }

  /** A node at `a` lies in free bytes. */
  ghost predicate NodeFree(holes: seq<Hole>, a: nat)
  {
    forall x: nat | a <= x < a + NODE_SIZE :: Free(holes, x)
  }

  /** Every node that was written lies in free bytes. */
  ghost predicate WritesInHoles(nodes: map<nat, ListNode>, nodes': map<nat, ListNode>, holes: seq<Hole>)
  {
    forall a: nat | NodeOf(nodes', a) != NodeOf(nodes, a) :: NodeFree(holes, a)
  }

  ghost predicate IsStart(holes: seq<Hole>, a: nat)
  {
    exists i: nat | i < |holes| :: holes[i].start == a
  }

  /** Every node that was written is the node of a hole. */
  ghost predicate WritesAtStarts(nodes: map<nat, ListNode>, nodes': map<nat, ListNode>, holes: seq<Hole>)
  {
    forall a: nat | NodeOf(nodes', a) != NodeOf(nodes, a) :: IsStart(holes, a)
  }

  /** A hole is large enough for its node. */
  lemma StartsHoldNodes(nodes: map<nat, ListNode>, nodes': map<nat, ListNode>, holes: seq<Hole>)
    requires Canonical(holes) && WritesAtStarts(nodes, nodes', holes)
    ensures WritesInHoles(nodes, nodes', holes)
  {
    forall a: nat, x: nat | NodeOf(nodes', a) != NodeOf(nodes, a) && a <= x < a + NODE_SIZE
      ensures Free(holes, x)
    {
      assert IsStart(holes, a);
      var i: nat :| i < |holes| && holes[i].start == a;
      assert holes[i].Covers(x);
    }
  }

  lemma WritesCompose(a: map<nat, ListNode>, b: map<nat, ListNode>, c: map<nat, ListNode>, holes: seq<Hole>, holes': seq<Hole>)
    requires WritesInHoles(a, b, holes) && WritesInHoles(b, c, holes')
    requires forall x: nat | Free(holes, x) :: Free(holes', x)
    ensures WritesInHoles(a, c, holes')
  {
    forall n: nat | NodeOf(c, n) != NodeOf(a, n)
      ensures NodeFree(holes', n)
    {
      assert NodeOf(b, n) != NodeOf(a, n) || NodeOf(c, n) != NodeOf(b, n);
    }
  }

  /** So no write reaches a live block. */
  lemma WritesMissLive(nodes: map<nat, ListNode>, nodes': map<nat, ListNode>, holes: seq<Hole>, live: seq<Block>,
                       from: nat, to: nat, i: nat, a: nat, x: nat)
    requires WritesInHoles(nodes, nodes', holes) && LiveBlocks(live, holes, from, to)
    requires i < |live| && NodeOf(nodes', a) != NodeOf(nodes, a) && a <= x < a + NODE_SIZE
    ensures !live[i].Covers(x)
  {
    assert NodeFree(holes, a);
    assert Free(holes, x);
  }

  class LinkedListAllocator {
    var nodes: map<nat, ListNode>
    var head: Option<nat>
    var heapSize: nat
    var allocatedBytes: nat
    ghost var holes: seq<Hole>
    ghost var live: seq<Block>
    ghost var heapStart: nat
    ghost var lost: nat // front padding skipped so far

    ghost predicate ListValid()
      reads this
    {
      Linked(nodes, head, holes) && Canonical(holes)
    }

    ghost predicate Valid()
      reads this
    {
      ListValid() && Accounted(holes, live, lost, heapStart, heapSize, allocatedBytes)
    }

    /** Gives a range back: walks to its place by address, then merges right and left. */
    method AddFreeRegion(address: nat, size: nat)
      requires ListValid() && Disjoint(holes, address, size)
      requires size >= NODE_SIZE && address % NODE_ALIGN == 0
      modifies this`nodes, this`head, this`holes
      ensures ListValid()
      ensures Sum(holes) == Sum(old(holes)) + size
      ensures forall x: nat :: Free(holes, x) <==> Free(old(holes), x) || address <= x < address + size
      ensures WritesInHoles(old(nodes), nodes, holes)
    {
      var prev: Option<nat> := None;
      var next := head;
      ghost var k: nat := 0;
      while next.Some? && next.value <= address
        invariant k <= |holes| && next == LinkTo(holes, k)
        invariant prev == if k == 0 then None else Some(holes[k - 1].start)
        invariant forall i | 0 <= i < k :: holes[i].start <= address
        decreases |holes| - k
      {
        assert NodeAt(nodes, holes, k);
        prev := next;
        next := nodes[next.value].next;
        k := k + 1;
      }
      Neighbours(holes, k, address, size);
      InsertFrees(holes, k, address, size);
      LinkIn(prev, next, address, size, k);
      holes := Insert(holes, k, address, size);
      StartsHoldNodes(old(nodes), nodes, holes);
    }

    /** Writes the node of the merged hole and the link to it. */
    method LinkIn(prev: Option<nat>, right: Option<nat>, address: nat, size: nat, ghost k: nat)
      requires ListValid() && k <= |holes|
      requires right == LinkTo(holes, k) && prev == if k == 0 then None else Some(holes[k - 1].start)
      requires k > 0 ==> holes[k - 1].End() <= address
      requires k < |holes| ==> address + size <= holes[k].start
      requires size > 0
      modifies this`nodes, this`head
      ensures Linked(nodes, head, Insert(holes, k, address, size))
      ensures WritesAtStarts(old(nodes), nodes, Insert(holes, k, address, size))
    {
      var size', next := AbsorbRight(right, address, size, k);
      ghost var hi := if TouchesRight(holes, k, address, size) then k + 1 else k;
      assert k > 0 ==> NodeAt(nodes, holes, k - 1);
      if prev.Some? && prev.value + nodes[prev.value].size == address {
        InsertTouching(holes, k, address, size, size', hi);
        GrowNode(prev.value, size', next, k - 1, hi);
      } else {
        InsertApart(holes, k, address, size, size', hi);
        ApartFromAll(holes, k, address, size);
        NewNode(prev, address, size', next, k, hi);
      }
    }

    /** The size and link of the new node: those of the range, or of it and the hole it touches. */
    method AbsorbRight(right: Option<nat>, address: nat, size: nat, ghost k: nat) returns (size': nat, next: Option<nat>)
      requires ListValid() && k <= |holes| && right == LinkTo(holes, k)
      ensures TouchesRight(holes, k, address, size) ==> size' == size + holes[k].size && next == LinkTo(holes, k + 1)
      ensures !TouchesRight(holes, k, address, size) ==> size' == size && next == right
    {
      size', next := size, right;
      if next.Some? && address + size' == next.value {
        assert NodeAt(nodes, holes, k);
        size' := size' + nodes[next.value].size;
        next := nodes[next.value].next;
      }
    }

    /** The node of hole `i` grows and links to hole `hi`. */
    method GrowNode(at: nat, size: nat, next: Option<nat>, ghost i: nat, ghost hi: nat)
      requires ListValid() && i < hi <= |holes| && at == holes[i].start && next == LinkTo(holes, hi)
      modifies this`nodes
      ensures Linked(nodes, head, holes[..i] + [Hole(at, holes[i].size + size)] + holes[hi..])
      ensures WritesAtStarts(old(nodes), nodes, holes[..i] + [Hole(at, holes[i].size + size)] + holes[hi..])
    {
      assert NodeAt(nodes, holes, i);
      GrownNode(nodes, head, holes, i, hi, Hole(at, holes[i].size + size));
      nodes := nodes[at := ListNode(nodes[at].size + size, next)];
    }

    /** A node at `address` links to hole `hi`, and the node before it (or the list head) to it. */
    method NewNode(prev: Option<nat>, address: nat, size: nat, next: Option<nat>, ghost k: nat, ghost hi: nat)
      requires ListValid() && k <= hi <= |holes| && next == LinkTo(holes, hi)
      requires prev == if k == 0 then None else Some(holes[k - 1].start)
      requires forall i: nat | i < |holes| :: holes[i].start != address
      modifies this`nodes, this`head
      ensures Linked(nodes, head, holes[..k] + [Hole(address, size)] + holes[hi..])
      ensures WritesAtStarts(old(nodes), nodes, holes[..k] + [Hole(address, size)] + holes[hi..])
    {
      ghost var before, first := nodes, head;
      assert k > 0 ==> NodeAt(nodes, holes, k - 1);
      nodes := nodes[address := ListNode(size, next)];
      if prev.Some? {
        nodes := nodes[prev.value := nodes[prev.value].(next := Some(address))];
      } else {
        head := Some(address);
      }
      LinkedSplice(before, first, holes, k, Hole(address, size), hi, nodes, head);
      SpliceStarts(holes, k, Hole(address, size), hi);
    }

    /** The allocator over `size` bytes from `start`: the heap begins as one hole. */
    constructor (start: nat, size: nat)
      requires size >= NODE_SIZE && start % NODE_ALIGN == 0 && start + size <= ADDRESS_LIMIT
      ensures Valid() && holes == [Hole(start, size)] && live == [] && lost == 0
      ensures heapStart == start && heapSize == size
    {
      nodes, head := map[], None;
      heapSize, allocatedBytes := size, 0;
      holes, live, heapStart, lost := [], [], start, 0;
      new;
      AddFreeRegion(start, size);
      WholeHeap(holes, start, size);
    }

    /** First fit: unlinks the first hole the request fits in. */
    method FindRegion(size: nat, align: nat) returns (r: Option<(Hole, nat)>)
      requires ListValid() && 0 < align <= WORD
      modifies this`nodes, this`head, this`holes
      ensures ListValid()
      ensures r.None? ==> holes == old(holes) && forall h | h in holes :: AllocateFrom(h, size, align) == None
      ensures r.Some? ==> exists k: nat :: FoundAt(old(holes), holes, size, align, r.value.0, r.value.1, k)
      ensures WritesInHoles(old(nodes), nodes, holes)
    {
      var prev: Option<nat> := None;
      var current := head;
      ghost var k: nat := 0;
      while current.Some?
        invariant k <= |holes| && current == LinkTo(holes, k)
        invariant prev == if k == 0 then None else Some(holes[k - 1].start)
        invariant forall i | 0 <= i < k :: AllocateFrom(holes[i], size, align) == None
        decreases |holes| - k
      {
        assert NodeAt(nodes, holes, k);
        var region := Hole(current.value, nodes[current.value].size);
        var start := AllocateFrom(region, size, align);
        if start.Some? {
          assert FirstFit(holes, size, align, k);
          Unlink(prev, nodes[current.value].next, k);
          assert FoundAt(old(holes), holes, size, align, region, start.value, k);
          return Some((region, start.value));
        }
        prev := current;
        current := nodes[current.value].next;
        k := k + 1;
      }
      r := None;
    }

    method Unlink(prev: Option<nat>, next: Option<nat>, ghost k: nat)
      requires ListValid() && k < |holes| && next == LinkTo(holes, k + 1)
      requires prev == if k == 0 then None else Some(holes[k - 1].start)
      modifies this`nodes, this`head, this`holes
      ensures ListValid() && holes == RemoveAt(old(holes), k)
      ensures WritesInHoles(old(nodes), nodes, holes)
    {
      ghost var before, first := nodes, head;
      if prev.Some? {
        assert NodeAt(nodes, holes, k - 1);
        nodes := nodes[prev.value := nodes[prev.value].(next := next)];
      } else {
        head := next;
      }
      LinkedRemove(before, first, holes, k, nodes, head);
      assert k > 0 ==> RemoveAt(holes, k)[k - 1] == holes[k - 1];
      holes := RemoveAt(holes, k);
      StartsHoldNodes(before, nodes, holes);
    }

    /** Serves a request from the first hole it fits in. The tail of the hole goes back to the
        list; the padding in front of an over-aligned block does not. */
    method AllocateLayout(layout: Layout) returns (r: Option<nat>)
      requires Valid() && ValidLayout(layout)
      modifies this
      ensures Valid() && heapStart == old(heapStart) && heapSize == old(heapSize)
      ensures match r
              case None => Refused(old(holes), SizeAlign(layout)) && holes == old(holes) && live == old(live) && lost == old(lost)
              case Some(p) =>
                && Served(old(holes), holes, SizeAlign(layout), p, lost - old(lost))
                && live == old(live) + [RequestBlock(layout, p)]
                && IsRequest(layout, live[|old(live)|].size, live[|old(live)|].align) && p % layout.align == 0
                && allocatedBytes == old(allocatedBytes) + live[|old(live)|].size
      ensures layout.align <= NODE_ALIGN ==> lost == old(lost)
      ensures WritesInHoles(old(nodes), nodes, holes)
    {
      SizeAlignFits(layout);
      var (size, align) := SizeAlign(layout);
      r := AllocateSized(size, align);
      SizeAlignExactly(layout, size, align);
      if r.Some? {
        TotalConcat(old(live), [RequestBlock(layout, r.value)]);
        assert GoodBlock(live[|old(live)|], heapStart, heapStart + heapSize);
        RequestAligned(layout, r.value, align);
      }
    }

    method AllocateSized(size: nat, align: nat) returns (r: Option<nat>)
      requires Valid() && 0 < align <= WORD && IsAlign(align) && align % NODE_ALIGN == 0
      requires NODE_SIZE <= size && size % NODE_ALIGN == 0
      modifies this
      ensures Valid() && heapStart == old(heapStart) && heapSize == old(heapSize)
      ensures match r
              case None => Refused(old(holes), (size, align)) && holes == old(holes) && live == old(live) && lost == old(lost)
              case Some(p) =>
                && Served(old(holes), holes, (size, align), p, lost - old(lost))
                && live == old(live) + [Block(p, size, align)]
      ensures align == NODE_ALIGN ==> lost == old(lost)
      ensures WritesInHoles(old(nodes), nodes, holes)
    {
      var found := FindRegion(size, align);
      if found.None? {
        NoneServes(holes, size, align, heapStart + heapSize);
        return None;
      }
      var (region, start) := found.value;
      ghost var k: nat :| FoundAt(old(holes), holes, size, align, region, start, k);
      TakeFound(region, start, size, align, old(holes), k, old(nodes));
      r := Some(start);
    }

    /** Turns the hole just found and unlinked into a live block. */
    method TakeFound(region: Hole, start: nat, size: nat, align: nat, ghost before: seq<Hole>, ghost k: nat,
                     ghost first: map<nat, ListNode>)
      requires ListValid() && Canonical(before) && Accounted(before, live, lost, heapStart, heapSize, allocatedBytes)
      requires 0 < align <= WORD && IsAlign(align) && align % NODE_ALIGN == 0
      requires NODE_SIZE <= size && size % NODE_ALIGN == 0
      requires FoundAt(before, holes, size, align, region, start, k) && WritesInHoles(first, nodes, holes)
      modifies this
      ensures Valid() && heapStart == old(heapStart) && heapSize == old(heapSize)
      ensures Served(before, holes, (size, align), start, lost - old(lost))
      ensures live == old(live) + [Block(start, size, align)]
      ensures align == NODE_ALIGN ==> lost == old(lost)
      ensures WritesInHoles(first, nodes, holes)
    {
      ghost var unlinked, rest := nodes, holes;
      FitsInside(region, size, align);
      FirstServes(before, size, align, heapStart + heapSize, k);
      Carve(region, Block(start, size, align), before, k);
      BothWrites(first, unlinked, nodes, before, rest, holes, k, start + size);
      assert ServedAt(before, holes, size, align, start, start - region.start, k);
    }

    /** Takes a block out of the unlinked hole `region`. */
    method Carve(region: Hole, b: Block, ghost before: seq<Hole>, ghost k: nat)
      requires ListValid() && Canonical(before) && k < |before| && before[k] == region && holes == RemoveAt(before, k)
      requires Accounted(before, live, lost, heapStart, heapSize, allocatedBytes)
      requires b.size >= NODE_SIZE && b.align > 0 && Fits(region, b.size, b.align, b.start)
      modifies this
      ensures Valid() && heapStart == old(heapStart) && heapSize == old(heapSize)
      ensures TakenFrom(before, holes, region, b.End())
      ensures live == old(live) + [b] && lost == old(lost) + (b.start - region.start)
      ensures WritesInHoles(old(nodes), nodes, holes)
    {
      ReturnTail(region, b.End(), before, k);
      BlockAccounted(before, holes, live, lost, heapStart, heapSize, allocatedBytes, k, b);
      allocatedBytes := SaturatingAdd(allocatedBytes, b.size);
      live := live + [b];
      lost := lost + (b.start - region.start);
    }

    /** What is left of a hole behind `end` goes back to the list. */
    method ReturnTail(region: Hole, end: nat, ghost before: seq<Hole>, ghost k: nat)
      requires ListValid() && Canonical(before) && k < |before| && before[k] == region
      requires holes == RemoveAt(before, k)
      requires region.start <= end <= region.End() && end % NODE_ALIGN == 0
      requires region.End() == end || region.End() - end >= NODE_SIZE
      modifies this`nodes, this`head, this`holes
      ensures ListValid()
      ensures TakenFrom(before, holes, region, end)
      ensures Sum(holes) == Sum(before) - (end - region.start)
      ensures WritesInHoles(old(nodes), nodes, holes)
    {
      RemoveHole(before, k);
      var excess := region.End() - end;
      if excess > 0 {
        AddFreeRegion(end, excess);
      }
      forall x: nat
        ensures Free(holes, x) <==> Free(before, x) && !(region.start <= x < end)
      {
        assert before[k].Covers(x) ==> Free(before, x);
      }
    }

    /** Gives a live block back; it merges with the free bytes around it. */
    method DeallocateLayout(p: nat, layout: Layout)
      requires Valid() && ValidLayout(layout) && RequestBlock(layout, p) in live
      modifies this
      ensures Valid() && heapStart == old(heapStart) && heapSize == old(heapSize) && lost == old(lost)
      ensures Freed(old(holes), holes, RequestBlock(layout, p))
      ensures LeavesOne(old(live), live, RequestBlock(layout, p))
      ensures WritesInHoles(old(nodes), nodes, holes)
    {
      var (size, align) := SizeAlign(layout);
      Release(p, size, Block(p, size, align));
    }

    method Release(p: nat, size: nat, ghost b: Block)
      requires Valid() && b in live && b.start == p && b.size == size
      modifies this
      ensures Valid() && heapStart == old(heapStart) && heapSize == old(heapSize) && lost == old(lost)
      ensures Freed(old(holes), holes, b)
      ensures LeavesOne(old(live), live, b)
      ensures WritesInHoles(old(nodes), nodes, holes)
    {
      ghost var i :| 0 <= i < |live| && live[i] == b;
      assert GoodBlock(live[i], heapStart, heapStart + heapSize);
      ghost var rest := RemoveAt(live, i);
      LiveWithout(live, rest, holes, i, heapStart, heapStart + heapSize);
      TotalWithout(live, i);
      allocatedBytes := SaturatingSub(allocatedBytes, size);
      AddFreeRegion(p, size);
      StaysWithin(old(holes), holes, heapStart, heapStart + heapSize);
      LiveAfterFree(rest, old(holes), holes, b, heapStart, heapStart + heapSize);
      live := rest;
    }

    /** Bytes not handed out, in constant time: what the list holds plus what padding lost. */
    method FreeBytes() returns (n: nat)
      requires Valid()
      ensures n == Sum(holes) + lost && n + Total(live) == heapSize
    {
      n := SaturatingSub(heapSize, allocatedBytes);
    }

    method Used() returns (n: nat)
      requires Valid()
      ensures n == Total(live)
    {
      n := allocatedBytes;
    }

    method SumFreeBytes() returns (total: nat)
      requires ListValid()
      ensures total == Sum(holes)
    {
      total := 0;
      var current := head;
      ghost var k: nat := 0;
      while current.Some?
        invariant k <= |holes| && current == LinkTo(holes, k)
        invariant total + Sum(holes[k..]) == Sum(holes)
        decreases |holes| - k
      {
        assert NodeAt(nodes, holes, k);
        assert holes[k..][1..] == holes[k + 1..];
        total := total + nodes[current.value].size;
        current := nodes[current.value].next;
        k := k + 1;
      }
    }

    method FreeNodeCount() returns (count: nat)
      requires ListValid()
      ensures count == |holes|
    {
      count := 0;
      var current := head;
      while current.Some?
        invariant count <= |holes| && current == LinkTo(holes, count)
        decreases |holes| - count
      {
        assert NodeAt(nodes, holes, count);
        count := count + 1;
        current := nodes[current.value].next;
      }
    }

    /** Once every block is back, in whatever order, a heap that lost no padding is one hole. */
    lemma AllFreed()
      requires Valid() && live == [] && lost == 0 && heapSize > 0
      ensures holes == [Hole(heapStart, heapSize)]
    {
      SumWithin(holes, heapStart, heapStart + heapSize);
    }
  }

  /** The list after insertion, when the range touches the hole before it. */
  lemma InsertTouching(holes: seq<Hole>, k: nat, address: nat, size: nat, size': nat, hi: nat)
    requires k <= |holes| && TouchesLeft(holes, k, address)
    requires hi == if TouchesRight(holes, k, address, size) then k + 1 else k
    requires size' == if hi > k then size + holes[k].size else size
    ensures Insert(holes, k, address, size) ==
            holes[..k - 1] + [Hole(holes[k - 1].start, holes[k - 1].size + size')] + holes[hi..]
  {
  }

  lemma InsertApart(holes: seq<Hole>, k: nat, address: nat, size: nat, size': nat, hi: nat)
    requires k <= |holes| && !TouchesLeft(holes, k, address)
    requires hi == if TouchesRight(holes, k, address, size) then k + 1 else k
    requires size' == if hi > k then size + holes[k].size else size
    ensures Insert(holes, k, address, size) == holes[..k] + [Hole(address, size')] + holes[hi..]
  {
  }

  /** The hole put in and the one before it are in the list. */
  lemma SpliceStarts(holes: seq<Hole>, lo: nat, h: Hole, hi: nat)
    requires lo <= hi <= |holes|
    ensures IsStart(holes[..lo] + [h] + holes[hi..], h.start)
    ensures lo > 0 ==> IsStart(holes[..lo] + [h] + holes[hi..], holes[lo - 1].start)
  {
    var holes' := holes[..lo] + [h] + holes[hi..];
    assert holes'[lo] == h;
    assert lo > 0 ==> holes'[lo - 1] == holes[lo - 1];
  }

  lemma GrownNode(nodes: map<nat, ListNode>, head: Option<nat>, holes: seq<Hole>, i: nat, hi: nat, h: Hole)
    requires Linked(nodes, head, holes) && Canonical(holes) && i < hi <= |holes| && h.start == holes[i].start
    ensures var nodes', holes' := nodes[h.start := ListNode(h.size, LinkTo(holes, hi))], holes[..i] + [h] + holes[hi..];
            Linked(nodes', head, holes') && WritesAtStarts(nodes, nodes', holes')
  {
    var nodes' := nodes[h.start := ListNode(h.size, LinkTo(holes, hi))];
    if i > 0 {
      assert NodeAt(nodes, holes, i - 1);
      StartsApart(holes, i - 1, i);
    }
    MergedApart(holes, i, hi, h.start);
    LinkedSplice(nodes, head, holes, i, h, hi, nodes', head);
    SpliceStarts(holes, i, h, hi);
  }

  lemma MergedApart(holes: seq<Hole>, lo: nat, hi: nat, start: nat)
    requires Canonical(holes) && lo < hi <= |holes| && start == holes[lo].start
    ensures forall i: nat | i < lo || hi <= i < |holes| :: holes[i].start != start
  {
    forall i: nat | i < lo || hi <= i < |holes|
      ensures holes[i].start != start
    {
      StartsApart(holes, i, lo);
    }
  }

  lemma ApartFromAll(holes: seq<Hole>, k: nat, address: nat, size: nat)
    requires Canonical(holes) && k <= |holes| && size > 0
    requires k > 0 ==> holes[k - 1].End() <= address
    requires k < |holes| ==> address + size <= holes[k].start
    ensures forall i: nat | i < |holes| :: holes[i].start != address
  {
    forall i: nat | i < |holes|
      ensures holes[i].start != address
    {
      if i < k - 1 {
        assert holes[i].End() < holes[k - 1].start;
      } else if i > k {
        assert holes[k].End() < holes[i].start;
      }
    }
  }

  lemma WholeHeap(holes: seq<Hole>, start: nat, size: nat)
    requires Canonical(holes) && size >= NODE_SIZE && start % NODE_ALIGN == 0
    requires forall x: nat :: Free(holes, x) <==> start <= x < start + size
    ensures holes == [Hole(start, size)]
  {
    SingleHole([Hole(start, size)]);
    CanonicalUnique(holes, [Hole(start, size)]);
  }

  /** `p` is an aligned place for the request inside the hole. */
  predicate IsRoom(h: Hole, size: nat, align: nat, p: nat)
    requires align > 0
  {
    h.start <= p && p % align == 0 && p + size <= h.End()
  }

  ghost predicate HasRoom(h: Hole, size: nat, align: nat)
    requires align > 0
  {
    exists p: nat :: IsRoom(h, size, align, p)
  }

  /** The first aligned place would leave a tail too small for a node. */
  predicate ShortTail(h: Hole, size: nat, align: nat)
    requires 0 < align <= WORD
  {
    0 < h.End() - (AlignUp(h.start, align) + size) < NODE_SIZE
  }

  /** Why a hole does not serve a request: it has no aligned room, or its tail would be lost. */
  ghost predicate Refuses(h: Hole, size: nat, align: nat)
    requires 0 < align <= WORD
  {
    !HasRoom(h, size, align) || ShortTail(h, size, align)
  }

  lemma RefusesExactly(h: Hole, size: nat, align: nat)
    requires 0 < align <= WORD && IsAlign(align) && h.start < ADDRESS_LIMIT && h.End() <= ADDRESS_LIMIT
    ensures AllocateFrom(h, size, align) == None <==> Refuses(h, size, align)
    ensures AllocateFrom(h, size, align).Some? ==> FirstRoom(h, size, align, AllocateFrom(h, size, align).value)
  {
    AlignUpRounds(h.start, align);
    var start := AlignUp(h.start, align);
    forall p: nat | IsRoom(h, size, align, p)
      ensures start <= p
    {
      NoMultipleBetween(start, p, align);
    }
    assert start + size <= h.End() ==> IsRoom(h, size, align, start);
  }

  /** The lowest aligned place in the hole. */
  ghost predicate FirstRoom(h: Hole, size: nat, align: nat, p: nat)
    requires align > 0
  {
    IsRoom(h, size, align, p) && forall q: nat | IsRoom(h, size, align, q) :: p <= q
  }

  lemma NoMultipleBetween(a: nat, p: nat, align: nat)
    requires align > 0 && a % align == 0 && p % align == 0 && a < p + align
    ensures a <= p
  {
    var i, j := a / align, p / align;
    assert a == align * i && p == align * j;
    if p < a {
      MulLe(align, j + 1, i);
    }
  }

  /** Holes with room are refused too: 24 bytes for a request of 16. */
  lemma RefusesForTail(h: Hole)
    requires h == Hole(0, 24)
    ensures HasRoom(h, 16, 8) && ShortTail(h, 16, 8) && AllocateFrom(h, 16, 8) == None
  {
    AlignPowers();
    AlignUpRounds(0, 8);
    assert IsRoom(h, 16, 8, 0);
  }

  /** Hole `k` is the first that does not refuse. */
  ghost predicate FirstFit(holes: seq<Hole>, size: nat, align: nat, k: nat)
    requires 0 < align <= WORD && k < |holes|
  {
    AllocateFrom(holes[k], size, align).Some? && forall i | 0 <= i < k :: AllocateFrom(holes[i], size, align) == None
  }

  /** `region` was the first hole that fits, the request lands at `start`, and it is unlinked. */
  ghost predicate FoundAt(holes: seq<Hole>, holes': seq<Hole>, size: nat, align: nat, region: Hole, start: nat, k: nat)
    requires 0 < align <= WORD
  {
    && k < |holes| && FirstFit(holes, size, align, k)
    && region == holes[k] && AllocateFrom(region, size, align) == Some(start)
    && holes' == RemoveAt(holes, k)
  }

  function RequestBlock(l: Layout, p: nat): Block
    requires 0 < l.align <= WORD
  {
    Block(p, SizeAlign(l).0, SizeAlign(l).1)
  }

  /** Every hole has no aligned room for the request, or would be left with too small a tail. */
  ghost predicate Refused(holes: seq<Hole>, request: (nat, nat))
    requires 0 < request.1 <= WORD
  {
    forall h | h in holes :: Refuses(h, request.0, request.1)
  }

  lemma NoneServes(holes: seq<Hole>, size: nat, align: nat, to: nat)
    requires 0 < align <= WORD && IsAlign(align) && Canonical(holes) && Within(holes, 0, to) && to <= ADDRESS_LIMIT
    requires forall h | h in holes :: AllocateFrom(h, size, align) == None
    ensures Refused(holes, (size, align))
  {
    forall h | h in holes
      ensures Refuses(h, size, align)
    {
      var i :| 0 <= i < |holes| && holes[i] == h;
      RefusesExactly(h, size, align);
    }
  }

  /** The holes before the first that serves all refuse, and the block goes to its first room. */
  lemma FirstServes(holes: seq<Hole>, size: nat, align: nat, to: nat, k: nat)
    requires 0 < align <= WORD && IsAlign(align) && Canonical(holes) && Within(holes, 0, to) && to <= ADDRESS_LIMIT
    requires k < |holes| && FirstFit(holes, size, align, k)
    ensures !Refuses(holes[k], size, align) && forall i | 0 <= i < k :: Refuses(holes[i], size, align)
    ensures FirstRoom(holes[k], size, align, AllocateFrom(holes[k], size, align).value)
  {
    forall i | 0 <= i <= k
      ensures AllocateFrom(holes[i], size, align) == None <==> Refuses(holes[i], size, align)
    {
      RefusesExactly(holes[i], size, align);
    }
    RefusesExactly(holes[k], size, align);
  }

  /** The bytes of `region` up to `end` have left the list, and nothing else. */
  ghost predicate TakenFrom(holes: seq<Hole>, holes': seq<Hole>, region: Hole, end: nat)
  {
    forall x: nat :: Free(holes', x) <==> Free(holes, x) && !(region.start <= x < end)
  }

  ghost predicate ServedAt(holes: seq<Hole>, holes': seq<Hole>, size: nat, align: nat, p: nat, padding: int, k: nat)
    requires 0 < align <= WORD && k < |holes|
  {
    && !Refuses(holes[k], size, align) && (forall i | 0 <= i < k :: Refuses(holes[i], size, align))
    && FirstRoom(holes[k], size, align, p)
    && padding == p - holes[k].start
    && TakenFrom(holes, holes', holes[k], p + size)
  }

  /** The first hole that does not refuse has given up its first room, at `p`, and the padding
      before it. */
  ghost predicate Served(holes: seq<Hole>, holes': seq<Hole>, request: (nat, nat), p: nat, padding: int)
    requires 0 < request.1 <= WORD
  {
    exists k: nat | k < |holes| :: ServedAt(holes, holes', request.0, request.1, p, padding, k)
  }

  lemma FitsInside(h: Hole, size: nat, align: nat)
    requires GoodHole(h) && h.start < ADDRESS_LIMIT && IsAlign(align) && align % NODE_ALIGN == 0 && size % NODE_ALIGN == 0
    ensures 0 < align <= WORD
    ensures AllocateFrom(h, size, align).Some? ==> Fits(h, size, align, AllocateFrom(h, size, align).value)
  {
    AlignUpRounds(h.start, align);
    var start := AlignUp(h.start, align);
    MultipleOfMultiple(start, align, NODE_ALIGN);
    if AllocateFrom(h, size, align).Some? {
      FitsAt(h, size, align, start);
    }
  }

  lemma FitsAt(h: Hole, size: nat, align: nat, start: nat)
    requires GoodHole(h) && size % NODE_ALIGN == 0 && align > 0
    requires start % align == 0 && start % NODE_ALIGN == 0 && h.start <= start < h.start + align
    requires start + size <= h.End() && !(0 < h.End() - (start + size) < NODE_SIZE)
    ensures Fits(h, size, align, start)
  {
    Multiples(start, size);
    if align == NODE_ALIGN {
      Multiples(h.start, start - h.start);
    }
  }

  lemma Multiples(a: nat, b: nat)
    requires a % NODE_ALIGN == 0
    ensures (a + b) % NODE_ALIGN == b % NODE_ALIGN
  {
  }

  /** `start` is an aligned place in the hole that leaves no tail, or one that holds a node. */
  predicate Fits(h: Hole, size: nat, align: nat, start: nat)
    requires align > 0
  {
    && h.start <= start && start + size <= h.End()
    && start % align == 0 && start % NODE_ALIGN == 0 && (start + size) % NODE_ALIGN == 0
    && (h.End() == start + size || h.End() - (start + size) >= NODE_SIZE)
    && (align == NODE_ALIGN ==> start == h.start)
  }

  lemma RemoveHole(holes: seq<Hole>, k: nat)
    requires Canonical(holes) && k < |holes|
    ensures Sum(RemoveAt(holes, k)) == Sum(holes) - holes[k].size
    ensures forall x: nat :: Free(RemoveAt(holes, k), x) <==> Free(holes, x) && !holes[k].Covers(x)
  {
    var a, b := holes[..k], holes[k + 1..];
    assert holes == a + [holes[k]] + b;
    SumConcat(a, b);
    SumConcat(a + [holes[k]], b);
    SumConcat(a, [holes[k]]);
    forall x: nat
      ensures Free(a + b, x) <==> Free(holes, x) && !holes[k].Covers(x)
    {
      FreeConcat(a, b, x);
      SpliceFree(a, holes[k], b, x);
      if holes[k].Covers(x) {
        OthersApart(holes, k, x);
      }
    }
  }

  /** What the list held beside the unlinked hole is still free after the carving. */
  lemma RestStaysFree(before: seq<Hole>, rest: seq<Hole>, holes: seq<Hole>, k: nat, end: nat)
    requires Canonical(before) && k < |before| && rest == RemoveAt(before, k) && end <= before[k].End()
    requires TakenFrom(before, holes, before[k], end)
    ensures forall x: nat | Free(rest, x) :: Free(holes, x)
  {
    RemoveHole(before, k);
  }

  /** Unlinking the hole and giving its tail back both write in what is free at the end. */
  lemma BothWrites(a: map<nat, ListNode>, b: map<nat, ListNode>, c: map<nat, ListNode>,
                   before: seq<Hole>, rest: seq<Hole>, holes: seq<Hole>, k: nat, end: nat)
    requires Canonical(before) && k < |before| && rest == RemoveAt(before, k) && end <= before[k].End()
    requires TakenFrom(before, holes, before[k], end)
    requires WritesInHoles(a, b, rest) && WritesInHoles(b, c, holes)
    ensures WritesInHoles(a, c, holes)
  {
    RestStaysFree(before, rest, holes, k, end);
    WritesCompose(a, b, c, rest, holes);
  }

  lemma SumAtLeast(holes: seq<Hole>, k: nat)
    requires Canonical(holes) && k < |holes|
    ensures holes[k].size <= Sum(holes)
  {
    RemoveHole(holes, k);
  }

  lemma OthersApart(holes: seq<Hole>, k: nat, x: nat)
    requires Canonical(holes) && k < |holes| && holes[k].Covers(x)
    ensures !Free(holes[..k], x) && !Free(holes[k + 1..], x)
  {
  }

  /** One occurrence of `b` has left the list. */
  ghost predicate LeavesOne(live: seq<Block>, live': seq<Block>, b: Block)
  {
    exists i | 0 <= i < |live| :: live[i] == b && live' == RemoveAt(live, i)
  }

  ghost predicate Freed(holes: seq<Hole>, holes': seq<Hole>, b: Block)
  {
    forall x: nat :: Free(holes', x) <==> Free(holes, x) || b.Covers(x)
  }

  lemma FreeWithin(holes: seq<Hole>, from: nat, to: nat, x: nat)
    requires Within(holes, from, to) && Free(holes, x)
    ensures from <= x < to
  {
  }

  lemma StaysWithin(holes: seq<Hole>, holes': seq<Hole>, from: nat, to: nat)
    requires Within(holes, from, to) && Canonical(holes')
    requires forall x: nat | Free(holes', x) :: Free(holes, x) || from <= x < to
    ensures Within(holes', from, to)
  {
    forall i | 0 <= i < |holes'|
      ensures from <= holes'[i].start && holes'[i].End() <= to
    {
      var first, last := holes'[i].start, holes'[i].End() - 1;
      assert holes'[i].Covers(first) && holes'[i].Covers(last);
      assert Free(holes', first) && Free(holes', last);
      if Free(holes, first) {
        FreeWithin(holes, from, to, first);
      }
      if Free(holes, last) {
        FreeWithin(holes, from, to, last);
      }
    }
  }

  /** A block cut from a free hole is disjoint from every live block and from what stays free. */
  lemma LiveWith(live: seq<Block>, holes: seq<Hole>, holes': seq<Hole>, region: Hole, b: Block, from: nat, to: nat)
    requires LiveBlocks(live, holes, from, to) && GoodBlock(b, from, to)
    requires region in holes && region.start <= b.start && b.End() <= region.End()
    requires TakenFrom(holes, holes', region, b.End())
    ensures LiveBlocks(live + [b], holes', from, to)
  {
    forall x: nat | b.Covers(x)
      ensures Free(holes, x) && !Free(holes', x)
    {
      var k :| 0 <= k < |holes| && holes[k] == region;
      assert holes[k].Covers(x);
    }
    var live' := live + [b];
    forall i, j, x: nat | 0 <= i < j < |live'| && live'[i].Covers(x)
      ensures !live'[j].Covers(x)
    {
      assert !Free(holes, x);
    }
  }

  lemma {:induction false} TotalWithout(live: seq<Block>, i: nat)
    requires i < |live|
    ensures Total(RemoveAt(live, i)) == Total(live) - live[i].size
  {
    var a, b := live[..i], live[i + 1..];
    assert live == a + [live[i]] + b;
    TotalConcat(a + [live[i]], b);
    TotalConcat(a, [live[i]]);
    TotalConcat(a, b);
  }

  /** The block leaves the free bytes and joins the live ones; its padding is lost. */
  lemma BlockAccounted(before: seq<Hole>, holes: seq<Hole>, live: seq<Block>, lost: nat,
                       heapStart: nat, heapSize: nat, allocatedBytes: nat, k: nat, b: Block)
    requires Accounted(before, live, lost, heapStart, heapSize, allocatedBytes)
    requires Canonical(before) && Canonical(holes) && k < |before|
    requires b.size >= NODE_SIZE && b.align > 0 && Fits(before[k], b.size, b.align, b.start)
    requires TakenFrom(before, holes, before[k], b.End())
    requires Sum(holes) == Sum(before) - (b.End() - before[k].start)
    ensures allocatedBytes + b.size < ADDRESS_LIMIT + ADDRESS_LIMIT
    ensures Accounted(holes, live + [b], lost + (b.start - before[k].start), heapStart, heapSize, allocatedBytes + b.size)
  {
    var heapEnd := heapStart + heapSize;
    SumWithin(before, heapStart, heapEnd);
    SumAtLeast(before, k);
    assert GoodBlock(b, heapStart, heapEnd);
    StaysWithin(before, holes, heapStart, heapEnd);
    LiveWith(live, before, holes, before[k], b, heapStart, heapEnd);
    TotalConcat(live, [b]);
    assert Total([b]) == b.size;
  }

  lemma LiveWithout(live: seq<Block>, rest: seq<Block>, holes: seq<Hole>, i: nat, from: nat, to: nat)
    requires LiveBlocks(live, holes, from, to) && i < |live| && rest == RemoveAt(live, i)
    ensures LiveBlocks(rest, holes, from, to)
    ensures forall j, x: nat | 0 <= j < |rest| && rest[j].Covers(x) :: !live[i].Covers(x)
  {
    assert forall j | 0 <= j < |rest| :: rest[j] == live[if j < i then j else j + 1];
  }

  lemma LiveAfterFree(live: seq<Block>, holes: seq<Hole>, holes': seq<Hole>, b: Block, from: nat, to: nat)
    requires LiveBlocks(live, holes, from, to) && Freed(holes, holes', b)
    requires forall j, x: nat | 0 <= j < |live| && live[j].Covers(x) :: !b.Covers(x)
    ensures LiveBlocks(live, holes', from, to)
  {
  }

  /** Freeing a block right after allocating it without padding restores the very same list. */
  lemma FreeUndoesAllocate(holes: seq<Hole>, mid: seq<Hole>, holes': seq<Hole>, region: Hole, b: Block)
    requires Canonical(holes) && Canonical(holes') && region in holes
    requires b.start == region.start && b.End() <= region.End()
    requires TakenFrom(holes, mid, region, b.End()) && Freed(mid, holes', b)
    ensures holes' == holes
  {
    forall x: nat
      ensures Free(holes', x) <==> Free(holes, x)
    {
      if b.Covers(x) {
        var k :| 0 <= k < |holes| && holes[k] == region;
        assert holes[k].Covers(x);
      }
    }
    CanonicalUnique(holes', holes);
  }
}
