/** The free list as a sequence of holes: canonical form, insertion with coalescing, and the
    fit test of the allocator. */
module FreeLists {
  const NODE_SIZE: nat := 16
  const NODE_ALIGN: nat := 8

  datatype Hole = Hole(start: nat, size: nat)
  {
    function End(): nat { start + size }
    predicate Covers(x: nat) { start <= x < End() }
  }

  ghost predicate Free(holes: seq<Hole>, x: nat)
  {
    exists i | 0 <= i < |holes| :: holes[i].Covers(x)
  }

  predicate GoodHole(h: Hole)
  {
    h.size >= NODE_SIZE && h.start % NODE_ALIGN == 0
  }

  /** Strictly sorted by address, never overlapping or touching, every hole able to hold
      the node that describes it. */
  ghost predicate Canonical(holes: seq<Hole>)
  {
    && (forall i | 0 <= i < |holes| :: GoodHole(holes[i]))
    && (forall i, j | 0 <= i < j < |holes| :: holes[i].End() < holes[j].start)
  }

  function Sum(holes: seq<Hole>): nat
  {
    if holes == [] then 0 else holes[0].size + Sum(holes[1..])
  }

  lemma {:induction false} SumConcat(a: seq<Hole>, b: seq<Hole>)
    ensures Sum(a + b) == Sum(a) + Sum(b)
  {
    if a == [] {
      assert a + b == b;
    } else {
      assert (a + b)[1..] == a[1..] + b;
      SumConcat(a[1..], b);
    }
  }

  // ------------------------------------------------------------ uniqueness

  lemma FreeTail(holes: seq<Hole>, x: nat)
    requires holes != [] && Canonical(holes)
    ensures Free(holes[1..], x) <==> Free(holes, x) && x > holes[0].End()
    ensures Free(holes, x) ==> holes[0].start <= x && x != holes[0].End()
  {
    if i :| 0 <= i < |holes| && holes[i].Covers(x) {
      assert i > 0 ==> holes[1..][i - 1].Covers(x);
    }
    if Free(holes[1..], x) {
      var i :| 0 <= i < |holes[1..]| && holes[1..][i].Covers(x);
      assert holes[i + 1].Covers(x);
    }
  }

  lemma FirstHolesAgree(a: seq<Hole>, b: seq<Hole>)
    requires Canonical(a) && Canonical(b) && a != [] && b != []
    requires forall x: nat :: Free(a, x) <==> Free(b, x)
    ensures a[0].start >= b[0].start
    ensures a[0].start == b[0].start ==> a[0].End() >= b[0].End()
  {
    assert a[0].Covers(a[0].start);
    assert Free(b, a[0].start);
    FreeTail(b, a[0].start);
    if a[0].start == b[0].start && a[0].End() < b[0].End() {
      assert b[0].Covers(a[0].End());
      FreeTail(a, a[0].End());
    }
  }

  /** The canonical list of a set of free bytes is unique: it lists their maximal runs. */
  lemma {:induction false} CanonicalUnique(a: seq<Hole>, b: seq<Hole>)
    requires Canonical(a) && Canonical(b)
    requires forall x: nat :: Free(a, x) <==> Free(b, x)
    ensures a == b
  {
    if a == [] || b == [] {
      if a != [] {
        assert a[0].Covers(a[0].start) && Free(a, a[0].start);
      }
      if b != [] {
        assert b[0].Covers(b[0].start) && Free(b, b[0].start);
      }
    } else {
      FirstHolesAgree(a, b);
      FirstHolesAgree(b, a);
      forall x: nat
        ensures Free(a[1..], x) <==> Free(b[1..], x)
      {
        FreeTail(a, x);
        FreeTail(b, x);
      }
      CanonicalUnique(a[1..], b[1..]);
      assert a == [a[0]] + a[1..] && b == [b[0]] + b[1..];
    }
  }

  // ------------------------------------------------------------ covering a range

  ghost predicate Within(holes: seq<Hole>, from: nat, to: nat)
  {
    forall i | 0 <= i < |holes| :: from <= holes[i].start && holes[i].End() <= to
  }

  /** A canonical list inside a range that adds up to the whole range is one hole. */
  lemma {:induction false} SumWithin(holes: seq<Hole>, from: nat, to: nat)
    requires Canonical(holes) && from <= to && Within(holes, from, to)
    ensures Sum(holes) <= to - from
    ensures Sum(holes) == to - from ==> (from == to && holes == []) || holes == [Hole(from, to - from)]
  {
    if holes != [] {
      var rest := holes[1..];
      var mid := holes[0].End();
      if rest == [] {
        assert holes == [holes[0]];
      } else {
        assert rest[0] == holes[1];
        SumWithin(rest, rest[0].start, to);
        assert mid < rest[0].start;
      }
    }
  }

  // ------------------------------------------------------------ insertion

  /** The place of `address` in the list: the holes before it start no later. */
  ghost predicate IsPlace(holes: seq<Hole>, address: nat, k: nat)
  {
    && k <= |holes|
    && (forall i | 0 <= i < k :: holes[i].start <= address)
    && (k < |holes| ==> holes[k].start > address)
  }

  predicate TouchesLeft(holes: seq<Hole>, k: nat, address: nat)
    requires k <= |holes|
  {
    k > 0 && holes[k - 1].End() == address
  }

  predicate TouchesRight(holes: seq<Hole>, k: nat, address: nat, size: nat)
    requires k <= |holes|
  {
    k < |holes| && address + size == holes[k].start
  }

  /** The hole a range at place `k` ends up in: merged with the hole to its right if they
      touch, then with the one to its left. */
  function Merged(holes: seq<Hole>, k: nat, address: nat, size: nat): Hole
    requires k <= |holes|
  {
    var size' := if TouchesRight(holes, k, address, size) then size + holes[k].size else size;
    if TouchesLeft(holes, k, address) then Hole(holes[k - 1].start, holes[k - 1].size + size')
    else Hole(address, size')
  }

  function Insert(holes: seq<Hole>, k: nat, address: nat, size: nat): seq<Hole>
    requires k <= |holes|
  {
    (if TouchesLeft(holes, k, address) then holes[..k - 1] else holes[..k])
    + [Merged(holes, k, address, size)]
    + (if TouchesRight(holes, k, address, size) then holes[k + 1..] else holes[k..])
  }

  ghost predicate Disjoint(holes: seq<Hole>, address: nat, size: nat)
  {
    forall x: nat | address <= x < address + size :: !Free(holes, x)
  }

  /** The neighbours of a disjoint range lie on its two sides. */
  lemma Neighbours(holes: seq<Hole>, k: nat, address: nat, size: nat)
    requires Canonical(holes) && IsPlace(holes, address, k) && Disjoint(holes, address, size) && size > 0
    ensures k > 0 ==> holes[k - 1].End() <= address
    ensures k < |holes| ==> address + size <= holes[k].start
  {
    assert !Free(holes, address);
    assert k > 0 ==> (holes[k - 1].Covers(address) <==> address < holes[k - 1].End());
    if k < |holes| && address + size > holes[k].start {
      assert holes[k].Covers(holes[k].start);
      assert Free(holes, holes[k].start);
    }
  }

  /** Prefix, one new hole, suffix. */
  lemma SpliceCanonical(a: seq<Hole>, h: Hole, b: seq<Hole>)
    requires Canonical(a) && Canonical(b) && GoodHole(h)
    requires a != [] ==> a[|a| - 1].End() < h.start
    requires b != [] ==> h.End() < b[0].start
    ensures Canonical(a + [h] + b)
  {
    var s := a + [h] + b;
    forall i, j | 0 <= i < j < |s|
      ensures s[i].End() < s[j].start
    {
      assert i < |a| ==> s[i].End() <= a[|a| - 1].End();
      assert j > |a| ==> b[0].start <= s[j].start;
    }
  }

  lemma SpliceFree(a: seq<Hole>, h: Hole, b: seq<Hole>, x: nat)
    ensures Free(a + [h] + b, x) <==> Free(a, x) || h.Covers(x) || Free(b, x)
  {
    var s := a + [h] + b;
    if Free(s, x) {
      var i :| 0 <= i < |s| && s[i].Covers(x);
      if i < |a| {
        assert a[i].Covers(x);
      } else if i > |a| {
        assert b[i - |a| - 1].Covers(x);
      }
    }
    if i :| 0 <= i < |a| && a[i].Covers(x) {
      assert s[i].Covers(x);
    }
    if h.Covers(x) {
      assert s[|a|].Covers(x);
    }
    if i :| 0 <= i < |b| && b[i].Covers(x) {
      assert s[|a| + 1 + i].Covers(x);
    }
  }

  lemma CanonicalSlice(holes: seq<Hole>, i: nat, j: nat)
    requires Canonical(holes) && i <= j <= |holes|
    ensures Canonical(holes[i..j])
  {
  }

  /** The merged hole fits between what stays on its two sides. */
  lemma MergedFits(holes: seq<Hole>, k: nat, address: nat, size: nat)
    requires Canonical(holes) && IsPlace(holes, address, k) && Disjoint(holes, address, size)
    requires size >= NODE_SIZE && address % NODE_ALIGN == 0
    ensures Canonical(Insert(holes, k, address, size))
  {
    Neighbours(holes, k, address, size);
    var lo := if TouchesLeft(holes, k, address) then k - 1 else k;
    var hi := if TouchesRight(holes, k, address, size) then k + 1 else k;
    CanonicalSlice(holes, 0, lo);
    CanonicalSlice(holes, hi, |holes|);
    assert holes[..lo] == holes[0..lo] && holes[hi..] == holes[hi..|holes|];
    SpliceCanonical(holes[..lo], Merged(holes, k, address, size), holes[hi..]);
  }

  /** The holes it merged with and the range itself make up the merged hole. */
  lemma MergedCovers(holes: seq<Hole>, k: nat, address: nat, size: nat, lo: nat, hi: nat)
    requires k <= |holes| && (k < |holes| ==> address < holes[k].start)
    requires lo == if TouchesLeft(holes, k, address) then k - 1 else k
    requires hi == if TouchesRight(holes, k, address, size) then k + 1 else k
    ensures var h := Merged(holes, k, address, size);
            && h.size == Sum(holes[lo..k]) + size + Sum(holes[k..hi])
            && forall x: nat :: h.Covers(x) <==>
                 Free(holes[lo..k], x) || address <= x < address + size || Free(holes[k..hi], x)
  {
    SingleHole(holes[lo..k]);
    SingleHole(holes[k..hi]);
  }

  lemma SingleHole(s: seq<Hole>)
    requires |s| <= 1
    ensures s == [] ==> Sum(s) == 0 && forall x: nat :: !Free(s, x)
    ensures s != [] ==> Sum(s) == s[0].size && forall x: nat :: Free(s, x) <==> s[0].Covers(x)
  {
  }

  /** Giving a range back keeps the list canonical and frees exactly that range. */
  lemma InsertFrees(holes: seq<Hole>, k: nat, address: nat, size: nat)
    requires Canonical(holes) && IsPlace(holes, address, k) && Disjoint(holes, address, size)
    requires size >= NODE_SIZE && address % NODE_ALIGN == 0
    ensures var holes' := Insert(holes, k, address, size);
            && Canonical(holes')
            && Sum(holes') == Sum(holes) + size
            && forall x: nat :: Free(holes', x) <==> Free(holes, x) || address <= x < address + size
  {
    var lo := if TouchesLeft(holes, k, address) then k - 1 else k;
    var hi := if TouchesRight(holes, k, address, size) then k + 1 else k;
    MergedFits(holes, k, address, size);
    MergedCovers(holes, k, address, size, lo, hi);
    assert holes == holes[..lo] + holes[lo..k] + holes[k..hi] + holes[hi..];
    SpliceFrees(holes[..lo], holes[lo..k], holes[k..hi], holes[hi..], Merged(holes, k, address, size), address, size);
  }

  lemma SpliceFrees(a: seq<Hole>, b: seq<Hole>, c: seq<Hole>, d: seq<Hole>, h: Hole, address: nat, size: nat)
    requires h.size == Sum(b) + size + Sum(c)
    requires forall x: nat :: h.Covers(x) <==> Free(b, x) || address <= x < address + size || Free(c, x)
    ensures Sum(a + [h] + d) == Sum(a + b + c + d) + size
    ensures forall x: nat :: Free(a + [h] + d, x) <==> Free(a + b + c + d, x) || address <= x < address + size
  {
    SumParts(a, b, c, d);
    SumConcat(a + [h], d);
    SumConcat(a, [h]);
    assert Sum([h]) == h.size;
    forall x: nat
      ensures Free(a + [h] + d, x) <==> Free(a + b + c + d, x) || address <= x < address + size
    {
      SpliceFree(a, h, d, x);
      FreeParts(a, b, c, d, x);
    }
  }

  lemma SumParts(a: seq<Hole>, b: seq<Hole>, c: seq<Hole>, d: seq<Hole>)
    ensures Sum(a + b + c + d) == Sum(a) + Sum(b) + Sum(c) + Sum(d)
  {
    SumConcat(a + b + c, d);
    SumConcat(a + b, c);
    SumConcat(a, b);
  }

  lemma FreeConcat(a: seq<Hole>, b: seq<Hole>, x: nat)
    ensures Free(a + b, x) <==> Free(a, x) || Free(b, x)
  {
    if i :| 0 <= i < |a + b| && (a + b)[i].Covers(x) {
      assert i < |a| ==> a[i].Covers(x);
      assert i >= |a| ==> b[i - |a|].Covers(x);
    }
    if i :| 0 <= i < |a| && a[i].Covers(x) {
      assert (a + b)[i].Covers(x);
    }
    if i :| 0 <= i < |b| && b[i].Covers(x) {
      assert (a + b)[|a| + i].Covers(x);
    }
  }

  lemma FreeParts(a: seq<Hole>, b: seq<Hole>, c: seq<Hole>, d: seq<Hole>, x: nat)
    ensures Free(a + b + c + d, x) <==> Free(a, x) || Free(b, x) || Free(c, x) || Free(d, x)
  {
    FreeConcat(a + b + c, d, x);
    FreeConcat(a + b, c, x);
    FreeConcat(a, b, x);
  }
}
