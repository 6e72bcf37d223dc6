/** The replicated text document: insertion with tie-breaking, deletion by tombstone. */
module CrdtText {
  import opened Common

  datatype CharId = CharId(client: string, number: nat)

  datatype CrdtChar = CrdtChar(id: CharId, ch: char, deleted: bool, origin: Option<CharId>)

  type Doc = seq<CrdtChar>

  // ------------------------------------------------------------ the order of identifiers

  predicate Less(a: string, b: string)
  {
    b != [] && (a == [] || a[0] < b[0] || (a[0] == b[0] && Less(a[1..], b[1..])))
  }

  /** Identifier `a` goes behind `b`: by client name, then by number. */
  predicate After(a: CharId, b: CharId)
  {
    Less(b.client, a.client) || (a.client == b.client && a.number > b.number)
  }

  lemma {:induction false} LessTotal(a: string, b: string)
    ensures Less(a, b) || a == b || Less(b, a)
    ensures !(Less(a, b) && Less(b, a))
    ensures !Less(a, a)
  {
    if a != [] && b != [] {
      LessTotal(a[1..], b[1..]);
      assert a == [a[0]] + a[1..] && b == [b[0]] + b[1..];
    }
    if a != [] {
      LessTotal(a[1..], a[1..]);
    }
  }

  lemma {:induction false} LessTransitive(a: string, b: string, c: string)
    requires Less(a, b) && Less(b, c)
    ensures Less(a, c)
  {
    if a != [] && a[0] == b[0] == c[0] {
      LessTransitive(a[1..], b[1..], c[1..]);
    }
  }

  /** The tie-break is a strict total order. */
  lemma AfterOrder(a: CharId, b: CharId, c: CharId)
    ensures !After(a, a)
    ensures a != b ==> (After(a, b) <==> !After(b, a))
    ensures After(a, b) && After(b, c) ==> After(a, c)
  {
    LessTotal(a.client, b.client);
    LessTotal(a.client, a.client);
    if Less(c.client, b.client) && Less(b.client, a.client) {
      LessTransitive(c.client, b.client, a.client);
    }
  }

  /** Client names compare like words in a dictionary: the first letter that differs decides,
      and a name comes before its own continuations. */
  lemma {:induction false} LessByFirstDifference(common: string, x: char, u: string, y: char, v: string)
    requires x != y
    ensures Less(common + [x] + u, common + [y] + v) <==> x < y
    ensures Less(common, common + [x] + u) && !Less(common + [x] + u, common)
  {
    var a, b := common + [x] + u, common + [y] + v;
    if common != [] {
      LessByFirstDifference(common[1..], x, u, y, v);
      assert a[1..] == common[1..] + [x] + u && b[1..] == common[1..] + [y] + v;
    }
  }

  /** Identifiers of one client compare by number, those of two clients by name. */
  lemma AfterByClient(a: CharId, b: CharId)
    ensures a.client == b.client ==> (After(a, b) <==> a.number > b.number)
    ensures a.client != b.client ==> (After(a, b) <==> Less(b.client, a.client))
  {
    LessTotal(a.client, b.client);
  }

  // ------------------------------------------------------------ insertion

  /** The position of the first character with this identifier, or the length. */
  function Find(doc: Doc, id: CharId): (p: nat)
    ensures p <= |doc|
    ensures p < |doc| ==> doc[p].id == id
    ensures forall i | 0 <= i < p :: doc[i].id != id
  {
    if doc == [] then 0 else if doc[0].id == id then 0 else 1 + Find(doc[1..], id)
  }

  predicate Has(doc: Doc, id: CharId)
  {
    Find(doc, id) < |doc|
  }

  /** Where the scan for a place begins: behind the origin, or at the front. */
  function Start(doc: Doc, origin: Option<CharId>): (p: nat)
    ensures p <= |doc|
  {
    if origin.Some? && Has(doc, origin.value) then Find(doc, origin.value) + 1 else 0
  }

  /** A character the scan passes: a sibling with a smaller identifier. */
  predicate Passes(c: CrdtChar, id: CharId, origin: Option<CharId>)
  {
    c.origin == origin && After(id, c.id)
  }

  function Scan(doc: Doc, from: nat, id: CharId, origin: Option<CharId>): (p: nat)
    requires from <= |doc|
    ensures from <= p <= |doc|
    ensures forall i | from <= i < p :: Passes(doc[i], id, origin)
    ensures p < |doc| ==> !Passes(doc[p], id, origin)
    decreases |doc| - from
  {
    if from < |doc| && Passes(doc[from], id, origin) then Scan(doc, from + 1, id, origin) else from
  }

  function Landing(doc: Doc, id: CharId, origin: Option<CharId>): (p: nat)
    ensures p <= |doc|
  {
    Scan(doc, Start(doc, origin), id, origin)
  }

  function PutAt(doc: Doc, p: nat, c: CrdtChar): Doc
    requires p <= |doc|
  {
    doc[..p] + [c] + doc[p..]
  }

  function Insert(doc: Doc, id: CharId, origin: Option<CharId>, ch: char): Doc
  {
    if Has(doc, id) then doc
    else PutAt(doc, Landing(doc, id, origin), CrdtChar(id, ch, false, origin))
  }

  function Delete(doc: Doc, id: CharId): Doc
  {
    var p := Find(doc, id);
    if p < |doc| then doc[p := doc[p].(deleted := true)] else doc
  }

  /** `p` is where the scan ends: it is determined by what it passes and where it stops. */
  lemma LandsAt(doc: Doc, id: CharId, origin: Option<CharId>, p: nat)
    requires Start(doc, origin) <= p <= |doc|
    requires forall i | Start(doc, origin) <= i < p :: Passes(doc[i], id, origin)
    requires p < |doc| ==> !Passes(doc[p], id, origin)
    ensures Landing(doc, id, origin) == p
  {
  }

  /** Inserting another character moves the identifiers behind it by one. */
  lemma FindAfterPut(doc: Doc, p: nat, c: CrdtChar, id: CharId)
    requires p <= |doc| && c.id != id
    ensures Find(PutAt(doc, p, c), id) == if Find(doc, id) < p then Find(doc, id) else Find(doc, id) + 1
  {
    var doc' := PutAt(doc, p, c);
    var q := if Find(doc, id) < p then Find(doc, id) else Find(doc, id) + 1;
    assert forall i | 0 <= i < q :: doc'[i].id != id by {
      forall i | 0 <= i < q
        ensures doc'[i].id != id
      {
        assert doc'[i] == if i < p then doc[i] else if i == p then c else doc[i - 1];
      }
    }
    assert q < |doc'| ==> doc'[q].id == id;
  }

  lemma StartAfterPut(doc: Doc, p: nat, c: CrdtChar, origin: Option<CharId>)
    requires p <= |doc| && origin != Some(c.id)
    ensures Start(PutAt(doc, p, c), origin) == if p < Start(doc, origin) then Start(doc, origin) + 1 else Start(doc, origin)
  {
    if origin.Some? {
      FindAfterPut(doc, p, c, origin.value);
    }
  }

  /** Where a character lands once another is in the document: an insertion before its scan
      shifts it, one behind its place does not, and one in between shifts it only if the
      scan passes the newcomer and otherwise stops it there. */
  lemma LandingAfterPut(doc: Doc, p: nat, c: CrdtChar, id: CharId, origin: Option<CharId>)
    requires p <= |doc| && origin != Some(c.id)
    ensures var s, g := Start(doc, origin), Landing(doc, id, origin);
            Landing(PutAt(doc, p, c), id, origin) ==
            if p > g then g
            else if p < s || Passes(c, id, origin) then g + 1
            else p
  {
    var s, g := Start(doc, origin), Landing(doc, id, origin);
    if p > g {
      PutBehind(doc, p, c, id, origin);
    } else if p < s || Passes(c, id, origin) {
      PutPassed(doc, p, c, id, origin);
    } else {
      PutStops(doc, p, c, id, origin);
    }
  }

  lemma PutItems(doc: Doc, p: nat, c: CrdtChar)
    requires p <= |doc|
    ensures |PutAt(doc, p, c)| == |doc| + 1
    ensures forall i | 0 <= i <= |doc| :: PutAt(doc, p, c)[i] == if i < p then doc[i] else if i == p then c else doc[i - 1]
  {
  }

  /** The newcomer stands behind the place: the scan never gets there. */
  lemma PutBehind(doc: Doc, p: nat, c: CrdtChar, id: CharId, origin: Option<CharId>)
    requires p <= |doc| && origin != Some(c.id) && p > Landing(doc, id, origin)
    ensures Landing(PutAt(doc, p, c), id, origin) == Landing(doc, id, origin)
  {
    StartAfterPut(doc, p, c, origin);
    PutItems(doc, p, c);
    LandsAt(PutAt(doc, p, c), id, origin, Landing(doc, id, origin));
  }

  /** It stands before the scan, or the scan passes it. */
  lemma PutPassed(doc: Doc, p: nat, c: CrdtChar, id: CharId, origin: Option<CharId>)
    requires p <= |doc| && origin != Some(c.id) && p <= Landing(doc, id, origin)
    requires p < Start(doc, origin) || Passes(c, id, origin)
    ensures Landing(PutAt(doc, p, c), id, origin) == Landing(doc, id, origin) + 1
  {
    StartAfterPut(doc, p, c, origin);
    PutItems(doc, p, c);
    LandsAt(PutAt(doc, p, c), id, origin, Landing(doc, id, origin) + 1);
  }

  /** The scan meets it and stops. */
  lemma PutStops(doc: Doc, p: nat, c: CrdtChar, id: CharId, origin: Option<CharId>)
    requires p <= |doc| && origin != Some(c.id) && Start(doc, origin) <= p <= Landing(doc, id, origin)
    requires !Passes(c, id, origin)
    ensures Landing(PutAt(doc, p, c), id, origin) == p
  {
    StartAfterPut(doc, p, c, origin);
    PutItems(doc, p, c);
    LandsAt(PutAt(doc, p, c), id, origin, p);
  }

  lemma PutPut(doc: Doc, p: nat, c: CrdtChar, q: nat, d: CrdtChar)
    requires p <= q <= |doc|
    ensures PutAt(PutAt(doc, p, c), q + 1, d) == PutAt(PutAt(doc, q, d), p, c)
  {
  }

  lemma HasAfterPut(doc: Doc, p: nat, c: CrdtChar, id: CharId)
    requires p <= |doc| && c.id != id
    ensures Has(PutAt(doc, p, c), id) <==> Has(doc, id)
  {
    FindAfterPut(doc, p, c, id);
  }

  // ------------------------------------------------------------ siblings

  lemma SiblingsInOrder(doc: Doc, x: CharId, y: CharId, origin: Option<CharId>)
    requires After(y, x)
    ensures Landing(doc, x, origin) <= Landing(doc, y, origin)
  {
    var gx, gy := Landing(doc, x, origin), Landing(doc, y, origin);
    if gy < gx {
      AfterOrder(y, x, doc[gy].id);
    }
  }

  /** The insert of the later sibling `y` behind that of `x`, and the other way around. */
  lemma LaterSibling(doc: Doc, x: CharId, cx: char, y: CharId, cy: char, origin: Option<CharId>)
    requires After(y, x) && x != y && !Has(doc, x) && !Has(doc, y) && origin != Some(x)
    ensures var gx, gy := Landing(doc, x, origin), Landing(doc, y, origin);
            && gx <= gy
            && Insert(Insert(doc, x, origin, cx), y, origin, cy)
               == PutAt(PutAt(doc, gx, CrdtChar(x, cx, false, origin)), gy + 1, CrdtChar(y, cy, false, origin))
  {
    var gx := Landing(doc, x, origin);
    var a := CrdtChar(x, cx, false, origin);
    SiblingsInOrder(doc, x, y, origin);
    HasAfterPut(doc, gx, a, y);
    LandingAfterPut(doc, gx, a, y, origin);
  }

  lemma EarlierSibling(doc: Doc, x: CharId, cx: char, y: CharId, cy: char, origin: Option<CharId>)
    requires After(y, x) && x != y && !Has(doc, x) && !Has(doc, y) && origin != Some(y)
    ensures var gx, gy := Landing(doc, x, origin), Landing(doc, y, origin);
            Insert(Insert(doc, y, origin, cy), x, origin, cx)
            == PutAt(PutAt(doc, gy, CrdtChar(y, cy, false, origin)), gx, CrdtChar(x, cx, false, origin))
  {
    var gy := Landing(doc, y, origin);
    var b := CrdtChar(y, cy, false, origin);
    SiblingsInOrder(doc, x, y, origin);
    AfterOrder(x, y, x);
    HasAfterPut(doc, gy, b, x);
    LandingAfterPut(doc, gy, b, x, origin);
  }

  lemma SiblingsCommuteOrdered(doc: Doc, x: CharId, cx: char, y: CharId, cy: char, origin: Option<CharId>)
    requires After(y, x) && x != y && !Has(doc, x) && !Has(doc, y)
    requires origin != Some(x) && origin != Some(y)
    ensures Insert(Insert(doc, x, origin, cx), y, origin, cy) == Insert(Insert(doc, y, origin, cy), x, origin, cx)
  {
    var gx, gy := Landing(doc, x, origin), Landing(doc, y, origin);
    LaterSibling(doc, x, cx, y, cy, origin);
    EarlierSibling(doc, x, cx, y, cy, origin);
    PutPut(doc, gx, CrdtChar(x, cx, false, origin), gy, CrdtChar(y, cy, false, origin));
  }

  /** Inserts behind the same origin commute, whatever the document around them. */
  lemma SiblingsCommute(doc: Doc, x: CharId, cx: char, y: CharId, cy: char, origin: Option<CharId>)
    requires x != y && origin != Some(x) && origin != Some(y)
    ensures Insert(Insert(doc, x, origin, cx), y, origin, cy) == Insert(Insert(doc, y, origin, cy), x, origin, cx)
  {
    HasAfterPut(doc, Landing(doc, x, origin), CrdtChar(x, cx, false, origin), y);
    HasAfterPut(doc, Landing(doc, y, origin), CrdtChar(y, cy, false, origin), x);
    InsertHas(doc, x, origin, cx);
    InsertHas(doc, y, origin, cy);
    if !Has(doc, x) && !Has(doc, y) {
      AfterOrder(x, y, x);
      if After(y, x) {
        SiblingsCommuteOrdered(doc, x, cx, y, cy, origin);
      } else {
        SiblingsCommuteOrdered(doc, y, cy, x, cx, origin);
      }
    }
  }

  lemma InsertHas(doc: Doc, id: CharId, origin: Option<CharId>, ch: char)
    ensures Has(Insert(doc, id, origin, ch), id)
  {
    var doc' := Insert(doc, id, origin, ch);
    if !Has(doc, id) {
      assert doc'[Landing(doc, id, origin)].id == id;
    }
  }

  // ------------------------------------------------------------ different origins

  /** Where the second of two inserts with different origins lands. */
  function SecondLanding(first: nat, start: nat, landing: nat): nat
  {
    if first > landing then landing else if first < start then landing + 1 else first
  }

  lemma TwoInserts(doc: Doc, x: CharId, cx: char, ox: Option<CharId>, y: CharId, cy: char, oy: Option<CharId>)
    requires x != y && !Has(doc, x) && !Has(doc, y) && ox != oy && oy != Some(x)
    ensures var gx, gy := Landing(doc, x, ox), Landing(doc, y, oy);
            var second := SecondLanding(gx, Start(doc, oy), gy);
            && second <= |doc| + 1
            && Insert(Insert(doc, x, ox, cx), y, oy, cy)
               == PutAt(PutAt(doc, gx, CrdtChar(x, cx, false, ox)), second, CrdtChar(y, cy, false, oy))
  {
    var gx := Landing(doc, x, ox);
    var a := CrdtChar(x, cx, false, ox);
    HasAfterPut(doc, gx, a, y);
    LandingAfterPut(doc, gx, a, y, oy);
  }

  lemma PutsAgree(doc: Doc, gx: nat, a: CrdtChar, sx: nat, gy: nat, b: CrdtChar, sy: nat)
    requires a != b && sx <= gx <= |doc| && sy <= gy <= |doc|
    ensures PutAt(PutAt(doc, gx, a), SecondLanding(gx, sy, gy), b) == PutAt(PutAt(doc, gy, b), SecondLanding(gy, sx, gx), a)
            <==> (gx < gy && gx < sy) || (gy < gx && gy < sx)
  {
    var l := PutAt(PutAt(doc, gx, a), SecondLanding(gx, sy, gy), b);
    var r := PutAt(PutAt(doc, gy, b), SecondLanding(gy, sx, gx), a);
    if gx < gy && gx < sy {
      PutPut(doc, gx, a, gy, b);
    } else if gy < gx && gy < sx {
      PutPut(doc, gy, b, gx, a);
    } else if gx <= gy {
      assert l[gx] == b && r[gx] == a;
    } else {
      assert l[gy] == b && r[gy] == a;
    }
  }

  /** For two inserts with different origins, the exact condition: they commute if and only
      if the one that lands first lands before the other one's scan begins. */
  lemma CommuteExactly(doc: Doc, x: CharId, cx: char, ox: Option<CharId>, y: CharId, cy: char, oy: Option<CharId>)
    requires x != y && !Has(doc, x) && !Has(doc, y) && ox != oy && ox != Some(y) && oy != Some(x)
    ensures var gx, gy := Landing(doc, x, ox), Landing(doc, y, oy);
            Insert(Insert(doc, x, ox, cx), y, oy, cy) == Insert(Insert(doc, y, oy, cy), x, ox, cx)
            <==> (gx < gy && gx < Start(doc, oy)) || (gy < gx && gy < Start(doc, ox))
  {
    TwoInserts(doc, x, cx, ox, y, cy, oy);
    TwoInserts(doc, y, cy, oy, x, cx, ox);
    PutsAgree(doc, Landing(doc, x, ox), CrdtChar(x, cx, false, ox), Start(doc, ox),
              Landing(doc, y, oy), CrdtChar(y, cy, false, oy), Start(doc, oy));
  }

  /** So replicas can diverge: behind a last character `s`, a reply to `s` and a later sibling
      of `s` end up in either order. */
  lemma {:induction false} ReplyAndSiblingDiverge(doc: Doc, s: CrdtChar, x: CharId, cx: char, y: CharId, cy: char)
    requires doc != [] && doc[|doc| - 1] == s && Find(doc, s.id) == |doc| - 1
    requires Start(doc, s.origin) == |doc| - 1 && After(y, s.id)
    requires s.origin != Some(s.id) && s.origin != Some(x) && x != y && !Has(doc, x) && !Has(doc, y)
    ensures Insert(Insert(doc, x, Some(s.id), cx), y, s.origin, cy) != Insert(Insert(doc, y, s.origin, cy), x, Some(s.id), cx)
  {
    assert s.id != y;
    assert Start(doc, Some(s.id)) == |doc|;
    LandsAt(doc, x, Some(s.id), |doc|);
    LandsAt(doc, y, s.origin, |doc|);
    CommuteExactly(doc, x, cx, Some(s.id), y, cy, s.origin);
  }

  // ------------------------------------------------------------ convergence

  /** The operations on one origin: inserts behind it and deletions. */
  datatype Op = InsertOp(id: CharId, ch: char) | DeleteOp(id: CharId)

  function Apply(doc: Doc, origin: Option<CharId>, op: Op): Doc
  {
    match op
    case InsertOp(id, ch) => Insert(doc, id, origin, ch)
    case DeleteOp(id) => Delete(doc, id)
  }

  function ApplyAll(doc: Doc, origin: Option<CharId>, ops: seq<Op>): Doc
    decreases ops
  {
    if ops == [] then doc else ApplyAll(Apply(doc, origin, ops[0]), origin, ops[1..])
  }

  /** Identifiers tell inserts apart, and no operation deletes or hangs from a character
      inserted beside it. */
  ghost predicate Compatible(origin: Option<CharId>, ops: set<Op>)
  {
    && (forall a, b | a in ops && b in ops && a.id == b.id :: a == b)
    && (forall a | a in ops && a.InsertOp? :: origin != Some(a.id))
  }

  lemma DeleteFind(doc: Doc, id: CharId, other: CharId)
    ensures Find(Delete(doc, id), other) == Find(doc, other)
    ensures |Delete(doc, id)| == |doc|
  {
    var doc' := Delete(doc, id);
    assert forall i | 0 <= i < |doc| :: doc'[i].id == doc[i].id;
    var p := Find(doc, other);
    assert p < |doc| ==> doc'[p].id == other;
  }

  lemma DeletesCommute(doc: Doc, a: CharId, b: CharId)
    ensures Delete(Delete(doc, a), b) == Delete(Delete(doc, b), a)
    ensures Delete(Delete(doc, a), a) == Delete(doc, a)
  {
    DeleteFind(doc, a, b);
    DeleteFind(doc, b, a);
    DeleteFind(doc, a, a);
  }

  lemma DeleteLanding(doc: Doc, d: CharId, id: CharId, origin: Option<CharId>)
    ensures Landing(Delete(doc, d), id, origin) == Landing(doc, id, origin)
  {
    var doc' := Delete(doc, d);
    DeleteFind(doc, d, id);
    if origin.Some? {
      DeleteFind(doc, d, origin.value);
    }
    assert forall i | 0 <= i < |doc| :: doc'[i].id == doc[i].id && doc'[i].origin == doc[i].origin;
    LandsAt(doc', id, origin, Landing(doc, id, origin));
  }

  lemma InsertDeleteCommute(doc: Doc, id: CharId, origin: Option<CharId>, ch: char, d: CharId)
    requires id != d
    ensures Delete(Insert(doc, id, origin, ch), d) == Insert(Delete(doc, d), id, origin, ch)
  {
    DeleteFind(doc, d, id);
    DeleteLanding(doc, d, id, origin);
    if !Has(doc, id) {
      PutDelete(doc, Landing(doc, id, origin), CrdtChar(id, ch, false, origin), d);
    }
  }

  lemma PutDelete(doc: Doc, p: nat, c: CrdtChar, d: CharId)
    requires p <= |doc| == |Delete(doc, d)| && c.id != d
    ensures Delete(PutAt(doc, p, c), d) == PutAt(Delete(doc, d), p, c)
  {
    FindAfterPut(doc, p, c, d);
    UpdatePut(doc, p, c, Find(doc, d));
  }

  /** A position that is not the new one is updated before or after the insertion. */
  lemma UpdatePut(doc: Doc, p: nat, c: CrdtChar, i: nat)
    requires p <= |doc|
    ensures i < |doc| ==>
              var j := if i < p then i else i + 1;
              var x := doc[i].(deleted := true);
              PutAt(doc, p, c)[j] == doc[i] && PutAt(doc, p, c)[j := x] == PutAt(doc[i := x], p, c)
  {
  }

  lemma OpsCommute(doc: Doc, origin: Option<CharId>, a: Op, b: Op)
    requires Compatible(origin, {a, b})
    ensures Apply(Apply(doc, origin, a), origin, b) == Apply(Apply(doc, origin, b), origin, a)
  {
    if a != b {
      match (a, b)
      case (InsertOp(x, cx), InsertOp(y, cy)) => SiblingsCommute(doc, x, cx, y, cy, origin);
      case (InsertOp(x, cx), DeleteOp(d)) => InsertDeleteCommute(doc, x, origin, cx, d);
      case (DeleteOp(d), InsertOp(y, cy)) => InsertDeleteCommute(doc, y, origin, cy, d);
      case (DeleteOp(d), DeleteOp(e)) => DeletesCommute(doc, d, e);
    }
  }

  /** Delivering an operation twice is delivering it once. */
  lemma OpIdempotent(doc: Doc, origin: Option<CharId>, a: Op)
    ensures Apply(Apply(doc, origin, a), origin, a) == Apply(doc, origin, a)
  {
    match a
    case InsertOp(id, ch) => InsertHas(doc, id, origin, ch);
    case DeleteOp(d) => DeletesCommute(doc, d, d);
  }

  lemma {:induction false} ApplyLast(doc: Doc, origin: Option<CharId>, ops: seq<Op>, a: Op)
    ensures ApplyAll(doc, origin, ops + [a]) == Apply(ApplyAll(doc, origin, ops), origin, a)
    decreases ops
  {
    if ops != [] {
      assert (ops + [a])[1..] == ops[1..] + [a];
      ApplyLast(Apply(doc, origin, ops[0]), origin, ops[1..], a);
    }
  }

  lemma {:induction false} ApplyConcat(doc: Doc, origin: Option<CharId>, ops: seq<Op>, more: seq<Op>)
    ensures ApplyAll(doc, origin, ops + more) == ApplyAll(ApplyAll(doc, origin, ops), origin, more)
    decreases ops
  {
    if ops == [] {
      assert ops + more == more;
    } else {
      assert (ops + more)[1..] == ops[1..] + more;
      ApplyConcat(Apply(doc, origin, ops[0]), origin, ops[1..], more);
    }
  }

  function Ops(ops: seq<Op>): set<Op>
  {
    set a | a in ops
  }

  lemma CompatibleSubset(origin: Option<CharId>, big: set<Op>, small: set<Op>)
    requires Compatible(origin, big) && small <= big
    ensures Compatible(origin, small)
  {
  }

  /** An operation can be applied before a sequence instead of behind it. */
  lemma {:induction false} MoveToFront(doc: Doc, origin: Option<CharId>, ops: seq<Op>, a: Op, all: set<Op>)
    requires Compatible(origin, all) && Ops(ops) <= all && a in all
    ensures Apply(ApplyAll(doc, origin, ops), origin, a) == ApplyAll(Apply(doc, origin, a), origin, ops)
    decreases ops
  {
    if ops != [] {
      assert ops[0] in Ops(ops);
      assert Ops(ops[1..]) <= Ops(ops);
      CompatibleSubset(origin, all, {ops[0], a});
      OpsCommute(doc, origin, ops[0], a);
      MoveToFront(Apply(doc, origin, ops[0]), origin, ops[1..], a, all);
    }
  }

  /** An operation that is already in a sequence adds nothing. */
  lemma {:induction false} Absorbed(doc: Doc, origin: Option<CharId>, ops: seq<Op>, a: Op, all: set<Op>)
    requires Compatible(origin, all) && Ops(ops) <= all && a in ops
    ensures Apply(ApplyAll(doc, origin, ops), origin, a) == ApplyAll(doc, origin, ops)
    decreases ops
  {
    var doc1 := Apply(doc, origin, ops[0]);
    assert Ops(ops[1..]) <= Ops(ops) && a in Ops(ops);
    if a == ops[0] {
      MoveToFront(doc1, origin, ops[1..], a, all);
      OpIdempotent(doc, origin, a);
    } else {
      assert a in ops[1..];
      Absorbed(doc1, origin, ops[1..], a, all);
    }
  }

  lemma {:induction false} AllAbsorbed(doc: Doc, origin: Option<CharId>, ops: seq<Op>, more: seq<Op>, all: set<Op>)
    requires Compatible(origin, all) && Ops(ops) <= all && Ops(more) <= Ops(ops)
    ensures ApplyAll(ApplyAll(doc, origin, ops), origin, more) == ApplyAll(doc, origin, ops)
    decreases more
  {
    if more != [] {
      assert more[0] in Ops(more);
      assert more[0] in ops;
      Absorbed(doc, origin, ops, more[0], all);
      assert Ops(more[1..]) <= Ops(more);
      AllAbsorbed(doc, origin, ops, more[1..], all);
    }
  }

  lemma {:induction false} BlocksCommute(doc: Doc, origin: Option<CharId>, ops: seq<Op>, more: seq<Op>, all: set<Op>)
    requires Compatible(origin, all) && Ops(ops) <= all && Ops(more) <= all
    ensures ApplyAll(ApplyAll(doc, origin, ops), origin, more) == ApplyAll(ApplyAll(doc, origin, more), origin, ops)
    decreases more
  {
    if more != [] {
      assert more[0] in Ops(more);
      assert Ops(more[1..]) <= Ops(more);
      MoveToFront(doc, origin, ops, more[0], all);
      BlocksCommute(Apply(doc, origin, more[0]), origin, ops, more[1..], all);
    }
  }

  /** Convergence: replicas that have received the same operations on one origin, in any
      order and any number of times each, hold the same document. */
  lemma Converges(doc: Doc, origin: Option<CharId>, ops: seq<Op>, other: seq<Op>)
    requires Compatible(origin, Ops(ops)) && Ops(ops) == Ops(other)
    ensures ApplyAll(doc, origin, ops) == ApplyAll(doc, origin, other)
  {
    AllAbsorbed(doc, origin, ops, other, Ops(ops));
    AllAbsorbed(doc, origin, other, ops, Ops(ops));
    BlocksCommute(doc, origin, ops, other, Ops(ops));
  }

  /** An insert keeps the order of what was there: taking the character out again gives back
      the document. */
  function Without(doc: Doc, id: CharId): Doc
  {
    if doc == [] then [] else if doc[0].id == id then Without(doc[1..], id) else [doc[0]] + Without(doc[1..], id)
  }

  lemma {:induction false} WithoutAbsent(doc: Doc, id: CharId)
    requires forall i | 0 <= i < |doc| :: doc[i].id != id
    ensures Without(doc, id) == doc
  {
    if doc != [] {
      WithoutAbsent(doc[1..], id);
    }
  }

  lemma {:induction false} WithoutConcat(a: Doc, b: Doc, id: CharId)
    ensures Without(a + b, id) == Without(a, id) + Without(b, id)
  {
    if a == [] {
      assert a + b == b;
    } else {
      assert (a + b)[1..] == a[1..] + b;
      WithoutConcat(a[1..], b, id);
    }
  }

  lemma {:induction false} InsertKeepsOrder(doc: Doc, id: CharId, origin: Option<CharId>, ch: char)
    requires !Has(doc, id)
    ensures Without(Insert(doc, id, origin, ch), id) == doc
  {
    var p := Landing(doc, id, origin);
    var c := CrdtChar(id, ch, false, origin);
    assert doc == doc[..p] + doc[p..];
    WithoutSplice(doc[..p], c, doc[p..]);
  }

  lemma {:induction false} WithoutSplice(a: Doc, c: CrdtChar, b: Doc)
    requires !Has(a + b, c.id)
    ensures Without(a + [c] + b, c.id) == a + b
  {
    WithoutConcat(a + [c], b, c.id);
    WithoutConcat(a, [c], c.id);
    WithoutConcat(a, b, c.id);
    WithoutAbsent(a + b, c.id);
    assert Without([c], c.id) == [];
  }

  // ------------------------------------------------------------ the document

  /** What the reader sees: the characters without the tombstones. */
  function Text(doc: Doc): string
  {
    if doc == [] then "" else (if doc[0].deleted then "" else [doc[0].ch]) + Text(doc[1..])
  }

  lemma {:induction false} TextConcat(a: Doc, b: Doc)
    ensures Text(a + b) == Text(a) + Text(b)
  {
    if a == [] {
      assert a + b == b;
    } else {
      assert (a + b)[1..] == a[1..] + b;
      TextConcat(a[1..], b);
    }
  }

  /** The text around position `p`. */
  lemma {:induction false} TextAround(doc: Doc, p: nat)
    requires p < |doc|
    ensures Text(doc) == Text(doc[..p]) + (if doc[p].deleted then "" else [doc[p].ch]) + Text(doc[p + 1..])
  {
    assert doc == doc[..p] + [doc[p]] + doc[p + 1..];
    TextJoin(doc[..p], doc[p], doc[p + 1..]);
  }

  lemma {:induction false} TextJoin(a: Doc, c: CrdtChar, b: Doc)
    ensures Text(a + [c] + b) == Text(a) + (if c.deleted then "" else [c.ch]) + Text(b)
  {
    TextConcat(a + [c], b);
    TextAppend(a, c);
  }

  /** Every character keeps its place, identifier, letter and origin; the one at `p` is hidden
      and the others show what they showed. */
  predicate OnlyHides(doc: Doc, doc': Doc, p: nat)
  {
    && |doc'| == |doc|
    && forall i | 0 <= i < |doc| ::
         && doc'[i].id == doc[i].id && doc'[i].ch == doc[i].ch && doc'[i].origin == doc[i].origin
         && (doc'[i].deleted <==> doc[i].deleted || i == p)
  }

  /** Deleting takes exactly one character from the text, and nothing if the character is not
      there or already gone. */
  lemma {:induction false} DeleteText(doc: Doc, id: CharId)
    ensures OnlyHides(doc, Delete(doc, id), Find(doc, id))
    ensures var p := Find(doc, id);
            if p < |doc| && !doc[p].deleted
            then && Text(doc) == Text(doc[..p]) + [doc[p].ch] + Text(doc[p + 1..])
                 && Text(Delete(doc, id)) == Text(doc[..p]) + Text(doc[p + 1..])
            else Delete(doc, id) == doc
  {
    var p, doc' := Find(doc, id), Delete(doc, id);
    if p < |doc| {
      TextAround(doc, p);
      TextAround(doc', p);
      assert doc'[..p] == doc[..p] && doc'[p + 1..] == doc[p + 1..];
      assert doc[p].deleted ==> doc' == doc;
    }
  }

  /** Inserting a new character puts exactly that character into the text, behind its origin
      and behind those siblings its identifier comes after. */
  lemma {:induction false} InsertText(doc: Doc, id: CharId, origin: Option<CharId>, ch: char)
    requires !Has(doc, id)
    ensures var p, doc' := Landing(doc, id, origin), Insert(doc, id, origin, ch);
            && p < |doc'| && doc'[p].id == id && doc'[p].ch == ch && !doc'[p].deleted && doc'[p].origin == origin
            && doc'[..p] == doc[..p] && doc'[p + 1..] == doc[p..]
            && Text(doc') == Text(doc[..p]) + [ch] + Text(doc[p..])
    ensures var p, q := Landing(doc, id, origin), if origin.Some? then Find(doc, origin.value) else |doc|;
            && (q < |doc| ==> q < p)
            && forall i | (if q < |doc| then q + 1 else 0) <= i < p :: doc[i].origin == origin && After(id, doc[i].id)
    ensures var p := Landing(doc, id, origin);
            p < |doc| ==> !(doc[p].origin == origin && After(id, doc[p].id))
  {
    var p, doc' := Landing(doc, id, origin), Insert(doc, id, origin, ch);
    assert doc'[..p] == doc[..p] && doc'[p + 1..] == doc[p..];
    TextAround(doc', p);
  }

  class CrdtDocument {
    var chars: Doc

    constructor ()
      ensures chars == []
    {
      chars := [];
    }

    /** A document that reads `initial`, each character hanging from the one before. */
    constructor FromStr(initial: string, client: string)
      ensures |chars| == |initial| && Text(chars) == initial
      ensures forall i | 0 <= i < |initial| :: chars[i] == Typed(initial, client, i)
    {
      chars := [];
      new;
      var prevId: Option<CharId> := None;
      for i := 0 to |initial|
        invariant |chars| == i && Text(chars) == initial[..i]
        invariant prevId == if i == 0 then None else Some(CharId(client, i - 1))
        invariant forall j | 0 <= j < i :: chars[j] == Typed(initial, client, j)
      {
        var id := CharId(client, i);
        var c := CrdtChar(id, initial[i], false, prevId);
        TextAppend(chars, c);
        chars := chars + [c];
        prevId := Some(id);
      }
    }

    /** Inserts with deterministic tie-breaking; a known identifier is ignored. */
    method InsertChar(id: CharId, origin: Option<CharId>, ch: char)
      modifies this
      ensures chars == Insert(old(chars), id, origin, ch)
    {
      var known := Search(id);
      if known < |chars| {
        return;
      }
      var idx: nat := 0;
      if origin.Some? {
        var p := Search(origin.value);
        if p < |chars| {
          idx := p + 1;
        }
      }
      while idx < |chars| && Passes(chars[idx], id, origin)
        modifies {}
        invariant Start(chars, origin) <= idx <= |chars|
        invariant forall i | Start(chars, origin) <= i < idx :: Passes(chars[i], id, origin)
      {
        idx := idx + 1;
      }
      LandsAt(chars, id, origin, idx);
      chars := chars[..idx] + [CrdtChar(id, ch, false, origin)] + chars[idx..];
    }

    method Search(id: CharId) returns (p: nat)
      ensures p == Find(chars, id)
    {
      p := 0;
      while p < |chars| && chars[p].id != id
        invariant p <= |chars|
        invariant forall i | 0 <= i < p :: chars[i].id != id
      {
        p := p + 1;
      }
    }

    method DeleteChar(id: CharId)
      modifies this
      ensures chars == Delete(old(chars), id)
      ensures OnlyHides(old(chars), chars, Find(old(chars), id))
    {
      DeleteText(chars, id);
      var p := Search(id);
      if p < |chars| {
        chars := chars[p := chars[p].(deleted := true)];
      }
    }
  }

  function Typed(initial: string, client: string, i: nat): CrdtChar
    requires i < |initial|
  {
    CrdtChar(CharId(client, i), initial[i], false, if i == 0 then None else Some(CharId(client, i - 1)))
  }

  /** Behind character k of a typed text, a new character lands right there if and only if the
      next character of the text does not yield to it: the text's own characters are siblings
      too, and a client that sorts behind the author is carried past one of them. */
  lemma {:induction false} TypedLanding(doc: Doc, initial: string, client: string, k: nat, id: CharId)
    requires |doc| == |initial| && forall i | 0 <= i < |initial| :: doc[i] == Typed(initial, client, i)
    requires k < |initial|
    ensures var carried := k + 1 < |initial| && After(id, CharId(client, k + 1));
            Landing(doc, id, Some(CharId(client, k))) == if carried then k + 2 else k + 1
  {
    var origin := Some(CharId(client, k));
    assert doc[k].id == CharId(client, k);
    assert Find(doc, CharId(client, k)) == k;
    var carried := k + 1 < |initial| && After(id, CharId(client, k + 1));
    LandsAt(doc, id, origin, if carried then k + 2 else k + 1);
  }

  lemma {:induction false} TextAppend(doc: Doc, c: CrdtChar)
    ensures Text(doc + [c]) == Text(doc) + (if c.deleted then "" else [c.ch])
  {
    if doc != [] {
      assert (doc + [c])[1..] == doc[1..] + [c];
      TextAppend(doc[1..], c);
    }
  }
}
