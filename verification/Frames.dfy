/** The forward-only physical frame allocator. */
module Frames {
  import opened Common
  import opened PageEntries

  datatype Region = Region(start: nat, end: nat, usable: bool)

  predicate Inside(region: Region, address: nat)
  {
    region.start <= address < region.end
  }

  /** The frame addresses start, start + PAGE_SIZE, ... below `end`. */
  function Step(start: nat, end: nat): seq<nat>
    decreases if start < end then end - start else 0
  {
    if start < end then [start] + Step(start + PAGE_SIZE, end) else []
  }

  /** The whole frames of a region: its ends are rounded inwards to page boundaries. */
  function FramesOf(region: Region): seq<nat>
  {
    if !region.usable then []
    else Step((region.start + PAGE_SIZE - 1) / PAGE_SIZE * PAGE_SIZE, region.end / PAGE_SIZE * PAGE_SIZE)
  }

  function UsableFrames(regions: seq<Region>): seq<nat>
  {
    if regions == [] then [] else FramesOf(regions[0]) + UsableFrames(regions[1..])
  }

  predicate WholeFrame(region: Region, f: nat)
  {
    region.usable && f % PAGE_SIZE == 0 && region.start <= f && f + PAGE_SIZE <= region.end
  }

  ghost predicate RegionsDisjoint(regions: seq<Region>)
  {
    forall i, j, a: nat | 0 <= i < j < |regions| :: !(Inside(regions[i], a) && Inside(regions[j], a))
  }

  lemma {:induction false} StepMembers(start: nat, end: nat, f: nat)
    requires start % PAGE_SIZE == 0 && end % PAGE_SIZE == 0
    ensures f in Step(start, end) <==> f % PAGE_SIZE == 0 && start <= f < end
    ensures Distinct(Step(start, end))
    decreases if start < end then end - start else 0
  {
    if start < end {
      var rest := Step(start + PAGE_SIZE, end);
      NextPage(start, f);
      StepMembers(start + PAGE_SIZE, end, f);
      StepMembers(start + PAGE_SIZE, end, start);
      assert f in Step(start, end) <==> f == start || f in rest;
    }
  }

  /** The page boundary after `start` is the next one. */
  lemma NextPage(start: nat, f: nat)
    requires start % PAGE_SIZE == 0
    ensures (start + PAGE_SIZE) % PAGE_SIZE == 0
    ensures f % PAGE_SIZE == 0 && start < f ==> start + PAGE_SIZE <= f
  {
  }

  lemma FramesOfMembers(region: Region, f: nat)
    ensures f in FramesOf(region) <==> WholeFrame(region, f)
    ensures Distinct(FramesOf(region))
  {
    StepMembers((region.start + PAGE_SIZE - 1) / PAGE_SIZE * PAGE_SIZE, region.end / PAGE_SIZE * PAGE_SIZE, f);
    RoundedInwards(region.start, region.end, f, f / PAGE_SIZE);
  }

  /** Between the rounded ends lie exactly the pages that lie between the ends. */
  lemma RoundedInwards(start: nat, end: nat, f: nat, k: nat)
    requires k == f / PAGE_SIZE
    ensures f % PAGE_SIZE == 0 ==>
              ((start + PAGE_SIZE - 1) / PAGE_SIZE * PAGE_SIZE <= f < end / PAGE_SIZE * PAGE_SIZE <==>
               start <= f && f + PAGE_SIZE <= end)
  {
  }

  /** The allocator's frames are exactly the aligned pages that lie wholly in a usable region. */
  lemma {:induction false} UsableFramesMembers(regions: seq<Region>, f: nat)
    ensures f in UsableFrames(regions) <==> exists k | 0 <= k < |regions| :: WholeFrame(regions[k], f)
  {
    if regions != [] {
      FramesOfMembers(regions[0], f);
      UsableFramesMembers(regions[1..], f);
      if k :| 0 <= k < |regions| && WholeFrame(regions[k], f) {
        assert k > 0 ==> WholeFrame(regions[1..][k - 1], f);
      }
      if f in UsableFrames(regions[1..]) {
        var k :| 0 <= k < |regions[1..]| && WholeFrame(regions[1..][k], f);
        assert WholeFrame(regions[k + 1], f);
      }
    }
  }

  /** On disjoint regions no frame is listed twice. */
  lemma {:induction false} UsableFramesDistinct(regions: seq<Region>)
    requires RegionsDisjoint(regions)
    ensures Distinct(UsableFrames(regions))
  {
    if regions != [] {
      var rest := regions[1..];
      forall i, j, a: nat | 0 <= i < j < |rest|
        ensures !(Inside(rest[i], a) && Inside(rest[j], a))
      {
        assert !(Inside(regions[i + 1], a) && Inside(regions[j + 1], a));
      }
      UsableFramesDistinct(rest);
      FramesOfMembers(regions[0], 0);
      forall f | f in FramesOf(regions[0]) && f in UsableFrames(rest)
        ensures false
      {
        FramesOfMembers(regions[0], f);
        UsableFramesMembers(rest, f);
        var k :| 0 <= k < |rest| && WholeFrame(rest[k], f);
        assert Inside(regions[0], f) && Inside(regions[k + 1], f);
      }
      DistinctConcat(FramesOf(regions[0]), UsableFrames(rest));
    }
  }

  lemma {:induction false} StepAt(start: nat, end: nat, i: nat)
    requires i < |Step(start, end)|
    ensures Step(start, end)[i] == start + i * PAGE_SIZE
    decreases i
  {
    if i > 0 {
      StepAt(start + PAGE_SIZE, end, i - 1);
    }
  }

  /** Of two regions the one named first is handed out first, and each from its lowest frame
      upwards without a gap. */
  lemma {:induction false} UsableFramesInOrder(regions: seq<Region>, k: nat, i: nat)
    requires k < |regions| && i < |FramesOf(regions[k])|
    ensures |UsableFrames(regions[..k])| + i < |UsableFrames(regions)|
    ensures UsableFrames(regions)[|UsableFrames(regions[..k])| + i] == FramesOf(regions[k])[0] + i * PAGE_SIZE
    ensures WholeFrame(regions[k], FramesOf(regions[k])[0])
    ensures FramesOf(regions[k])[0] < regions[k].start + PAGE_SIZE
  {
    if k > 0 {
      UsableFramesInOrder(regions[1..], k - 1, i);
      assert regions[1..][..k - 1] == regions[..k][1..];
    } else {
      var region := regions[0];
      StepAt((region.start + PAGE_SIZE - 1) / PAGE_SIZE * PAGE_SIZE, region.end / PAGE_SIZE * PAGE_SIZE, i);
      FramesOfMembers(region, FramesOf(region)[0]);
    }
  }

  lemma DistinctConcat<T(!new)>(a: seq<T>, b: seq<T>)
    requires Distinct(a) && Distinct(b)
    requires forall x | x in a :: x !in b
    ensures Distinct(a + b)
  {
    forall i, j | 0 <= i < j < |a + b|
      ensures (a + b)[i] != (a + b)[j]
    {
      if i < |a| <= j {
        assert a[i] in a;
        assert b[j - |a|] in b;
      }
    }
  }

  /** `count` consecutive page frames at position `p`. */
  ghost predicate IsWindow(frames: seq<nat>, p: nat, count: nat)
  {
    p + count <= |frames| && forall i: nat | i < count :: InLine(frames, p, i)
  }

  predicate InLine(frames: seq<nat>, p: nat, i: nat)
    requires p + i < |frames|
  {
    frames[p + i] == frames[p] + i * PAGE_SIZE
  }

  /** No window starts at `from`: the earliest one at or after it is the earliest behind it. */
  lemma SkipFrame(frames: seq<nat>, from: nat, to: nat, count: nat, r: Option<nat>)
    requires !IsWindow(frames, from, count) && EarliestWindow(frames, from + 1, to, count, r)
    ensures EarliestWindow(frames, from, to, count, r)
  {
  }

  /** What comparing `count` frames from `p` on with a run of consecutive ones tells. */
  datatype Comparison = Matches | Differs | EndReached

  method CompareWindow(frames: seq<nat>, p: nat, count: nat) returns (c: Comparison)
    requires p < |frames| && count > 0
    ensures c.Matches? <==> IsWindow(frames, p, count)
    ensures c.EndReached? ==> p + count > |frames|
  {
    var first := frames[p];
    for i := 1 to count
      invariant IsWindow(frames, p, i)
    {
      if p + i >= |frames| {
        return EndReached;
      }
      if frames[p + i] != first + i * PAGE_SIZE {
        assert !InLine(frames, p, i);
        return Differs;
      }
    }
    c := Matches;
  }

  /** The answer `r` to a request for `count` frames, moving the cursor from `from` to `to`:
      the first frame of the earliest window at or after `from`, with the cursor just behind
      it, or none when there is no such window (or no frame was asked for). */
  ghost predicate EarliestWindow(frames: seq<nat>, from: nat, to: nat, count: nat, r: Option<nat>)
  {
    match r
    case Some(first) =>
      && count > 0
      && from + count <= to
      && IsWindow(frames, to - count, count)
      && first == frames[to - count]
      && forall q: nat | from <= q < to - count :: !IsWindow(frames, q, count)
    case None =>
      && from <= to
      && (count > 0 ==> forall q: nat | from <= q :: !IsWindow(frames, q, count))
  }

  /** The frames an answer to a request for `count` frames hands out. */
  function Grant(frames: seq<nat>, next: nat, count: nat, r: Option<nat>): seq<nat>
  {
    if r.Some? && count <= next <= |frames| then frames[next - count..next] else []
  }

  class FrameAllocator {
    const regions: seq<Region>
    var next: nat

    constructor (regions: seq<Region>)
      ensures this.regions == regions && next == 0
    {
      this.regions := regions;
      next := 0;
    }

    function Frames(): seq<nat>
    {
      UsableFrames(regions)
    }

    /** Hands out the frame under the cursor; the cursor moves even when none is left. */
    method Allocate() returns (r: Option<nat>)
      modifies this
      ensures next == old(next) + 1
      ensures r == if old(next) < |Frames()| then Some(Frames()[old(next)]) else None
      ensures Granted(Frames(), old(next), next, if r.Some? then [r.value] else [])
    {
      r := if next < |Frames()| then Some(Frames()[next]) else None;
      next := next + 1;
      assert r.Some? ==> GrantedAt(Frames(), old(next), next, [r.value], old(next));
    }

    /** Hands out the earliest window of `count` consecutive frames at or after the cursor. */
    method AllocateContiguous(count: nat) returns (r: Option<nat>)
      modifies this
      ensures count == 0 ==> next == old(next)
      ensures EarliestWindow(Frames(), old(next), next, count, r)
      decreases |Frames()| - next
    {
      if count == 0 || next >= |Frames()| {
        return None;
      }
      var c := CompareWindow(Frames(), next, count);
      match c
      case EndReached =>
        return None;
      case Differs =>
        next := next + 1;
        r := AllocateContiguous(count);
        SkipFrame(Frames(), old(next), next, count, r);
      case Matches =>
        r := Some(Frames()[next]);
        next := next + count;
    }
  }

  // ------------------------------------------------------------ over a whole run

  /** A grant is a run of frames between two positions of the cursor. */
  predicate GrantedAt(frames: seq<nat>, from: nat, to: nat, grant: seq<nat>, a: nat)
  {
    from <= a && a + |grant| <= to && a + |grant| <= |frames| && grant == frames[a..a + |grant|]
  }

  ghost predicate Granted(frames: seq<nat>, from: nat, to: nat, grant: seq<nat>)
  {
    from <= to && (grant != [] ==> exists a: nat :: GrantedAt(frames, from, to, grant, a))
  }

  /** The grants of a run of requests, with the cursor before, between and after them. */
  ghost predicate Run(frames: seq<nat>, cursors: seq<nat>, grants: seq<seq<nat>>)
  {
    && |cursors| == |grants| + 1
    && forall i | 0 <= i < |grants| :: Granted(frames, cursors[i], cursors[i + 1], grants[i])
  }

  lemma {:induction false} CursorsGrow(frames: seq<nat>, cursors: seq<nat>, grants: seq<seq<nat>>, i: nat, j: nat)
    requires Run(frames, cursors, grants) && i <= j < |cursors|
    ensures cursors[i] <= cursors[j]
  {
    if i < j {
      CursorsGrow(frames, cursors, grants, i, j - 1);
      assert Granted(frames, cursors[j - 1], cursors[j], grants[j - 1]);
    }
  }

  /** Two grants of a run never overlap in the frame list. */
  lemma GrantsApart(frames: seq<nat>, cursors: seq<nat>, grants: seq<seq<nat>>, i: nat, j: nat, a: nat, b: nat)
    requires Run(frames, cursors, grants) && i < j < |grants|
    requires GrantedAt(frames, cursors[i], cursors[i + 1], grants[i], a)
    requires GrantedAt(frames, cursors[j], cursors[j + 1], grants[j], b)
    ensures a + |grants[i]| <= b
  {
    CursorsGrow(frames, cursors, grants, i + 1, j);
  }

  lemma WindowIsGranted(frames: seq<nat>, from: nat, to: nat, count: nat, r: Option<nat>)
    requires EarliestWindow(frames, from, to, count, r)
    ensures Granted(frames, from, to, Grant(frames, to, count, r))
  {
    if r.Some? {
      assert GrantedAt(frames, from, to, Grant(frames, to, count, r), to - count);
    }
  }

  lemma {:induction false} GrantsDistinct(frames: seq<nat>, cursors: seq<nat>, grants: seq<seq<nat>>,
                                          i: nat, k: nat, j: nat, l: nat)
    requires Distinct(frames) && Run(frames, cursors, grants)
    requires i < |grants| && k < |grants[i]| && j < |grants| && l < |grants[j]|
    ensures grants[i][k] == grants[j][l] ==> i == j && k == l
    ensures grants[i][k] in frames
  {
    var a := Granting(frames, cursors, grants, i);
    if i == j {
      DistinctAt(frames, a + k, a + l);
    } else {
      var b := Granting(frames, cursors, grants, j);
      DistinctAt(frames, a + k, b + l);
      if i < j {
        GrantsApart(frames, cursors, grants, i, j, a, b);
      } else {
        GrantsApart(frames, cursors, grants, j, i, b, a);
      }
    }
  }

  /** Over any mix of single and contiguous requests, no frame is handed out twice and
      every frame handed out is an aligned page inside a usable region. */
  lemma {:induction false} FramesHandedOutOnce(regions: seq<Region>, cursors: seq<nat>, grants: seq<seq<nat>>,
                                               i: nat, k: nat, j: nat, l: nat)
    requires RegionsDisjoint(regions) && Run(UsableFrames(regions), cursors, grants)
    requires i < |grants| && k < |grants[i]| && j < |grants| && l < |grants[j]|
    ensures grants[i][k] == grants[j][l] ==> i == j && k == l
    ensures exists r | 0 <= r < |regions| :: WholeFrame(regions[r], grants[i][k])
  {
    UsableFramesDistinct(regions);
    GrantsDistinct(UsableFrames(regions), cursors, grants, i, k, j, l);
    UsableFramesMembers(regions, grants[i][k]);
  }

  lemma DistinctAt<T(!new)>(s: seq<T>, i: nat, j: nat)
    requires Distinct(s) && i < |s| && j < |s|
    ensures s[i] == s[j] ==> i == j
  {
  }

  lemma Granting(frames: seq<nat>, cursors: seq<nat>, grants: seq<seq<nat>>, i: nat) returns (a: nat)
    requires Run(frames, cursors, grants) && i < |grants| && grants[i] != []
    ensures GrantedAt(frames, cursors[i], cursors[i + 1], grants[i], a)
  {
    assert Granted(frames, cursors[i], cursors[i + 1], grants[i]);
    a :| GrantedAt(frames, cursors[i], cursors[i + 1], grants[i], a);
  }
}
