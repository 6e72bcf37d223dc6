/** How normalization treats the parts of a path: what `.`, `..` and a further component do. */
module PathLaws {
  import opened UstarPaths

  // ------------------------------------------------------------ parts

  /** The parts with one slash between any two. */
  function Between(parts: seq<seq<Byte>>): seq<Byte>
    requires parts != []
  {
    if |parts| == 1 then parts[0] else parts[0] + [SLASH] + Between(parts[1..])
  }

  /** Splitting loses nothing: no part has a slash, and slashes between them give the path. */
  lemma {:induction false} SplitBetween(p: seq<Byte>)
    ensures Between(Split(p)) == p
    ensures forall i | 0 <= i < |Split(p)| :: SLASH !in Split(p)[i]
  {
    SplitHasNoSlash(p);
    if p != [] {
      var rest := Split(p[1..]);
      SplitBetween(p[1..]);
      assert p == [p[0]] + p[1..];
      if p[0] == SLASH {
        assert ([[]] + rest)[1..] == rest;
      } else {
        assert ([[p[0]] + rest[0]] + rest[1..])[1..] == rest[1..];
      }
    }
  }

  lemma {:induction false} SplitConcat(p: seq<Byte>, q: seq<Byte>)
    ensures Split(p + [SLASH] + q) == Split(p) + Split(q)
  {
    if p == [] {
      assert p + [SLASH] + q == [SLASH] + q && ([SLASH] + q)[1..] == q;
    } else {
      SplitConcat(p[1..], q);
      SplitMore(p[0], p[1..], q, p[1..] + [SLASH] + q);
      assert p + [SLASH] + q == [p[0]] + (p[1..] + [SLASH] + q) && [p[0]] + p[1..] == p;
    }
  }

  lemma SplitMore(b: Byte, p: seq<Byte>, q: seq<Byte>, rest: seq<Byte>)
    requires Split(rest) == Split(p) + Split(q)
    ensures Split([b] + rest) == Split([b] + p) + Split(q)
  {
    SplitFirst(b, rest);
    SplitFirst(b, p);
    Prepended(b, Split(p), Split(q));
  }

  /** One more byte in front starts a new part or joins the first. */
  function WithFirst(b: Byte, parts: seq<seq<Byte>>): seq<seq<Byte>>
    requires parts != []
  {
    if b == SLASH then [[]] + parts else [[b] + parts[0]] + parts[1..]
  }

  lemma SplitFirst(b: Byte, p: seq<Byte>)
    ensures Split([b] + p) == WithFirst(b, Split(p))
  {
    assert ([b] + p)[1..] == p;
  }

  lemma Prepended(b: Byte, parts: seq<seq<Byte>>, more: seq<seq<Byte>>)
    requires parts != []
    ensures WithFirst(b, parts + more) == WithFirst(b, parts) + more
  {
    assert (parts + more)[1..] == parts[1..] + more;
  }

  lemma {:induction false} ResolveConcat(stack: seq<seq<Byte>>, a: seq<seq<Byte>>, b: seq<seq<Byte>>)
    ensures Resolve(stack, a + b) == Resolve(Resolve(stack, a), b)
    decreases a
  {
    if a == [] {
      assert a + b == b;
    } else {
      assert (a + b)[1..] == a[1..] + b;
      ResolveConcat(ResolveOne(stack, a[0]), a[1..], b);
    }
  }

  // ------------------------------------------------------------ trimming

  /** A run of white space characters. */
  ghost predicate Spaces(p: seq<Byte>)
    decreases |p|
  {
    p == [] || exists k: nat | 0 < k <= |p| :: IsSpace(p[..k]) && Spaces(p[k..])
  }

  /** A run of white space characters, read from the end. */
  ghost predicate SpacesBack(p: seq<Byte>)
    decreases |p|
  {
    p == [] || exists k: nat | k < |p| :: IsSpace(p[k..]) && SpacesBack(p[..k])
  }

  /** Trimming cuts a run of white space off the front and one off the end, and leaves none
      at either. */
  lemma TrimExact(p: seq<Byte>) returns (from: nat, to: nat)
    ensures from <= to <= |p| && Trim(p) == p[from..to]
    ensures Spaces(p[..from]) && SpacesBack(p[to..]) && Trimmed(Trim(p))
  {
    from := TrimStartSuffix(p);
    TrimStartSpaces(p, from);
    TrimStartEnds(p);
    var rest := p[from..];
    var kept := TrimEndExact(rest);
    PrefixFront(rest, kept);
    to := from + kept;
    assert p[from..to] == rest[..kept] && p[to..] == rest[kept..];
  }

  lemma TrimEndExact(rest: seq<Byte>) returns (kept: nat)
    ensures kept <= |rest| && TrimEnd(rest) == rest[..kept] && SpacesBack(rest[kept..]) && SpaceAtEnd(rest[..kept]) == 0
  {
    kept := TrimEndPrefix(rest);
    TrimEndEnds(rest);
  }

  lemma {:induction false} TrimStartEnds(p: seq<Byte>)
    ensures SpaceAtFront(TrimStart(p)) == 0
    decreases |p|
  {
    var n := SpaceAtFront(p);
    if n > 0 {
      TrimStartEnds(p[n..]);
    }
  }

  lemma {:induction false} TrimEndEnds(p: seq<Byte>)
    ensures SpaceAtEnd(TrimEnd(p)) == 0
    decreases |p|
  {
    var n := SpaceAtEnd(p);
    if n > 0 {
      TrimEndEnds(p[..|p| - n]);
    }
  }

  lemma {:induction false} TrimStartSuffix(p: seq<Byte>) returns (cut: nat)
    ensures cut <= |p| && TrimStart(p) == p[cut..]
    decreases |p|
  {
    cut := 0;
    var n := SpaceAtFront(p);
    if n > 0 {
      var c := TrimStartSuffix(p[n..]);
      cut := n + c;
    }
  }

  lemma {:induction false} TrimStartSpaces(p: seq<Byte>, cut: nat)
    requires cut <= |p| && |TrimStart(p)| == |p| - cut
    ensures Spaces(p[..cut])
    decreases |p|
  {
    var n := SpaceAtFront(p);
    if n > 0 {
      var c := TrimStartSuffix(p[n..]);
      TrimStartSpaces(p[n..], c);
      assert cut == n + c;
      MoreSpaces(p, n, cut);
    }
  }

  lemma MoreSpaces(p: seq<Byte>, n: nat, cut: nat)
    requires 0 < n <= cut <= |p| && IsSpace(p[..n]) && Spaces(p[n..][..cut - n])
    ensures Spaces(p[..cut])
  {
    assert p[..cut][..n] == p[..n] && p[..cut][n..] == p[n..][..cut - n];
  }

  lemma {:induction false} TrimEndPrefix(p: seq<Byte>) returns (cut: nat)
    ensures cut <= |p| && TrimEnd(p) == p[..cut] && SpacesBack(p[cut..])
    decreases |p|, 1
  {
    cut := |p|;
    var n := SpaceAtEnd(p);
    if n > 0 {
      cut := TrimEndShorter(p, p[..|p| - n]);
    } else {
      assert p[cut..] == [];
    }
  }

  lemma {:induction false} TrimEndShorter(p: seq<Byte>, q: seq<Byte>) returns (cut: nat)
    requires |q| < |p| && q == p[..|q|] && IsSpace(p[|q|..])
    ensures cut <= |p| && TrimEnd(q) == p[..cut] && SpacesBack(p[cut..])
    decreases |p|, 0
  {
    cut := TrimEndPrefix(q);
    MoreSpacesBack(p, |q|, cut);
    assert p[..cut] == q[..cut];
  }

  lemma MoreSpacesBack(p: seq<Byte>, k: nat, cut: nat)
    requires cut <= k < |p| && IsSpace(p[k..]) && SpacesBack(p[..k][cut..])
    ensures SpacesBack(p[cut..])
  {
    assert p[cut..][k - cut..] == p[k..] && p[cut..][..k - cut] == p[..k][cut..];
  }

  lemma PrefixFront(p: seq<Byte>, n: nat)
    requires n <= |p| && SpaceAtFront(p) == 0
    ensures SpaceAtFront(p[..n]) == 0
  {
    assert n >= 1 ==> p[..n][..1] == p[..1];
    assert n >= 2 ==> p[..n][..2] == p[..2];
    assert n >= 3 ==> p[..n][..3] == p[..3];
  }

  /** A slash keeps white space on its own side. */
  lemma NoFront(p: seq<Byte>, q: seq<Byte>, k: nat)
    requires k > 0 && !SpaceFirst(p, k)
    ensures !SpaceFirst(p + [SLASH] + q, k)
  {
    var a := p + [SLASH] + q;
    if k <= |p| {
      assert a[..k] == p[..k];
    } else if k <= |a| {
      assert a[..k][|p|] == SLASH;
      SpaceHasNoSlash(a[..k]);
    }
  }

  lemma NoBack(p: seq<Byte>, q: seq<Byte>, k: nat)
    requires k > 0 && !SpaceLast(q, k)
    ensures !SpaceLast(p + [SLASH] + q, k)
  {
    var a := p + [SLASH] + q;
    if k <= |q| {
      assert a[|a| - k..] == q[|q| - k..];
    } else if k <= |a| {
      assert a[|a| - k..][k - 1 - |q|] == SLASH;
      SpaceHasNoSlash(a[|a| - k..]);
    }
  }

  lemma TrimmedBetween(p: seq<Byte>, q: seq<Byte>)
    requires Trimmed(p) && Trimmed(q)
    ensures Trimmed(p + [SLASH] + q) && Trim(p + [SLASH] + q) == p + [SLASH] + q
  {
    FrontBetween(p, q);
    BackBetween(p, q);
    TrimmedStays(p + [SLASH] + q);
  }

  // ------------------------------------------------------------ laws of normalization

  lemma ComponentsBetween(p: seq<Byte>, q: seq<Byte>)
    requires Trimmed(p) && Trimmed(q)
    ensures Components(p + [SLASH] + q) == Resolve(Components(p), Split(q))
  {
    TrimmedBetween(p, q);
    TrimmedStays(p);
    SplitConcat(p, q);
    ResolveConcat([], Split(p), Split(q));
  }

  lemma PartsOf(part: seq<Byte>, stack: seq<seq<Byte>>)
    requires SLASH !in part
    ensures Resolve(stack, Split(part)) == ResolveOne(stack, part)
  {
    SplitPart(part, []);
    assert [part][1..] == [];
  }

  /** A further component is appended. */
  lemma NormalizeInto(p: seq<Byte>, c: seq<Byte>)
    requires Trimmed(p) && Trimmed(c) && Component(c)
    ensures Normalize(p + [SLASH] + c) == (if Normalize(p) == [SLASH] then [] else Normalize(p)) + [SLASH] + c
  {
    ComponentsBetween(p, c);
    PartsOf(c, Components(p));
    JoinLast(Components(p), c);
    RootOnly(p);
  }

  lemma {:induction false} JoinLast(components: seq<seq<Byte>>, c: seq<Byte>)
    ensures Join(components + [c]) == Join(components) + [SLASH] + c
  {
    if components == [] {
      assert components + [c] == [c] && [c][1..] == [];
    } else {
      assert (components + [c])[1..] == components[1..] + [c];
      JoinLast(components[1..], c);
    }
  }

  /** Only a path without components normalizes to the root. */
  lemma RootOnly(p: seq<Byte>)
    ensures Normalize(p) == [SLASH] <==> Components(p) == []
  {
    var components := NormalizedForm(p);
    if components != [] {
      assert Component(components[0]);
      assert |Join(components)| > 1;
    }
  }

  /** A `.` changes nothing. */
  lemma NormalizeDot(p: seq<Byte>)
    requires Trimmed(p)
    ensures Normalize(p + [SLASH] + [DOT]) == Normalize(p)
  {
    PartAt(p, [DOT]);
  }

  lemma PartAt(p: seq<Byte>, part: seq<Byte>)
    requires Trimmed(p) && (part == [DOT] || part == [DOT, DOT])
    ensures Components(p + [SLASH] + part) == ResolveOne(Components(p), part)
  {
    DotsTrimmed(part);
    ComponentsBetween(p, part);
    PartsOf(part, Components(p));
  }

  lemma DotsTrimmed(part: seq<Byte>)
    requires part == [DOT] || part == [DOT, DOT]
    ensures Trimmed(part) && SLASH !in part
  {
    DotIsNoSpace(part, 1);
    DotIsNoSpace(part, 2);
    DotIsNoSpace(part, 3);
  }

  lemma DotIsNoSpace(part: seq<Byte>, k: nat)
    requires 0 < k && forall i | 0 <= i < |part| :: part[i] == DOT
    ensures !SpaceFirst(part, k) && !SpaceLast(part, k)
  {
    if k <= |part| {
      assert part[..k][0] == DOT && part[|part| - k..][0] == DOT;
    }
  }

  /** A `..` takes back the component before it. */
  lemma NormalizeUp(p: seq<Byte>, c: seq<Byte>)
    requires Trimmed(p) && Component(c)
    ensures Normalize(p + [SLASH] + c + [SLASH] + [DOT, DOT]) == Normalize(p)
  {
    UpFrom(p, c, [DOT, DOT]);
  }

  lemma UpFrom(p: seq<Byte>, c: seq<Byte>, up: seq<Byte>)
    requires Trimmed(p) && Component(c) && up == [DOT, DOT]
    ensures Components(p + [SLASH] + c + [SLASH] + up) == Components(p)
  {
    UpTrimmed(p, c, up);
    TrimmedStays(p);
    TrimmedStays(p + [SLASH] + c + [SLASH] + up);
    SplitConcat(p + [SLASH] + c, up);
    SplitConcat(p, c);
    SplitPart(c, []);
    SplitPart(up, []);
    ResolveLast([], Split(p) + [c], up);
    ResolveLast([], Split(p), c);
  }

  lemma UpTrimmed(p: seq<Byte>, c: seq<Byte>, up: seq<Byte>)
    requires Trimmed(p) && up == [DOT, DOT]
    ensures Trimmed(p + [SLASH] + c + [SLASH] + up)
  {
    DotsTrimmed(up);
    FrontBetween(p, c + [SLASH] + up);
    BackBetween(p + [SLASH] + c, up);
    assert p + [SLASH] + (c + [SLASH] + up) == p + [SLASH] + c + [SLASH] + up;
  }

  lemma FrontBetween(p: seq<Byte>, q: seq<Byte>)
    requires SpaceAtFront(p) == 0
    ensures SpaceAtFront(p + [SLASH] + q) == 0
  {
    NoFront(p, q, 1);
    NoFront(p, q, 2);
    NoFront(p, q, 3);
  }

  lemma BackBetween(p: seq<Byte>, q: seq<Byte>)
    requires SpaceAtEnd(q) == 0
    ensures SpaceAtEnd(p + [SLASH] + q) == 0
  {
    NoBack(p, q, 1);
    NoBack(p, q, 2);
    NoBack(p, q, 3);
  }

  /** Above the root there is nothing: a leading `..` is dropped. */
  lemma NormalizeAboveRoot(p: seq<Byte>, up: seq<Byte>)
    requires Trimmed(p) && up == [DOT, DOT]
    ensures Normalize([SLASH] + up + [SLASH] + p) == Normalize([SLASH] + p)
  {
    var root: seq<Byte> := [];
    AboveRoot(root, up, p);
    assert root + [SLASH] == [SLASH];
  }

  lemma AboveRoot(root: seq<Byte>, up: seq<Byte>, p: seq<Byte>)
    requires root == [] && up == [DOT, DOT] && Trimmed(p)
    ensures Components(root + [SLASH] + up + [SLASH] + p) == Components(root + [SLASH] + p)
  {
    DotsTrimmed(up);
    TrimmedBetween(root, up);
    PartAt(root, up);
    ComponentsBetween(root + [SLASH] + up, p);
    ComponentsBetween(root, p);
    EmptyNamesNothing(root);
  }

  lemma EmptyNamesNothing(p: seq<Byte>)
    requires p == []
    ensures Trimmed(p) && Components(p) == []
  {
  }
}
