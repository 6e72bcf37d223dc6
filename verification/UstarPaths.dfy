/** Paths in the archive: UTF-8 bytes, trimming, splitting and normalization. */
module UstarPaths {

  type Byte = b: int | 0 <= b < 256

  const SLASH: Byte := 47
  const DOT: Byte := 46

  // ------------------------------------------------------------ UTF-8

  predicate Tail(b: Byte) { 0x80 <= b <= 0xBF }

  /** Well-formed UTF-8, by the byte ranges of section 4 of RFC 3629. */
  predicate Utf8(p: seq<Byte>)
  {
    || p == []
    || (p[0] < 0x80 && Utf8(p[1..]))
    || (|p| >= 2 && 0xC2 <= p[0] <= 0xDF && Tail(p[1]) && Utf8(p[2..]))
    || (|p| >= 3 && ThreeBytes(p[0], p[1], p[2]) && Utf8(p[3..]))
    || (|p| >= 4 && FourBytes(p[0], p[1], p[2], p[3]) && Utf8(p[4..]))
  }

  predicate ThreeBytes(a: Byte, b: Byte, c: Byte)
  {
    Tail(c) && ((a == 0xE0 && 0xA0 <= b <= 0xBF) || (0xE1 <= a <= 0xEC && Tail(b))
                || (a == 0xED && 0x80 <= b <= 0x9F) || (0xEE <= a <= 0xEF && Tail(b)))
  }

  predicate FourBytes(a: Byte, b: Byte, c: Byte, d: Byte)
  {
    Tail(c) && Tail(d) && ((a == 0xF0 && 0x90 <= b <= 0xBF) || (0xF1 <= a <= 0xF3 && Tail(b))
                           || (a == 0xF4 && 0x80 <= b <= 0x8F))
  }

  lemma {:induction false} Utf8Slash(p: seq<Byte>)
    requires Utf8(p)
    ensures Utf8(p + [SLASH])
  {
    var q := p + [SLASH];
    if p == [] {
      assert q[1..] == [];
    } else if p[0] < 0x80 {
      Utf8Slash(p[1..]);
      assert q[1..] == p[1..] + [SLASH];
    } else if |p| >= 2 && 0xC2 <= p[0] <= 0xDF {
      Utf8Slash(p[2..]);
      assert q[2..] == p[2..] + [SLASH];
    } else if |p| >= 3 && ThreeBytes(p[0], p[1], p[2]) {
      Utf8Slash(p[3..]);
      assert q[3..] == p[3..] + [SLASH];
    } else {
      Utf8Slash(p[4..]);
      assert q[4..] == p[4..] + [SLASH];
    }
  }

  // ------------------------------------------------------------ trimming

  /** The encodings of the characters with the Unicode White_Space property. */
  predicate IsSpace(p: seq<Byte>)
  {
    match |p|
    case 1 => 9 <= p[0] <= 13 || p[0] == 32
    case 2 => p[0] == 0xC2 && (p[1] == 0x85 || p[1] == 0xA0)
    case 3 =>
      || (p[0] == 0xE1 && p[1] == 0x9A && p[2] == 0x80)
      || (p[0] == 0xE2 && p[1] == 0x80 && (0x80 <= p[2] <= 0x8A || p[2] == 0xA8 || p[2] == 0xA9 || p[2] == 0xAF))
      || (p[0] == 0xE2 && p[1] == 0x81 && p[2] == 0x9F)
      || (p[0] == 0xE3 && p[1] == 0x80 && p[2] == 0x80)
    case _ => false
  }

  /** The first, or the last, `k` bytes are a white space character. */
  predicate SpaceFirst(p: seq<Byte>, k: nat)
  {
    k <= |p| && IsSpace(p[..k])
  }

  predicate SpaceLast(p: seq<Byte>, k: nat)
  {
    k <= |p| && IsSpace(p[|p| - k..])
  }

  /** The length of the white space character at the front, or 0. */
  function SpaceAtFront(p: seq<Byte>): (n: nat)
    ensures n <= |p|
  {
    if SpaceFirst(p, 1) then 1 else if SpaceFirst(p, 2) then 2 else if SpaceFirst(p, 3) then 3 else 0
  }

  function SpaceAtEnd(p: seq<Byte>): (n: nat)
    ensures n <= |p|
  {
    if SpaceLast(p, 1) then 1 else if SpaceLast(p, 2) then 2 else if SpaceLast(p, 3) then 3 else 0
  }

  function TrimStart(p: seq<Byte>): seq<Byte>
  {
    var n := SpaceAtFront(p);
    if n == 0 then p else TrimStart(p[n..])
  }

  function TrimEnd(p: seq<Byte>): seq<Byte>
  {
    var n := SpaceAtEnd(p);
    if n == 0 then p else TrimEnd(p[..|p| - n])
  }

  function Trim(p: seq<Byte>): seq<Byte>
  {
    TrimEnd(TrimStart(p))
  }

  /** No white space at either end. */
  predicate Trimmed(p: seq<Byte>)
  {
    SpaceAtFront(p) == 0 && SpaceAtEnd(p) == 0
  }

  lemma TrimmedStays(p: seq<Byte>)
    requires Trimmed(p)
    ensures Trim(p) == p
  {
  }

  lemma SpaceHasNoSlash(p: seq<Byte>)
    requires SLASH in p
    ensures !IsSpace(p)
  {
  }

  lemma SlashInFront(p: seq<Byte>, k: nat)
    requires k > 0 && !SpaceLast(p, k)
    ensures !SpaceFirst([SLASH] + p, k) && !SpaceLast([SLASH] + p, k)
  {
    var a := [SLASH] + p;
    if k <= |p| {
      assert a[..k][0] == SLASH;
      SpaceHasNoSlash(a[..k]);
      assert a[|a| - k..] == p[|p| - k..];
    } else if k == |a| {
      assert a[..k] == a && a[|a| - k..] == a && a[0] == SLASH;
      SpaceHasNoSlash(a);
    }
  }

  lemma SlashAtEnd(p: seq<Byte>, k: nat)
    requires k > 0 && !SpaceFirst(p, k)
    ensures !SpaceFirst(p + [SLASH], k) && !SpaceLast(p + [SLASH], k)
  {
    var a := p + [SLASH];
    if k <= |p| {
      assert a[|a| - k..][k - 1] == SLASH;
      SpaceHasNoSlash(a[|a| - k..]);
      assert a[..k] == p[..k];
    } else if k == |a| {
      assert a[..k] == a && a[|a| - k..] == a && a[|p|] == SLASH;
      SpaceHasNoSlash(a);
    }
  }

  /** A slash on either side of a trimmed path hides no white space. */
  lemma TrimmedSlash(p: seq<Byte>)
    requires Trimmed(p)
    ensures Trimmed([SLASH] + p) && Trimmed(p + [SLASH])
  {
    SlashInFront(p, 1);
    SlashInFront(p, 2);
    SlashInFront(p, 3);
    SlashAtEnd(p, 1);
    SlashAtEnd(p, 2);
    SlashAtEnd(p, 3);
  }

  // ------------------------------------------------------------ components

  /** The parts between slashes; there is always at least one. */
  function Split(p: seq<Byte>): (parts: seq<seq<Byte>>)
    ensures parts != []
  {
    if p == [] then [[]]
    else
      var rest := Split(p[1..]);
      if p[0] == SLASH then [[]] + rest else [[p[0]] + rest[0]] + rest[1..]
  }

  function Resolve(stack: seq<seq<Byte>>, parts: seq<seq<Byte>>): seq<seq<Byte>>
    decreases parts
  {
    if parts == [] then stack else Resolve(ResolveOne(stack, parts[0]), parts[1..])
  }

  /** Empty and `.` parts vanish, `..` removes the last component if there is one. */
  function ResolveOne(stack: seq<seq<Byte>>, part: seq<Byte>): seq<seq<Byte>>
  {
    if part == [] || part == [DOT] then stack
    else if part == [DOT, DOT] then (if stack == [] then [] else stack[..|stack| - 1])
    else stack + [part]
  }

  /** The parts that name something, read from the right: `ups` of them are cancelled by the
      `..` parts behind them, and a `..` that finds nothing to cancel is dropped. */
  function Surviving(parts: seq<seq<Byte>>, ups: nat): seq<seq<Byte>>
    decreases |parts|
  {
    if parts == [] then []
    else
      var init, part := parts[..|parts| - 1], parts[|parts| - 1];
      if part == [] || part == [DOT] then Surviving(init, ups)
      else if part == [DOT, DOT] then Surviving(init, ups + 1)
      else if ups > 0 then Surviving(init, ups - 1)
      else Surviving(init, 0) + [part]
  }

  function Dropped(components: seq<seq<Byte>>, n: nat): seq<seq<Byte>>
  {
    if n < |components| then components[..|components| - n] else []
  }

  function Join(components: seq<seq<Byte>>): seq<Byte>
  {
    if components == [] then [] else [SLASH] + components[0] + Join(components[1..])
  }

  /** The components a path names. */
  function Components(path: seq<Byte>): seq<seq<Byte>>
  {
    Resolve([], Split(Trim(path)))
  }

  function Rooted(components: seq<seq<Byte>>): seq<Byte>
  {
    if components == [] then [SLASH] else Join(components)
  }

  function Normalize(path: seq<Byte>): seq<Byte>
  {
    Rooted(Components(path))
  }

  lemma {:induction false} SplitTrailingSlash(p: seq<Byte>)
    ensures Split(p + [SLASH]) == Split(p) + [[]]
  {
    if p == [] {
      assert p + [SLASH] == [SLASH];
      assert [SLASH][1..] == [];
    } else {
      assert (p + [SLASH])[1..] == p[1..] + [SLASH];
      SplitTrailingSlash(p[1..]);
    }
  }

  lemma {:induction false} ResolveLast(stack: seq<seq<Byte>>, parts: seq<seq<Byte>>, part: seq<Byte>)
    ensures Resolve(stack, parts + [part]) == ResolveOne(Resolve(stack, parts), part)
    decreases parts
  {
    if parts == [] {
      assert parts + [part] == [part];
      assert [part][1..] == [];
    } else {
      assert (parts + [part])[1..] == parts[1..] + [part];
      ResolveLast(ResolveOne(stack, parts[0]), parts[1..], part);
    }
  }

  /** The stack the loop keeps from left to right holds what survives from right to left. */
  lemma {:induction false} ResolveSurvives(parts: seq<seq<Byte>>, n: nat)
    ensures Surviving(parts, n) == Dropped(Resolve([], parts), n)
    decreases |parts|
  {
    if parts != [] {
      var init, part := parts[..|parts| - 1], parts[|parts| - 1];
      assert parts == init + [part];
      ResolveLast([], init, part);
      var stack := Resolve([], init);
      ResolveSurvives(init, n);
      ResolveSurvives(init, n + 1);
      if n > 0 {
        ResolveSurvives(init, n - 1);
        assert Dropped(stack + [part], n) == Dropped(stack, n - 1);
      } else {
        assert Dropped(stack + [part], 0) == stack + [part] && Dropped(stack, 0) == stack;
      }
      assert stack != [] ==> Dropped(stack[..|stack| - 1], n) == Dropped(stack, n + 1);
    }
  }

  lemma ResolveAllSurvives(parts: seq<seq<Byte>>)
    ensures Resolve([], parts) == Surviving(parts, 0)
  {
    ResolveSurvives(parts, 0);
    var stack := Resolve([], parts);
    assert stack[..|stack|] == stack;
  }

  /** Slashes around a trimmed path change nothing. */
  lemma NormalizeSlash(p: seq<Byte>)
    requires Trimmed(p)
    ensures Normalize([SLASH] + p) == Normalize(p) && Normalize(p + [SLASH]) == Normalize(p)
  {
    TrimmedSlash(p);
    TrimmedStays(p);
    TrimmedStays([SLASH] + p);
    TrimmedStays(p + [SLASH]);
    assert ([SLASH] + p)[1..] == p;
    assert ([[]] + Split(p))[1..] == Split(p);
    SplitTrailingSlash(p);
    ResolveLast([], Split(p), []);
  }

  /** Neither empty nor `.` nor `..`. */
  predicate Plain(part: seq<Byte>)
  {
    part != [] && part != [DOT] && part != [DOT, DOT]
  }

  // ------------------------------------------------------------ normalizing twice

  predicate Component(part: seq<Byte>)
  {
    Plain(part) && SLASH !in part
  }

  lemma {:induction false} SplitHasNoSlash(p: seq<Byte>)
    ensures forall i | 0 <= i < |Split(p)| :: SLASH !in Split(p)[i]
  {
    if p != [] {
      SplitHasNoSlash(p[1..]);
    }
  }

  lemma {:induction false} ResolveComponents(stack: seq<seq<Byte>>, parts: seq<seq<Byte>>)
    requires forall i | 0 <= i < |stack| :: Component(stack[i])
    requires forall i | 0 <= i < |parts| :: SLASH !in parts[i]
    ensures forall i | 0 <= i < |Resolve(stack, parts)| :: Component(Resolve(stack, parts)[i])
    decreases parts
  {
    if parts != [] {
      ResolveComponents(ResolveOne(stack, parts[0]), parts[1..]);
    }
  }

  /** A normalized path is the root, or slash-separated components none of which is empty, `.`
      or `..`: it never leaves the root. */
  lemma NormalizedForm(path: seq<Byte>) returns (components: seq<seq<Byte>>)
    ensures forall i | 0 <= i < |components| :: Component(components[i])
    ensures components == Components(path) && Normalize(path) == Rooted(components)
  {
    components := Components(path);
    SplitHasNoSlash(Trim(path));
    ResolveComponents([], Split(Trim(path)));
  }

  lemma {:induction false} SplitPart(part: seq<Byte>, rest: seq<Byte>)
    requires SLASH !in part
    ensures Split(part) == [part]
    ensures Split(part + [SLASH] + rest) == [part] + Split(rest)
  {
    var whole := part + [SLASH] + rest;
    if part == [] {
      assert whole[1..] == rest;
    } else {
      SplitPart(part[1..], rest);
      assert whole[1..] == part[1..] + [SLASH] + rest;
      assert [part[0]] + part[1..] == part;
    }
  }

  lemma {:induction false} SplitJoin(components: seq<seq<Byte>>)
    requires components != [] && forall i | 0 <= i < |components| :: Component(components[i])
    ensures Split(Join(components)) == [[]] + components
  {
    var first, rest := components[0], components[1..];
    if rest == [] {
      SplitPart(first, []);
      assert Join(components) == [SLASH] + first;
    } else {
      SplitJoin(rest);
      SplitJoinMore(first, rest, Join(rest), Join(rest)[1..]);
      assert components == [first] + rest;
    }
  }

  lemma {:induction false} SplitJoinMore(first: seq<Byte>, rest: seq<seq<Byte>>, joined: seq<Byte>, tail: seq<Byte>)
    requires SLASH !in first && joined == [SLASH] + tail && Split(joined) == [[]] + rest
    ensures Split([SLASH] + first + joined) == [[]] + ([first] + rest)
  {
    assert joined[1..] == tail;
    assert ([[]] + Split(tail))[1..] == Split(tail) && ([[]] + rest)[1..] == rest;
    SplitPart(first, tail);
    var whole := [SLASH] + first + joined;
    assert whole[1..] == first + [SLASH] + tail;
  }

  lemma {:induction false} ResolveKeeps(stack: seq<seq<Byte>>, parts: seq<seq<Byte>>)
    requires forall i | 0 <= i < |parts| :: Component(parts[i])
    ensures Resolve(stack, parts) == stack + parts
    decreases parts
  {
    if parts != [] {
      ResolveKeeps(stack + [parts[0]], parts[1..]);
      assert stack + [parts[0]] + parts[1..] == stack + parts;
    }
  }

  lemma SlashFirst(p: seq<Byte>)
    requires p != [] && p[0] == SLASH
    ensures TrimStart(p) == p
  {
    SlashOpens(p, 1);
    SlashOpens(p, 2);
    SlashOpens(p, 3);
  }

  lemma SlashOpens(p: seq<Byte>, k: nat)
    requires p != [] && p[0] == SLASH && k > 0
    ensures !SpaceFirst(p, k)
  {
    if k <= |p| {
      assert p[..k][0] == SLASH;
      SpaceHasNoSlash(p[..k]);
    }
  }

  lemma {:induction false} TrimEndKeepsSlash(p: seq<Byte>)
    requires p != [] && p[0] == SLASH
    ensures TrimEnd(p) != [] && TrimEnd(p)[0] == SLASH && |TrimEnd(p)| <= |p| - SpaceAtEnd(p)
  {
    var n := SpaceAtEnd(p);
    if n > 0 {
      if n == |p| {
        assert p[|p| - n..] == p;
        SpaceHasNoSlash(p);
      }
      TrimEndKeepsSlash(p[..|p| - n]);
    }
  }

  /** The length of the parts, each with the slash before it. */
  function Length(parts: seq<seq<Byte>>): nat
  {
    if parts == [] then 0 else 1 + |parts[0]| + Length(parts[1..])
  }

  lemma {:induction false} LengthConcat(a: seq<seq<Byte>>, b: seq<seq<Byte>>)
    ensures Length(a + b) == Length(a) + Length(b)
  {
    if a == [] {
      assert a + b == b;
    } else {
      assert (a + b)[1..] == a[1..] + b;
      LengthConcat(a[1..], b);
    }
  }

  lemma {:induction false} SplitLength(p: seq<Byte>)
    ensures Length(Split(p)) == |p| + 1
  {
    if p != [] {
      SplitLength(p[1..]);
      var rest := Split(p[1..]);
      assert Split(p)[1..] == if p[0] == SLASH then rest else rest[1..];
    }
  }

  lemma {:induction false} JoinLength(components: seq<seq<Byte>>)
    ensures |Join(components)| == Length(components)
  {
    if components != [] {
      JoinLength(components[1..]);
    }
  }

  lemma {:induction false} ResolveShrinks(stack: seq<seq<Byte>>, parts: seq<seq<Byte>>)
    ensures Length(Resolve(stack, parts)) <= Length(stack) + Length(parts)
    decreases parts
  {
    if parts != [] {
      ResolveShrinks(ResolveOne(stack, parts[0]), parts[1..]);
      LengthConcat(stack, [parts[0]]);
      if stack != [] {
        LengthConcat(stack[..|stack| - 1], [stack[|stack| - 1]]);
        assert stack[..|stack| - 1] + [stack[|stack| - 1]] == stack;
      }
    }
  }

  /** Normalizing a path that starts with a slash never makes it longer than its trimmed form. */
  lemma NormalizeShrinks(p: seq<Byte>)
    requires p != [] && p[0] == SLASH
    ensures |Normalize(p)| <= |p| - SpaceAtEnd(p)
  {
    SlashFirst(p);
    TrimEndKeepsSlash(p);
    var q := Trim(p);
    assert Split(q)[1..] == Split(q[1..]);
    SplitLength(q[1..]);
    ResolveShrinks([], Split(q[1..]));
    JoinLength(Resolve([], Split(q)));
  }

  lemma NormalizedStays(components: seq<seq<Byte>>)
    requires components != [] && forall i | 0 <= i < |components| :: Component(components[i])
    requires SpaceAtEnd(Join(components)) == 0
    ensures Normalize(Join(components)) == Join(components)
  {
    SlashFirst(Join(components));
    SplitJoin(components);
    assert ([[]] + components)[1..] == components;
    ResolveKeeps([], components);
    assert [] + components == components;
  }

  /** Normalizing twice is normalizing once exactly if the normalized path does not end in
      white space, which trimming removes only at the ends of the whole path. */
  lemma NormalizeTwice(path: seq<Byte>)
    ensures Normalize(Normalize(path)) == Normalize(path) <==> SpaceAtEnd(Normalize(path)) == 0
  {
    var components := NormalizedForm(path);
    NormalizeShrinks(Normalize(path));
    if components == [] {
      RootStays();
    } else if SpaceAtEnd(Normalize(path)) == 0 {
      NormalizedStays(components);
    }
  }

  lemma RootStays()
    ensures Normalize([SLASH]) == [SLASH] && SpaceAtEnd([SLASH]) == 0
  {
    SlashFirst([SLASH]);
    assert [SLASH][..1] == [SLASH];
    assert Split([SLASH]) == [[], []];
    assert Resolve([], [[], []]) == Resolve([], [[], []][1..]);
  }

  /** It does not always hold: the path "a /." becomes "/a " and that becomes "/a". */
  lemma NormalizeTwiceDiffers(path: seq<Byte>)
    requires path == [97, 32, SLASH, DOT]
    ensures Trimmed(path) && Normalize(path) == [SLASH, 97, 32] && Normalize([SLASH, 97, 32]) != [SLASH, 97, 32]
  {
    var part := [97, 32];
    assert path == part + [SLASH] + [DOT];
    SplitPart(part, [DOT]);
    SplitPart([DOT], []);
    TrimmedStays(path);
    DotVanishes(part);
    assert [SLASH] + part == [SLASH, 97, 32] && [SLASH, 97, 32][2..] == [32];
    NormalizeShrinks([SLASH, 97, 32]);
  }

  lemma DotVanishes(part: seq<Byte>)
    requires Plain(part)
    ensures Resolve([], [part] + [[DOT]]) == [part] && Join([part]) == [SLASH] + part
  {
    ResolveLast([], [part], [DOT]);
    assert [part][1..] == [];
    assert ResolveOne([], part) == [part];
    assert Resolve([part], []) == [part];
  }

  /** The loop over the parts of a path. */
  method ResolveParts(parts: seq<seq<Byte>>) returns (components: seq<seq<Byte>>)
    ensures components == Resolve([], parts)
  {
    components := [];
    for i := 0 to |parts|
      invariant Resolve([], parts) == Resolve(components, parts[i..])
    {
      assert parts[i..][1..] == parts[i + 1..];
      var part := parts[i];
      if part == [] || part == [DOT] {
        continue;
      } else if part == [DOT, DOT] {
        if |components| > 0 {
          components := components[..|components| - 1];
        }
      } else {
        components := components + [part];
      }
    }
  }

  method NormalizePath(path: seq<Byte>) returns (r: seq<Byte>)
    ensures r == Normalize(path)
    ensures r == Rooted(Surviving(Split(Trim(path)), 0))
  {
    var parts := Split(Trim(path));
    var components := ResolveParts(parts);
    r := if components == [] then [SLASH] else Join(components);
    ResolveAllSurvives(parts);
  }
}
