/** The USTAR writer of the image builder and the reader of the kernel's tar filesystem. */
module Ustar {
  import opened Common
  import opened UstarPaths

  const BLOCK: nat := 512
  const MAX: nat := 0xffff_ffff_ffff_ffff

  datatype FsError = IoError | NotAFile

  /** What the writer is asked to store. */
  datatype Item = Item(path: seq<Byte>, content: seq<Byte>, isDir: bool, mode: nat)

  /** What the reader's index holds. */
  datatype TarEntry = TarEntry(path: seq<Byte>, size: nat, isDir: bool, offset: nat)

  function Zeros(n: nat): (z: seq<Byte>)
    ensures |z| == n && forall i | 0 <= i < n :: z[i] == 0
  {
    seq(n, _ => 0)
  }

  // ------------------------------------------------------------ octal fields

  function Pow8(n: nat): (p: nat)
    ensures p > 0
  {
    if n == 0 then 1 else 8 * Pow8(n - 1)
  }

  /** The last `width` octal digits of `n`, with leading zeros. */
  function Octal(n: nat, width: nat): (s: seq<Byte>)
    ensures |s| == width
  {
    if width == 0 then [] else Octal(n / 8, width - 1) + [48 + n % 8]
  }

  function PushDigit(value: nat, digit: nat): nat
  {
    var shifted := if value * 8 <= MAX then value * 8 else MAX;
    if shifted + digit <= MAX then shifted + digit else MAX
  }

  /** Digits accumulate, saturating; NUL and space end the field; other bytes are skipped. */
  function ParseFrom(value: nat, bytes: seq<Byte>): nat
    decreases bytes
  {
    if bytes == [] then value
    else if 48 <= bytes[0] <= 55 then ParseFrom(PushDigit(value, bytes[0] - 48), bytes[1..])
    else if bytes[0] == 0 || bytes[0] == 32 then value
    else ParseFrom(value, bytes[1..])
  }

  function ParseOctal(bytes: seq<Byte>): nat
  {
    ParseFrom(0, bytes)
  }

  lemma {:induction false} OctalParses(value: nat, n: nat, width: nat, tail: seq<Byte>)
    requires n < Pow8(width) && value * Pow8(width) + n <= MAX
    ensures ParseFrom(value, Octal(n, width) + tail) == ParseFrom(value * Pow8(width) + n, tail)
    decreases width
  {
    if width == 0 {
      assert Octal(n, 0) + tail == tail;
    } else {
      var p, q, digit := Pow8(width - 1), n / 8, 48 + n % 8;
      assert Octal(n, width) + tail == Octal(q, width - 1) + ([digit] + tail);
      Shift(value, p, q, n);
      OctalParses(value, q, width - 1, [digit] + tail);
      assert ([digit] + tail)[1..] == tail;
    }
  }

  lemma Shift(value: nat, p: nat, q: nat, n: nat)
    requires q == n / 8
    ensures (value * p + q) * 8 + n % 8 == value * (8 * p) + n
  {
    assert value * (8 * p) == value * p * 8;
  }

  /** The loop over an octal field. */
  method ReadOctal(bytes: seq<Byte>) returns (value: nat)
    ensures value == ParseOctal(bytes)
  {
    value := 0;
    for i := 0 to |bytes|
      invariant ParseFrom(value, bytes[i..]) == ParseOctal(bytes)
    {
      assert bytes[i..][1..] == bytes[i + 1..];
      var b := bytes[i];
      if 48 <= b <= 55 {
        value := PushDigit(value, b - 48);
      } else if b == 0 || b == 32 {
        return;
      }
    }
  }

  // ------------------------------------------------------------ the header

  /** `h` with `bytes` written at `at`. */
  function Put(h: seq<Byte>, at: nat, bytes: seq<Byte>): (h': seq<Byte>)
    requires at + |bytes| <= |h|
    ensures |h'| == |h|
  {
    h[..at] + bytes + h[at + |bytes|..]
  }

  lemma PutRead(h: seq<Byte>, at: nat, bytes: seq<Byte>, i: nat, j: nat)
    requires at + |bytes| <= |h| && i <= j <= |h|
    ensures i == at && j == at + |bytes| ==> Put(h, at, bytes)[i..j] == bytes
    ensures j <= at || at + |bytes| <= i ==> Put(h, at, bytes)[i..j] == h[i..j]
  {
    var h' := Put(h, at, bytes);
    assert forall k | 0 <= k < at :: h'[k] == h[k];
    assert forall k | 0 <= k < |bytes| :: h'[at + k] == bytes[k];
    assert forall k | at + |bytes| <= k < |h| :: h'[k] == h[k];
  }

  function StripSlashes(path: seq<Byte>): seq<Byte>
  {
    if path != [] && path[0] == SLASH then StripSlashes(path[1..]) else path
  }

  predicate EndsWithSlash(p: seq<Byte>)
  {
    p != [] && p[|p| - 1] == SLASH
  }

  /** The name as stored: no leading slashes, and a trailing one for directories. */
  function StoredName(item: Item): seq<Byte>
  {
    var clean := StripSlashes(item.path);
    if item.isDir && !EndsWithSlash(clean) then clean + [SLASH] else clean
  }

  function NameField(item: Item): (s: seq<Byte>)
    ensures |s| <= 100
  {
    var name := StoredName(item);
    if |name| <= 100 then name else name[..100]
  }

  function Size(item: Item): nat
  {
    if item.isDir then 0 else |item.content|
  }

  function Sum(bytes: seq<Byte>): nat
  {
    if bytes == [] then 0 else bytes[0] + Sum(bytes[1..])
  }

  lemma {:induction false} SumBound(bytes: seq<Byte>)
    ensures Sum(bytes) <= 255 * |bytes|
  {
    if bytes != [] {
      SumBound(bytes[1..]);
    }
  }

  const SPACES: seq<Byte> := [32, 32, 32, 32, 32, 32, 32, 32]
  const NO_ID: seq<Byte> := [48, 48, 48, 48, 48, 48, 48, 0]
  const NO_TIME: seq<Byte> := [48, 48, 48, 48, 48, 48, 48, 48, 48, 48, 48, 0]
  const MAGIC: seq<Byte> := [117, 115, 116, 97, 114, 0] // "ustar" NUL
  const VERSION: seq<Byte> := [48, 48]

  function Named(item: Item): (h: seq<Byte>)
    ensures |h| == BLOCK
  {
    Put(Zeros(BLOCK), 0, NameField(item))
  }

  function Moded(item: Item): (h: seq<Byte>)
    ensures |h| == BLOCK
  {
    Put(Put(Put(Named(item), 100, Octal(item.mode, 7) + [0]), 108, NO_ID), 116, NO_ID)
  }

  function Sized(item: Item): (h: seq<Byte>)
    ensures |h| == BLOCK
  {
    Put(Put(Moded(item), 124, Octal(Size(item), 11) + [0]), 136, NO_TIME)
  }

  function Typed(item: Item): (h: seq<Byte>)
    ensures |h| == BLOCK
  {
    Put(Sized(item), 156, [if item.isDir then 53 else 48])
  }

  /** The header with blanks for the checksum. */
  function BlankHeader(item: Item): (h: seq<Byte>)
    ensures |h| == BLOCK
  {
    Put(Put(Put(Typed(item), 257, MAGIC), 263, VERSION), 148, SPACES)
  }

  function Checksum(item: Item): seq<Byte>
  {
    Octal(Sum(BlankHeader(item)), 6) + [0, 32]
  }

  function Header(item: Item): (h: seq<Byte>)
    ensures |h| == BLOCK
  {
    Put(BlankHeader(item), 148, Checksum(item))
  }

  /** The sum of a header always fits its six digits, and a reader that blanks the field
      finds the stored sum. */
  lemma ChecksumHolds(item: Item)
    ensures Sum(BlankHeader(item)) < Pow8(6)
    ensures ParseOctal(Header(item)[148..156]) == Sum(Put(Header(item), 148, SPACES))
  {
    var blank := BlankHeader(item);
    SumBound(blank);
    assert Pow8(6) == 262144;
    PutRead(blank, 148, Checksum(item), 148, 156);
    OctalParses(0, Sum(blank), 6, [0, 32]);
    assert blank[148..156] == SPACES;
    assert Put(Header(item), 148, SPACES) == blank;
  }

  /** Nothing after the type flag reaches outside bytes 148 to 155 and 257 to 264. */
  lemma AfterTyped(item: Item, i: nat, j: nat)
    requires i <= j <= 148 || 156 <= i <= j <= 257 || 265 <= i <= j <= BLOCK
    ensures Header(item)[i..j] == Typed(item)[i..j]
  {
    var a := Put(Typed(item), 257, MAGIC);
    var b := Put(a, 263, VERSION);
    PutRead(Typed(item), 257, MAGIC, i, j);
    PutRead(a, 263, VERSION, i, j);
    PutRead(b, 148, SPACES, i, j);
    PutRead(BlankHeader(item), 148, Checksum(item), i, j);
  }

  lemma AfterNamed(item: Item, i: nat, j: nat)
    requires i <= j <= 100 || 265 <= i <= j <= BLOCK
    ensures Typed(item)[i..j] == Named(item)[i..j]
  {
    var a := Put(Named(item), 100, Octal(item.mode, 7) + [0]);
    var b := Put(a, 108, NO_ID);
    var c := Put(Moded(item), 124, Octal(Size(item), 11) + [0]);
    PutRead(Named(item), 100, Octal(item.mode, 7) + [0], i, j);
    PutRead(a, 108, NO_ID, i, j);
    PutRead(b, 116, NO_ID, i, j);
    PutRead(Moded(item), 124, Octal(Size(item), 11) + [0], i, j);
    PutRead(c, 136, NO_TIME, i, j);
    PutRead(Sized(item), 156, [if item.isDir then 53 else 48], i, j);
  }

  /** The fields a reader looks at. */
  lemma HeaderFields(item: Item)
    ensures Header(item)[0..100] == NameField(item) + Zeros(100 - |NameField(item)|)
    ensures Header(item)[345..500] == Zeros(155)
    ensures Header(item)[124..136] == Octal(Size(item), 11) + [0]
    ensures Header(item)[156] == if item.isDir then 53 else 48
  {
    AfterTyped(item, 0, 100);
    AfterNamed(item, 0, 100);
    assert Named(item)[0..100] == NameField(item) + Zeros(100 - |NameField(item)|);
    AfterTyped(item, 345, 500);
    AfterNamed(item, 345, 500);
    PutRead(Zeros(BLOCK), 0, NameField(item), 345, 500);
    assert Zeros(BLOCK)[345..500] == Zeros(155);
    SizeField(item);
    AfterTyped(item, 156, 157);
    assert Header(item)[156..157][0] == Typed(item)[156..157][0];
  }

  lemma SizeField(item: Item)
    ensures Header(item)[124..136] == Octal(Size(item), 11) + [0]
  {
    var c := Put(Moded(item), 124, Octal(Size(item), 11) + [0]);
    PutRead(Moded(item), 124, Octal(Size(item), 11) + [0], 124, 136);
    PutRead(c, 136, NO_TIME, 124, 136);
    PutRead(Sized(item), 156, [if item.isDir then 53 else 48], 124, 136);
    AfterTyped(item, 124, 136);
  }

  // ------------------------------------------------------------ reading a header

  /** The bytes before the first NUL, or all of them. */
  function UpToNul(field: seq<Byte>): (s: seq<Byte>)
    ensures |s| <= |field|
  {
    if field == [] || field[0] == 0 then [] else [field[0]] + UpToNul(field[1..])
  }

  lemma {:induction false} UpToNulPadded(s: seq<Byte>, n: nat)
    requires 0 !in s
    ensures UpToNul(s + Zeros(n)) == s
  {
    if s == [] {
      assert s + Zeros(n) == Zeros(n);
    } else {
      assert (s + Zeros(n))[1..] == s[1..] + Zeros(n);
      UpToNulPadded(s[1..], n);
    }
  }

  datatype Parsed = Parsed(path: seq<Byte>, size: nat, isDir: bool)

  function ParseHeader(h: seq<Byte>): Option<Parsed>
  {
    if |h| < BLOCK then None
    else
      var name := UpToNul(h[0..100]);
      if name == [] || !Utf8(name) then None
      else
        var prefix := UpToNul(h[345..500]);
        var full := if prefix != [] && Utf8(prefix) then prefix + [SLASH] + name else name;
        Some(Parsed(Normalize(full), ParseOctal(h[124..136]), h[156] == 53 || EndsWithSlash(name)))
  }

  /** What the writer can store faithfully: a text path of 1 to 100 stored bytes without NUL
      or outer white space, a file name that does not look like a directory, and numbers
      that fit their fields. */
  predicate Storable(item: Item)
  {
    && Utf8(item.path) && 0 !in item.path
    && Trimmed(StripSlashes(item.path))
    && 1 <= |StoredName(item)| <= 100
    && (item.isDir || !EndsWithSlash(item.path))
    && item.mode < Pow8(7) && Size(item) < Pow8(11)
  }

  lemma {:induction false} StripBytes(path: seq<Byte>)
    requires Utf8(path)
    ensures Utf8(StripSlashes(path))
    ensures 0 !in path ==> 0 !in StripSlashes(path)
    ensures !EndsWithSlash(path) ==> !EndsWithSlash(StripSlashes(path))
  {
    if path != [] && path[0] == SLASH {
      StripBytes(path[1..]);
    }
  }

  lemma {:induction false} StripNormalizes(path: seq<Byte>)
    requires Trimmed(StripSlashes(path))
    ensures Trimmed(path) && Normalize(StripSlashes(path)) == Normalize(path)
  {
    if path != [] && path[0] == SLASH {
      StripNormalizes(path[1..]);
      SlashNormalizes(path, path[1..]);
    }
  }

  lemma SlashNormalizes(path: seq<Byte>, rest: seq<Byte>)
    requires path != [] && path[0] == SLASH && rest == path[1..] && Trimmed(rest)
    ensures Trimmed(path) && Normalize(path) == Normalize(rest)
  {
    assert path == [SLASH] + rest;
    TrimmedSlash(rest);
    NormalizeSlash(rest);
  }

  lemma {:induction false} StoredNameFacts(item: Item)
    requires Storable(item)
    ensures Utf8(StoredName(item)) && 0 !in StoredName(item)
    ensures Normalize(StoredName(item)) == Normalize(item.path)
    ensures EndsWithSlash(StoredName(item)) <==> item.isDir
  {
    StoredNameText(item);
    StripNormalizes(item.path);
    StoredNameNormalizes(item);
  }

  lemma {:induction false} StoredNameText(item: Item)
    requires Utf8(item.path) && 0 !in item.path && (item.isDir || !EndsWithSlash(item.path))
    ensures Utf8(StoredName(item)) && 0 !in StoredName(item)
    ensures EndsWithSlash(StoredName(item)) <==> item.isDir
  {
    StripBytes(item.path);
    Utf8Slash(StripSlashes(item.path));
  }

  lemma StoredNameNormalizes(item: Item)
    requires Trimmed(StripSlashes(item.path))
    ensures Normalize(StoredName(item)) == Normalize(StripSlashes(item.path))
  {
    NormalizeSlash(StripSlashes(item.path));
  }

  lemma SizeBound()
    ensures Pow8(11) == 0x2_0000_0000
  {
    assert Pow8(6) == 262144;
    assert Pow8(11) == 8 * (8 * (8 * (8 * (8 * Pow8(6)))));
  }

  lemma {:induction false} SizeParses(item: Item)
    requires Size(item) < Pow8(11)
    ensures ParseOctal(Header(item)[124..136]) == Size(item)
  {
    SizeField(item);
    SizeBound();
    OctalParses(0, Size(item), 11, [0]);
  }

  lemma {:induction false} NameParses(item: Item)
    requires Storable(item)
    ensures UpToNul(Header(item)[0..100]) == StoredName(item) && UpToNul(Header(item)[345..500]) == []
  {
    StoredNameText(item);
    NameFieldsParse(item);
  }

  lemma {:induction false} NameFieldsParse(item: Item)
    requires |StoredName(item)| <= 100 && 0 !in StoredName(item)
    ensures UpToNul(Header(item)[0..100]) == StoredName(item) && UpToNul(Header(item)[345..500]) == []
  {
    HeaderFields(item);
    UpToNulPadded(NameField(item), 100 - |NameField(item)|);
    assert Zeros(155) == [] + Zeros(155);
    UpToNulPadded([], 155);
  }

  /** The reader gets back what the writer was asked to store. */
  lemma {:induction false} HeaderRoundTrip(item: Item)
    requires Storable(item)
    ensures ParseHeader(Header(item)) == Some(Parsed(Normalize(item.path), Size(item), item.isDir))
  {
    NameParses(item);
    SizeParses(item);
    StoredNameFacts(item);
    HeaderFields(item);
  }

  /** A storable item whose path does not survive being normalized twice. */
  lemma StorableEndsInSpace(item: Item)
    requires item == Item([97, 32, SLASH, DOT], [], false, 0)
    ensures Storable(item) && SpaceAtEnd(Normalize(item.path)) != 0
  {
    NormalizeTwiceDiffers(item.path);
    NormalizeTwice(item.path);
    assert StripSlashes(item.path) == item.path;
    Ascii(item.path);
  }

  lemma {:induction false} Ascii(p: seq<Byte>)
    requires forall i | 0 <= i < |p| :: p[i] < 0x80
    ensures Utf8(p)
  {
    if p != [] {
      Ascii(p[1..]);
    }
  }
}
