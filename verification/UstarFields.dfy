/** The fields of a header one by one, the numbers in them, and archives the reader meets that
    the writer would not produce. */
module UstarFields {
  import opened Common
  import opened UstarPaths
  import opened Ustar
  import opened UstarArchive

  // ------------------------------------------------------------ octal numbers

  /** The octal digits of a field, up to the NUL or space that ends it. */
  function Digits(bytes: seq<Byte>): (digits: seq<nat>)
    ensures forall i | 0 <= i < |digits| :: digits[i] < 8
  {
    if bytes == [] || bytes[0] == 0 || bytes[0] == 32 then []
    else (if 48 <= bytes[0] <= 55 then [bytes[0] - 48] else []) + Digits(bytes[1..])
  }

  /** The number digits spell, most significant first. */
  function Value(digits: seq<nat>): nat
  {
    if digits == [] then 0 else digits[0] * Pow8(|digits| - 1) + Value(digits[1..])
  }

  function Saturated(n: nat): nat
  {
    if n <= MAX then n else MAX
  }

  /** The number that `value` becomes when the digits follow it. */
  function Followed(value: nat, digits: seq<nat>): nat
  {
    value * Pow8(|digits|) + Value(digits)
  }

  lemma {:induction false} ParseFromValue(value: nat, bytes: seq<Byte>)
    requires value <= MAX
    ensures ParseFrom(value, bytes) == Saturated(Followed(value, Digits(bytes)))
    decreases bytes
  {
    if bytes == [] || bytes[0] == 0 || bytes[0] == 32 {
      FollowedByNone(value);
    } else if 48 <= bytes[0] <= 55 {
      ParseFromValue(PushDigit(value, bytes[0] - 48), bytes[1..]);
      DigitFirst(value, bytes[0] - 48, Digits(bytes[1..]));
    } else {
      assert Digits(bytes) == Digits(bytes[1..]);
      ParseFromValue(value, bytes[1..]);
    }
  }

  lemma FollowedByNone(value: nat)
    ensures Followed(value, []) == value
  {
  }

  lemma {:induction false} DigitFirst(value: nat, d: nat, rest: seq<nat>)
    requires value <= MAX && d < 8
    ensures Saturated(Followed(PushDigit(value, d), rest)) == Saturated(Followed(value, [d] + rest))
  {
    var p := Pow8(|rest|);
    assert ([d] + rest)[1..] == rest && Pow8(|rest| + 1) == 8 * p;
    PushedValue(value, d, p, Value(rest));
  }

  /** Saturating digit by digit is saturating the whole number. */
  lemma PushedValue(value: nat, d: nat, p: nat, rest: nat)
    requires value <= MAX && d < 8 && p > 0
    ensures Saturated(PushDigit(value, d) * p + rest) == Saturated(value * (8 * p) + (d * p + rest))
  {
    var whole := value * 8 + d;
    assert value * (8 * p) + d * p == whole * p;
    if whole > MAX {
      assert PushDigit(value, d) == MAX;
      Grows(MAX, p);
      Grows(whole, p);
    }
  }

  lemma Grows(x: nat, p: nat)
    requires p > 0
    ensures x * p >= x
  {
    assert x * p == x + x * (p - 1);
  }

  /** An octal field reads as the number its digits spell, or as the largest number if that
      one is larger; never as a smaller one. */
  lemma ParseOctalExactly(bytes: seq<Byte>)
    ensures ParseOctal(bytes) == Saturated(Value(Digits(bytes)))
  {
    ParseFromValue(0, bytes);
  }

  // ------------------------------------------------------------ the layout of a header

  const USTAR: seq<Byte> := [117, 115, 116, 97, 114]

  /** Every field of a header the writer makes. */
  lemma HeaderLayout(item: Item)
    requires item.mode < Pow8(7)
    ensures var h := Header(item);
            && ParseOctal(h[100..108]) == item.mode
            && ParseOctal(h[108..116]) == 0 && ParseOctal(h[116..124]) == 0 && ParseOctal(h[136..148]) == 0
            && h[257..262] == USTAR && h[262] == 0 && h[263] == 48 && h[264] == 48
            && AllZero(h[157..257]) && AllZero(h[265..BLOCK])
  {
    ModeField(item);
    IdFields(item);
    MagicFields(item);
    UnusedFields(item);
  }

  lemma {:induction false} ModeField(item: Item)
    requires item.mode < Pow8(7)
    ensures ParseOctal(Header(item)[100..108]) == item.mode
  {
    ModeBytes(item, 100, 108);
    var mode := Octal(item.mode, 7) + [0];
    PutRead(Named(item), 100, mode, 100, 108);
    PutRead(Put(Named(item), 100, mode), 108, NO_ID, 100, 108);
    PutRead(Put(Put(Named(item), 100, mode), 108, NO_ID), 116, NO_ID, 100, 108);
    assert Pow8(7) == 8 * Pow8(6) && Pow8(6) == 262144;
    OctalParses(0, item.mode, 7, [0]);
  }

  /** Bytes 100 to 123 are written once. */
  lemma ModeBytes(item: Item, i: nat, j: nat)
    requires 100 <= i <= j <= 124
    ensures Header(item)[i..j] == Moded(item)[i..j]
  {
    AfterTyped(item, i, j);
    var size := Octal(Size(item), 11) + [0];
    PutRead(Moded(item), 124, size, i, j);
    PutRead(Put(Moded(item), 124, size), 136, NO_TIME, i, j);
    PutRead(Sized(item), 156, [if item.isDir then 53 else 48], i, j);
  }

  lemma IdFields(item: Item)
    ensures var h := Header(item);
            ParseOctal(h[108..116]) == 0 && ParseOctal(h[116..124]) == 0 && ParseOctal(h[136..148]) == 0
  {
    ModeBytes(item, 108, 116);
    ModeBytes(item, 116, 124);
    var a := Put(Named(item), 100, Octal(item.mode, 7) + [0]);
    PutRead(a, 108, NO_ID, 108, 116);
    PutRead(Put(a, 108, NO_ID), 116, NO_ID, 108, 116);
    PutRead(Put(a, 108, NO_ID), 116, NO_ID, 116, 124);
    TimeField(item);
    ZeroField(NO_ID);
    ZeroField(NO_TIME);
  }

  lemma TimeField(item: Item)
    ensures Header(item)[136..148] == NO_TIME
  {
    AfterTyped(item, 136, 148);
    PutRead(Put(Moded(item), 124, Octal(Size(item), 11) + [0]), 136, NO_TIME, 136, 148);
    PutRead(Sized(item), 156, [if item.isDir then 53 else 48], 136, 148);
  }

  lemma {:induction false} ZeroField(bytes: seq<Byte>)
    requires forall i | 0 <= i < |bytes| :: bytes[i] == 48 || bytes[i] == 0
    ensures ParseOctal(bytes) == 0
  {
    if bytes != [] && bytes[0] == 48 {
      ZeroField(bytes[1..]);
    }
  }

  lemma MagicFields(item: Item)
    ensures Header(item)[257..263] == MAGIC && Header(item)[263..265] == VERSION
    ensures Header(item)[257..262] == USTAR && Header(item)[262] == 0 && Header(item)[263] == 48 && Header(item)[264] == 48
  {
    var h, a := Header(item), Put(Typed(item), 257, MAGIC);
    var b := Put(a, 263, VERSION);
    PutRead(Typed(item), 257, MAGIC, 257, 263);
    PutRead(a, 263, VERSION, 257, 263);
    PutRead(a, 263, VERSION, 263, 265);
    PutRead(b, 148, SPACES, 257, 263);
    PutRead(b, 148, SPACES, 263, 265);
    PutRead(BlankHeader(item), 148, Checksum(item), 257, 263);
    PutRead(BlankHeader(item), 148, Checksum(item), 263, 265);
    assert h[257..262] == h[257..263][..5] && h[262] == h[257..263][5];
    assert h[263] == h[263..265][0] && h[264] == h[263..265][1];
  }

  lemma UnusedFields(item: Item)
    ensures AllZero(Header(item)[157..257]) && AllZero(Header(item)[265..BLOCK])
  {
    AfterTyped(item, 157, 257);
    UnusedBefore(item, 157, 257);
    AfterTyped(item, 265, BLOCK);
    UnusedBefore(item, 265, BLOCK);
  }

  lemma UnusedBefore(item: Item, i: nat, j: nat)
    requires 157 <= i <= j <= BLOCK
    ensures AllZero(Typed(item)[i..j])
  {
    var mode, size := Octal(item.mode, 7) + [0], Octal(Size(item), 11) + [0];
    var a := Put(Named(item), 100, mode);
    PutRead(Zeros(BLOCK), 0, NameField(item), i, j);
    PutRead(Named(item), 100, mode, i, j);
    PutRead(a, 108, NO_ID, i, j);
    PutRead(Put(a, 108, NO_ID), 116, NO_ID, i, j);
    PutRead(Moded(item), 124, size, i, j);
    PutRead(Put(Moded(item), 124, size), 136, NO_TIME, i, j);
    PutRead(Sized(item), 156, [if item.isDir then 53 else 48], i, j);
  }

  // ------------------------------------------------------------ names

  /** A stored name is the path without the slashes in front of it, and a directory's name
      ends in one. */
  lemma {:induction false} StripExactly(path: seq<Byte>) returns (n: nat)
    ensures n <= |path| && StripSlashes(path) == path[n..] && forall i | 0 <= i < n :: path[i] == SLASH
    ensures n < |path| ==> path[n] != SLASH
    decreases path
  {
    n := 0;
    if path != [] && path[0] == SLASH {
      var m := StripExactly(path[1..]);
      n := m + 1;
      assert forall i | 1 <= i < n :: path[i] == path[1..][i - 1];
    }
  }

  /** A name of more than 100 bytes is cut: the reader finds the item under the path its first
      100 bytes spell. */
  lemma {:induction false} LongNameIsCut(item: Item)
    requires |StoredName(item)| > 100 && 0 !in StoredName(item) && Utf8(StoredName(item)[..100]) && Size(item) < Pow8(11)
    requires item.isDir || !EndsWithSlash(StoredName(item)[..100])
    ensures ParseHeader(Header(item)) == Some(Parsed(Normalize(StoredName(item)[..100]), Size(item), item.isDir))
  {
    var name := StoredName(item)[..100];
    CutName(item, name);
    SizeParses(item);
    TypeField(item);
    OneField(Header(item), name, Size(item), item.isDir);
  }

  lemma {:induction false} CutName(item: Item, name: seq<Byte>)
    requires |StoredName(item)| > 100 && name == StoredName(item)[..100] && 0 !in name
    ensures UpToNul(Header(item)[0..100]) == name && UpToNul(Header(item)[345..500]) == []
  {
    HeaderFields(item);
    UpToNulPadded(name, 0);
    assert name + Zeros(0) == name;
    UpToNulPadded([], 155);
    assert [] + Zeros(155) == Zeros(155);
  }

  lemma {:induction false} OneField(h: seq<Byte>, name: seq<Byte>, size: nat, isDir: bool)
    requires |h| == BLOCK && UpToNul(h[0..100]) == name && name != [] && Utf8(name) && UpToNul(h[345..500]) == []
    requires ParseOctal(h[124..136]) == size && (isDir <==> h[156] == 53 || EndsWithSlash(name))
    ensures ParseHeader(h) == Some(Parsed(Normalize(name), size, isDir))
  {
  }

  // ------------------------------------------------------------ what the kernel mounts

  /** The kernel's test for a ramdisk it may mount: a USTAR magic, or that of a CPIO archive. */
  predicate IsValidArchive(data: seq<Byte>)
  {
    |data| >= BLOCK && (data[257..262] == USTAR || data[0..6] == [48, 55, 48, 55, 48, 49] || data[0..6] == [48, 55, 48, 55, 48, 50])
  }

  /** Whatever the builder writes, the kernel recognizes. */
  lemma ArchiveIsRecognized(items: seq<Item>)
    requires items != []
    ensures IsValidArchive(Archive(items))
  {
    var data, h := Archive(items), Header(items[0]);
    assert data[..BLOCK] == h;
    assert data[257..262] == h[257..262];
    MagicFields(items[0]);
  }

  // ------------------------------------------------------------ a path in two fields

  /** The header with the front of its path in the prefix field. */
  function WithPrefix(item: Item, prefix: seq<Byte>): (h: seq<Byte>)
    requires |prefix| <= 155
    ensures |h| == BLOCK
  {
    Put(Header(item), 345, prefix + Zeros(155 - |prefix|))
  }

  /** A path that other writers split over the two fields is put together again: what lies in
      the prefix comes first, and the rest is as without it. */
  lemma {:induction false} PrefixRoundTrip(item: Item, prefix: seq<Byte>)
    requires Storable(item) && 0 < |prefix| <= 155 && Utf8(prefix) && 0 !in prefix
    ensures ParseHeader(WithPrefix(item, prefix)) ==
            Some(Parsed(Normalize(prefix + [SLASH] + StoredName(item)), Size(item), item.isDir))
  {
    StoredNameText(item);
    PrefixNames(item, prefix);
    PrefixNumbers(item, prefix);
    TwoFields(WithPrefix(item, prefix), StoredName(item), prefix, Size(item), item.isDir);
  }

  lemma {:induction false} PrefixNames(item: Item, prefix: seq<Byte>)
    requires |StoredName(item)| <= 100 && 0 !in StoredName(item) && |prefix| <= 155 && 0 !in prefix
    ensures UpToNul(WithPrefix(item, prefix)[0..100]) == StoredName(item)
    ensures UpToNul(WithPrefix(item, prefix)[345..500]) == prefix
  {
    PrefixFields(item, prefix);
    NameFieldsParse(item);
    UpToNulPadded(prefix, 155 - |prefix|);
  }

  lemma {:induction false} PrefixNumbers(item: Item, prefix: seq<Byte>)
    requires |prefix| <= 155 && Size(item) < Pow8(11)
    ensures ParseOctal(WithPrefix(item, prefix)[124..136]) == Size(item)
    ensures WithPrefix(item, prefix)[156] == if item.isDir then 53 else 48
  {
    PrefixFields(item, prefix);
    SizeParses(item);
    TypeField(item);
  }

  lemma TypeField(item: Item)
    ensures Header(item)[156] == if item.isDir then 53 else 48
  {
    HeaderFields(item);
  }

  lemma {:induction false} TwoFields(h: seq<Byte>, name: seq<Byte>, prefix: seq<Byte>, size: nat, isDir: bool)
    requires |h| == BLOCK && UpToNul(h[0..100]) == name && name != [] && Utf8(name)
    requires UpToNul(h[345..500]) == prefix && prefix != [] && Utf8(prefix)
    requires ParseOctal(h[124..136]) == size && (isDir <==> h[156] == 53 || EndsWithSlash(name))
    ensures ParseHeader(h) == Some(Parsed(Normalize(prefix + [SLASH] + name), size, isDir))
  {
  }

  lemma PrefixFields(item: Item, prefix: seq<Byte>)
    requires |prefix| <= 155
    ensures var h := WithPrefix(item, prefix);
            && h[0..100] == Header(item)[0..100] && h[124..136] == Header(item)[124..136]
            && h[156] == Header(item)[156] && h[345..500] == prefix + Zeros(155 - |prefix|)
  {
    var field := prefix + Zeros(155 - |prefix|);
    PutRead(Header(item), 345, field, 0, 100);
    PutRead(Header(item), 345, field, 124, 136);
    PutRead(Header(item), 345, field, 345, 500);
  }

  /** A prefix that is no text is ignored. */
  lemma {:induction false} BadPrefixIgnored(item: Item, prefix: seq<Byte>)
    requires Storable(item) && |prefix| <= 155 && !Utf8(prefix) && 0 !in prefix
    ensures ParseHeader(WithPrefix(item, prefix)) == Some(Parsed(Normalize(item.path), Size(item), item.isDir))
  {
    StoredNameText(item);
    PrefixNames(item, prefix);
    PrefixNumbers(item, prefix);
    NameOnly(WithPrefix(item, prefix), StoredName(item), Size(item), item.isDir);
    StoredNameFacts(item);
  }

  lemma {:induction false} NameOnly(h: seq<Byte>, name: seq<Byte>, size: nat, isDir: bool)
    requires |h| == BLOCK && UpToNul(h[0..100]) == name && name != [] && Utf8(name) && !Utf8(UpToNul(h[345..500]))
    requires ParseOctal(h[124..136]) == size && (isDir <==> h[156] == 53 || EndsWithSlash(name))
    ensures ParseHeader(h) == Some(Parsed(Normalize(name), size, isDir))
  {
  }

  // ------------------------------------------------------------ files and directories

  /** Either the type flag or a slash at the end of the name makes an entry a directory. */
  lemma {:induction false} KindByFlagOrSlash(item: Item, flag: Byte)
    requires Storable(item)
    ensures ParseHeader(Put(Header(item), 156, [flag])) ==
            Some(Parsed(Normalize(item.path), Size(item), flag == 53 || item.isDir))
  {
    var h, name := Put(Header(item), 156, [flag]), StoredName(item);
    StoredNameText(item);
    FlaggedFields(item, flag);
    NameFieldsParse(item);
    SizeParses(item);
    OneField(h, name, Size(item), flag == 53 || item.isDir);
    StoredNameFacts(item);
  }

  lemma FlaggedFields(item: Item, flag: Byte)
    ensures var h := Put(Header(item), 156, [flag]);
            && h[0..100] == Header(item)[0..100] && h[124..136] == Header(item)[124..136]
            && h[156] == flag && h[345..500] == Header(item)[345..500]
  {
    PutRead(Header(item), 156, [flag], 0, 100);
    PutRead(Header(item), 156, [flag], 124, 136);
    PutRead(Header(item), 156, [flag], 345, 500);
  }

  // ------------------------------------------------------------ unreadable blocks

  /** A block that is no header is stepped over: the items behind it are indexed as if it were
      not there, each one block further on. */
  lemma UnreadableSkipped(junk: seq<Byte>, items: seq<Item>)
    requires |junk| == BLOCK && !AllZero(junk) && ParseHeader(junk).None?
    requires forall i | 0 <= i < |items| :: Storable(items[i])
    requires |junk + Archive(items)| <= MAX
    ensures Index(junk + Archive(items)) == Ok(Entries(Chunks(items), BLOCK))
  {
    var data, chunks := junk + Archive(items), Chunks(items);
    assert data[0..BLOCK] == junk && data[BLOCK..] == Closed(chunks);
    forall i | 0 <= i < |chunks|
      ensures Readable(ParseHeader, chunks[i])
    {
      StoredIsReadable(items[i]);
    }
    IndexChunks(ParseHeader, data, BLOCK, chunks);
  }

  // ------------------------------------------------------------ blocks

  /** The fewest whole blocks that hold `n` bytes. */
  lemma BlocksExactly(n: nat)
    ensures Blocks(n) % BLOCK == 0 && n <= Blocks(n) < n + BLOCK
  {
  }

  /** An archive is made of whole blocks: every header and every content starts on a block
      boundary, and two blocks of zeros close it. */
  lemma {:induction false} ArchiveInBlocks(items: seq<Item>, i: nat)
    requires i < |items|
    ensures Expected(items)[i].offset % BLOCK == 0
    ensures |Archive(items)| % BLOCK == 0 && |Archive(items)| >= 2 * BLOCK
    ensures AllZero(Archive(items)[|Archive(items)| - 2 * BLOCK..])
  {
    var chunks := Chunks(items);
    forall j | 0 <= j < |chunks|
      ensures |chunks[j].header| == BLOCK && |chunks[j].data| == Blocks(chunks[j].info.size)
    {
      DataLength(items[j]);
    }
    EntryOnBoundary(chunks, 0, i);
    BytesInBlocks(chunks);
    EndsInZeros(Bytes(chunks), Zeros(2 * BLOCK));
  }

  lemma EndsInZeros(a: seq<Byte>, zeros: seq<Byte>)
    requires |a| % BLOCK == 0 && |zeros| == 2 * BLOCK && AllZero(zeros)
    ensures |a + zeros| % BLOCK == 0 && AllZero((a + zeros)[|a + zeros| - 2 * BLOCK..])
  {
    assert (a + zeros)[|a|..] == zeros;
  }

  lemma {:induction false} BytesInBlocks(chunks: seq<Chunk>)
    requires forall j | 0 <= j < |chunks| :: |chunks[j].header| == BLOCK && |chunks[j].data| == Blocks(chunks[j].info.size)
    ensures |Bytes(chunks)| % BLOCK == 0
  {
    if chunks != [] {
      BytesInBlocks(chunks[1..]);
      BlocksExactly(chunks[0].info.size);
    }
  }

  lemma {:induction false} EntryOnBoundary(chunks: seq<Chunk>, at: nat, i: nat)
    requires i < |chunks| && at % BLOCK == 0
    ensures Entries(chunks, at)[i].offset % BLOCK == 0
    decreases i
  {
    if i > 0 {
      BlocksExactly(chunks[0].info.size);
      EntryOnBoundary(chunks[1..], at + BLOCK + Blocks(chunks[0].info.size), i - 1);
    }
  }

  // ------------------------------------------------------------ damaged archives

  /** From an archive cut short, exactly the files that lie before the cut can be read. */
  lemma {:induction false} ReadTruncated(items: seq<Item>, i: nat, n: nat)
    requires i < |items| && !items[i].isDir && n <= |Archive(items)|
    ensures var e := Expected(items)[i];
            ReadFile(Archive(items)[..n], e) == if e.offset + e.size <= n then Ok(items[i].content) else Err(IoError)
  {
    ReadRoundTrip(items, i);
    ExpectedFields(items, i);
    ReadCut(Archive(items), n, Expected(items)[i], items[i].content);
  }

  lemma ReadCut(data: seq<Byte>, n: nat, e: TarEntry, content: seq<Byte>)
    requires !e.isDir && n <= |data| && ReadFile(data, e) == Ok(content)
    ensures ReadFile(data[..n], e) == if e.offset + e.size <= n then Ok(content) else Err(IoError)
  {
    if e.offset + e.size <= n {
      assert data[..n][e.offset..e.offset + e.size] == data[e.offset..e.offset + e.size];
    }
  }

  /** A size field has twelve bytes, so the offsets the index computes never overflow: the
      index of any data that fits in memory is computed without an error. */
  lemma {:induction false} IndexNeverFails(data: seq<Byte>, offset: nat)
    requires |data| + 0x20_0000_0000 <= MAX
    ensures IndexWith(ParseHeader, data, offset).Ok?
    decreases |data| - offset
  {
    if offset + BLOCK <= |data| {
      var h := data[offset..offset + BLOCK];
      match ParseHeader(h)
      case None => IndexNeverFails(data, offset + BLOCK);
      case Some(p) =>
        SizeFieldBound(h);
        IndexNeverFails(data, offset + BLOCK + Blocks(p.size));
    }
  }

  lemma SizeFieldBound(h: seq<Byte>)
    requires |h| == BLOCK
    ensures ParseOctal(h[124..136]) < 0x10_0000_0000
  {
    ParseOctalExactly(h[124..136]);
    DigitsBound(h[124..136], 12);
    TwelveDigits();
  }

  lemma TwelveDigits()
    ensures Pow8(12) == 0x10_0000_0000
  {
    SizeBound();
    assert Pow8(12) == 8 * Pow8(11);
  }

  lemma {:induction false} DigitsBound(bytes: seq<Byte>, n: nat)
    requires |bytes| <= n
    ensures |Digits(bytes)| <= n && Value(Digits(bytes)) < Pow8(n)
    decreases bytes
  {
    if bytes != [] && bytes[0] != 0 && bytes[0] != 32 {
      DigitsBound(bytes[1..], n - 1);
      if 48 <= bytes[0] <= 55 {
        var rest := Digits(bytes[1..]);
        ValueBound(rest);
        FirstDigit(bytes[0] - 48, rest);
        PowGrows(|rest| + 1, n);
      } else {
        assert Digits(bytes) == Digits(bytes[1..]);
      }
    }
  }

  lemma {:induction false} ValueBound(digits: seq<nat>)
    requires forall i | 0 <= i < |digits| :: digits[i] < 8
    ensures Value(digits) < Pow8(|digits|)
  {
    if digits != [] {
      ValueBound(digits[1..]);
      DigitTimes(digits[0], Pow8(|digits| - 1));
    }
  }

  lemma {:induction false} FirstDigit(d: nat, rest: seq<nat>)
    requires d < 8 && Value(rest) < Pow8(|rest|)
    ensures Value([d] + rest) < Pow8(|rest| + 1)
  {
    assert ([d] + rest)[1..] == rest;
    DigitTimes(d, Pow8(|rest|));
  }

  lemma DigitTimes(d: nat, p: nat)
    requires d < 8
    ensures d * p <= 7 * p
  {
  }

  lemma {:induction false} PowGrows(m: nat, n: nat)
    requires m <= n
    ensures Pow8(m) <= Pow8(n)
    decreases n
  {
    if m < n {
      PowGrows(m, n - 1);
    }
  }

  // ------------------------------------------------------------ lookups

  /** A lookup answers with the first entry that has the normalized path, and with none
      exactly if no entry has it. */
  lemma {:induction false} FindExactly(entries: seq<TarEntry>, path: seq<Byte>)
    ensures match FindNormalized(entries, path)
            case None => forall i | 0 <= i < |entries| :: entries[i].path != path
            case Some(e) => exists i | 0 <= i < |entries| ::
              e == entries[i] && e.path == path && forall j | 0 <= j < i :: entries[j].path != path
  {
    if entries != [] && entries[0].path != path {
      FindExactly(entries[1..], path);
      if FindNormalized(entries[1..], path).Some? {
        var i :| 0 <= i < |entries| - 1 && entries[1..][i] == FindNormalized(entries[1..], path).value && entries[1..][i].path == path &&
          forall j | 0 <= j < i :: entries[1..][j].path != path;
        FoundLater(entries, path, i);
      }
    }
  }

  lemma FoundLater(entries: seq<TarEntry>, path: seq<Byte>, i: nat)
    requires i + 1 < |entries| && entries[0].path != path && forall j | 0 <= j < i :: entries[1..][j].path != path
    ensures entries[i + 1] == entries[1..][i] && forall j | 0 <= j < i + 1 :: entries[j].path != path
  {
    forall j | 0 <= j < i + 1
      ensures entries[j].path != path
    {
      assert j > 0 ==> entries[j] == entries[1..][j - 1];
    }
  }
}
