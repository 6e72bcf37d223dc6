/** Whole archives: writing a list of items, indexing them and reading them back. */
module UstarArchive {
  import opened Common
  import opened UstarPaths
  import opened Ustar

  function Padding(n: nat): nat
  {
    if n % BLOCK == 0 then 0 else BLOCK - n % BLOCK
  }

  function Data(item: Item): seq<Byte>
  {
    if item.isDir then [] else item.content + Zeros(Padding(|item.content|))
  }

  function Encode(item: Item): seq<Byte>
  {
    Header(item) + Data(item)
  }

  /** One stored item: header block, padded data, and what the header says. */
  datatype Chunk = Chunk(header: seq<Byte>, data: seq<Byte>, info: Parsed)

  function ChunkOf(item: Item): Chunk
  {
    Chunk(Header(item), Data(item), Parsed(Normalize(item.path), Size(item), item.isDir))
  }

  function Chunks(items: seq<Item>): (chunks: seq<Chunk>)
    ensures |chunks| == |items|
    ensures forall i | 0 <= i < |items| :: chunks[i] == ChunkOf(items[i])
  {
    if items == [] then [] else [ChunkOf(items[0])] + Chunks(items[1..])
  }

  function Bytes(chunks: seq<Chunk>): seq<Byte>
  {
    if chunks == [] then [] else chunks[0].header + chunks[0].data + Bytes(chunks[1..])
  }

  /** The stored items and the two zero blocks that end an archive. */
  function Closed(chunks: seq<Chunk>): seq<Byte>
  {
    Bytes(chunks) + Zeros(2 * BLOCK)
  }

  function Archive(items: seq<Item>): seq<Byte>
  {
    Closed(Chunks(items))
  }

  function Blocks(size: nat): nat
  {
    (size + BLOCK - 1) / BLOCK * BLOCK
  }

  predicate AllZero(h: seq<Byte>)
  {
    forall i | 0 <= i < |h| :: h[i] == 0
  }

  type HeaderParser = seq<Byte> -> Option<Parsed>

  /** The reader's index from `offset` on, for a given way to read one header. */
  function IndexWith(parse: HeaderParser, data: seq<Byte>, offset: nat): Result<seq<TarEntry>, FsError>
    decreases |data| - offset
  {
    if offset + BLOCK > |data| then Ok([])
    else
      var h := data[offset..offset + BLOCK];
      if AllZero(h) then Ok([])
      else
        match parse(h)
        case None => IndexWith(parse, data, offset + BLOCK)
        case Some(p) =>
          var next := offset + BLOCK + Blocks(p.size);
          if next > MAX then Err(IoError) else Prefixed([EntryAt(p, offset)], IndexWith(parse, data, next))
  }

  function Index(data: seq<Byte>): Result<seq<TarEntry>, FsError>
  {
    IndexWith(ParseHeader, data, 0)
  }

  function EntryAt(p: Parsed, at: nat): TarEntry
  {
    TarEntry(p.path, p.size, p.isDir, at + BLOCK)
  }

  function Prefixed(entries: seq<TarEntry>, r: Result<seq<TarEntry>, FsError>): Result<seq<TarEntry>, FsError>
  {
    match r
    case Ok(rest) => Ok(entries + rest)
    case Err(e) => Err(e)
  }

  function ReadFile(data: seq<Byte>, entry: TarEntry): Result<seq<Byte>, FsError>
  {
    if entry.isDir then Err(NotAFile)
    else if entry.offset + entry.size <= |data| then Ok(data[entry.offset..entry.offset + entry.size])
    else Err(IoError)
  }

  /** The index of these stored items, when the first one starts at `at`. */
  function Entries(chunks: seq<Chunk>, at: nat): (entries: seq<TarEntry>)
    ensures |entries| == |chunks|
  {
    if chunks == [] then []
    else [EntryAt(chunks[0].info, at)] + Entries(chunks[1..], at + BLOCK + Blocks(chunks[0].info.size))
  }

  /** The header is readable and says what the chunk holds. */
  predicate Readable(parse: HeaderParser, c: Chunk)
  {
    |c.header| == BLOCK && |c.data| == Blocks(c.info.size) && !AllZero(c.header) && parse(c.header) == Some(c.info)
  }

  lemma DataLength(item: Item)
    ensures |Data(item)| == Blocks(Size(item))
  {
  }

  /** A stored header is never mistaken for the end of the archive. */
  lemma HeaderNotZero(item: Item)
    ensures !AllZero(Header(item))
  {
    HeaderFields(item);
    assert Header(item)[156] != 0;
  }

  lemma StoredIsReadable(item: Item)
    requires Storable(item)
    ensures Readable(ParseHeader, ChunkOf(item))
  {
    DataLength(item);
    HeaderNotZero(item);
    HeaderRoundTrip(item);
  }

  /** From `at` on the data is these items and the end marker. */
  predicate StoredAt(data: seq<Byte>, at: nat, chunks: seq<Chunk>)
  {
    at <= |data| && data[at..] == Closed(chunks)
  }

  /** Where the first item lies in the archive, and where the others start. */
  lemma FirstChunk(data: seq<Byte>, at: nat, chunks: seq<Chunk>)
    requires chunks != [] && StoredAt(data, at, chunks) && |chunks[0].header| == BLOCK
    ensures var c := chunks[0];
            var next := at + BLOCK + |c.data|;
            && next <= |data| && StoredAt(data, next, chunks[1..])
            && data[at..at + BLOCK] == c.header && data[at + BLOCK..next] == c.data
  {
    var c, rest := chunks[0], Closed(chunks[1..]);
    var tail := data[at..];
    assert tail == c.header + c.data + rest;
    assert tail[BLOCK + |c.data|..] == rest && tail[..BLOCK] == c.header && tail[BLOCK..BLOCK + |c.data|] == c.data;
  }

  lemma {:induction false} IndexStep(parse: HeaderParser, data: seq<Byte>, at: nat, p: Parsed)
    requires at + BLOCK + Blocks(p.size) <= MAX && at + BLOCK <= |data|
    requires !AllZero(data[at..at + BLOCK]) && parse(data[at..at + BLOCK]) == Some(p)
    ensures IndexWith(parse, data, at) == Prefixed([EntryAt(p, at)], IndexWith(parse, data, at + BLOCK + Blocks(p.size)))
  {
  }

  lemma IndexEnd(parse: HeaderParser, data: seq<Byte>, at: nat)
    requires StoredAt(data, at, [])
    ensures IndexWith(parse, data, at) == Ok([])
  {
    assert |data[at..]| == 2 * BLOCK;
    assert forall k | 0 <= k < BLOCK :: data[at..at + BLOCK][k] == data[at..][k];
  }

  lemma {:induction false} IndexChunks(parse: HeaderParser, data: seq<Byte>, at: nat, chunks: seq<Chunk>)
    requires StoredAt(data, at, chunks) && |data| <= MAX
    requires forall i | 0 <= i < |chunks| :: Readable(parse, chunks[i])
    ensures IndexWith(parse, data, at) == Ok(Entries(chunks, at))
    decreases chunks
  {
    if chunks == [] {
      IndexEnd(parse, data, at);
    } else {
      FirstChunk(data, at, chunks);
      IndexChunks(parse, data, at + BLOCK + Blocks(chunks[0].info.size), chunks[1..]);
      IndexStep(parse, data, at, chunks[0].info);
      EntriesFirst(chunks, at);
    }
  }

  lemma EntriesFirst(chunks: seq<Chunk>, at: nat)
    requires chunks != []
    ensures var rest := Entries(chunks[1..], at + BLOCK + Blocks(chunks[0].info.size));
            Ok(Entries(chunks, at)) == Prefixed([EntryAt(chunks[0].info, at)], Ok(rest))
  {
  }

  /** The index a reader should get for these items. */
  function Expected(items: seq<Item>): (entries: seq<TarEntry>)
    ensures |entries| == |items|
  {
    Entries(Chunks(items), 0)
  }

  /** Writing and then indexing yields the same entries in order, with normalized paths. */
  lemma ArchiveRoundTrip(items: seq<Item>)
    requires forall i | 0 <= i < |items| :: Storable(items[i])
    requires |Archive(items)| <= MAX
    ensures Index(Archive(items)) == Ok(Expected(items))
  {
    var chunks := Chunks(items);
    forall i | 0 <= i < |chunks|
      ensures Readable(ParseHeader, chunks[i])
    {
      StoredIsReadable(items[i]);
    }
    IndexChunks(ParseHeader, Closed(chunks), 0, chunks);
  }

  lemma {:induction false} ReadChunk(data: seq<Byte>, at: nat, chunks: seq<Chunk>, i: nat)
    requires StoredAt(data, at, chunks) && i < |chunks|
    requires forall j | 0 <= j < |chunks| :: |chunks[j].header| == BLOCK && |chunks[j].data| == Blocks(chunks[j].info.size)
    requires !chunks[i].info.isDir && chunks[i].info.size <= |chunks[i].data|
    ensures ReadFile(data, Entries(chunks, at)[i]) == Ok(chunks[i].data[..chunks[i].info.size])
    decreases i
  {
    FirstChunk(data, at, chunks);
    var next := at + BLOCK + |chunks[0].data|;
    if i == 0 {
      assert data[at + BLOCK..next][..chunks[0].info.size] == data[at + BLOCK..at + BLOCK + chunks[0].info.size];
    } else {
      ReadChunk(data, next, chunks[1..], i - 1);
    }
  }

  lemma {:induction false} EntryInfo(chunks: seq<Chunk>, at: nat, i: nat)
    requires i < |chunks|
    ensures Entries(chunks, at)[i].path == chunks[i].info.path && Entries(chunks, at)[i].isDir == chunks[i].info.isDir
    ensures Entries(chunks, at)[i].size == chunks[i].info.size
    decreases i
  {
    if i > 0 {
      EntryInfo(chunks[1..], at + BLOCK + Blocks(chunks[0].info.size), i - 1);
    }
  }

  /** The entries carry the items' normalized paths, sizes and kinds, in order. */
  lemma ExpectedFields(items: seq<Item>, i: nat)
    requires i < |items|
    ensures var e := Expected(items)[i];
            e.path == Normalize(items[i].path) && e.size == Size(items[i]) && e.isDir == items[i].isDir
  {
    EntryInfo(Chunks(items), 0, i);
  }

  /** Reading each file of an archive returns its exact bytes. */
  lemma ReadRoundTrip(items: seq<Item>, i: nat)
    requires i < |items|
    ensures ReadFile(Archive(items), Expected(items)[i]) ==
            if items[i].isDir then Err(NotAFile) else Ok(items[i].content)
  {
    var chunks := Chunks(items);
    ExpectedFields(items, i);
    if !items[i].isDir {
      forall j | 0 <= j < |chunks|
        ensures |chunks[j].header| == BLOCK && |chunks[j].data| == Blocks(chunks[j].info.size)
      {
        DataLength(items[j]);
      }
      ReadChunk(Closed(chunks), 0, chunks, i);
      assert Data(items[i])[..|items[i].content|] == items[i].content;
    }
  }

  function FindNormalized(entries: seq<TarEntry>, path: seq<Byte>): Option<TarEntry>
  {
    if entries == [] then None
    else if entries[0].path == path then Some(entries[0])
    else FindNormalized(entries[1..], path)
  }

  function FindEntry(entries: seq<TarEntry>, path: seq<Byte>): Option<TarEntry>
  {
    FindNormalized(entries, Normalize(path))
  }

  lemma {:induction false} FindFirst(entries: seq<TarEntry>, path: seq<Byte>, i: nat)
    requires i < |entries| && entries[i].path == path && forall j | 0 <= j < i :: entries[j].path != path
    ensures FindNormalized(entries, path) == Some(entries[i])
    decreases i
  {
    if i > 0 {
      FindFirst(entries[1..], path, i - 1);
    }
  }

  /** A path finds its own entry, unless an earlier item has the same normalized path. */
  lemma {:induction false} FindRoundTrip(items: seq<Item>, i: nat)
    requires i < |items| && forall j | 0 <= j < i :: Normalize(items[j].path) != Normalize(items[i].path)
    ensures FindEntry(Expected(items), items[i].path) == Some(Expected(items)[i])
  {
    forall j | 0 <= j <= i
      ensures Expected(items)[j].path == Normalize(items[j].path)
    {
      ExpectedFields(items, j);
    }
    FindFirst(Expected(items), Normalize(items[i].path), i);
  }

  lemma {:induction false} FoundHasPath(entries: seq<TarEntry>, path: seq<Byte>)
    ensures FindNormalized(entries, path).Some? ==> FindNormalized(entries, path).value.path == path
  {
    if entries != [] {
      FoundHasPath(entries[1..], path);
    }
  }

  /** Looking up an entry under the path the index gives it finds it exactly if that path does
      not end in white space, since the lookup normalizes it again. */
  lemma {:induction false} FindIndexed(items: seq<Item>, i: nat)
    requires i < |items| && forall j | 0 <= j < i :: Normalize(items[j].path) != Normalize(items[i].path)
    ensures var e := Expected(items)[i];
            FindEntry(Expected(items), e.path) == Some(e) <==> SpaceAtEnd(e.path) == 0
  {
    var path := Normalize(items[i].path);
    ExpectedFields(items, i);
    NormalizeTwice(items[i].path);
    FindRoundTrip(items, i);
    FoundHasPath(Expected(items), Normalize(path));
  }

  // ------------------------------------------------------------ the programs

  method CopyInto(header: array<Byte>, at: nat, bytes: seq<Byte>)
    requires at + |bytes| <= header.Length
    modifies header
    ensures header[..] == Put(old(header[..]), at, bytes)
  {
    for i := 0 to |bytes|
      invariant forall k | 0 <= k < header.Length ::
                  header[k] == if at <= k < at + i then bytes[k - at] else old(header[k])
    {
      header[at + i] := bytes[i];
    }
  }

  method SumOf(header: array<Byte>) returns (sum: nat)
    ensures sum == Sum(header[..])
  {
    sum := 0;
    var i := header.Length;
    while i > 0
      invariant 0 <= i <= header.Length && sum == Sum(header[i..])
    {
      i := i - 1;
      assert header[i..][1..] == header[i + 1..];
      sum := sum + header[i];
    }
    assert header[0..] == header[..];
  }

  class ArchiveWriter {
    var out: seq<Byte>

    constructor ()
      ensures out == []
    {
      out := [];
    }

    /** Appends one entry. Numbers wider than their fields make the builder panic. */
    method AddTarEntry(path: seq<Byte>, content: seq<Byte>, isDir: bool, mode: nat)
      requires mode < Pow8(7) && (isDir || |content| < Pow8(11))
      modifies this
      ensures out == old(out) + Encode(Item(path, content, isDir, mode))
    {
      var item := Item(path, content, isDir, mode);
      var header := new Byte[BLOCK](_ => 0);
      assert header[..] == Zeros(BLOCK);
      FillFields(header, item);
      FillTags(header, item);
      var sum := SumOf(header);
      CopyInto(header, 148, Octal(sum, 6) + [0, 32]);
      Append(header[..], item);
    }

    /** Appends the header and, for a file, its content up to a whole block. */
    method Append(header: seq<Byte>, item: Item)
      requires header == Header(item)
      modifies this
      ensures out == old(out) + (Header(item) + Data(item))
    {
      out := out + header;
      if !item.isDir && item.content != [] {
        out := out + item.content;
        var rem := |item.content| % BLOCK;
        if rem != 0 {
          out := out + Zeros(BLOCK - rem);
        }
      }
      assert out == old(out) + (header + Data(item));
    }
  }

  lemma {:induction false} BytesAppend(chunks: seq<Chunk>, c: Chunk)
    ensures Bytes(chunks + [c]) == Bytes(chunks) + (c.header + c.data)
  {
    if chunks == [] {
      assert chunks + [c] == [c];
      assert [c][1..] == [];
    } else {
      assert (chunks + [c])[1..] == chunks[1..] + [c];
      BytesAppend(chunks[1..], c);
    }
  }

  function BytesUpTo(chunks: seq<Chunk>, i: nat): seq<Byte>
    requires i <= |chunks|
  {
    Bytes(chunks[..i])
  }

  lemma {:induction false} AppendOne(chunks: seq<Chunk>, i: nat)
    requires i < |chunks|
    ensures BytesUpTo(chunks, i + 1) == BytesUpTo(chunks, i) + (chunks[i].header + chunks[i].data)
  {
    assert chunks[..i] + [chunks[i]] == chunks[..i + 1];
    BytesAppend(chunks[..i], chunks[i]);
  }

  /** Writes all items and the end marker, as the ramdisk builder does for its fixed list. */
  method WriteArchive(items: seq<Item>) returns (tar: seq<Byte>)
    requires forall i | 0 <= i < |items| :: items[i].mode < Pow8(7) && Size(items[i]) < Pow8(11)
    ensures tar == Archive(items)
  {
    var writer := new ArchiveWriter();
    ghost var chunks := Chunks(items);
    for i := 0 to |items|
      invariant writer.out == BytesUpTo(chunks, i)
    {
      writer.AddTarEntry(items[i].path, items[i].content, items[i].isDir, items[i].mode);
      AppendOne(chunks, i);
    }
    assert chunks[..|items|] == chunks;
    tar := writer.out + Zeros(2 * BLOCK);
  }

  method FillFields(header: array<Byte>, item: Item)
    requires header.Length == BLOCK && header[..] == Zeros(BLOCK)
    modifies header
    ensures header[..] == Typed(item)
  {
    var finalPath := StripSlashes(item.path);
    if item.isDir && !EndsWithSlash(finalPath) {
      finalPath := finalPath + [SLASH];
    }
    CopyInto(header, 0, if |finalPath| <= 100 then finalPath else finalPath[..100]);
    assert header[..] == Named(item);
    CopyInto(header, 100, Octal(item.mode, 7) + [0]);
    CopyInto(header, 108, NO_ID);
    CopyInto(header, 116, NO_ID);
    assert header[..] == Moded(item);
    CopyInto(header, 124, Octal(if item.isDir then 0 else |item.content|, 11) + [0]);
    CopyInto(header, 136, NO_TIME);
    assert header[..] == Sized(item);
    CopyInto(header, 156, [if item.isDir then 53 else 48]);
  }

  method FillTags(header: array<Byte>, item: Item)
    requires header.Length == BLOCK && header[..] == Typed(item)
    modifies header
    ensures header[..] == BlankHeader(item)
  {
    CopyInto(header, 257, MAGIC);
    CopyInto(header, 263, VERSION);
    CopyInto(header, 148, SPACES);
  }

  /** The reader's loop over an archive in memory. */
  method FromMemory(data: seq<Byte>) returns (r: Result<seq<TarEntry>, FsError>)
    requires |data| <= MAX
    ensures r == Index(data)
  {
    r := IndexLoop(ParseHeader, data);
  }

  method IndexLoop(parse: HeaderParser, data: seq<Byte>) returns (r: Result<seq<TarEntry>, FsError>)
    requires |data| <= MAX
    ensures r == IndexWith(parse, data, 0)
  {
    var entries: seq<TarEntry> := [];
    var offset: nat := 0;
    PrefixedNone(IndexWith(parse, data, 0));
    while offset + BLOCK <= |data|
      invariant IndexWith(parse, data, 0) == Prefixed(entries, IndexWith(parse, data, offset))
      decreases |data| - offset
    {
      var h := data[offset..offset + BLOCK];
      if AllZero(h) {
        break;
      }
      var parsed := parse(h);
      if parsed.Some? {
        var p := parsed.value;
        var next := offset + BLOCK + Blocks(p.size);
        if next > MAX {
          return Err(IoError);
        }
        PrefixedMore(entries, EntryAt(p, offset), IndexWith(parse, data, next));
        entries := entries + [EntryAt(p, offset)];
        offset := next;
      } else {
        offset := offset + BLOCK;
      }
    }
    assert IndexWith(parse, data, offset) == Ok([]) && entries + [] == entries;
    r := Ok(entries);
  }

  lemma PrefixedNone(r: Result<seq<TarEntry>, FsError>)
    ensures Prefixed([], r) == r
  {
    if r.Ok? {
      assert [] + r.value == r.value;
    }
  }

  lemma PrefixedMore(entries: seq<TarEntry>, e: TarEntry, r: Result<seq<TarEntry>, FsError>)
    ensures Prefixed(entries, Prefixed([e], r)) == Prefixed(entries + [e], r)
  {
    if r.Ok? {
      assert entries + ([e] + r.value) == entries + [e] + r.value;
    }
  }
}
