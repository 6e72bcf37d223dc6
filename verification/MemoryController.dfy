/** mmap and munmap of user pages over the mapper and the frame allocator. */
module MemoryControllers {
  import opened Common
  import opened PageEntries
  import opened PageTree
  import opened PageMaps
  import opened TablePaths
  import opened Frames
  import opened MapperSpecs
  import opened Mappers

  datatype Errno = ENOMEM | EINVAL

  const USER_PAGE: Word := 7 // PRESENT | WRITABLE | USER

  ghost predicate ZeroFilled(mem: Memory, frame: nat)
  {
    forall k: nat | k < |mem| && PageOfWord(k) == frame :: mem[k] == 0
  }

  function AddressAt(start: nat, i: nat): nat
  {
    start + i * PAGE_SIZE
  }

  function PageAt(start: nat, i: nat): nat
  {
    Page(AddressAt(start, i))
  }

  /** `page` is one of the first `count` pages from `start`. */
  ghost predicate Among(start: nat, count: nat, page: nat)
  {
    exists i: nat | i < count :: PageAt(start, i) == page
  }

  /** The pages mapped by `mmap` and not unmapped since, with their frames: each is in the
      page map, each frame has been handed out, is no table and serves one page. */
  ghost predicate DataPages(data: map<nat, nat>, pages: imap<nat, Mapping>, place: map<nat, Place>,
                            frames: seq<nat>, next: nat)
  {
    && (forall p | p in data :: HeldPage(data[p], MappedAt(pages, p), frames, next) && data[p] !in place)
    && (forall p, q | p in data && q in data && p != q :: data[p] != data[q])
  }

  ghost predicate HeldPage(frame: nat, m: Option<Mapping>, frames: seq<nat>, next: nat)
  {
    && (exists j: nat | j < next && j < |frames| :: frames[j] == frame)
    && IsFrame(frame)
    && m == Some(Mapping(LeafEntry(frame, USER_PAGE), 1))
  }

  lemma HeldEntry(frame: nat, m: Option<Mapping>, frames: seq<nat>, next: nat)
    requires HeldPage(frame, m, frames, next)
    ensures m == Some(Mapping(frame + 7, 1))
  {
    FlagFields(USER_PAGE);
    SumOfUserPage(frame, USER_PAGE);
  }

  lemma SumOfUserPage(frame: Word, flags: Word)
    requires IsFrame(frame) && Addr(flags) == 0 && flags == 7
    ensures LeafEntry(frame, flags) == frame + 7
  {
    LeafEntrySum(frame, flags);
  }

  lemma HeldLater(frame: nat, m: Option<Mapping>, frames: seq<nat>, next: nat, next': nat)
    requires HeldPage(frame, m, frames, next) && next <= next'
    ensures HeldPage(frame, m, frames, next')
  {
  }

  /** The entry of every data page is its frame, present, writable and open to user mode,
      and nothing else. */
  lemma DataEntry(data: map<nat, nat>, pages: imap<nat, Mapping>, place: map<nat, Place>, frames: seq<nat>, next: nat, page: nat)
    requires DataPages(data, pages, place, frames, next) && page in data
    ensures IsFrame(data[page]) && MappedAt(pages, page) == Some(Mapping(data[page] + 7, 1))
  {
    HeldEntry(data[page], MappedAt(pages, page), frames, next);
  }

  /** New tables come from frames not yet handed out, so they are no data frames. */
  lemma TablesAreNotData(data: map<nat, nat>, pages: imap<nat, Mapping>, place: map<nat, Place>, place': map<nat, Place>,
                         frames: seq<nat>, next: nat, next': nat)
    requires DataPages(data, pages, place, frames, next) && Distinct(frames)
    requires TablesFrom(place, place', frames, next, next')
    ensures DataPages(data, pages, place', frames, next')
  {
    forall p | p in data
      ensures data[p] !in place'
      ensures HeldPage(data[p], MappedAt(pages, p), frames, next')
    {
      HeldLater(data[p], MappedAt(pages, p), frames, next, next');
    }
  }

  /** The first `k` pages from `start` were unmapped and are now data pages full of zeros;
      no other page has moved. */
  ghost predicate MappedFirst(pages: imap<nat, Mapping>, pages': imap<nat, Mapping>,
                              data: map<nat, nat>, data': map<nat, nat>, mem': Memory, start: nat, k: nat)
  {
    && (forall i: nat | i < k :: FreshPage(pages, data', mem', PageAt(start, i)))
    && (forall p | !Among(start, k, p) :: MappedAt(pages', p) == MappedAt(pages, p))
    && (forall p | !Among(start, k, p) :: DataAt(data', p) == DataAt(data, p))
  }

  ghost predicate FreshPage(pages: imap<nat, Mapping>, data': map<nat, nat>, mem': Memory, page: nat)
  {
    page !in pages && page in data' && ZeroFilled(mem', data'[page])
  }

  function DataAt(data: map<nat, nat>, page: nat): Option<nat>
  {
    if page in data then Some(data[page]) else None
  }

  /** What one turn of the loop does: adds one zeroed data page, or no page at all. */
  ghost predicate PageAdded(ok: bool, pages: imap<nat, Mapping>, pages': imap<nat, Mapping>,
                            data: map<nat, nat>, data': map<nat, nat>, mem: Memory, mem': Memory, page: nat)
  {
    && KeepsData(mem, mem', data)
    && if ok
       then && page !in pages && page in data' && IsFrame(data'[page]) && data' == data[page := data'[page]]
            && pages' == pages[page := Mapping(LeafEntry(data'[page], USER_PAGE), 1)] && ZeroFilled(mem', data'[page])
       else data' == data && pages' == pages
  }

  lemma AddedKeeps(ok: bool, pages: imap<nat, Mapping>, pages': imap<nat, Mapping>,
                   data: map<nat, nat>, data': map<nat, nat>, mem: Memory, mem': Memory, page: nat)
    requires PageAdded(ok, pages, pages', data, data', mem, mem', page) && forall p | p in data :: p in pages
    ensures Extends(data, data') && KeepsData(mem, mem', data)
  {
  }

  lemma MapOneMore(ok: bool, pages: imap<nat, Mapping>, mid: imap<nat, Mapping>, pages': imap<nat, Mapping>,
                   data: map<nat, nat>, dataMid: map<nat, nat>, data': map<nat, nat>,
                   memMid: Memory, mem': Memory, start: nat, k: nat)
    requires MappedFirst(pages, mid, data, dataMid, memMid, start, k)
    requires PageAdded(ok, mid, pages', dataMid, data', memMid, mem', PageAt(start, k))
    requires forall p | p in dataMid :: p in mid
    ensures MappedFirst(pages, pages', data, data', mem', start, if ok then k + 1 else k)
  {
    if ok {
      MapOneFresh(pages, mid, pages', data, dataMid, data', memMid, mem', start, k);
    } else {
      KeepsFirst(pages, mid, data, data', memMid, mem', start, k);
    }
  }

  lemma MapOneFresh(pages: imap<nat, Mapping>, mid: imap<nat, Mapping>, pages': imap<nat, Mapping>,
                    data: map<nat, nat>, dataMid: map<nat, nat>, data': map<nat, nat>,
                    memMid: Memory, mem': Memory, start: nat, k: nat)
    requires MappedFirst(pages, mid, data, dataMid, memMid, start, k)
    requires PageAdded(true, mid, pages', dataMid, data', memMid, mem', PageAt(start, k))
    requires forall p | p in dataMid :: p in mid
    ensures MappedFirst(pages, pages', data, data', mem', start, k + 1)
  {
    var page := PageAt(start, k);
    forall p
      ensures Among(start, k + 1, p) <==> Among(start, k, p) || p == page
    {
      AmongOneMore(start, k, p);
    }
    assert !Among(start, k, page);
    assert MappedAt(mid, page) == MappedAt(pages, page);
    forall i: nat | i < k + 1
      ensures FreshPage(pages, data', mem', PageAt(start, i))
    {
      assert i < k ==> FreshPage(pages, dataMid, memMid, PageAt(start, i));
    }
  }

  lemma AmongOneMore(start: nat, k: nat, p: nat)
    ensures Among(start, k + 1, p) <==> Among(start, k, p) || p == PageAt(start, k)
  {
  }

  lemma DataIsMapped(data: map<nat, nat>, pages: imap<nat, Mapping>, place: map<nat, Place>, frames: seq<nat>, next: nat)
    requires DataPages(data, pages, place, frames, next)
    ensures forall p | p in data :: p in pages
  {
    forall p | p in data
      ensures p in pages
    {
      assert HeldPage(data[p], MappedAt(pages, p), frames, next);
    }
  }

  lemma TablesOnly(mem: Memory, mem': Memory, place: map<nat, Place>, data: map<nat, nat>)
    requires OnlyTablesWritten(mem, mem', place) && forall p | p in data :: data[p] !in place
    ensures KeepsData(mem, mem', data)
  {
  }

  /** Writes to tables leave the data and the fresh frame alone. */
  lemma DataUntouched(mem: Memory, mem': Memory, place: map<nat, Place>, data: map<nat, nat>, frame: nat)
    requires OnlyTablesWritten(mem, mem', place) && frame !in place && forall p | p in data :: data[p] !in place
    requires ZeroFilled(mem, frame)
    ensures ZeroFilled(mem', frame) && KeepsData(mem, mem', data)
  {
  }

  lemma OneMoreDataPage(data: map<nat, nat>, pages: imap<nat, Mapping>, place: map<nat, Place>, frames: seq<nat>,
                        next: nat, next': nat, page: nat, frame: nat)
    requires DataPages(data, pages, place, frames, next') && 0 < next <= next' && next <= |frames|
    requires frame == frames[next - 1] && IsFrame(frame) && frame !in place && frame !in data.Values && page !in pages
    ensures DataPages(data[page := frame], pages[page := Mapping(LeafEntry(frame, USER_PAGE), 1)], place, frames, next')
  {
    DataIsMapped(data, pages, place, frames, next');
    var data', pages' := data[page := frame], pages[page := Mapping(LeafEntry(frame, USER_PAGE), 1)];
    forall p | p in data'
      ensures HeldPage(data'[p], MappedAt(pages', p), frames, next') && data'[p] !in place
    {
      if p != page {
        assert HeldPage(data[p], MappedAt(pages, p), frames, next');
      }
    }
  }

  // ------------------------------------------------------------ what a call needs

  /** One of the first `i` pages lies below the table at `level` with this prefix. */
  ghost predicate Passed(start: nat, i: nat, level: nat, prefix: nat)
    requires level <= 4
  {
    exists j: nat | j < i :: Prefix(AddressAt(start, j), level) == prefix
  }

  ghost predicate Supplied(mem: Memory, root: nat, start: nat, i: nat, level: nat)
    requires 1 <= level <= 3
  {
    HasTable(mem, root, AddressAt(start, i), level) || Passed(start, i, level, Prefix(AddressAt(start, i), level))
  }

  /** The tables page `i` needs that neither exist nor come with an earlier page. */
  ghost function NewTables(mem: Memory, root: nat, start: nat, i: nat): nat
  {
    CountMissing(Supplied(mem, root, start, i, 3)) + CountMissing(Supplied(mem, root, start, i, 2))
    + CountMissing(Supplied(mem, root, start, i, 1))
  }

  /** The frames the first `k` pages take: one each, and one for every new table. */
  ghost function Cost(mem: Memory, root: nat, start: nat, k: nat): nat
  {
    if k == 0 then 0 else Cost(mem, root, start, k - 1) + 1 + NewTables(mem, root, start, k - 1)
  }

  lemma {:induction false} CostGrows(mem: Memory, root: nat, start: nat, k: nat, l: nat)
    requires k <= l
    ensures Cost(mem, root, start, k) <= Cost(mem, root, start, l)
    decreases l
  {
    if k < l {
      CostGrows(mem, root, start, k, l - 1);
    }
  }

  /** The first `k` pages are unmapped and different, and there are frames for all of them. */
  ghost predicate Fits(mem: Memory, root: nat, next: nat, frames: nat, start: nat, k: nat)
  {
    && (forall i: nat | i < k :: Unclaimed(PageMap(mem, root), start, i))
    && (k > 0 ==> next + Cost(mem, root, start, k) <= frames)
  }

  ghost predicate Unclaimed(pages: imap<nat, Mapping>, start: nat, i: nat)
  {
    PageAt(start, i) !in pages && !Among(start, i, PageAt(start, i))
  }

  /** The first `i` pages have added exactly the tables on their paths, at their cost. */
  ghost predicate Spent(mem: Memory, mem': Memory, root: nat, start: nat, i: nat, from: nat, to: nat)
  {
    && to == from + Cost(mem, root, start, i)
    && forall w: nat, level: nat | 1 <= level <= 3 ::
         HasTable(mem', root, w, level) <==> HasTable(mem, root, w, level) || Passed(start, i, level, Prefix(w, level))
  }

  lemma SpentMissing(mem: Memory, mem': Memory, root: nat, start: nat, i: nat, from: nat, to: nat)
    requires Spent(mem, mem', root, start, i, from, to)
    ensures Missing(mem', root, AddressAt(start, i)) == NewTables(mem, root, start, i)
  {
  }

  lemma PassedOneMore(start: nat, i: nat, level: nat, prefix: nat)
    requires level <= 4
    ensures Passed(start, i + 1, level, prefix) <==> Passed(start, i, level, prefix) || Prefix(AddressAt(start, i), level) == prefix
  {
  }

  lemma SpendOneMore(mem: Memory, mid: Memory, mem': Memory, root: nat, start: nat, i: nat, from: nat, next: nat, to: nat)
    requires Spent(mem, mid, root, start, i, from, next)
    requires to == next + 1 + Missing(mid, root, AddressAt(start, i))
    requires Gains(mid, mem', root, AddressAt(start, i), 3, 1)
    ensures Spent(mem, mem', root, start, i + 1, from, to)
  {
    SpentMissing(mem, mid, root, start, i, from, next);
    forall w: nat, level: nat | 1 <= level <= 3
      ensures HasTable(mem', root, w, level) <==>
              HasTable(mem, root, w, level) || Passed(start, i + 1, level, Prefix(w, level))
    {
      PassedOneMore(start, i, level, Prefix(w, level));
    }
  }

  lemma ClaimedPages(pages: imap<nat, Mapping>, mid: imap<nat, Mapping>, data: map<nat, nat>, dataMid: map<nat, nat>,
                     mem: Memory, start: nat, i: nat)
    requires MappedFirst(pages, mid, data, dataMid, mem, start, i) && forall p | p in dataMid :: p in mid
    ensures PageAt(start, i) !in mid <==> Unclaimed(pages, start, i)
  {
    var page := PageAt(start, i);
    if Among(start, i, page) {
      var j: nat :| j < i && PageAt(start, j) == page;
      assert FreshPage(pages, dataMid, mem, PageAt(start, j));
    } else {
      assert MappedAt(mid, page) == MappedAt(pages, page);
    }
  }

  /** One more page fits exactly if it is unmapped now and its frames are left now. */
  lemma FitsOneMore(mem: Memory, root: nat, from: nat, next: nat, frames: nat, start: nat, i: nat)
    requires Fits(mem, root, from, frames, start, i) && next == from + Cost(mem, root, start, i)
    ensures Fits(mem, root, from, frames, start, i + 1) <==>
            Unclaimed(PageMap(mem, root), start, i) && next + 1 + NewTables(mem, root, start, i) <= frames
  {
  }

  lemma NextFits(mem: Memory, memMid: Memory, mid: imap<nat, Mapping>, data: map<nat, nat>, dataMid: map<nat, nat>,
                 root: nat, start: nat, i: nat, from: nat, next: nat, frames: nat)
    requires MappedFirst(PageMap(mem, root), mid, data, dataMid, memMid, start, i) && forall p | p in dataMid :: p in mid
    requires Spent(mem, memMid, root, start, i, from, next) && Fits(mem, root, from, frames, start, i)
    ensures Fits(mem, root, from, frames, start, i + 1) <==>
            PageAt(start, i) !in mid && next + 1 + Missing(memMid, root, AddressAt(start, i)) <= frames
  {
    ClaimedPages(PageMap(mem, root), mid, data, dataMid, memMid, start, i);
    SpentMissing(mem, memMid, root, start, i, from, next);
    FitsOneMore(mem, root, from, next, frames, start, i);
  }

  lemma FitsLess(mem: Memory, root: nat, from: nat, frames: nat, start: nat, k: nat, l: nat)
    requires k <= l && Fits(mem, root, from, frames, start, l)
    ensures Fits(mem, root, from, frames, start, k)
  {
    CostGrows(mem, root, start, k, l);
  }

  class MemoryController {
    const mapper: Mapper
    const allocator: FrameAllocator
    ghost var data: map<nat, nat>

    ghost predicate Valid()
      reads this, mapper, mapper.ram, allocator
    {
      && mapper.Valid()
      && mapper.Feeds(allocator)
      && DataPages(data, mapper.Pages(), mapper.place, allocator.Frames(), allocator.next)
    }

    constructor (mapper: Mapper, allocator: FrameAllocator)
      requires mapper.Valid() && mapper.Feeds(allocator)
      ensures this.mapper == mapper && this.allocator == allocator && data == map[] && Valid()
    {
      this.mapper := mapper;
      this.allocator := allocator;
      this.data := map[];
    }

    /** User mode reaches every page that `mmap` has mapped. */
    lemma DataIsReachable(v: nat)
      requires Valid() && UserPaths(mapper.ram[..], mapper.root) && Page(v) in data
      ensures UserAccess(mapper.ram[..], mapper.root, v)
    {
      assert HeldPage(data[Page(v)], MappedAt(mapper.Pages(), Page(v)), allocator.Frames(), allocator.next);
      UserAccessIsOwnBit(mapper.ram[..], mapper.root, v);
      FlagFields(USER_PAGE);
      LeafEntryFields(data[Page(v)], USER_PAGE);
    }

    /** One turn of the loop of `mmap`: allocates a frame, zeroes it and maps it at `v`. It
        succeeds exactly if the page is unmapped and the frames suffice. */
    method MapFreshPage(v: nat) returns (ok: bool)
      requires Valid()
      modifies this, mapper, mapper.ram, allocator
      ensures Valid()
      ensures ok <==> old(Page(v) !in mapper.Pages() &&
                          allocator.next + 1 + Missing(mapper.ram[..], mapper.root, v) <= |allocator.Frames()|)
      ensures PageAdded(ok, old(mapper.Pages()), mapper.Pages(), old(data), data, old(mapper.ram[..]), mapper.ram[..], Page(v))
      ensures ok ==> allocator.next == old(allocator.next + 1 + Missing(mapper.ram[..], mapper.root, v))
      ensures ok ==> Gains(old(mapper.ram[..]), mapper.ram[..], mapper.root, v, 3, 1)
      ensures UserPaths(old(mapper.ram[..]), mapper.root) ==> UserPaths(mapper.ram[..], mapper.root)
    {
      var f := allocator.Allocate();
      TablesAreNotData(data, mapper.Pages(), mapper.place, mapper.place, allocator.Frames(), old(allocator.next), allocator.next);
      if f.None? {
        return false;
      }
      ok := FillAndMap(v, f.value);
    }

    method FillAndMap(v: nat, frame: Word) returns (ok: bool)
      requires Valid() && 0 < allocator.next <= |allocator.Frames()| && frame == allocator.Frames()[allocator.next - 1]
      requires InRam(mapper.ram[..], frame) && frame !in mapper.place && frame !in data.Values
      modifies this, mapper, mapper.ram, allocator
      ensures Valid()
      ensures ok <==> old(Page(v) !in mapper.Pages() &&
                          !Short(Missing(mapper.ram[..], mapper.root, v), allocator.next, |allocator.Frames()|))
      ensures PageAdded(ok, old(mapper.Pages()), mapper.Pages(), old(data), data, old(mapper.ram[..]), mapper.ram[..], Page(v))
      ensures ok ==> data[Page(v)] == frame
      ensures ok ==> allocator.next == old(allocator.next + Missing(mapper.ram[..], mapper.root, v))
      ensures ok ==> Gains(old(mapper.ram[..]), mapper.ram[..], mapper.root, v, 3, 1)
      ensures UserPaths(old(mapper.ram[..]), mapper.root) ==> UserPaths(mapper.ram[..], mapper.root)
    {
      ghost var mem := mapper.ram[..];
      ZeroFrame(frame, v);
      ghost var zeroed := mapper.ram[..];
      SameMissing(mem, zeroed, mapper.root, v, v);
      ok := MapZeroed(v, frame);
      if ok {
        SameThenGains(mem, zeroed, mapper.ram[..], mapper.root, v, 3, 1);
      }
    }

    /** Maps a zeroed frame that has been handed out for this page. */
    method MapZeroed(v: nat, frame: Word) returns (ok: bool)
      requires Valid() && 0 < allocator.next <= |allocator.Frames()| && frame == allocator.Frames()[allocator.next - 1]
      requires InRam(mapper.ram[..], frame) && frame !in mapper.place && frame !in data.Values
      requires ZeroFilled(mapper.ram[..], frame)
      modifies this, mapper, mapper.ram, allocator
      ensures Valid()
      ensures ok <==> old(Page(v) !in mapper.Pages() &&
                          !Short(Missing(mapper.ram[..], mapper.root, v), allocator.next, |allocator.Frames()|))
      ensures PageAdded(ok, old(mapper.Pages()), mapper.Pages(), old(data), data, old(mapper.ram[..]), mapper.ram[..], Page(v))
      ensures ok ==> data[Page(v)] == frame
      ensures ok ==> allocator.next == old(allocator.next + Missing(mapper.ram[..], mapper.root, v))
      ensures ok ==> Gains(old(mapper.ram[..]), mapper.ram[..], mapper.root, v, 3, 1)
      ensures UserPaths(old(mapper.ram[..]), mapper.root) ==> UserPaths(mapper.ram[..], mapper.root)
    {
      ghost var pages, tables, next := mapper.Pages(), mapper.place, allocator.next;
      var r := mapper.Map(v, frame, USER_PAGE, allocator);
      TablesAreNotData(data, pages, tables, mapper.place, allocator.Frames(), next, allocator.next);
      DataUntouched(old(mapper.ram[..]), mapper.ram[..], mapper.place, data, frame);
      ok := r.Ok?;
      if ok {
        OneMoreDataPage(data, pages, mapper.place, allocator.Frames(), next, allocator.next, Page(v), frame);
        data := data[Page(v) := frame];
      }
    }

    /** Zeroes a frame that holds no table and no data page: nothing else notices. */
    method ZeroFrame(frame: Word, ghost v: nat)
      requires Valid() && InRam(mapper.ram[..], frame) && frame !in mapper.place && frame !in data.Values
      modifies mapper.ram
      ensures Valid() && mapper.Pages() == old(mapper.Pages()) && InRam(mapper.ram[..], frame)
      ensures ZeroFilled(mapper.ram[..], frame) && KeepsData(old(mapper.ram[..]), mapper.ram[..], data)
      ensures UserPaths(old(mapper.ram[..]), mapper.root) ==> UserPaths(mapper.ram[..], mapper.root)
      ensures Gains(old(mapper.ram[..]), mapper.ram[..], mapper.root, v, 0, 1)
    {
      ghost var mem := mapper.ram[..];
      ZeroPage(mapper.ram, frame);
      ghost var zeroed := mapper.ram[..];
      ZeroedElsewhere(mem, zeroed, mapper.place, frame);
      WriteOutsideTables(mem, zeroed, mapper.place, mapper.root);
      OpenedKeepsMap(mem, zeroed, mapper.root);
      SameTablesReached(mem, zeroed, mapper.place, mapper.root, v);
    }

    /** Maps `count` fresh zeroed user pages from `start`. It succeeds exactly if all of them
        fit; else the longest run of pages that fit stays mapped and no other page has changed. */
    method Mmap(start: nat, count: nat) returns (r: Result<nat, Errno>)
      requires Valid()
      modifies this, mapper, mapper.ram, allocator
      ensures Valid()
      ensures r == if old(Fits(mapper.ram[..], mapper.root, allocator.next, |allocator.Frames()|, start, count))
                   then Ok(start) else Err(ENOMEM)
      ensures r.Ok? ==> MappedFirst(old(mapper.Pages()), mapper.Pages(), old(data), data, mapper.ram[..], start, count)
      ensures r.Err? ==> exists k: nat | k < count ::
                && old(Fits(mapper.ram[..], mapper.root, allocator.next, |allocator.Frames()|, start, k))
                && !old(Fits(mapper.ram[..], mapper.root, allocator.next, |allocator.Frames()|, start, k + 1))
                && MappedFirst(old(mapper.Pages()), mapper.Pages(), old(data), data, mapper.ram[..], start, k)
      ensures KeepsData(old(mapper.ram[..]), mapper.ram[..], old(data))
      ensures UserPaths(old(mapper.ram[..]), mapper.root) ==> UserPaths(mapper.ram[..], mapper.root)
    {
      ghost var mem, from, frames := mapper.ram[..], allocator.next, |allocator.Frames()|;
      for i := 0 to count
        invariant Valid()
        invariant MappedFirst(old(mapper.Pages()), mapper.Pages(), old(data), data, mapper.ram[..], start, i)
        invariant Spent(mem, mapper.ram[..], mapper.root, start, i, from, allocator.next)
        invariant Fits(mem, mapper.root, from, frames, start, i)
        invariant UserPaths(mem, mapper.root) ==> UserPaths(mapper.ram[..], mapper.root)
        invariant Extends(old(data), data) && KeepsData(mem, mapper.ram[..], old(data))
      {
        ghost var mid, dataMid := mapper.ram[..], data;
        var ok := MapNext(start, i, mem, old(data), from);
        KeepsDataTrans(mem, mid, mapper.ram[..], old(data), dataMid);
        if !ok {
          if Fits(mem, mapper.root, from, frames, start, count) {
            FitsLess(mem, mapper.root, from, frames, start, i + 1, count);
          }
          return Err(ENOMEM);
        }
      }
      r := Ok(start);
    }

    method MapNext(start: nat, i: nat, ghost mem: Memory, ghost before: map<nat, nat>, ghost from: nat) returns (ok: bool)
      requires Valid() && MappedFirst(PageMap(mem, mapper.root), mapper.Pages(), before, data, mapper.ram[..], start, i)
      requires Spent(mem, mapper.ram[..], mapper.root, start, i, from, allocator.next)
      requires Fits(mem, mapper.root, from, |allocator.Frames()|, start, i)
      modifies this, mapper, mapper.ram, allocator
      ensures Valid()
      ensures MappedFirst(PageMap(mem, mapper.root), mapper.Pages(), before, data, mapper.ram[..], start, if ok then i + 1 else i)
      ensures ok <==> Fits(mem, mapper.root, from, |allocator.Frames()|, start, i + 1)
      ensures ok ==> Spent(mem, mapper.ram[..], mapper.root, start, i + 1, from, allocator.next)
      ensures Extends(old(data), data) && KeepsData(old(mapper.ram[..]), mapper.ram[..], old(data))
      ensures UserPaths(old(mapper.ram[..]), mapper.root) ==> UserPaths(mapper.ram[..], mapper.root)
    {
      ghost var pages, mid, dataMid, memMid, next := PageMap(mem, mapper.root), mapper.Pages(), data, mapper.ram[..], allocator.next;
      var v := AddressAt(start, i);
      DataIsMapped(dataMid, mid, mapper.place, allocator.Frames(), allocator.next);
      NextFits(mem, memMid, mid, before, dataMid, mapper.root, start, i, from, next, |allocator.Frames()|);
      ok := MapFreshPage(v);
      AddedKeeps(ok, mid, mapper.Pages(), dataMid, data, memMid, mapper.ram[..], Page(v));
      MapOneMore(ok, pages, mid, mapper.Pages(), before, dataMid, data, memMid, mapper.ram[..], start, i);
      if ok {
        SpendOneMore(mem, memMid, mapper.ram[..], mapper.root, start, i, from, next, allocator.next);
      }
    }

    /** Unmaps `count` pages from `start`, skipping those that are not mapped. */
    method Munmap(start: nat, count: nat)
      requires Valid()
      modifies this, mapper.ram
      ensures Valid()
      ensures UnmappedFirst(old(mapper.Pages()), mapper.Pages(), old(data), data, start, count)
      ensures KeepsData(old(mapper.ram[..]), mapper.ram[..], old(data))
      ensures UserPaths(old(mapper.ram[..]), mapper.root) ==> UserPaths(mapper.ram[..], mapper.root)
    {
      ghost var mem := mapper.ram[..];
      for i := 0 to count
        invariant Valid()
        invariant UserPaths(mem, mapper.root) ==> UserPaths(mapper.ram[..], mapper.root)
        invariant UnmappedFirst(PageMap(mem, mapper.root), mapper.Pages(), old(data), data, start, i)
        invariant OnlyTablesWritten(mem, mapper.ram[..], mapper.place)
      {
        ghost var mid, dataMid := mapper.Pages(), data;
        UnmapPage(AddressAt(start, i));
        UnmapOneMore(PageMap(mem, mapper.root), mid, mapper.Pages(), old(data), dataMid, data, start, i);
      }
      TablesOnly(mem, mapper.ram[..], mapper.place, old(data));
    }

    method UnmapPage(v: nat)
      requires Valid()
      modifies this, mapper.ram
      ensures Valid()
      ensures mapper.Pages() == if IsSmall(MappedAt(old(mapper.Pages()), Page(v))) then Without(old(mapper.Pages()), Page(v))
                                else old(mapper.Pages())
      ensures data == old(data) - {Page(v)}
      ensures OnlyTablesWritten(old(mapper.ram[..]), mapper.ram[..], mapper.place)
      ensures UserPaths(old(mapper.ram[..]), mapper.root) ==> UserPaths(mapper.ram[..], mapper.root)
    {
      var _ := mapper.Unmap(v);
      data := data - {Page(v)};
    }
  }

  /** `munmap` removes the level-1 mappings of the pages it names and nothing else. */
  ghost predicate UnmappedFirst(pages: imap<nat, Mapping>, pages': imap<nat, Mapping>,
                                data: map<nat, nat>, data': map<nat, nat>, start: nat, k: nat)
  {
    && (forall p :: MappedAt(pages', p) ==
          if Among(start, k, p) && IsSmall(MappedAt(pages, p)) then None else MappedAt(pages, p))
    && (forall p :: DataAt(data', p) == if Among(start, k, p) then None else DataAt(data, p))
  }

  predicate IsSmall(m: Option<Mapping>)
  {
    m.Some? && m.value.level == 1
  }

  lemma UnmapOneMore(pages: imap<nat, Mapping>, mid: imap<nat, Mapping>, pages': imap<nat, Mapping>,
                     data: map<nat, nat>, dataMid: map<nat, nat>, data': map<nat, nat>, start: nat, k: nat)
    requires UnmappedFirst(pages, mid, data, dataMid, start, k)
    requires var page := PageAt(start, k);
             && pages' == (if IsSmall(MappedAt(mid, page)) then Without(mid, page) else mid)
             && data' == dataMid - {page}
    ensures UnmappedFirst(pages, pages', data, data', start, k + 1)
  {
    forall p
      ensures MappedAt(pages', p) ==
              if Among(start, k + 1, p) && IsSmall(MappedAt(pages, p)) then None else MappedAt(pages, p)
      ensures DataAt(data', p) == if Among(start, k + 1, p) then None else DataAt(data, p)
    {
      AmongOneMore(start, k, p);
      assert MappedAt(mid, p) == if Among(start, k, p) && IsSmall(MappedAt(pages, p)) then None else MappedAt(pages, p);
      assert DataAt(dataMid, p) == if Among(start, k, p) then None else DataAt(data, p);
    }
  }

  lemma KeepsFirst(pages: imap<nat, Mapping>, pages': imap<nat, Mapping>, data: map<nat, nat>, data': map<nat, nat>,
                   mem: Memory, mem': Memory, start: nat, k: nat)
    requires MappedFirst(pages, pages', data, data', mem, start, k) && KeepsData(mem, mem', data')
    ensures MappedFirst(pages, pages', data, data', mem', start, k)
  {
    forall i: nat | i < k
      ensures FreshPage(pages, data', mem', PageAt(start, i))
    {
      assert FreshPage(pages, data', mem, PageAt(start, i));
    }
  }

  /** Every word of the data pages is as it was. */
  ghost predicate KeepsData(mem: Memory, mem': Memory, data: map<nat, nat>)
  {
    |mem'| == |mem| && forall p, k: nat | p in data && k < |mem| && PageOfWord(k) == data[p] :: mem'[k] == mem[k]
  }

  /** Data pages only join. */
  ghost predicate Extends(data: map<nat, nat>, data': map<nat, nat>)
  {
    forall p | p in data :: p in data' && data'[p] == data[p]
  }

  lemma KeepsDataTrans(a: Memory, b: Memory, c: Memory, data: map<nat, nat>, data': map<nat, nat>)
    requires KeepsData(a, b, data) && KeepsData(b, c, data') && Extends(data, data')
    ensures KeepsData(a, c, data)
  {
  }
}
