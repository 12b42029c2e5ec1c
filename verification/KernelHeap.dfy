/** The kernel heap: malloc, free, aligned_alloc and realloc over power-of-two free lists and tracked pages.
    Pages come from the physical memory manager: `page` is the address it would return, 0 for none. */
module KernelHeap {
  import opened Alignment
  import opened PageTracker
  import opened HeapState
  import opened HeapPages

  const U64: nat := 0x1_0000_0000_0000_0000
  const HEAP_MAGIC: nat := 0xC0FF_EE12_3456_7890
  const ALIGNED_MAGIC: nat := 0x1234_5678_C0FF_EE00

  /** AllocHeader: the 16 bytes before a pointer. */
  datatype Header = Header(size: nat, magic: nat)

  function HeaderAt(headers: map<nat, Header>, a: int): Header {
    if a in headers then headers[a] else Header(0, 0)
  }

  /** What heap_resolve_header finds. */
  datatype Resolved = Unknown | Found(base: int, aligned: bool)

  function Resolve(headers: map<nat, Header>, ptr: nat): (r: Resolved)
    ensures r.Found? && r.aligned ==> r.base + HEADER < ptr
  {
    var h := HeaderAt(headers, ptr - HEADER);
    if ptr == 0 then Unknown
    else if h.magic != ALIGNED_MAGIC then Found(ptr - HEADER, false)
    else if h.size == 0 || h.size >= ptr then Unknown
    else Found(h.size - HEADER, true)
  }

  /** free reports heap corruption and does nothing. */
  predicate Rejected(headers: map<nat, Header>, ptr: nat) {
    var r := Resolve(headers, ptr);
    r.Unknown? || HeaderAt(headers, r.base).magic != HEAP_MAGIC
  }

  /** The headers of every live pointer say where its block is and how large. */
  ghost predicate HeadersOk(headers: map<nat, Header>, live: map<nat, Block>) {
    forall u :: u in live ==> HeaderOk(headers, u, live[u])
  }

  predicate HeaderOk(headers: map<nat, Header>, u: nat, x: Block) {
    && HeaderAt(headers, x.base) == Header(x.cap, HEAP_MAGIC)
    && (u == x.base + HEADER ||
        (u >= x.base + 2 * HEADER && HeaderAt(headers, u - HEADER) == Header(x.base + HEADER, ALIGNED_MAGIC)))
  }

  lemma ResolveLive(headers: map<nat, Header>, live: map<nat, Block>, u: nat)
    requires HeadersOk(headers, live) && u in live
    ensures Resolve(headers, u) == Found(live[u].base, u != live[u].base + HEADER) && !Rejected(headers, u)
  {
    assert HeaderOk(headers, u, live[u]);
  }

  /** Writing a header into one block does not touch the headers of the others. */
  lemma HeadersKept(headers: map<nat, Header>, s: State, a: nat, h: Header, x: Block)
    requires Inv(s) && HeadersOk(headers, s.live) && x.base <= a < x.base + x.cap
    requires forall u :: u in s.live ==> Disjoint(x, s.live[u])
    ensures HeadersOk(headers[a := h], s.live)
  {
    hide Lists, Pages, Filled, Separate, LiveBlock;
    forall u | u in s.live
      ensures HeaderOk(headers[a := h], u, s.live[u])
    {
      assert HeaderOk(headers, u, s.live[u]) && Disjoint(x, s.live[u]);
      LiveSize(s, u);
    }
  }

  lemma LiveSize(s: State, u: nat)
    requires Inv(s) && u in s.live
    ensures s.live[u].cap >= 32
  {
    assert LiveBlock(s, s.live[u]);
  }

  function At(bytes: map<nat, int>, a: nat): int {
    if a in bytes then bytes[a] else 0
  }

  /** The data of a pointer overlaps no header of a live block. */
  lemma DataApartFromHeaders(s: State, headers: map<nat, Header>, u: nat, v: nat)
    requires Inv(s) && HeadersOk(headers, s.live) && u in s.live && v in s.live
    ensures s.live[v].base + HEADER <= u || s.live[u].base + s.live[u].cap <= s.live[v].base
    ensures v <= u || s.live[u].base + s.live[u].cap <= v - HEADER
  {
    hide Lists, Pages, Filled, LiveBlock;
    LiveSize(s, u);
    LiveSize(s, v);
    assert HeaderOk(headers, v, s.live[v]) && HeaderOk(headers, u, s.live[u]);
    if u != v {
      assert Disjoint(s.live[u], s.live[v]);
    }
  }

  function PagesFor(total: nat): nat {
    (total + 4095) % U64 / PAGE
  }

  /** What a call may get from the physical memory manager: pages that the heap does not own. */
  ghost predicate Grant(s: State, size: nat, page: nat) {
    page != 0 ==>
      page % PAGE == 0 && Unowned(s, page, if size + HEADER > PAGE then PAGE * PagesFor(size + HEADER) else PAGE)
  }

  /** No listed block serves a request of this size. */
  ghost predicate NeedsPage(s: State, size: nat) {
    size + HEADER > PAGE || (BucketIndex(size + HEADER) < |s.buckets| && s.buckets[BucketIndex(size + HEADER)] == [])
  }

  /** A request that malloc turns down: of no bytes, too large, or for want of pages. */
  ghost predicate Unserved(s: State, size: nat, page: nat) {
    size == 0 || size + HEADER > U64 - PAGE || (page == 0 && NeedsPage(s, size))
  }

  /** The pages a request is given: none if it is turned down at once or a listed block serves it. */
  ghost function Granted(s: State, size: nat, page: nat): seq<nat> {
    if size == 0 || size + HEADER > U64 - PAGE || page == 0 || !NeedsPage(s, size) then []
    else if size + HEADER > PAGE then RunPages(page, PagesFor(size + HEADER))
    else [page]
  }

  /** Sizes that are served from a single page. */
  predicate NeedsFrame(size: nat) {
    size + HEADER <= PAGE
  }

  class Heap {
    const tracker: Tracker
    var buckets: seq<seq<nat>>
    var headers: map<nat, Header>
    var bytes: map<nat, int>
    ghost var live: map<nat, Block>

    ghost function S(): State
      reads this, tracker
    {
      State(tracker.view, buckets, live)
    }

    ghost predicate Valid()
      reads this, tracker, tracker.slots
    {
      tracker.Valid() && Inv(S()) && HeadersOk(headers, live)
    }

    /** heap_init. */
    constructor ()
      ensures Valid() && live == map[] && tracker.view == map[] && fresh(tracker) && fresh(tracker.slots)
    {
      tracker := new Tracker();
      buckets := seq(BUCKETS, _ => []);
      headers, bytes, live := map[], map[], map[];
    }

    /** Takes the first block of a bucket. */
    method TakeBlock(b: nat) returns (ptr: nat)
      requires Valid() && b < BUCKETS && buckets[b] != []
      modifies this`buckets, this`headers, this`live, tracker, tracker.slots
      ensures Valid() && ptr == old(buckets[b][0]) + HEADER && ptr !in old(live)
      ensures S() == Taken(old(S()), b)
      ensures live == old(live)[ptr := Block(ptr - HEADER, BlockSize(b))] && ptr % 16 == 0
      ensures Conserves(old(S()), [], S(), [])
    {
      hide Lists, Pages, Filled, Lives, Separate, BlockSize, PageOf, Represents, Conserves;
      ghost var s := S();
      var a := buckets[b][0];
      FirstBlock(s, b);
      TakenKeeps(s, b);
      FreshKey(s, b);
      buckets := buckets[b := buckets[b][1..]];
      tracker.PageKey(PageOf(a));
      var k := tracker.Find(PageOf(a));
      if k >= 0 && tracker.slots[k].free > 0 {
        tracker.SetFree(k, tracker.slots[k].free - 1);
      }
      HeadersKept(headers, s, a, Header(BlockSize(b), HEAP_MAGIC), Block(a, BlockSize(b)));
      headers := headers[a := Header(BlockSize(b), HEAP_MAGIC)];
      ptr := a + HEADER;
      live := live[ptr := Block(a, BlockSize(b))];
      assert HeaderOk(headers, ptr, live[ptr]);
      assert S() == Taken(s, b) && Inv(S());
      SmallTaken(s, S(), ptr, Block(a, BlockSize(b)));
    }

    /** Cuts a new page into blocks. */
    method Refill(b: nat, page: nat)
      requires b < BUCKETS == |buckets| && buckets[b] == []
      modifies this`buckets
      ensures buckets == old(buckets)[b := PageBlocks(page, BlockSize(b), BlockCount(b))]
    {
      hide BlockSize;
      for i := 0 to BlockCount(b)
        invariant buckets == old(buckets)[b := PageBlocks(page, BlockSize(b), i)]
      {
        buckets := buckets[b := [page + i * BlockSize(b)] + buckets[b]];
      }
    }

    /** heap_alloc_large. */
    method AllocLarge(total: nat, page: nat) returns (ptr: nat)
      requires Valid() && PAGE < total < U64
      requires page != 0 ==> page % PAGE == 0 && Unowned(S(), page, PAGE * PagesFor(total))
      modifies this`headers, this`live
      ensures Valid()
      ensures ptr == 0 ==> live == old(live)
      ensures ptr == 0 <==> page == 0 || total > U64 - PAGE
      ensures ptr != 0 ==> ptr == page + HEADER && ptr % 16 == 0 && ptr !in old(live) && total <= PAGE * PagesFor(total)
      ensures ptr != 0 ==> live == old(live)[ptr := Block(page, PAGE * PagesFor(total))]
      ensures ptr != 0 ==> Conserves(old(S()), RunPages(page, PagesFor(total)), S(), [])
    {
      hide Lists, Pages, Filled, Lives, Separate, Represents, Conserves;
      LargeFits(total);
      var pages := PagesFor(total);
      if pages == 0 || page == 0 {
        return 0;
      }
      ghost var s := S();
      PageMod(page);
      LargeKeeps(s, page, PAGE * pages);
      HeadersKept(headers, s, page, Header(PAGE * pages, HEAP_MAGIC), Block(page, PAGE * pages));
      headers := headers[page := Header(PAGE * pages, HEAP_MAGIC)];
      ptr := page + HEADER;
      live := live[ptr := Block(page, PAGE * pages)];
      assert HeaderOk(headers, ptr, live[ptr]);
      assert Inv(S());
      RunTaken(s, S(), ptr, page, pages);
    }

    /** malloc. */
    method Malloc(size: nat, page: nat) returns (ptr: nat, released: seq<nat>)
      requires Valid() && size < U64 && Grant(S(), size, page)
      modifies this`buckets, this`headers, this`live, tracker, tracker.slots
      ensures Valid()
      ensures ptr == 0 ==> live == old(live)
      ensures ptr == 0 <==> Unserved(old(S()), size, page) || released != []
      ensures ptr != 0 ==> ptr !in old(live) && ptr in live && live == old(live)[ptr := live[ptr]]
      ensures ptr != 0 ==> live[ptr].base == ptr - HEADER && ptr + size <= live[ptr].base + live[ptr].cap
      ensures ptr != 0 ==> ptr % 16 == 0 && released == []
      ensures size + HEADER > PAGE ==> released == [] && tracker.view == old(tracker.view)
      ensures ptr != 0 && size + HEADER <= PAGE ==> live[ptr].cap <= PAGE
      ensures ptr != 0 && size + HEADER > PAGE ==>
                ptr == page + HEADER && live[ptr] == Block(page, PAGE * PagesFor(size + HEADER))
      ensures ptr != 0 && size + HEADER > PAGE ==> live[ptr].cap < size + HEADER + PAGE
      ensures ptr != 0 && 32 < size + HEADER <= PAGE ==> live[ptr].cap < 2 * (size + HEADER)
      ensures released != [] ==> page != 0 && released == [page] && NeedsPage(old(S()), size) && tracker.Full()
      ensures forall q :: q in tracker.view ==> q in old(tracker.view) || q == page
      ensures page == 0 || !NeedsPage(old(S()), size) || released != [] ==>
                tracker.view.Keys == old(tracker.view).Keys
      ensures Conserves(old(S()), Granted(old(S()), size, page), S(), released)
    {
      hide Represents, HeadersOk, BucketIndex, BlockSize, Unowned, PagesFor, Tracker.Full, Tracker.Valid, Inv, Grant,
        Conserves;
      InvSize(S());
      Unchanged(S(), S());
      released := [];
      if size == 0 || size + HEADER >= U64 {
        return 0, [];
      }
      var total := size + HEADER;
      if page != 0 {
        GrantFor(S(), size, page);
      }
      if total > PAGE {
        LargeFits(total);
        ptr := AllocLarge(total, page);
      } else {
        BucketFits(total);
        if total > 32 {
          BucketTight(total);
        }
        ptr, released := AllocSmall(BucketIndex(total), page);
      }
    }

    /** malloc_unlocked of a bucket size: the first listed block, or one of a new page. */
    method AllocSmall(b: nat, page: nat) returns (ptr: nat, released: seq<nat>)
      requires Valid() && b < BUCKETS && (page != 0 ==> page % PAGE == 0 && Unowned(S(), page, PAGE))
      modifies this`buckets, this`headers, this`live, tracker, tracker.slots
      ensures Valid()
      ensures ptr == 0 ==> live == old(live) && |old(buckets)| == BUCKETS && old(buckets)[b] == []
      ensures ptr == 0 <==> (page == 0 && old(buckets)[b] == []) || released != []
      ensures ptr != 0 ==> ptr >= HEADER && ptr % 16 == 0 && released == []
      ensures ptr != 0 ==> ptr !in old(live) && live == old(live)[ptr := Block(ptr - HEADER, BlockSize(b))]
      ensures released != [] ==> page != 0 && released == [page] && tracker.Full()
      ensures forall q :: q in tracker.view ==> q in old(tracker.view) || q == page
      ensures page == 0 || old(buckets)[b] != [] || released != [] ==> tracker.view.Keys == old(tracker.view).Keys
      ensures var given := if page == 0 || |old(buckets)| != BUCKETS || old(buckets)[b] != [] then [] else [page];
              Conserves(old(S()), given, S(), released)
    {
      hide Represents, HeadersOk, BlockSize, BlockCount, Unowned, Tracker.Full, Tracker.Valid, Inv, Conserves;
      InvSize(S());
      Unchanged(S(), S());
      ghost var s := S();
      released := [];
      if buckets[b] == [] {
        if page == 0 {
          return 0, [];
        }
        var ok := AddPage(b, page);
        if !ok {
          Declined(s, S(), page);
          return 0, [page];
        }
      }
      ghost var s1 := S();
      ptr := TakeBlock(b);
      if s.buckets[b] == [] {
        ConservesThen(s, [page], s1, S(), []);
      }
    }

    /** Tracks a new page and cuts it into blocks; fails when the tracker is full. */
    method AddPage(b: nat, page: nat) returns (ok: bool)
      requires Valid() && b < BUCKETS && buckets[b] == [] && page != 0 && page % PAGE == 0 && Unowned(S(), page, PAGE)
      modifies this`buckets, tracker, tracker.slots
      ensures Valid()
      ensures ok ==> S() == Refilled(old(S()), b, page) && |buckets| == BUCKETS && buckets[b] != []
      ensures !ok ==> S() == old(S()) && tracker.Full()
      ensures ok ==> Conserves(old(S()), [page], S(), [])
    {
      hide Lists, Pages, Filled, Lives, Separate, Represents, BlockSize, BlockCount, HeadersOk, PageBlocks, Conserves;
      ghost var s := S();
      RefilledKeeps(s, b, page);
      assert page !in tracker.view;
      ok := tracker.Add(page, b, BlockCount(b));
      if !ok {
        assert S() == s;
        return;
      }
      Refill(b, page);
      assert S() == Refilled(s, b, page);
      TrackedPages(s, S(), page);
    }

    /** free. A page goes back exactly when its last live block is freed. */
    method Free(ptr: nat) returns (released: seq<nat>)
      requires Valid() && (ptr == 0 || ptr in live || Rejected(headers, ptr))
      modifies this`buckets, this`headers, this`live, tracker, tracker.slots
      ensures Valid() && live == old(live) - {ptr}
      ensures ptr !in old(live) ==> S() == old(S()) && released == []
      ensures ptr in old(live) ==> released == FreedPages(old(S()), ptr)
      ensures Conserves(old(S()), [], S(), released)
      ensures tracker.view.Keys <= old(tracker.view).Keys
    {
      hide Lists, Pages, Filled, Separate, Represents, BlockSize, BlockCount, HeadersOk, PageOf, Bases, Conserves;
      Unchanged(S(), S());
      if ptr == 0 {
        NullNotLive(S());
        return [];
      }
      if ptr in live {
        ResolveLive(headers, live, ptr);
      }
      var r := Resolve(headers, ptr);
      if r.Unknown? || HeaderAt(headers, r.base).magic != HEAP_MAGIC {
        return [];
      }
      var size := HeaderAt(headers, r.base).size;
      LiveHeader(headers, live, ptr);
      if size > PAGE {
        released := FreeLarge(ptr, r.base, size);
      } else {
        released := FreeSmall(ptr, r.base, size);
      }
    }

    /** A run of pages goes back page by page. */
    method FreeLarge(ptr: nat, h: nat, size: nat) returns (released: seq<nat>)
      requires Valid() && ptr in live && live[ptr] == Block(h, size) && size > PAGE
      modifies this`headers, this`live
      ensures Valid() && live == old(live) - {ptr}
      ensures released == RunPages(h, size / PAGE) && Conserves(old(S()), [], S(), released)
    {
      hide Lists, Pages, Filled, Separate, Represents, LiveBlock, Conserves;
      ghost var s := S();
      LargeFreed(s, ptr);
      HeadersFreed(headers, s, ptr, Header(size, 0));
      headers := headers[h := Header(size, 0)];
      live := live - {ptr};
      released := [];
      for i := 0 to size / PAGE
        invariant released == RunPages(h, i)
      {
        released := released + [h + i * PAGE];
      }
      assert Inv(S());
      RunFreed(s, S(), ptr);
    }

    /** The page of the block goes back, or the block goes to the front of its list. */
    method FreeSmall(ptr: nat, h: nat, size: nat) returns (released: seq<nat>)
      requires Valid() && ptr in live && live[ptr] == Block(h, size) && size <= PAGE
      modifies this`buckets, this`headers, this`live, tracker, tracker.slots
      ensures Valid() && live == old(live) - {ptr}
      ensures released == if OthersIn(old(S()), ptr, PageOf(h)) then [] else [PageOf(h)]
      ensures Conserves(old(S()), [], S(), released)
      ensures tracker.view.Keys <= old(tracker.view).Keys
    {
      hide Lists, Pages, Filled, Lives, Separate, Represents, BlockSize, BlockCount, PageOf, Unowned, Outside,
        OthersIn, BucketIndex, Conserves;
      ghost var s := S();
      SmallLiveBlock(s, ptr);
      LastBlock(s, ptr);
      HeadersFreed(headers, s, ptr, Header(size, 0));
      headers := headers[h := Header(size, 0)];
      BucketBack(BucketOf(s, ptr));
      var b := BucketIndex(size);
      tracker.PageKey(PageOf(h));
      var k := tracker.Find(PageOf(h));
      var emptied := false;
      if k >= 0 {
        tracker.SetFree(k, tracker.slots[k].free + 1);
        emptied := tracker.slots[k].free == tracker.slots[k].total;
        if emptied {
          tracker.Remove(k);
        }
      }
      live := live - {ptr};
      if emptied {
        DroppedKeeps(s, ptr);
        RemovePageBlocks(b, PageOf(h));
        assert S() == Dropped(s, ptr);
        PageDropped(s, S(), ptr, PageOf(h));
        return [PageOf(h)];
      }
      PushedKeeps(s, ptr);
      buckets := buckets[b := [h] + buckets[b]];
      assert S() == Pushed(s, ptr);
      SmallFreed(s, S(), ptr);
      return [];
    }

    /** aligned_alloc. */
    method AlignedAlloc(alignment: nat, size: nat, page: nat) returns (ptr: nat, released: seq<nat>)
      requires Valid() && alignment < U64 && size < U64 && Grant(S(), AlignedSize(alignment, size), page)
      modifies this`buckets, this`headers, this`live, tracker, tracker.slots
      ensures Valid()
      ensures ptr == 0 ==> live == old(live)
      ensures ptr != 0 ==> ptr !in old(live) && ptr in live && live == old(live)[ptr := live[ptr]]
      ensures ptr != 0 ==> ptr + size <= live[ptr].base + live[ptr].cap
      ensures ptr != 0 ==> IsPowerOfTwo(alignment) && ptr % (if alignment <= 16 then 16 else alignment) == 0
      ensures ptr != 0 ==> released == []
      ensures AlignedSize(alignment, size) + HEADER > PAGE ==> released == [] && tracker.view == old(tracker.view)
      ensures ptr != 0 && alignment > 16 && AlignedSize(alignment, size) + HEADER > PAGE ==>
                && ptr == AlignDown(page + 2 * HEADER + alignment - 1, alignment)
                && live[ptr] == Block(page, PAGE * PagesFor(AlignedSize(alignment, size) + HEADER))
      ensures ptr == 0 <==>
                !IsPowerOfTwo(alignment) || Unserved(old(S()), AlignedSize(alignment, size), page) || released != []
      ensures released != [] ==>
                released == [page] && NeedsPage(old(S()), AlignedSize(alignment, size)) && tracker.Full()
      ensures Conserves(old(S()), AlignedGrant(old(S()), alignment, size, page), S(), released)
    {
      hide Lists, Pages, Filled, Separate, Represents, Unowned, LiveBlock, IsPowerOfTwo, Grant, Tracker.Full,
        NeedsPage, Conserves;
      ghost var s := S();
      Unchanged(s, s);
      if !IsPowerOfTwo(alignment) {
        return 0, [];
      }
      if alignment <= 16 {
        ptr, released := Malloc(size, page);
        return;
      }
      if size + (alignment - 1) >= U64 || size + (alignment - 1) + HEADER >= U64 {
        return 0, [];
      }
      var raw;
      raw, released := Malloc(size + (alignment - 1) + HEADER, page);
      if raw == 0 {
        return 0, released;
      }
      ptr := AlignDown(raw + HEADER + alignment - 1, alignment);
      ghost var s1 := S();
      MovePointer(raw, ptr);
      ConservesThen(s, AlignedGrant(s, alignment, size, page), s1, S(), []);
    }

    /** Writes the second header of an aligned block. */
    method MovePointer(raw: nat, ptr: nat)
      requires Valid() && raw in live && live[raw].base == raw - HEADER
      requires raw + HEADER <= ptr <= live[raw].base + live[raw].cap
      modifies this`headers, this`live
      ensures Valid() && live == (old(live) - {raw})[ptr := old(live[raw])] && ptr !in old(live)
      ensures Conserves(old(S()), [], S(), [])
    {
      hide Lists, Pages, Filled, Separate, Represents, LiveBlock, Conserves;
      ghost var s := S();
      ghost var rest := s.live - {raw};
      Rekeyed(s, raw, ptr);
      LiveHeader(headers, live, raw);
      HeadersMoved(headers, s, raw, ptr - HEADER, Header(raw, ALIGNED_MAGIC));
      headers := headers[ptr - HEADER := Header(raw, ALIGNED_MAGIC)];
      live := rest[ptr := live[raw]];
      assert HeaderOk(headers, ptr, live[ptr]);
      assert Inv(S());
      RekeyedPages(s, S(), raw, ptr);
    }

    /** realloc. */
    method Realloc(ptr: nat, size: nat, page: nat) returns (r: nat, released: seq<nat>)
      requires Valid() && ptr < U64 && size < U64 && Grant(S(), ReallocSize(headers, ptr, size), page)
      requires ptr == 0 || ptr in live || (Rejected(headers, ptr) && OldSize(headers, ptr) < 0)
      modifies this, tracker, tracker.slots
      ensures Valid()
      ensures ptr !in old(live) && ptr != 0 ==> r == 0 && live == old(live)
      ensures ptr in old(live) && size == 0 ==> r == 0 && live == old(live) - {ptr}
      ensures r == 0 && size > 0 ==> live == old(live)
      ensures r == 0 && size > 0 && (ptr == 0 || ptr in old(live)) ==>
                || Unserved(old(S()), if ptr == 0 then size else old(ReallocSize(headers, ptr, size)), page)
                || (released == [page] && tracker.Full() &&
                    NeedsFrame(if ptr == 0 then size else old(ReallocSize(headers, ptr, size))))
      ensures r != 0 ==>
                r in live && live == (old(live) - {ptr})[r := live[r]] && r + size <= live[r].base + live[r].cap
      ensures r != 0 && r != ptr ==> r !in old(live)
      ensures ptr in old(live) && 0 < size <= Room(old(live), ptr) ==> r == ptr && live == old(live)
      ensures ptr in old(live) && size > Room(old(live), ptr) ==> r != ptr
      ensures r != 0 && r != ptr && ptr in old(live) ==> r % Observed(ptr) == 0
      ensures r != 0 && ptr in old(live) ==> KeepsAlignment(ptr, r)
      ensures r != 0 && r != ptr && ptr in old(live) && ptr % PAGE == 0 ==> r == page + PAGE
      ensures r != 0 && ptr in old(live) ==>
                Read(bytes, r, Room(old(live), ptr)) == Read(old(bytes), ptr, Room(old(live), ptr))
      ensures forall v :: v in old(live) ==>
                Read(bytes, v, Room(old(live), v)) == Read(old(bytes), v, Room(old(live), v))
      ensures Conserves(old(S()), ReallocGrant(old(S()), old(headers), ptr, size, page), S(), released)
    {
      hide Lists, Pages, Filled, Separate, Represents, LiveBlock, Grant, Unowned, FreedPages, HeadersOk, IsPowerOfTwo,
        OldSize, Observed, Rejected, Tracker.Full, Read, At, NeedsPage, Unserved, AlignDown, KeepsAlignment,
        Conserves, Granted;
      NullNotLive(S());
      Unchanged(S(), S());
      if ptr == 0 {
        r, released := Malloc(size, page);
        return;
      }
      if size == 0 {
        released := Free(ptr);
        return 0, released;
      }
      ghost var s := S();
      if ptr in live {
        OldSizeLive(headers, s, ptr);
      }
      var oldSize := OldSize(headers, ptr);
      if oldSize < 0 {
        return 0, [];
      }
      if size <= oldSize {
        KeepsOwn(ptr);
        return ptr, [];
      }
      if IsAligned(headers, ptr) {
        ObservedPower(ptr);
        GrantPage(S(), AlignedSize(Observed(ptr), size), page);
        PageMove(ptr, page);
        r, released := AlignedAlloc(Observed(ptr), size, page);
      } else {
        PlainPointer(s, ptr);
        r, released := Malloc(size, page);
      }
      if r == 0 {
        return;
      }
      ObservedKeeps(ptr, r);
      CopyBytes(s, ptr, r, oldSize);
      ghost var s1 := S();
      released := Free(ptr);
      ConservesThen(s, ReallocGrant(s, old(headers), ptr, size, page), s1, S(), released);
    }

    /** memcpy into a block that was just allocated. */
    method CopyBytes(ghost s: State, ptr: nat, r: nat, n: nat)
      requires Inv(s) && Inv(S()) && ptr in s.live && r !in s.live && r in live && live == s.live[r := live[r]]
      requires n == Room(s.live, ptr) && n <= Room(live, r)
      modifies this`bytes
      ensures Read(bytes, r, n) == Read(old(bytes), ptr, n)
      ensures forall v :: v in s.live ==> Read(bytes, v, Room(s.live, v)) == Read(old(bytes), v, Room(s.live, v))
    {
      hide Lists, Pages, Filled, LiveBlock, At;
      RoomApart(s, S(), ptr, r, n);
      for i := 0 to n
        invariant Read(bytes, r, i) == Read(old(bytes), ptr, i)
        invariant SameOutside(old(bytes), bytes, r, r + n)
      {
        var was := bytes;
        bytes := bytes[r + i := At(bytes, ptr + i)];
        PutOutside(was, r + i, At(was, ptr + i));
        ReadSame(was, bytes, r, i, r + i, r + i + 1);
      }
      forall v | v in s.live
        ensures Read(bytes, v, Room(s.live, v)) == Read(old(bytes), v, Room(s.live, v))
      {
        RoomApart(s, S(), v, r, n);
        ReadSame(old(bytes), bytes, v, Room(s.live, v), r, r + n);
      }
    }

    /** bucket_remove_page_blocks. */
    method RemovePageBlocks(b: nat, page: nat)
      requires b < |buckets|
      modifies this`buckets
      ensures buckets == old(buckets)[b := Outside(old(buckets[b]), page)]
    {
      var list, kept: seq<nat> := buckets[b], [];
      for i := 0 to |list|
        invariant kept == Outside(list[..i], page)
      {
        assert list[..i + 1][..i] == list[..i];
        if list[i] < page || list[i] >= page + PAGE {
          kept := kept + [list[i]];
        }
      }
      assert list[..|list|] == list;
      buckets := buckets[b := kept];
    }
  }

  /** The pages a free gives back. */
  ghost function FreedPages(s: State, u: nat): seq<nat>
    requires u in s.live
  {
    var x := s.live[u];
    if x.cap > PAGE then RunPages(x.base, x.cap / PAGE)
    else if OthersIn(s, u, PageOf(x.base)) then [] else [PageOf(x.base)]
  }

  ghost function AlignedGrant(s: State, alignment: nat, size: nat, page: nat): seq<nat> {
    if IsPowerOfTwo(alignment) then Granted(s, AlignedSize(alignment, size), page) else []
  }

  /** What realloc is given: nothing where it keeps, frees or refuses the block. */
  ghost function ReallocGrant(s: State, headers: map<nat, Header>, ptr: nat, size: nat, page: nat): seq<nat> {
    if ptr == 0 || (ptr in s.live && size > 0 && size > Room(s.live, ptr)) then
      Granted(s, ReallocSize(headers, ptr, size), page)
    else []
  }

  /** What aligned_alloc asks malloc for. */
  function AlignedSize(alignment: nat, size: nat): nat {
    if alignment <= 16 then size else size + (alignment - 1) + HEADER
  }

  /** Rounding down to a multiple: for a power of two, clearing the low bits. */
  function AlignDown(x: nat, a: nat): (r: nat)
    requires a > 0
    ensures r % a == 0 && x - a < r <= x
  {
    ProductMultiple(a, x / a);
    assert x - x % a == a * (x / a);
    x - x % a
  }

  lemma HeadersMoved(headers: map<nat, Header>, s: State, u: nat, a: nat, h: Header)
    requires Inv(s) && HeadersOk(headers, s.live) && u in s.live
    requires s.live[u].base < a < s.live[u].base + s.live[u].cap
    ensures HeadersOk(headers[a := h], s.live - {u})
  {
    hide Lists, Pages, Filled, LiveBlock;
    var live := s.live - {u};
    forall v | v in live
      ensures HeaderOk(headers[a := h], v, live[v])
    {
      assert HeaderOk(headers, v, s.live[v]) && Disjoint(s.live[u], s.live[v]);
      LiveSize(s, v);
    }
  }

  /** The bytes from a pointer to the end of its block. */
  ghost function Room(live: map<nat, Block>, u: nat): int {
    if u in live then live[u].base + live[u].cap - u else 0
  }

  /** The n bytes at an address. */
  function Read(bytes: map<nat, int>, p: nat, n: int): seq<int> {
    if n <= 0 then [] else Read(bytes, p, n - 1) + [At(bytes, p + n - 1)]
  }

  ghost predicate SameOutside(b: map<nat, int>, c: map<nat, int>, lo: nat, hi: nat) {
    forall a: nat :: a < lo || a >= hi ==> At(c, a) == At(b, a)
  }

  lemma PutOutside(b: map<nat, int>, a: nat, v: int)
    ensures SameOutside(b, b[a := v], a, a + 1) && At(b[a := v], a) == v
  {
  }

  lemma {:induction false} ReadSame(b: map<nat, int>, c: map<nat, int>, p: nat, n: int, lo: nat, hi: nat)
    requires SameOutside(b, c, lo, hi) && (p + n <= lo || hi <= p)
    ensures Read(c, p, n) == Read(b, p, n)
    decreases if n < 0 then 0 else n
  {
    hide At;
    if n > 0 {
      ReadSame(b, c, p, n - 1, lo, hi);
    }
  }

  /** A block that was just allocated is apart from the data of the others. */
  lemma RoomApart(s: State, t: State, v: nat, r: nat, n: nat)
    requires Inv(s) && Inv(t) && v in s.live && r !in s.live && r in t.live && t.live == s.live[r := t.live[r]]
    requires n <= Room(t.live, r)
    ensures 0 <= Room(s.live, v) && (r + n <= v || v + Room(s.live, v) <= r)
  {
    hide Lists, Pages, Filled, LiveBlock;
    assert t.live[v] == s.live[v] && Disjoint(t.live[r], t.live[v]);
  }

  predicate IsAligned(headers: map<nat, Header>, ptr: nat) {
    Resolve(headers, ptr).Found? && Resolve(headers, ptr).aligned
  }

  /** The size realloc computes for an old pointer; negative when it gives up. */
  function OldSize(headers: map<nat, Header>, ptr: nat): int {
    var r := Resolve(headers, ptr);
    if r.Unknown? then -1
    else
      var h := HeaderAt(headers, r.base);
      if h.magic != HEAP_MAGIC || h.size < HEADER then -1
      else
        var usable, base := h.size - HEADER, r.base + HEADER;
        if ptr < base || ptr - base > usable then -1 else usable - (ptr - base)
  }

  lemma OldSizeLive(headers: map<nat, Header>, s: State, u: nat)
    requires Inv(s) && HeadersOk(headers, s.live) && u in s.live
    ensures OldSize(headers, u) == Room(s.live, u) >= 0
    ensures IsAligned(headers, u) <==> u != s.live[u].base + HEADER
  {
    hide Lists, Pages, Filled, Separate, LiveBlock;
    ResolveLive(headers, s.live, u);
    LiveHeader(headers, s.live, u);
    LiveSize(s, u);
  }

  /** What realloc may ask malloc for. */
  function ReallocSize(headers: map<nat, Header>, ptr: nat, size: nat): nat {
    if IsAligned(headers, ptr) then AlignedSize(Observed(ptr), size) else size
  }

  lemma KeepsOwn(ptr: nat)
    ensures KeepsAlignment(ptr, ptr)
  {
    hide IsPowerOfTwo;
  }

  /** Where a block with a page-aligned pointer moves to. */
  lemma PageMove(ptr: nat, page: nat)
    requires ptr > 0 && page % PAGE == 0
    ensures ptr % PAGE == 0 ==>
              Observed(ptr) == PAGE && AlignDown(page + 2 * HEADER + PAGE - 1, PAGE) == page + PAGE
  {
    hide Observed;
    if ptr % PAGE == 0 {
      ObservedPage(ptr);
    }
  }

  /** The pointer of a plain block lies 16 bytes behind a multiple of 32. */
  lemma PlainPointer(s: State, u: nat)
    requires Inv(s) && u in s.live && u == s.live[u].base + HEADER
    ensures Observed(u) == 16 && u % PAGE != 0
  {
    hide Lists, Pages, Filled, Separate, Observed;
    var x := s.live[u];
    assert LiveBlock(s, x);
    if x.cap <= PAGE {
      BlockEven(x.base, s.view[PageOf(x.base)].bucket);
    } else {
      PageEven(x.base);
    }
    ObservedPlain(u);
    NotPage(u);
  }

  lemma NullNotLive(s: State)
    requires Inv(s)
    ensures 0 !in s.live && s.live - {0} == s.live
  {
    hide Lists, Pages, Filled, Separate, LiveBlock;
  }

  lemma LiveHeader(headers: map<nat, Header>, live: map<nat, Block>, u: nat)
    requires HeadersOk(headers, live) && u in live
    ensures HeaderAt(headers, live[u].base) == Header(live[u].cap, HEAP_MAGIC)
  {
    assert HeaderOk(headers, u, live[u]);
  }

  /** Overwriting the header of a freed block. */
  lemma HeadersFreed(headers: map<nat, Header>, s: State, u: nat, h: Header)
    requires Inv(s) && HeadersOk(headers, s.live) && u in s.live
    ensures HeadersOk(headers[s.live[u].base := h], s.live - {u})
  {
    hide Lists, Pages, Filled, LiveBlock;
    var a, live := s.live[u].base, s.live - {u};
    forall v | v in live
      ensures HeaderOk(headers[a := h], v, live[v])
    {
      assert HeaderOk(headers, v, s.live[v]) && Disjoint(s.live[u], s.live[v]);
      LiveSize(s, u);
      LiveSize(s, v);
    }
  }

  lemma PageMod(page: nat)
    requires page % PAGE == 0
    ensures (page + HEADER) % 16 == 0
  {
    assert page == 16 * (256 * (page / PAGE));
  }

  lemma GrantPage(s: State, size: nat, page: nat)
    requires Grant(s, size, page)
    ensures page % PAGE == 0
  {
  }

  lemma PageEven(page: nat)
    requires page % PAGE == 0
    ensures (page + HEADER) % 32 == 16
  {
    DividesTransitive(page, PAGE, 32);
    Odd16(page);
  }

  lemma BlockEven(a: nat, b: nat)
    requires b < BUCKETS && a % BlockSize(b) == 0
    ensures (a + HEADER) % 32 == 16
  {
    hide BlockSize;
    DividesTransitive(a, BlockSize(b), 32);
    Odd16(a);
  }

  lemma Odd16(a: nat)
    requires a % 32 == 0
    ensures (a + HEADER) % 32 == 16
  {
    Remainder(a + HEADER, 32, a / 32, 16);
  }

  lemma NotPage(a: nat)
    requires a % 32 == 16
    ensures a % PAGE != 0
  {
    if a % PAGE == 0 {
      DividesTransitive(a, PAGE, 32);
    }
  }

  lemma InvSize(s: State)
    requires Inv(s)
    ensures |s.buckets| == BUCKETS
  {
  }

  lemma GrantFor(s: State, size: nat, page: nat)
    requires Grant(s, size, page) && page != 0
    ensures page % PAGE == 0
    ensures size + HEADER > PAGE ==> Unowned(s, page, PAGE * PagesFor(size + HEADER))
    ensures size + HEADER <= PAGE ==> Unowned(s, page, PAGE)
  {
  }

  lemma LargeFits(total: nat)
    requires PAGE < total < U64
    ensures PagesFor(total) > 0 ==> PAGE * PagesFor(total) >= total && PAGE * PagesFor(total) > PAGE
    ensures PAGE * PagesFor(total) < total + PAGE
    ensures PagesFor(total) == 0 ==> total > U64 - PAGE
  {
  }

  /** More than half of a block is used, but for the smallest ones. */
  lemma BucketTight(total: nat)
    requires 32 < total <= PAGE
    ensures BucketIndex(total) < BUCKETS && BlockSize(BucketIndex(total)) < 2 * total
  {
    hide BlockSize, BitLength, Pow2;
    BucketFits(total);
    var b := BucketIndex(total);
    BlockSizeEnds();
    if b > 0 {
      BlockSizePow(b);
      BlockSizePow(b - 1);
      Doubled(b + 4);
    }
  }

  lemma Doubled(k: nat)
    ensures Pow2(k + 1) == 2 * Pow2(k)
  {
  }

  lemma FirstBlock(s: State, b: nat)
    requires Inv(s) && b < BUCKETS && s.buckets[b] != []
    ensures PageOf(s.buckets[b][0]) in s.view && IsBlock(s.view, s.buckets[b][0], b)
    ensures s.buckets[b][0] % 16 == 0
  {
    assert s.buckets[b][0] in s.buckets[b];
    BlockMod(s.buckets[b][0], b);
  }

  lemma BlockMod(a: nat, b: nat)
    requires b < BUCKETS && a % BlockSize(b) == 0
    ensures a % 16 == 0
  {
  }

  lemma EmptyUnowned(s: State, base: nat, cap: nat)
    requires s.view == map[] && s.live == map[]
    ensures Unowned(s, base, cap)
  {
  }

  /** The only live block does not reach the pages that are granted. */
  lemma LastUnowned(s: State, ptr: nat, base: nat, cap: nat)
    requires s.view == map[] && s.live.Keys == {ptr} && s.live[ptr].base + s.live[ptr].cap <= base
    ensures Unowned(s, base, cap)
  {
  }

  /** Alignments above a page are lost: an 8192-aligned block moves to the middle of an 8192-byte range. */
  method LosesAlignment() returns (ptr: nat, r: nat)
    ensures ptr > 0 && ptr % 8192 == 0 && r > 0 && r % 8192 == 4096
  {
    hide Inv, KeepsAlignment, Tracker.Full, NeedsPage, Unowned, Tracker.Valid, Observed, HeadersOk, Read, IsAligned,
      IsPowerOfTwo;
    var h := new Heap();
    EmptyUnowned(h.S(), 0x1_0000, 0x3000);
    EightKiB();
    var released;
    ptr, released := h.AlignedAlloc(8192, 100, 0x1_0000);
    assert ptr == 0x1_2000 && h.live[ptr] == Block(0x1_0000, 0x3000);
    ObservedPage(ptr);
    OldSizeLive(h.headers, h.S(), ptr);
    LastUnowned(h.S(), ptr, 0x2_0000, 0x6000);
    r, released := h.Realloc(ptr, 20000, 0x2_0000);
  }

  lemma EightKiB()
    ensures IsPowerOfTwo(8192)
  {
    SmallPowers();
    assert IsPowerOfTwo(8192 / 2);
  }
}
