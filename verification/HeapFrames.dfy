/** The kernel heap on top of the physical memory manager: its pages are frames it was given, seen through the
    direct map. It holds each of them once, and no call changes what others hold. */
module HeapFrames {
  import opened Alignment
  import opened HeapState
  import opened HeapPages
  import opened KernelHeap
  import opened PageTracker
  import Bitmap
  import Frames
  import Ram = PhysicalMemory

  const DIRECT: nat := 0xFFFF_8000_0000_0000

  /** Where frame f is seen. */
  function Seen(f: nat): nat { DIRECT + PAGE * f }

  function FrameOf(a: nat): nat
    requires a >= DIRECT
  {
    (a - DIRECT) / PAGE
  }

  /** The page at q is that of a frame held once. */
  predicate Backs(rc: seq<nat>, q: nat) {
    q >= DIRECT + PAGE && q == Seen(FrameOf(q)) && FrameOf(q) < |rc| && rc[FrameOf(q)] == 1
  }

  ghost predicate Backed(s: State, rc: seq<nat>) {
    forall q :: Owns(s, q) ==> Backs(rc, q)
  }

  /** The references to frame k that are not the heap's. */
  ghost function Others(s: State, rc: seq<nat>, k: nat): int
    requires k < |rc|
  {
    var n: int := rc[k];
    if Owns(s, Seen(k)) then n - 1 else n
  }

  /** Every frame has as many references besides the heap's as before: the heap has lost none of its own, and has taken
      or given back none of anybody else's. */
  ghost predicate SameOthers(s: State, rc: seq<nat>, s': State, rc': seq<nat>) {
    |rc'| == |rc| && forall k :: 0 <= k < |rc| ==> Others(s', rc', k) == Others(s, rc, k)
  }

  /** The addresses of a run of frames. */
  lemma RunOf(f: nat, n: nat, a: nat)
    ensures Seen(f) <= a < Seen(f) + PAGE * n <==> DIRECT <= a && f <= FrameOf(a) < f + n
  {
    if a >= DIRECT {
      var d := a - DIRECT;
      assert PAGE * (d / PAGE) <= d < PAGE * (d / PAGE) + PAGE;
    }
  }

  lemma SeenFrame(k: nat)
    ensures FrameOf(Seen(k)) == k && Seen(k) % PAGE == 0
  {
  }

  /** The pages of a run of frames. */
  lemma RunSeen(f: nat, n: nat, k: nat)
    ensures Seen(k) in RunPages(Seen(f), n) <==> f <= k < f + n
  {
    hide RunPages;
    SeenFrame(f);
    SeenFrame(k);
    RunHas(Seen(f), n, Seen(k));
    RunOf(f, n, Seen(k));
  }

  lemma NotThere(s: State, p: Frames.Pmm, f: nat, n: nat, q: nat)
    requires Backed(s, p.rc) && Frames.Valid(p) && f + n <= |p.used| && forall k :: f <= k < f + n ==> !p.used[k]
    requires Owns(s, q)
    ensures !(Seen(f) <= q < Seen(f) + PAGE * n)
  {
    hide Owns;
    RunOf(f, n, q);
    assert Backs(p.rc, q);
  }

  /** Two ranges of pages that overlap have a page in common. */
  lemma Overlap(base: nat, cap: nat, x: Block) returns (q: nat)
    requires base % PAGE == 0 && x.base % PAGE == 0 && x.cap > PAGE && cap > 0
    requires !Disjoint(Block(base, cap), x)
    ensures InRun(x, q) && base <= q < base + cap
  {
    q := if base <= x.base then x.base else base;
  }

  lemma SamePage(base: nat, n: nat, q: nat, a: nat)
    requires base % PAGE == 0 && q % PAGE == 0 && q <= a < q + PAGE && base <= a < base + PAGE * n
    ensures base <= q < base + PAGE * n
  {
    var i, j := base / PAGE, q / PAGE;
    assert base == PAGE * i && q == PAGE * j;
  }

  /** Free frames are no part of the heap. */
  lemma FreshUnowned(s: State, p: Frames.Pmm, f: nat, n: nat)
    requires Inv(s) && Backed(s, p.rc) && Frames.Valid(p) && f + n <= |p.used| && n > 0
    requires forall k :: f <= k < f + n ==> !p.used[k]
    ensures Unowned(s, Seen(f), PAGE * n)
  {
    hide Inv, Backed, Frames.Valid, Seen;
    var base, cap := Seen(f), PAGE * n;
    SeenFrame(f);
    forall q | q in s.view
      ensures !(base <= q < base + cap)
    {
      NotThere(s, p, f, n, q);
    }
    forall u | u in s.live
      ensures Disjoint(Block(base, cap), s.live[u])
    {
      FreshApart(s, p, f, n, u);
    }
  }

  lemma FreshApart(s: State, p: Frames.Pmm, f: nat, n: nat, u: nat)
    requires Inv(s) && Backed(s, p.rc) && Frames.Valid(p) && f + n <= |p.used| && n > 0
    requires u in s.live && forall k :: f <= k < f + n ==> !p.used[k]
    ensures Disjoint(Block(Seen(f), PAGE * n), s.live[u])
  {
    hide Lists, Pages, Filled, Separate, Backed, Frames.Valid, Seen, PageOf;
    var base, cap, x := Seen(f), PAGE * n, s.live[u];
    assert LiveBlock(s, x);
    SeenFrame(f);
    LiveSize(s, u);
    if !Disjoint(Block(base, cap), x) {
      if x.cap > PAGE {
        var q := Overlap(base, cap, x);
        assert InRun(s.live[u], q);
        NotThere(s, p, f, n, q);
      } else {
        var a := if base <= x.base then x.base else base;
        SmallInPage(s, u, a);
        PageStart(x.base);
        SamePage(base, n, PageOf(x.base), a);
        NotThere(s, p, f, n, PageOf(x.base));
      }
    }
  }

  lemma PageStart(a: nat)
    ensures PageOf(a) % PAGE == 0
  {
  }

  /** A small live block lies in a tracked page. */
  lemma SmallInPage(s: State, u: nat, a: nat)
    requires Inv(s) && u in s.live && s.live[u].cap <= PAGE
    requires s.live[u].base <= a < s.live[u].base + s.live[u].cap
    ensures PageOf(s.live[u].base) in s.view && PageOf(s.live[u].base) <= a < PageOf(s.live[u].base) + PAGE
  {
    hide Lists, Pages, Filled, Separate, BlockSize;
    assert LiveBlock(s, s.live[u]);
    var x := s.live[u];
    InBlockPage(x.base, s.view[PageOf(x.base)].bucket);
  }

  lemma InBlockPage(base: nat, b: nat)
    requires b < BUCKETS && base % BlockSize(b) == 0
    ensures base + BlockSize(b) <= PageOf(base) + PAGE
  {
    hide BlockSize;
    var size, r := BlockSize(b), base % PAGE;
    PageDivides(b);
    var m := PAGE / size;
    assert PAGE == size * m && base == size * (base / size);
    assert base == PAGE * (base / PAGE) + r;
    MultipleGap(size, m, base / size, base / PAGE, r);
  }

  lemma PageDivides(b: nat)
    requires b < BUCKETS
    ensures PAGE % BlockSize(b) == 0 && PAGE == BlockSize(b) * (PAGE / BlockSize(b))
  {
  }

  /** A multiple of `size` is at least `size` below the next multiple of m * size. */
  lemma MultipleGap(size: nat, m: nat, k: nat, j: nat, r: nat)
    requires size > 0 && size * k == size * m * j + r && r < size * m
    ensures r + size <= size * m
  {
    var d := k - m * j;
    assert size * d == size * k - size * (m * j) == r;
    Products(size, d, m);
    Products(size, d + 1, m);
  }

  lemma Products(size: nat, d: int, m: int)
    ensures d <= m ==> size * d <= size * m
    ensures d >= m ==> size * d >= size * m
  {
  }

  // ---------- The books ----------

  /** The counts after frames were given. */
  ghost predicate Raised(rc: seq<nat>, given: seq<nat>, rc': seq<nat>) {
    && |rc'| == |rc| && (forall q :: q in given ==> q >= DIRECT + PAGE && q == Seen(FrameOf(q)) && FrameOf(q) < |rc|)
    && (forall k :: 0 <= k < |rc| ==> if Seen(k) in given then rc[k] == 0 && rc'[k] == 1 else rc'[k] == rc[k])
  }

  /** The counts after frames held once were given back. */
  ghost predicate Lowered(rc: seq<nat>, released: seq<nat>, rc': seq<nat>) {
    |rc'| == |rc| && forall k :: 0 <= k < |rc| ==> rc'[k] == if Seen(k) in released then 0 else rc[k]
  }

  lemma StillBacked(s: State, rc: seq<nat>, given: seq<nat>, rc': seq<nat>)
    requires Backed(s, rc) && Raised(rc, given, rc')
    ensures Backed(s, rc')
  {
    hide Owns;
    forall q | Owns(s, q)
      ensures Backs(rc', q)
    {
      assert Backs(rc, q);
    }
  }

  /** What the heap gives back is held once. */
  lemma ReleasedHeld(s: State, rc: seq<nat>, given: seq<nat>, rc1: seq<nat>, s': State, released: seq<nat>)
    requires Backed(s, rc) && Raised(rc, given, rc1) && Conserves(s, given, s', released)
    ensures forall i :: 0 <= i < |released| ==> Backs(rc1, released[i])
  {
    hide Owns, Unowned;
    StillBacked(s, rc, given, rc1);
    forall i | 0 <= i < |released|
      ensures Backs(rc1, released[i])
    {
      var q := released[i];
      assert q in released;
      assert Owns(s, q) || q in given;
      if q in given {
        assert Seen(FrameOf(q)) in given;
      }
    }
  }

  lemma Settled(s: State, rc: seq<nat>, given: seq<nat>, rc1: seq<nat>, s': State, released: seq<nat>, rc': seq<nat>)
    requires Backed(s, rc) && Raised(rc, given, rc1) && Conserves(s, given, s', released)
    requires Lowered(rc1, released, rc')
    ensures Backed(s', rc') && SameOthers(s, rc, s', rc')
  {
    hide Owns, Unowned, Seen;
    forall q | q in released
      ensures !Owns(s', q)
    {
      var i :| 0 <= i < |released| && released[i] == q;
      UnownedOwns(s', released[i]);
    }
    StillBacked(s, rc, given, rc1);
    forall k | 0 <= k < |rc|
      ensures Others(s', rc', k) == Others(s, rc, k)
    {
      SeenFrame(k);
      var q := Seen(k);
      assert (Owns(s', q) || q in released) <==> (Owns(s, q) || q in given);
      if Owns(s, q) {
        assert Backs(rc, q);
      }
    }
    forall q | Owns(s', q)
      ensures Backs(rc', q)
    {
      assert Owns(s, q) || q in given;
      if q in given {
        assert Seen(FrameOf(q)) in given;
      } else {
        assert Backs(rc1, q);
      }
    }
  }

  lemma LoweredNext(rc: seq<nat>, was: seq<nat>, released: seq<nat>, i: nat, k: nat, rc': seq<nat>)
    requires i < |released| && NoDup(released) && Lowered(was, released[..i], rc) && Backs(was, released[i])
    requires k == FrameOf(released[i]) && rc' == rc[k := 0]
    ensures Lowered(was, released[..i + 1], rc')
  {
    hide Seen;
    assert released[..i + 1] == released[..i] + [released[i]];
    forall j | 0 <= j < |was|
      ensures rc'[j] == if Seen(j) in released[..i + 1] then 0 else was[j]
    {
      SeenFrame(j);
    }
  }

  lemma StillHeld(rc: seq<nat>, was: seq<nat>, released: seq<nat>, i: nat)
    requires i < |released| && NoDup(released) && Lowered(was, released[..i], rc) && Backs(was, released[i])
    ensures Backs(rc, released[i])
  {
    hide Seen;
    assert released[i] !in released[..i];
  }

  // ---------- What the manager hands out ----------

  function FramesFor(size: nat): nat {
    if size + HEADER > PAGE then PagesFor(size + HEADER) else 1
  }

  lemma GivenRun(s: State, p: Frames.Pmm, n: nat, p': Frames.Pmm, f: nat)
    requires Inv(s) && Backed(s, p.rc) && Frames.Valid(p) && n > 0
    requires n == 1 ==> (p', f) == Frames.AllocFrame(p)
    requires n != 1 ==> Ram.AllocsRun(p, n, p', f)
    ensures Frames.Valid(p')
    ensures f != 0 ==> Raised(p.rc, RunPages(Seen(f), n), p'.rc) && Unowned(s, Seen(f), PAGE * n)
    ensures f == 0 ==> p' == p && forall k: nat :: !Bitmap.Free(p.used, k, n)
  {
    hide Inv, Backed, Unowned, Seen, RunPages;
    if n != 1 {
      Ram.AllocsRunKeeps(p, n, p', f);
    }
    if f != 0 {
      FreshUnowned(s, p, f, n);
      RunRaised(p, n, p', f);
    } else if n == 1 {
      forall k: nat
        ensures !Bitmap.Free(p.used, k, 1)
      {
        assert k < |p.used| ==> p.used[k];
      }
    }
  }

  lemma RunRaised(p: Frames.Pmm, n: nat, p': Frames.Pmm, f: nat)
    requires Frames.Valid(p) && 0 < f && f + n <= |p.used| && |p'.rc| == |p.rc|
    requires forall k :: f <= k < f + n ==> !p.used[k]
    requires forall k :: 0 <= k < |p.rc| ==> p'.rc[k] == if f <= k < f + n then 1 else p.rc[k]
    ensures Raised(p.rc, RunPages(Seen(f), n), p'.rc)
  {
    hide RunPages, Seen;
    forall k | 0 <= k < |p.rc|
      ensures Seen(k) in RunPages(Seen(f), n) <==> f <= k < f + n
    {
      RunSeen(f, n, k);
    }
    forall q | q in RunPages(Seen(f), n)
      ensures q >= DIRECT + PAGE && q == Seen(FrameOf(q)) && FrameOf(q) < |p.rc|
    {
      PageOfRun(f, n, q);
    }
  }

  lemma PageOfRun(f: nat, n: nat, q: nat)
    requires q in RunPages(Seen(f), n) && f > 0
    ensures q >= DIRECT + PAGE && q == Seen(FrameOf(q)) && f <= FrameOf(q) < f + n
  {
    hide RunPages;
    SeenFrame(f);
    RunHas(Seen(f), n, q);
    RunOf(f, n, q);
  }

  lemma NothingGiven(s: State, size: nat)
    ensures Granted(s, size, 0) == []
  {
  }

  /** The run that was asked for is the grant. */
  lemma GrantedRun(s: State, size: nat, page: nat)
    requires size != 0 && size + HEADER <= U64 - PAGE && NeedsPage(s, size) && page != 0 && page % PAGE == 0
    requires Unowned(s, page, PAGE * FramesFor(size))
    ensures Grant(s, size, page) && Granted(s, size, page) == RunPages(page, FramesFor(size))
  {
    hide Unowned, PagesFor;
    assert RunPages(page, 1) == RunPages(page, 0) + [page] == [page];
  }

  class FrameHeap {
    const heap: Heap
    const frames: Ram.Manager

    ghost predicate Ok()
      reads heap, heap.tracker, heap.tracker.slots, frames, frames.bitmap, frames.bitmap.buffer, frames.refs
    {
      && heap.Valid() && frames.Ok() && Frames.Valid(frames.State()) && Backed(heap.S(), frames.State().rc)
      && var a: set<object>, b: set<object> :=
           {heap, heap.tracker, heap.tracker.slots}, {frames, frames.bitmap, frames.bitmap.buffer, frames.refs};
         a !! b
    }

    /** heap_init: an empty heap over a manager that works. */
    constructor (frames: Ram.Manager)
      requires frames.Ok() && Frames.Valid(frames.State())
      ensures Ok() && this.frames == frames && heap.live == map[]
    {
      hide Inv, HeadersOk, Tracker.Valid, Frames.Valid;
      var h := new Heap();
      heap, this.frames := h, frames;
    }

    /** The frames malloc asks for. */
    method Wanted(size: nat) returns (n: nat)
      requires heap.Valid()
      ensures n > 0 <==> size != 0 && size + HEADER <= U64 - PAGE && NeedsPage(heap.S(), size)
      ensures n > 0 ==> n == FramesFor(size)
    {
      hide Lists, Pages, Filled, Lives, Separate, HeadersOk, BucketIndex, Tracker.Valid, PagesFor;
      if size == 0 || size + HEADER > U64 - PAGE {
        return 0;
      }
      if size + HEADER > PAGE {
        SomeFrames(size + HEADER);
        return PagesFor(size + HEADER);
      }
      BucketFits(size + HEADER);
      return if heap.buckets[BucketIndex(size + HEADER)] == [] then 1 else 0;
    }

    /** The pages for a request: pmm_alloc_frames, seen through the direct map. */
    method Ask(size: nat) returns (page: nat)
      requires Ok()
      modifies frames`free, frames.bitmap`bits, frames.bitmap`hint, frames.bitmap.buffer, frames.refs
      ensures Ok() && heap.S() == old(heap.S()) && Grant(heap.S(), size, page)
      ensures Raised(old(frames.State().rc), Granted(heap.S(), size, page), frames.State().rc)
      ensures page == 0 && size != 0 && size + HEADER <= U64 - PAGE && NeedsPage(heap.S(), size) ==>
                forall k: nat :: !Bitmap.Free(old(frames.State()).used, k, FramesFor(size))
    {
      hide Inv, HeadersOk, Tracker.Valid, Frames.Valid, Backed, Unowned, Represents, Ram.AllocsRun, Frames.AllocFrame,
        Bitmap.Free, NeedsPage, FramesFor, Granted, Seen, RunPages;
      ghost var s, p := heap.S(), frames.State();
      NothingGiven(s, size);
      var n := Wanted(size);
      if n == 0 {
        return 0;
      }
      var f := frames.AllocRun(n);
      GivenRun(s, p, n, frames.State(), f);
      if f == 0 {
        return 0;
      }
      page := Seen(f);
      SeenFrame(f);
      SeenPositive(f);
      GrantedRun(s, size, page);
      StillBacked(s, p.rc, RunPages(page, n), frames.State().rc);
    }

    /** pmm_free_frame of pages the heap no longer has. */
    method GiveBack(released: seq<nat>)
      requires frames.Ok() && Frames.Valid(frames.State()) && NoDup(released)
      requires forall i :: 0 <= i < |released| ==> Backs(frames.State().rc, released[i])
      modifies frames`free, frames.bitmap`bits, frames.bitmap`hint, frames.bitmap.buffer, frames.refs
      ensures frames.Ok() && Frames.Valid(frames.State())
      ensures Lowered(old(frames.State().rc), released, frames.State().rc)
    {
      hide Represents, Frames.DecRef, Seen, NoDup, Lowered, Backs;
      ghost var was := frames.State().rc;
      NoneLowered(was);
      for i := 0 to |released|
        invariant frames.Ok() && Frames.Valid(frames.State())
        invariant Lowered(was, released[..i], frames.State().rc)
      {
        ghost var p := frames.State();
        StillHeld(p.rc, was, released, i);
        BackedFrame(p.rc, released[i]);
        var k := FrameOf(released[i]);
        frames.Dec(PAGE * k);
        OneDropped(p, k);
        assert frames.State() == Frames.DecRef(p, k);
        LoweredNext(p.rc, was, released, i, k, frames.State().rc);
      }
      assert released[..|released|] == released;
    }

    /** malloc. */
    method Malloc(size: nat) returns (ptr: nat)
      requires Ok() && size < U64
      modifies heap, heap.tracker, heap.tracker.slots
      modifies frames`free, frames.bitmap`bits, frames.bitmap`hint, frames.bitmap.buffer, frames.refs
      ensures Ok() && SameOthers(old(heap.S()), old(frames.State().rc), heap.S(), frames.State().rc)
      ensures ptr == 0 ==> heap.live == old(heap.live)
      ensures ptr != 0 ==> ptr !in old(heap.live) && ptr in heap.live && ptr % 16 == 0
      ensures ptr != 0 ==> heap.live == old(heap.live)[ptr := heap.live[ptr]]
      ensures ptr != 0 ==> ptr + size <= heap.live[ptr].base + heap.live[ptr].cap
      ensures ptr == 0 ==>
                || size == 0 || size + HEADER > U64 - PAGE || heap.tracker.Full()
                || forall k: nat :: !Bitmap.Free(old(frames.State()).used, k, FramesFor(size))
    {
      hide Inv, HeadersOk, Tracker.Valid, Tracker.Full, PagesFor, Frames.Valid, Backed, BucketIndex, Represents,
        Bitmap.Free, Granted, Raised, Conserves, Lowered, Grant, SameOthers, NeedsPage, FramesFor, Backs, NoDup;
      ghost var s, rc := heap.S(), frames.State().rc;
      var page := Ask(size);
      ghost var rc1 := frames.State().rc;
      var released;
      ptr, released := heap.Malloc(size, page);
      Settle(s, rc, Granted(s, size, page), rc1, released);
    }

    /** Gives back what the heap has given up. */
    method Settle(ghost s: State, ghost rc: seq<nat>, ghost given: seq<nat>, ghost rc1: seq<nat>, released: seq<nat>)
      requires heap.Valid() && frames.Ok() && Frames.Valid(frames.State()) && frames.State().rc == rc1
      requires {heap, heap.tracker, heap.tracker.slots} !!
               {frames, frames.bitmap, frames.bitmap.buffer, frames.refs}
      requires Backed(s, rc) && Raised(rc, given, rc1) && Conserves(s, given, heap.S(), released)
      modifies frames`free, frames.bitmap`bits, frames.bitmap`hint, frames.bitmap.buffer, frames.refs
      ensures Ok() && SameOthers(s, rc, heap.S(), frames.State().rc)
    {
      hide Inv, HeadersOk, Tracker.Valid, Frames.Valid, Backed, Represents, Raised, Lowered, SameOthers, Backs;
      ReleasedHeld(s, rc, given, rc1, heap.S(), released);
      GiveBack(released);
      Settled(s, rc, given, rc1, heap.S(), released, frames.State().rc);
    }

    /** free, of any address that is not taken for that of a block. */
    method Free(ptr: nat)
      requires Ok() && (ptr == 0 || ptr in heap.live || Rejected(heap.headers, ptr))
      modifies heap, heap.tracker, heap.tracker.slots
      modifies frames`free, frames.bitmap`bits, frames.bitmap`hint, frames.bitmap.buffer, frames.refs
      ensures Ok() && heap.live == old(heap.live) - {ptr}
      ensures SameOthers(old(heap.S()), old(frames.State().rc), heap.S(), frames.State().rc)
    {
      hide Inv, HeadersOk, Tracker.Valid, Frames.Valid, Backed, Represents, FreedPages, Rejected, Conserves, Raised,
        SameOthers;
      ghost var s, rc := heap.S(), frames.State().rc;
      NoneRaised(rc);
      var released := heap.Free(ptr);
      Settle(s, rc, [], rc, released);
    }

    /** aligned_alloc. */
    method AlignedAlloc(alignment: nat, size: nat) returns (ptr: nat)
      requires Ok() && alignment < U64 && size < U64
      modifies heap, heap.tracker, heap.tracker.slots
      modifies frames`free, frames.bitmap`bits, frames.bitmap`hint, frames.bitmap.buffer, frames.refs
      ensures Ok() && SameOthers(old(heap.S()), old(frames.State().rc), heap.S(), frames.State().rc)
      ensures ptr == 0 ==> heap.live == old(heap.live)
      ensures ptr != 0 ==> ptr !in old(heap.live) && ptr in heap.live
      ensures ptr != 0 ==> heap.live == old(heap.live)[ptr := heap.live[ptr]]
      ensures ptr != 0 ==> ptr + size <= heap.live[ptr].base + heap.live[ptr].cap
      ensures ptr != 0 ==> IsPowerOfTwo(alignment) && ptr % (if alignment <= 16 then 16 else alignment) == 0
      ensures ptr == 0 ==>
                var asked := AlignedSize(alignment, size);
                || !IsPowerOfTwo(alignment) || asked == 0 || asked + HEADER > U64 - PAGE || heap.tracker.Full()
                || forall k: nat :: !Bitmap.Free(old(frames.State()).used, k, FramesFor(asked))
    {
      hide Inv, HeadersOk, Tracker.Valid, Tracker.Full, PagesFor, Frames.Valid, Backed, BucketIndex, Represents,
        Bitmap.Free, Granted, Raised, Conserves, Lowered, Grant, SameOthers, NeedsPage, FramesFor, Backs, NoDup,
        IsPowerOfTwo;
      ghost var s, rc := heap.S(), frames.State().rc;
      NoneRaised(rc);
      var page := 0;
      NoGrant(s, AlignedSize(alignment, size));
      if IsPowerOfTwo(alignment) {
        page := Ask(AlignedSize(alignment, size));
      }
      ghost var rc1 := frames.State().rc;
      var released;
      ptr, released := heap.AlignedAlloc(alignment, size, page);
      Settle(s, rc, AlignedGrant(s, alignment, size, page), rc1, released);
    }

    /** realloc. */
    method Realloc(ptr: nat, size: nat) returns (r: nat)
      requires Ok() && ptr < U64 && size < U64
      requires ptr == 0 || ptr in heap.live || (Rejected(heap.headers, ptr) && OldSize(heap.headers, ptr) < 0)
      modifies heap, heap.tracker, heap.tracker.slots
      modifies frames`free, frames.bitmap`bits, frames.bitmap`hint, frames.bitmap.buffer, frames.refs
      ensures Ok() && SameOthers(old(heap.S()), old(frames.State().rc), heap.S(), frames.State().rc)
      ensures ptr in old(heap.live) && size == 0 ==> r == 0 && heap.live == old(heap.live) - {ptr}
      ensures r == 0 && size > 0 ==> heap.live == old(heap.live)
      ensures r != 0 ==> r in heap.live && heap.live == (old(heap.live) - {ptr})[r := heap.live[r]]
      ensures r != 0 ==> r + size <= heap.live[r].base + heap.live[r].cap
      ensures r != 0 && ptr in old(heap.live) ==>
                Read(heap.bytes, r, Room(old(heap.live), ptr)) == Read(old(heap.bytes), ptr, Room(old(heap.live), ptr))
      ensures r == 0 && size > 0 && (ptr == 0 || ptr in old(heap.live)) ==>
                var asked := old(ReallocSize(heap.headers, ptr, size));
                || asked == 0 || asked + HEADER > U64 - PAGE || heap.tracker.Full()
                || forall k: nat :: !Bitmap.Free(old(frames.State()).used, k, FramesFor(asked))
    {
      hide Inv, HeadersOk, Tracker.Valid, Tracker.Full, PagesFor, Frames.Valid, Backed, BucketIndex, Represents,
        Bitmap.Free, Granted, Raised, Conserves, Lowered, Grant, SameOthers, NeedsPage, FramesFor, Backs, NoDup,
        IsPowerOfTwo, Rejected, OldSize, Read, KeepsAlignment, Observed, IsAligned;
      ghost var s, rc, headers := heap.S(), frames.State().rc, heap.headers;
      NoneRaised(rc);
      NoGrant(s, ReallocSize(headers, ptr, size));
      if ptr in heap.live {
        OldSizeLive(headers, s, ptr);
      }
      NullHeader(headers);
      var usable, page := OldSize(heap.headers, ptr), 0;
      if ptr == 0 || (size > 0 && 0 <= usable < size) {
        page := Ask(ReallocSize(heap.headers, ptr, size));
      }
      ghost var rc1 := frames.State().rc;
      var released;
      r, released := heap.Realloc(ptr, size, page);
      Settle(s, rc, ReallocGrant(s, headers, ptr, size, page), rc1, released);
    }
  }

  lemma SeenPositive(f: nat)
    ensures Seen(f) != 0
  {
  }

  lemma NoneLowered(rc: seq<nat>)
    ensures Lowered(rc, [], rc)
  {
  }

  lemma NoneRaised(rc: seq<nat>)
    ensures Raised(rc, [], rc)
  {
  }

  lemma NoGrant(s: State, size: nat)
    ensures Grant(s, size, 0) && Granted(s, size, 0) == []
  {
  }

  lemma NullHeader(headers: map<nat, Header>)
    ensures !IsAligned(headers, 0)
  {
  }

  lemma BackedFrame(rc: seq<nat>, q: nat)
    requires Backs(rc, q)
    ensures q >= DIRECT + PAGE && 0 < FrameOf(q) < |rc| && rc[FrameOf(q)] == 1
  {
  }

  lemma OneDropped(p: Frames.Pmm, k: nat)
    requires Frames.Valid(p) && 0 < k < |p.rc| && p.rc[k] == 1
    ensures Frames.Valid(Frames.DecRef(p, k)) && Frames.DecRef(p, k).rc == p.rc[k := 0]
  {
  }

  lemma SomeFrames(total: nat)
    requires PAGE < total <= U64 - PAGE
    ensures PagesFor(total) > 1
  {
  }
}
