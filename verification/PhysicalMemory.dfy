/** The physical memory manager over the bitmap: it implements module Frames, and pmm_init makes a
    consistent manager out of a boot memory map. */
module PhysicalMemory {
  import opened Bits
  import opened Frames
  import opened Bitmap

  const U64: nat := 0x1_0000_0000_0000_0000

  datatype Kind = Usable | BootloaderReclaimable | OtherKind

  /** BootMemoryMapEntry; both numbers are 64-bit. */
  datatype Entry = Entry(base: nat, length: nat, kind: Kind)

  /** A run of frames. */
  datatype Range = NoRange | Range(lo: nat, count: nat)

  predicate In(r: Range, f: nat) {
    r.Range? && r.lo <= f < r.lo + r.count
  }

  ghost predicate Apart(r: Range, q: Range) {
    forall f: nat :: !(In(r, f) && In(q, f))
  }

  /** get_aligned_usable_range, in frames. */
  function AlignedRange(e: Entry): Range {
    if e.length == 0 || e.base + e.length >= U64 then NoRange
    else
      var lo, hi := (e.base + 0xFFF) % U64 / FRAME_SIZE, (e.base + e.length) / FRAME_SIZE;
      if lo >= hi then NoRange else Range(lo, hi - lo)
  }

  function UsableRange(e: Entry): Range {
    if e.kind == Usable then AlignedRange(e) else NoRange
  }

  /** The frames of a usable entry are those that lie in it with all their bytes, as long as it ends below the last
      frame. */
  lemma UsableMeans(e: Entry, f: nat)
    requires e.base + e.length <= U64 - FRAME_SIZE
    ensures In(UsableRange(e), f) <==>
              e.kind == Usable && e.base <= FRAME_SIZE * f && FRAME_SIZE * f + FRAME_SIZE <= e.base + e.length
  {
    var end := e.base + e.length;
    assert (e.base + 0xFFF) / FRAME_SIZE <= f <==> e.base <= FRAME_SIZE * f;
    assert f < end / FRAME_SIZE <==> FRAME_SIZE * f + FRAME_SIZE <= end;
  }

  /** Of an entry in the last frame the rounded start wraps around: it is taken for all frames but the last. */
  lemma UsableWraps()
    ensures UsableRange(Entry(U64 - 4095, 8, Usable)) == Range(0, U64 / FRAME_SIZE - 1)
  {
  }

  /** The end of the highest usable or reclaimable entry that does not wrap around. */
  function HighestEnd(memMap: seq<Entry>): (h: nat)
    ensures h < U64
    ensures forall e :: e in memMap && e.kind != OtherKind && e.base + e.length < U64 ==> e.base + e.length <= h
  {
    if memMap == [] then 0
    else
      var e, h := memMap[|memMap| - 1], HighestEnd(memMap[..|memMap| - 1]);
      if e.kind != OtherKind && e.base + e.length < U64 && e.base + e.length > h then e.base + e.length else h
  }

  /** Some usable entry among the first n covers frame f. */
  ghost predicate Covered(memMap: seq<Entry>, n: nat, f: nat) {
    exists i :: 0 <= i < n <= |memMap| && In(UsableRange(memMap[i]), f)
  }

  /** The usable entries among the first n have no frame in common. */
  ghost predicate NoOverlap(memMap: seq<Entry>, n: nat) {
    forall i, j :: 0 <= i < j < n <= |memMap| ==> Apart(UsableRange(memMap[i]), UsableRange(memMap[j]))
  }

  function Count(r: Range): nat {
    if r.Range? then r.count else 0
  }

  /** What pmm_init adds up. */
  function UsableFrames(memMap: seq<Entry>, n: nat): nat
    requires n <= |memMap|
  {
    if n == 0 then 0 else UsableFrames(memMap, n - 1) + Count(UsableRange(memMap[n - 1]))
  }

  /** No usable range passes the bitmap's end, and none wraps around. */
  lemma RangeBound(memMap: seq<Entry>, e: Entry)
    requires e in memMap && HighestEnd(memMap) <= U64 - FRAME_SIZE
    ensures var r := UsableRange(e);
            r.Range? ==> r.count > 0 && r.lo + r.count <= (HighestEnd(memMap) + 4095) / FRAME_SIZE <= U64 / FRAME_SIZE
    ensures UsableRange(e).Range? ==> e.base <= FRAME_SIZE * UsableRange(e).lo
  {
  }

  /** The number of set bits in [lo, hi). */
  function SetIn(bits: seq<bool>, lo: nat, hi: nat): (n: nat)
    requires lo <= hi <= |bits|
    ensures n <= hi - lo
    ensures n == hi - lo <==> forall k :: lo <= k < hi ==> bits[k]
    ensures n == 0 <==> Clear(bits, lo, hi)
    decreases hi
  {
    if lo == hi then 0 else SetIn(bits, lo, hi - 1) + (if bits[hi - 1] then 1 else 0)
  }

  /** What writing a range does to the number of clear bits. */
  lemma {:induction false} RangeCount(a: seq<bool>, b: seq<bool>, lo: nat, hi: nat, v: bool)
    requires lo <= hi <= |a| && RangeSet(a, b, lo, hi, v)
    ensures ClearCount(b) == ClearCount(a) + SetIn(a, lo, hi) - (if v then hi - lo else 0)
    decreases hi
  {
    if lo == hi {
      assert a == b;
    } else {
      var c := b[hi - 1 := a[hi - 1]];
      RangeCount(a, c, lo, hi - 1, v);
      ClearCountUpdate(c, hi - 1, v);
      assert b == c[hi - 1 := v];
    }
  }

  /** One more usable entry in the accounting. */
  lemma CountEntry(memMap: seq<Entry>, n: nat, a: seq<bool>, b: seq<bool>)
    requires n < |memMap| && UsableRange(memMap[n]).Range?
    requires forall f: nat :: f < |a| ==> a[f] == !Covered(memMap, n, f)
    requires ClearCount(a) <= UsableFrames(memMap, n)
    requires ClearCount(a) == UsableFrames(memMap, n) <==> NoOverlap(memMap, n)
    requires var r := UsableRange(memMap[n]);
             r.lo + r.count <= |a| && RangeSet(a, b, r.lo, r.lo + r.count, false)
    ensures ClearCount(b) <= UsableFrames(memMap, n + 1)
    ensures ClearCount(b) == UsableFrames(memMap, n + 1) <==> NoOverlap(memMap, n + 1)
  {
    hide AlignedRange, ClearCount;
    var r := UsableRange(memMap[n]);
    RangeCount(a, b, r.lo, r.lo + r.count, false);
    if NoOverlap(memMap, n + 1) {
      forall f: nat | r.lo <= f < r.lo + r.count
        ensures !Covered(memMap, n, f)
      {
        assert In(r, f);
      }
    }
    if NoOverlap(memMap, n) && forall f: nat :: In(r, f) ==> !Covered(memMap, n, f) {
      forall i | 0 <= i < n
        ensures Apart(UsableRange(memMap[i]), r)
      {
      }
    }
  }

  /** The counts of [lo, hi) are 1, all others as before. */
  ghost predicate RefsSet(a: seq<nat>, b: seq<nat>, lo: nat, hi: nat) {
    |b| == |a| && forall k :: 0 <= k < |b| ==> b[k] == if lo <= k < hi then 1 else a[k]
  }

  /** pmm_alloc_frames of more than one frame: all of the last free run that is long enough, or nothing
      because there is none. */
  ghost predicate AllocsRun(p: Pmm, count: nat, q: Pmm, f: nat) {
    if f == 0 then
      q == p && (count > 0 ==> forall k: nat :: !Free(p.used, k, count))
    else
      && 1 < count && LastRun(p.used, count, f)
      && RangeSet(p.used, q.used, f, f + count, true) && RefsSet(p.rc, q.rc, f, f + count)
      && q.free == p.free - FRAME_SIZE * count && q.highest == p.highest
      && q.hint == if f <= p.hint < f + count then f + count else p.hint
  }

  /** Taking a run keeps the manager consistent. */
  lemma AllocsRunKeeps(p: Pmm, count: nat, q: Pmm, f: nat)
    requires Frames.Valid(p) && AllocsRun(p, count, q, f)
    ensures Frames.Valid(q) && SameReserved(p, q)
    ensures f != 0 ==> f + count <= |p.used| && forall k :: f <= k < f + count ==> !p.used[k] && q.rc[k] == 1
  {
    hide ClearCount, LastRun;
    if f != 0 {
      RunBound(p, count, f);
      RangeCount(p.used, q.used, f, f + count, true);
    } else {
      SameReservedReflexive(p);
    }
  }

  datatype Started = Running | NoMap | TooLarge | NoRoom

  class Manager {
    const bitmap: Map
    const refs: array<nat>
    var free: int
    var highest: nat

    ghost predicate Ok()
      reads this, bitmap, bitmap.buffer, refs
    {
      && (var o: object := refs; o != bitmap.buffer)
      && bitmap.Valid() && refs.Length == bitmap.size && 0 < bitmap.size <= SIZE_MAX / FRAME_SIZE
      && forall f :: 0 <= f < refs.Length ==> refs[f] <= MAX_REFS
    }

    /** The state as module Frames sees it. */
    ghost function State(): Pmm
      reads this, bitmap, bitmap.buffer, refs
    {
      Pmm(bitmap.bits, refs[..], bitmap.hint, free, highest)
    }

    /** What every operation needs, whether or not frame 0 is still free. */
    ghost predicate Consistent()
      reads this, bitmap, bitmap.buffer, refs
    {
      && Ok()
      && free == FRAME_SIZE * ClearCount(bitmap.bits)
      && forall f :: 0 <= f < bitmap.size && !bitmap.bits[f] ==> refs[f] == 0
    }

    /** A manager with every bit set and every count zero. */
    constructor (buffer: array<bv8>, frames: nat)
      requires 0 < frames <= 8 * buffer.Length && frames <= SIZE_MAX / FRAME_SIZE
      modifies buffer
      ensures Ok() && bitmap.size == frames && bitmap.hint == 0 && bitmap.buffer == buffer
      ensures fresh(bitmap) && fresh(refs)
      ensures free == 0 && highest == 0
      ensures forall f :: 0 <= f < frames ==> bitmap.bits[f] && refs[f] == 0
    {
      var b := new Map(buffer, frames);
      var r := new nat[frames](_ => 0);
      bitmap, refs, free, highest := b, r, 0, 0;
      new;
      b.SetRange(0, frames, true);
    }

    /** reserve_frame_permanently. */
    method ReserveFrame(f: nat)
      requires Consistent()
      modifies this`free, bitmap`bits, bitmap.buffer, refs
      ensures Consistent()
      ensures f >= bitmap.size ==> State() == old(State())
      ensures f < bitmap.size ==> bitmap.bits == old(bitmap.bits)[f := true]
      ensures f < bitmap.size ==> refs[..] == old(refs[..])[f := if old(refs[f]) == 0 then 1 else old(refs[f])]
    {
      hide Represents, ClearCount;
      if f >= bitmap.size {
        return;
      }
      var b := bitmap.Get(f);
      if !b {
        ClearCountPositive(bitmap.bits, f);
      }
      ClearCountUpdate(bitmap.bits, f, true);
      bitmap.Set(f, true);
      if refs[f] == 0 {
        refs[f] := 1;
      }
      if !b && free >= FRAME_SIZE {
        free := free - FRAME_SIZE;
      }
    }

    /** pmm_alloc_frame: 0 is the null pointer. Frame 0 is never handed out, even if it were free. */
    method Alloc() returns (f: nat)
      requires Consistent()
      modifies this`free, bitmap`bits, bitmap`hint, bitmap.buffer, refs
      ensures Consistent()
      ensures old(Frames.Valid(State())) ==> (State(), f) == AllocFrame(old(State()))
      ensures f == 0 ==> forall k :: 0 < k < bitmap.size ==> old(bitmap.bits[k])
      ensures f != 0 ==> f < bitmap.size && !old(bitmap.bits[f]) && refs[f] == 1
      ensures forall k :: 0 < k < bitmap.size && k != f ==>
                bitmap.bits[k] == old(bitmap.bits[k]) && refs[k] == old(refs[k])
    {
      hide Represents, ClearCount, FirstClearFrom;
      ghost var was := bitmap.bits;
      var i := bitmap.FindFirstFree(0);
      if i == 0 {
        ReserveFrame(0);
        i := bitmap.FindFirstFree(1);
      }
      if i != -1 && i < bitmap.size {
        Take(i);
        return i;
      }
      assert forall k :: 0 < k < bitmap.size ==> bitmap.bits[k] && was[k] == bitmap.bits[k];
      return 0;
    }

    /** Marks a free frame used, with one reference. */
    method Take(f: nat)
      requires Consistent() && f < bitmap.size && !bitmap.bits[f]
      modifies this`free, bitmap`bits, bitmap.buffer, refs
      ensures Consistent()
      ensures bitmap.bits == old(bitmap.bits)[f := true] && refs[..] == old(refs[..])[f := 1]
      ensures free == old(free) - FRAME_SIZE
    {
      hide Represents, ClearCount;
      ClearCountUpdate(bitmap.bits, f, true);
      bitmap.Set(f, true);
      refs[f] := 1;
      free := free - FRAME_SIZE;
    }

    /** One usable entry of pmm_init. */
    method MarkEntry(r: Range)
      requires Ok() && r.Range? && r.count > 0 && r.lo + r.count <= SIZE_MAX
      modifies this`free, this`highest, bitmap`bits, bitmap.buffer
      ensures Ok() && RangeSet(old(bitmap.bits), bitmap.bits, r.lo, r.lo + r.count, false)
      ensures r.lo + r.count <= bitmap.size ==> free == old(free) + FRAME_SIZE * r.count
      ensures highest >= old(highest) && forall f: nat :: In(r, f) && f < bitmap.size ==> f <= highest
      ensures highest == old(highest) || (In(r, highest) && highest < bitmap.size)
    {
      hide Represents;
      var frames := r.count;
      if r.lo < bitmap.size {
        if r.lo + frames > bitmap.size {
          frames := bitmap.size - r.lo;
        }
        bitmap.SetRange(r.lo, frames, false);
        free := free + frames * FRAME_SIZE;
        if r.lo + frames - 1 > highest {
          highest := r.lo + frames - 1;
        }
      }
    }

    /** The loop of pmm_init over the usable entries. The byte counter comes out right exactly when
        no two of them share a frame. */
    method MarkUsable(memMap: seq<Entry>)
      requires Ok() && free == 0 && highest == 0
      requires HighestEnd(memMap) <= U64 - FRAME_SIZE && bitmap.size == (HighestEnd(memMap) + 4095) / FRAME_SIZE
      requires forall f :: 0 <= f < bitmap.size ==> bitmap.bits[f]
      modifies this`free, this`highest, bitmap`bits, bitmap.buffer
      ensures Ok()
      ensures forall f: nat :: f < bitmap.size ==> bitmap.bits[f] == !Covered(memMap, |memMap|, f)
      ensures forall f: nat :: Covered(memMap, |memMap|, f) ==> f <= highest && f < bitmap.size
      ensures highest == 0 || Covered(memMap, |memMap|, highest)
      ensures free == FRAME_SIZE * UsableFrames(memMap, |memMap|)
      ensures free == FRAME_SIZE * ClearCount(bitmap.bits) <==> NoOverlap(memMap, |memMap|)
    {
      hide Represents, ClearCount, UsableRange, HighestEnd, NoOverlap, Covered;
      AllSet(bitmap.bits);
      NothingYet(memMap);
      for i := 0 to |memMap|
        invariant Ok()
        invariant forall f: nat :: f < bitmap.size ==> bitmap.bits[f] == !Covered(memMap, i, f)
        invariant forall f: nat :: Covered(memMap, i, f) ==> f <= highest && f < bitmap.size
        invariant highest == 0 || Covered(memMap, i, highest)
        invariant free == FRAME_SIZE * UsableFrames(memMap, i)
        invariant ClearCount(bitmap.bits) <= UsableFrames(memMap, i)
        invariant ClearCount(bitmap.bits) == UsableFrames(memMap, i) <==> NoOverlap(memMap, i)
      {
        var r := UsableRange(memMap[i]);
        CoveredStep(memMap, i, i + 1);
        if r.Range? {
          RangeBound(memMap, memMap[i]);
          ghost var was := bitmap.bits;
          MarkEntry(r);
          CountEntry(memMap, i, was, bitmap.bits);
        } else {
          CountNothing(memMap, i);
        }
      }
    }

    /** The end of pmm_init: the manager's own tables and frame 0 are taken out. */
    method TakeTables(ghost memMap: seq<Entry>, b: Range, r: Range)
      requires Ok() && free == FRAME_SIZE * ClearCount(bitmap.bits) && bitmap.hint == 0
      requires forall f: nat :: f < bitmap.size ==> bitmap.bits[f] == !Covered(memMap, |memMap|, f) && refs[f] == 0
      requires forall f: nat :: Covered(memMap, |memMap|, f) ==> f <= highest && f < bitmap.size
      requires highest == 0 || Covered(memMap, |memMap|, highest)
      requires b.Range? && b.lo + b.count <= bitmap.size && r.Range? && r.lo + r.count <= bitmap.size && Apart(b, r)
      requires forall f: nat :: In(b, f) || In(r, f) ==> Covered(memMap, |memMap|, f)
      modifies this`free, bitmap`bits, bitmap`hint, bitmap.buffer, refs
      ensures Ok() && Frames.Valid(State()) && Initial(State(), memMap, b, r)
    {
      hide Represents, ClearCount, Covered;
      forall f | b.lo <= f < b.lo + b.count
        ensures !bitmap.bits[f]
      {
        assert In(b, f);
      }
      TakeRun(b.lo, b.count);
      forall f | r.lo <= f < r.lo + r.count
        ensures !bitmap.bits[f]
      {
        assert In(r, f);
      }
      TakeRun(r.lo, r.count);
      ReserveFrame(0);
      if bitmap.size > 1 && bitmap.hint == 0 {
        bitmap.hint := 1;
      }
      InitialValid(State(), memMap, b, r);
    }

    /** pmm_alloc_frames: the last run of free frames that is long enough. */
    method AllocRun(count: nat) returns (f: nat)
      requires Ok() && Frames.Valid(State())
      modifies this`free, bitmap`bits, bitmap`hint, bitmap.buffer, refs
      ensures Ok()
      ensures count == 1 ==> (State(), f) == AllocFrame(old(State()))
      ensures count != 1 ==> AllocsRun(old(State()), count, State(), f)
    {
      hide Represents, ClearCount, LastRun, FirstClearFrom;
      if count == 0 || count > SIZE_MAX / FRAME_SIZE {
        if count > 0 {
          TooLong(bitmap.bits, count);
        }
        return 0;
      }
      if count == 1 {
        f := Alloc();
        return;
      }
      var i := bitmap.FindLastFreeSequence(count);
      if i != -1 {
        RunBound(State(), count, i);
      }
      f := 0;
      if i != -1 && count <= bitmap.size - i && i + count - 1 <= highest {
        TakeRun(i, count);
        if i <= bitmap.hint && i + count > bitmap.hint {
          bitmap.hint := i + count;
        }
        f := i;
      }
    }

    /** Marks [lo, lo + count) used, with one reference each. */
    method TakeRun(lo: nat, count: nat)
      requires Ok() && lo + count <= bitmap.size && Clear(bitmap.bits, lo, lo + count)
      modifies this`free, bitmap`bits, bitmap.buffer, refs
      ensures Ok() && RangeSet(old(bitmap.bits), bitmap.bits, lo, lo + count, true)
      ensures RefsSet(old(refs[..]), refs[..], lo, lo + count)
      ensures free == old(free) - FRAME_SIZE * count
      ensures ClearCount(bitmap.bits) == ClearCount(old(bitmap.bits)) - count
    {
      hide Represents, ClearCount;
      bitmap.SetRange(lo, count, true);
      label L:
      RangeCount(old(bitmap.bits), bitmap.bits, lo, lo + count, true);
      for i := 0 to count
        invariant Ok() && RefsSet(old(refs[..]), refs[..], lo, lo + i)
        invariant bitmap.bits == old@L(bitmap.bits) && free == old(free)
      {
        refs[lo + i] := 1;
      }
      free := free - FRAME_SIZE * count;
    }

    /** pmm_refcount_inc of an address; true when it panics. */
    method Inc(address: nat) returns (panicked: bool)
      requires Ok()
      modifies refs
      ensures Ok() && (panicked ==> State() == old(State()))
      ensures address == 0 || address >= FRAME_SIZE ==> panicked == Saturated(old(State()), address / FRAME_SIZE)
      ensures address == 0 || address >= FRAME_SIZE ==>
                panicked || State() == IncRef(old(State()), address / FRAME_SIZE)
      ensures 0 < address < FRAME_SIZE ==> (panicked <==> old(refs[0]) == MAX_REFS)
      ensures 0 < address < FRAME_SIZE && !panicked ==> refs[..] == old(refs[..])[0 := old(refs[0]) + 1]
    {
      hide Represents;
      if address == 0 {
        return false;
      }
      var f := address / FRAME_SIZE;
      if f < bitmap.size {
        if refs[f] == MAX_REFS {
          return true;
        }
        refs[f] := refs[f] + 1;
      }
      return false;
    }

    /** pmm_refcount_dec and pmm_free_frame of an address. An address inside frame 0 releases frame 0. */
    method Dec(address: nat)
      requires Consistent()
      modifies this`free, bitmap`bits, bitmap`hint, bitmap.buffer, refs
      ensures Consistent()
      ensures old(Frames.Valid(State())) ==>
                (State() == DecRef(old(State()), address / FRAME_SIZE) <==>
                 address == 0 || address >= FRAME_SIZE || old(refs[0]) == 0)
      ensures 0 < address < FRAME_SIZE ==> State() == LowerZero(old(State()))
      ensures 0 < address < FRAME_SIZE && old(Frames.Valid(State())) ==> (Frames.Valid(State()) <==> old(refs[0]) > 1)
    {
      hide Represents, ClearCount, Frames.Valid;
      ZeroDiffers(State());
      FrameNumber(address);
      if address == 0 {
        return;
      }
      var f := address / FRAME_SIZE;
      if f >= bitmap.size || refs[f] == 0 {
        return;
      }
      refs[f] := refs[f] - 1;
      if refs[f] == 0 {
        ClearCountUpdate(bitmap.bits, f, false);
        bitmap.Set(f, false);
        bitmap.hint := f;
        free := free + FRAME_SIZE;
      }
    }
  }

  /** Frame 0 loses a reference, and with the last one is free like any other frame. */
  ghost function LowerZero(p: Pmm): (q: Pmm)
    requires |p.used| == |p.rc| > 0
    ensures |q.used| == |q.rc| == |p.rc| && (p.rc[0] == 0 ==> q == p)
    ensures p.rc[0] > 0 ==> q.rc[0] == p.rc[0] - 1 && q.rc[1..] == p.rc[1..] && q.used[1..] == p.used[1..]
    ensures p.rc[0] == 1 ==> !q.used[0] && q.free == p.free + FRAME_SIZE
    ensures p.rc[0] > 1 ==> q.used == p.used && q.free == p.free
  {
    if p.rc[0] == 0 then p
    else if p.rc[0] > 1 then p.(rc := p.rc[0 := p.rc[0] - 1])
    else p.(rc := p.rc[0 := 0], used := p.used[0 := false], hint := 0, free := p.free + FRAME_SIZE)
  }

  /** Frame 0 is never free in a consistent manager, so releasing it is what no release should do. */
  lemma ZeroDiffers(p: Pmm)
    requires |p.used| == |p.rc| > 0
    ensures Frames.Valid(p) ==> LowerZero(p) != DecRef(p, 0) == p && p.rc[0] > 0
    ensures Frames.Valid(p) ==> (Frames.Valid(LowerZero(p)) <==> p.rc[0] > 1)
  {
  }

  lemma FrameNumber(address: nat)
    ensures address / FRAME_SIZE == 0 <==> address < FRAME_SIZE
  {
  }

  lemma {:induction false} AllSet(bits: seq<bool>)
    requires forall k :: 0 <= k < |bits| ==> bits[k]
    ensures ClearCount(bits) == 0
  {
    if |bits| > 0 {
      AllSet(bits[..|bits| - 1]);
    }
  }

  lemma NothingYet(memMap: seq<Entry>)
    ensures NoOverlap(memMap, 0) && forall f: nat :: !Covered(memMap, 0, f)
  {
  }

  lemma CoveredStep(memMap: seq<Entry>, n: nat, m: nat)
    requires n < |memMap| && m == n + 1
    ensures forall f: nat :: Covered(memMap, m, f) <==> Covered(memMap, n, f) || In(UsableRange(memMap[n]), f)
  {
    hide UsableRange;
    forall f: nat | Covered(memMap, n, f) || In(UsableRange(memMap[n]), f)
      ensures Covered(memMap, m, f)
    {
      if Covered(memMap, n, f) {
        var i :| 0 <= i < n <= |memMap| && In(UsableRange(memMap[i]), f);
        assert 0 <= i < m <= |memMap| && In(UsableRange(memMap[i]), f);
      }
    }
  }

  lemma CountNothing(memMap: seq<Entry>, n: nat)
    requires n < |memMap| && UsableRange(memMap[n]).NoRange?
    ensures UsableFrames(memMap, n + 1) == UsableFrames(memMap, n)
    ensures NoOverlap(memMap, n + 1) == NoOverlap(memMap, n)
  {
    hide UsableRange;
    if NoOverlap(memMap, n) {
      forall i | 0 <= i < n
        ensures Apart(UsableRange(memMap[i]), UsableRange(memMap[n]))
      {
      }
    }
  }

  lemma OtherEntry(memMap: seq<Entry>, i: nat, j: nat)
    requires NoOverlap(memMap, |memMap|) && i < |memMap| && j < |memMap| && i != j
    ensures Apart(UsableRange(memMap[i]), UsableRange(memMap[j]))
  {
    if j < i {
      assert Apart(UsableRange(memMap[j]), UsableRange(memMap[i]));
    }
  }

  /** One range lies in another. */
  predicate Within(r: Range, q: Range) {
    r.Range? && q.Range? && q.lo <= r.lo && r.lo + r.count <= q.lo + q.count
  }

  /** The entry has room for n frames. */
  predicate Holds(e: Entry, n: nat) {
    UsableRange(e).Range? && UsableRange(e).count >= n
  }

  /** Entry j is the first with room for n frames. */
  ghost predicate FirstFit(memMap: seq<Entry>, n: nat, j: nat) {
    && j < |memMap| && Holds(memMap[j], n)
    && forall k :: 0 <= k < j ==> !Holds(memMap[k], n)
  }

  /** Behind a bitmap in entry j, or in another entry, there is room for the reference counts. */
  ghost predicate RoomBeside(memMap: seq<Entry>, j: nat, bitmapFrames: nat, refFrames: nat)
    requires j < |memMap|
  {
    || Holds(memMap[j], bitmapFrames + refFrames)
    || exists i :: 0 <= i < |memMap| && i != j && Holds(memMap[i], refFrames)
  }

  /** When the first-fit search finds room: the bitmap always goes to the first entry that holds it. */
  ghost predicate Placeable(memMap: seq<Entry>, bitmapFrames: nat, refFrames: nat) {
    exists j: nat :: FirstFit(memMap, bitmapFrames, j) && RoomBeside(memMap, j, bitmapFrames, refFrames)
  }

  lemma FirstFitUnique(memMap: seq<Entry>, n: nat, i: nat, j: nat)
    requires FirstFit(memMap, n, i) && FirstFit(memMap, n, j)
    ensures i == j
  {
  }

  /** The bitmap is at the head of the first entry i that holds it; the reference counts are behind it if the entry has
      room for both, else at the head of the first later entry that holds them. */
  ghost predicate Placed(memMap: seq<Entry>, bitmapFrames: nat, refFrames: nat, b: Range, r: Range, i: nat) {
    && FirstFit(memMap, bitmapFrames, i) && b == Range(UsableRange(memMap[i]).lo, bitmapFrames)
    && if Holds(memMap[i], bitmapFrames + refFrames) then r == Range(b.lo + b.count, refFrames)
       else exists k: nat :: NextFit(memMap, refFrames, i, k) && r == Range(UsableRange(memMap[k]).lo, refFrames)
  }

  ghost predicate NextFit(memMap: seq<Entry>, n: nat, i: nat, k: nat) {
    && i < k < |memMap| && Holds(memMap[k], n)
    && forall j :: i < j < k ==> !Holds(memMap[j], n)
  }

  /** First fit for the bitmap and the reference counts, next to each other where there is room. */
  method Place(memMap: seq<Entry>, bitmapFrames: nat, refFrames: nat) returns (b: Range, r: Range)
    requires bitmapFrames <= refFrames
    ensures b.Range? ==> b.count == bitmapFrames && exists i :: 0 <= i < |memMap| && Within(b, UsableRange(memMap[i]))
    ensures r.Range? ==> r.count == refFrames && exists i :: 0 <= i < |memMap| && Within(r, UsableRange(memMap[i]))
    ensures NoOverlap(memMap, |memMap|) ==> Apart(b, r)
    ensures b.Range? && r.Range? <==> Placeable(memMap, bitmapFrames, refFrames)
    ensures b.Range? && r.Range? ==> exists i: nat :: Placed(memMap, bitmapFrames, refFrames, b, r, i)
  {
    hide UsableRange;
    b, r := NoRange, NoRange;
    ghost var bi: nat, ri: nat := 0, 0;
    for i := 0 to |memMap|
      invariant b.Range? ==> b.count == bitmapFrames && bi < i && Within(b, UsableRange(memMap[bi]))
      invariant r.Range? ==> r.count == refFrames && ri < i && Within(r, UsableRange(memMap[ri]))
      invariant b.Range? && r.Range? && bi == ri ==> r.lo == b.lo + b.count
      invariant b.Range? ==> FirstFit(memMap, bitmapFrames, bi)
      invariant b.NoRange? ==> r.NoRange? && forall k :: 0 <= k < i ==> !Holds(memMap[k], bitmapFrames)
      invariant r.Range? ==> RoomBeside(memMap, bi, bitmapFrames, refFrames)
      invariant b.Range? && r.NoRange? ==> !Holds(memMap[bi], bitmapFrames + refFrames)
      invariant b.Range? && r.NoRange? ==> forall k :: 0 <= k < i && k != bi ==> !Holds(memMap[k], refFrames)
      invariant b.Range? ==> b == Range(UsableRange(memMap[bi]).lo, bitmapFrames)
      invariant b.Range? && r.Range? ==> Placed(memMap, bitmapFrames, refFrames, b, r, bi)
    {
      var u := UsableRange(memMap[i]);
      if u.Range? {
        if b.NoRange? && u.count >= bitmapFrames {
          b, bi := Range(u.lo, bitmapFrames), i;
          if r.NoRange? && u.count >= bitmapFrames + refFrames {
            r, ri := Range(u.lo + bitmapFrames, refFrames), i;
          }
        } else if r.NoRange? && u.count >= refFrames {
          r, ri := Range(u.lo, refFrames), i;
          assert NextFit(memMap, refFrames, bi, i);
        }
        if b.Range? && r.Range? {
          assert Placed(memMap, bitmapFrames, refFrames, b, r, bi);
          break;
        }
      }
    }
    PlacedExactly(memMap, bitmapFrames, refFrames, b, r, bi);
    if b.Range? && r.Range? && bi != ri && NoOverlap(memMap, |memMap|) {
      OtherEntry(memMap, bi, ri);
      forall f: nat
        ensures !(In(b, f) && In(r, f))
      {
        assert In(b, f) ==> In(UsableRange(memMap[bi]), f);
        assert In(r, f) ==> In(UsableRange(memMap[ri]), f);
      }
    }
  }

  lemma PlacedExactly(memMap: seq<Entry>, bitmapFrames: nat, refFrames: nat, b: Range, r: Range, bi: nat)
    requires b.Range? ==> FirstFit(memMap, bitmapFrames, bi)
    requires b.NoRange? ==> forall k :: 0 <= k < |memMap| ==> !Holds(memMap[k], bitmapFrames)
    requires b.Range? && r.Range? ==> RoomBeside(memMap, bi, bitmapFrames, refFrames)
    requires b.Range? && r.NoRange? ==>
               && !Holds(memMap[bi], bitmapFrames + refFrames)
               && forall k :: 0 <= k < |memMap| && k != bi ==> !Holds(memMap[k], refFrames)
    ensures b.Range? && r.Range? <==> Placeable(memMap, bitmapFrames, refFrames)
  {
    hide Holds;
    if Placeable(memMap, bitmapFrames, refFrames) {
      var j: nat :| FirstFit(memMap, bitmapFrames, j) && RoomBeside(memMap, j, bitmapFrames, refFrames);
      if b.Range? {
        FirstFitUnique(memMap, bitmapFrames, bi, j);
      }
    }
  }

  /** What pmm_init leaves: free is exactly the usable memory, without the manager's own tables and frame 0. */
  ghost predicate Initial(p: Pmm, memMap: seq<Entry>, b: Range, r: Range) {
    && |p.used| == |p.rc| && (p.highest == 0 || Covered(memMap, |memMap|, p.highest))
    && forall f: nat :: f < |p.used| ==>
         && p.used[f] == (!Covered(memMap, |memMap|, f) || In(b, f) || In(r, f) || f == 0)
         && p.rc[f] == if In(b, f) || In(r, f) || f == 0 then 1 else 0
  }

  lemma InitialValid(p: Pmm, memMap: seq<Entry>, b: Range, r: Range)
    requires Initial(p, memMap, b, r) && |p.used| > 0 && p.free == FRAME_SIZE * ClearCount(p.used)
    requires forall f: nat :: Covered(memMap, |memMap|, f) ==> f <= p.highest
    requires forall f: nat :: In(b, f) || In(r, f) ==> Covered(memMap, |memMap|, f)
    ensures Frames.Valid(p)
  {
    hide ClearCount, Covered, In;
    forall f: nat | f < |p.used|
      ensures p.rc[f] <= 1 && (!p.used[f] ==> p.rc[f] == 0)
      ensures p.rc[f] > 0 || !p.used[f] ==> f <= p.highest
    {
    }
  }

  lemma WithinCovered(memMap: seq<Entry>, b: Range, i: nat)
    requires i < |memMap| && Within(b, UsableRange(memMap[i]))
    ensures forall f: nat :: In(b, f) ==> Covered(memMap, |memMap|, f)
  {
    forall f: nat | In(b, f)
      ensures Covered(memMap, |memMap|, f)
    {
      assert In(UsableRange(memMap[i]), f);
    }
  }

  method FindHighest(memMap: seq<Entry>) returns (h: nat)
    ensures h == HighestEnd(memMap)
  {
    h := 0;
    for i := 0 to |memMap|
      invariant h == HighestEnd(memMap[..i])
    {
      var e := memMap[i];
      assert memMap[..i + 1][..i] == memMap[..i];
      if e.kind != OtherKind && e.base + e.length < U64 && e.base + e.length > h {
        h := e.base + e.length;
      }
    }
    assert memMap[..|memMap|] == memMap;
  }

  /** The frames that the bitmap takes. */
  function BitmapFrames(frames: nat): (n: nat)
    ensures n <= CountFrames(frames) && 8 * FRAME_SIZE * n >= frames
  {
    ((frames + 7) / 8 + 4095) / FRAME_SIZE
  }

  /** The frames that the 16-bit reference counts take. */
  function CountFrames(frames: nat): (n: nat)
    ensures FRAME_SIZE * n >= 2 * frames
  {
    (2 * frames + 4095) / FRAME_SIZE
  }

  /** The manager's tables find their place. */
  ghost predicate Fits(memMap: seq<Entry>) {
    var frames := (HighestEnd(memMap) + 4095) / FRAME_SIZE;
    Placeable(memMap, BitmapFrames(frames), CountFrames(frames))
  }

  /** Room for both tables is not enough: in this map the bitmap takes the only entry that could hold
   *  the counts, while the other usable entry had room for the bitmap. */
  lemma FirstFitGivesUp()
    ensures var big, small := Entry(4096, 8192, Usable), Entry(16384, 4096, Usable);
            var memMap := [big, small, Entry(8 * 1024 * 1024, 8192, BootloaderReclaimable)];
            && NoOverlap(memMap, 3) && HighestEnd(memMap) == FRAME_SIZE * 2050
            && Holds(small, BitmapFrames(2050)) && Holds(big, CountFrames(2050)) && !Fits(memMap)
  {
    var big, small := Entry(4096, 8192, Usable), Entry(16384, 4096, Usable);
    var rest := Entry(8 * 1024 * 1024, 8192, BootloaderReclaimable);
    var memMap := [big, small, rest];
    assert UsableRange(big) == Range(1, 2) && UsableRange(small) == Range(4, 1) && UsableRange(rest) == NoRange;
    var two := [big, small];
    assert memMap[..2] == two && two[..1] == [big] && [big][..0] == [];
    assert HighestEnd([big]) == 12288;
    assert HighestEnd(two) == 20480;
    assert FirstFit(memMap, 1, 0);
    forall j: nat | FirstFit(memMap, 1, j)
      ensures !RoomBeside(memMap, j, 1, 2)
    {
      FirstFitUnique(memMap, 1, 0, j);
    }
  }

  /** pmm_init. */
  method Init(memMap: seq<Entry>) returns (outcome: Started, m: Manager?, b: Range, r: Range)
    requires NoOverlap(memMap, |memMap|)
    ensures outcome == NoMap <==> memMap == []
    ensures outcome == TooLarge <==> HighestEnd(memMap) > U64 - FRAME_SIZE
    ensures outcome == Running <==> m != null
    ensures outcome == NoRoom ==> !Fits(memMap)
    ensures outcome == Running ==> Fits(memMap)
    ensures m != null ==> fresh(m) && m.Ok() && Frames.Valid(m.State()) && Initial(m.State(), memMap, b, r)
    ensures m != null ==> m.bitmap.size == (HighestEnd(memMap) + 4095) / FRAME_SIZE
    ensures m != null ==> b.Range? && r.Range? && Apart(b, r)
    ensures m != null ==> 8 * FRAME_SIZE * (b.count - 1) < m.bitmap.size <= 8 * FRAME_SIZE * b.count
    ensures m != null ==> FRAME_SIZE * (r.count - 1) < 2 * m.bitmap.size <= FRAME_SIZE * r.count
    ensures m != null ==> exists i: nat :: Placed(memMap, b.count, r.count, b, r, i)
  {
    hide Represents, ClearCount, UsableRange, HighestEnd, NoOverlap, Covered, Placeable, Placed;
    outcome, m, b, r := NoMap, null, NoRange, NoRange;
    EmptyHighest(memMap);
    if memMap == [] {
      return;
    }
    var h := FindHighest(memMap);
    if h > U64 - FRAME_SIZE {
      outcome := TooLarge;
      return;
    }
    var frames := (h + 4095) / FRAME_SIZE;
    var bitmapFrames, refFrames := BitmapFrames(frames), CountFrames(frames);
    b, r := Place(memMap, bitmapFrames, refFrames);
    if b.NoRange? || r.NoRange? {
      outcome := NoRoom;
      return;
    }
    PlacedBound(memMap, b);
    PlacedBound(memMap, r);
    var buffer := new bv8[bitmapFrames * FRAME_SIZE];
    m := new Manager(buffer, frames);
    m.MarkUsable(memMap);
    m.TakeTables(memMap, b, r);
    outcome := Running;
  }

  lemma EmptyHighest(memMap: seq<Entry>)
    ensures memMap == [] ==> HighestEnd(memMap) == 0
  {
  }

  lemma PlacedBound(memMap: seq<Entry>, b: Range)
    requires HighestEnd(memMap) <= U64 - FRAME_SIZE
    requires b.Range? && exists i :: 0 <= i < |memMap| && Within(b, UsableRange(memMap[i]))
    ensures 0 < (HighestEnd(memMap) + 4095) / FRAME_SIZE
    ensures b.lo + b.count <= (HighestEnd(memMap) + 4095) / FRAME_SIZE <= SIZE_MAX / FRAME_SIZE
    ensures forall f: nat :: In(b, f) ==> Covered(memMap, |memMap|, f)
  {
    var i :| 0 <= i < |memMap| && Within(b, UsableRange(memMap[i]));
    WithinCovered(memMap, b, i);
    RangeBound(memMap, memMap[i]);
  }

  lemma TooLong(bits: seq<bool>, count: nat)
    requires |bits| <= SIZE_MAX / FRAME_SIZE < count
    ensures forall k: nat :: !Free(bits, k, count)
  {
  }

  /** A free run lies in usable memory, past frame 0. */
  lemma RunBound(p: Pmm, count: nat, f: nat)
    requires Frames.Valid(p) && 0 < count && LastRun(p.used, count, f)
    ensures 0 < f && f + count <= |p.used| && f + count - 1 <= p.highest
    ensures Clear(p.used, f, f + count)
  {
    assert !p.used[f] && !p.used[f + count - 1];
  }
}
