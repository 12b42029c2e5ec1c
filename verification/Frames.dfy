/** The state of the physical memory manager as a value, and the operations on it.
    This is what the rest of the kernel relies on; module PhysicalMemory implements it. */
module Frames {
  import opened Bits

  const FRAME_SIZE: nat := 4096
  const MAX_REFS: nat := 65535

  /** `used` is the allocation bitmap, `rc` the per-frame reference counts, `hint` the bitmap's
      next-free hint, `free` the byte counter and `highest` the last usable frame. */
  datatype Pmm = Pmm(used: seq<bool>, rc: seq<nat>, hint: nat, free: int, highest: nat)

  ghost predicate Valid(p: Pmm) {
    && |p.used| == |p.rc| > 0
    && p.used[0] && p.rc[0] > 0
    && (forall f :: 0 <= f < |p.rc| ==> p.rc[f] <= MAX_REFS)
    && (forall f :: 0 <= f < |p.used| && !p.used[f] ==> p.rc[f] == 0)
    && (forall f :: 0 <= f < |p.used| && (p.rc[f] > 0 || !p.used[f]) ==> f <= p.highest)
    && p.free == FRAME_SIZE * ClearCount(p.used)
  }

  /** A frame that is marked used although nobody holds it: outside usable memory. */
  predicate Reserved(p: Pmm, f: nat)
    requires |p.used| == |p.rc|
  {
    f < |p.rc| && p.used[f] && p.rc[f] == 0
  }

  /** Both states manage the same frames and reserve the same ones. */
  ghost predicate SameReserved(p: Pmm, q: Pmm) {
    && |p.rc| == |q.rc| && |p.used| == |p.rc| && |q.used| == |q.rc|
    && forall f :: 0 <= f < |p.rc| ==> Reserved(p, f) == Reserved(q, f)
  }

  lemma SameReservedReflexive(p: Pmm)
    requires Valid(p)
    ensures SameReserved(p, p)
  {
  }

  lemma RefsBounded(p: Pmm)
    requires Valid(p)
    ensures forall f :: 0 <= f < |p.rc| ==> p.rc[f] <= MAX_REFS
  {
  }

  lemma SameReservedTransitive(p: Pmm, q: Pmm, r: Pmm)
    requires SameReserved(p, q) && SameReserved(q, r)
    ensures SameReserved(p, r)
  {
  }

  /** Equal reference counts mean equal bitmaps and equal free memory. */
  lemma CountsDecide(p: Pmm, q: Pmm)
    requires Valid(p) && Valid(q) && SameReserved(p, q) && p.rc == q.rc
    ensures p.used == q.used && p.free == q.free
  {
    forall f | 0 <= f < |p.used|
      ensures p.used[f] == q.used[f]
    {
      assert Reserved(p, f) == Reserved(q, f);
    }
  }

  /** pmm_alloc_frame: 0 stands for the null pointer. */
  function AllocFrame(p: Pmm): (r: (Pmm, nat))
    requires Valid(p)
    ensures Valid(r.0) && SameReserved(p, r.0)
    ensures r.1 == 0 ==> r.0 == p && forall f :: 0 <= f < |p.used| ==> p.used[f]
    ensures r.1 == 0 <==> p.free == 0
    ensures r.1 != 0 ==> r.1 < |p.used| && !p.used[r.1] && r.0.rc == p.rc[r.1 := 1]
    ensures r.1 != 0 ==> r.0.used == p.used[r.1 := true] && r.0.free == p.free - FRAME_SIZE
  {
    var f := FirstClearFrom(p.used, p.hint);
    if f == |p.used| then
      ClearCountZero(p.used);
      (p, 0)
    else
      ClearCountUpdate(p.used, f, true);
      ClearCountPositive(p.used, f);
      (Pmm(p.used[f := true], p.rc[f := 1], if f + 1 < |p.used| then f + 1 else 0,
           p.free - FRAME_SIZE, p.highest), f)
  }

  /** pmm_refcount_inc would overflow the 16-bit count and panics. */
  predicate Saturated(p: Pmm, f: nat) {
    0 < f < |p.rc| && p.rc[f] >= MAX_REFS
  }

  /** pmm_refcount_inc when it does not panic. */
  function IncRef(p: Pmm, f: nat): (q: Pmm) {
    if 0 < f < |p.rc| then p.(rc := p.rc[f := p.rc[f] + 1]) else p
  }

  /** Counting a reference keeps the manager consistent exactly when the frame is in use and
      not above usable memory. */
  lemma IncRefKeepsValid(p: Pmm, f: nat)
    requires Valid(p) && !Saturated(p, f)
    ensures Valid(IncRef(p, f)) <==> (0 < f < |p.rc| ==> p.used[f] && f <= p.highest)
    ensures 0 < f < |p.rc| && p.rc[f] > 0 ==> SameReserved(p, IncRef(p, f))
  {
    if 0 < f < |p.rc| && !(p.used[f] && f <= p.highest) {
      assert IncRef(p, f).rc[f] > 0;
    }
  }

  /** pmm_refcount_dec, which is also pmm_free_frame. */
  function DecRef(p: Pmm, f: nat): (q: Pmm)
    requires Valid(p)
    ensures Valid(q)
    ensures 0 < f < |p.rc| && p.rc[f] > 0 ==> SameReserved(p, q) && q.rc == p.rc[f := p.rc[f] - 1]
    ensures !(0 < f < |p.rc| && p.rc[f] > 0) ==> q == p
    ensures q.free >= p.free
  {
    if !(0 < f < |p.rc|) || p.rc[f] == 0 then p
    else if p.rc[f] > 1 then p.(rc := p.rc[f := p.rc[f] - 1])
    else
      ClearCountUpdate(p.used, f, false);
      p.(rc := p.rc[f := 0], used := p.used[f := false], hint := f, free := p.free + FRAME_SIZE)
  }
}
