/** Whole runs of the physical memory manager, with clients that share only frames they hold. */
module FrameRuns {
  import opened Bits
  import opened Frames
  import opened Bitmap
  import opened PhysicalMemory

  /** A call and the frame it returned or was given. */
  datatype Call = One(f: nat) | Many(count: nat, f: nat) | Share(f: nat) | Release(f: nat)

  /** The manager, and the references its clients hold to each frame. */
  datatype View = View(p: Pmm, held: seq<nat>)

  ghost predicate Raised(a: seq<nat>, b: seq<nat>, lo: nat, hi: nat) {
    |b| == |a| && forall k :: 0 <= k < |b| ==> b[k] == if lo <= k < hi then a[k] + 1 else a[k]
  }

  /** Frames [f, f + n) are handed out, unless f is the null pointer. */
  ghost predicate Handed(v: View, w: View, f: nat, n: nat) {
    if f == 0 then w.held == v.held else Raised(v.held, w.held, f, f + n)
  }

  ghost predicate Step(v: View, c: Call, w: View)
    requires Frames.Valid(v.p)
  {
    match c
    case One(f) => (w.p, f) == AllocFrame(v.p) && Handed(v, w, f, 1)
    case Many(n, f) => AllocsRun(v.p, n, w.p, f) && Handed(v, w, f, n)
    case Share(f) =>
      && 0 < f < |v.held| && v.held[f] > 0 && !Saturated(v.p, f)
      && w == View(IncRef(v.p, f), v.held[f := v.held[f] + 1])
    case Release(f) =>
      && 0 < f < |v.held| && v.held[f] > 0
      && w == View(DecRef(v.p, f), v.held[f := v.held[f] - 1])
  }

  /** Every count is what the manager keeps for itself plus what the clients hold. */
  ghost predicate Tracks(v: View, kept: seq<nat>) {
    && Frames.Valid(v.p) && |v.held| == |kept| == |v.p.rc| && kept[0] > 0
    && forall f :: 0 <= f < |kept| ==> v.p.rc[f] == kept[f] + v.held[f]
  }

  lemma StepKeeps(v: View, c: Call, w: View, kept: seq<nat>)
    requires Tracks(v, kept) && Step(v, c, w)
    ensures Tracks(w, kept) && SameReserved(v.p, w.p)
  {
    hide ClearCount, LastRun, AllocFrame, RangeSet;
    match c
    case One(f) =>
    case Many(n, f) => AllocsRunKeeps(v.p, n, w.p, f);
    case Share(f) => IncRefKeepsValid(v.p, f);
    case Release(f) =>
  }

  /** The frames an allocation returns. */
  predicate Returned(c: Call, f: nat) {
    match c
    case One(g) => g != 0 && f == g
    case Many(n, g) => g != 0 && g <= f < g + n
    case _ => false
  }

  /** Allocated frames exist, are not frame 0, were free, and nobody held them. */
  lemma AllocatedFresh(v: View, c: Call, w: View, kept: seq<nat>, f: nat)
    requires Tracks(v, kept) && Step(v, c, w) && Returned(c, f)
    ensures 0 < f < |kept| && !v.p.used[f] && v.held[f] == 0 && kept[f] == 0
    ensures w.p.used[f] && w.held[f] == 1
  {
    hide ClearCount, AllocFrame;
    if c.Many? {
      AllocsRunKeeps(v.p, c.count, w.p, c.f);
      RunBound(v.p, c.count, c.f);
    }
  }

  ghost predicate Run(vs: seq<View>, cs: seq<Call>, kept: seq<nat>) {
    && |vs| == |cs| + 1 && Tracks(vs[0], kept)
    && forall i :: 0 <= i < |cs| ==> Frames.Valid(vs[i].p) ==> Step(vs[i], cs[i], vs[i + 1])
  }

  /** Over every run the counts stay exact, the byte counter included, and no frame changes between
      reserved and managed. */
  lemma {:induction false} RunTracks(vs: seq<View>, cs: seq<Call>, kept: seq<nat>, n: nat)
    requires Run(vs, cs, kept) && n <= |cs|
    ensures Tracks(vs[n], kept) && SameReserved(vs[0].p, vs[n].p)
  {
    if n == 0 {
      SameReservedReflexive(vs[0].p);
    } else {
      RunTracks(vs, cs, kept, n - 1);
      StepKeeps(vs[n - 1], cs[n - 1], vs[n], kept);
      SameReservedTransitive(vs[0].p, vs[n - 1].p, vs[n].p);
    }
  }

  /** Once the clients hold what they held before, exactly the same memory is free. */
  lemma Conservation(vs: seq<View>, cs: seq<Call>, kept: seq<nat>, n: nat)
    requires Run(vs, cs, kept) && n <= |cs| && vs[n].held == vs[0].held
    ensures vs[n].p.rc == vs[0].p.rc && vs[n].p.used == vs[0].p.used && vs[n].p.free == vs[0].p.free
  {
    hide ClearCount;
    RunTracks(vs, cs, kept, n);
    var p, q := vs[0].p, vs[n].p;
    forall f | 0 <= f < |p.used|
      ensures p.used[f] == q.used[f]
    {
      assert Reserved(p, f) == Reserved(q, f);
    }
    assert p.used == q.used;
  }

  /** pmm_init starts such a run: nothing is held, and the manager keeps its tables and frame 0. */
  lemma InitTracks(p: Pmm, memMap: seq<Entry>, b: Range, r: Range)
    requires Frames.Valid(p) && Initial(p, memMap, b, r)
    ensures Tracks(View(p, seq(|p.rc|, _ => 0)), p.rc)
  {
  }

  /** Counting a frame and giving it back is the identity exactly for frames outside the reserved
      ones: a reserved frame would be handed to the allocator. */
  lemma ShareRelease(p: Pmm, f: nat)
    requires Frames.Valid(p) && !Saturated(p, f) && Frames.Valid(IncRef(p, f))
    ensures DecRef(IncRef(p, f), f) == p <==> !Reserved(p, f)
    ensures Reserved(p, f) ==> !DecRef(IncRef(p, f), f).used[f]
  {
    hide ClearCount;
    var q := IncRef(p, f);
    if 0 < f < |p.rc| {
      assert q.rc[f] == p.rc[f] + 1;
      assert q.rc[f := p.rc[f]] == p.rc;
    }
  }
}
