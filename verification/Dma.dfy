/** The virtual address window for DMA and device memory: a bump pointer plus a table of 64 free
    ranges that are coalesced on every free. */
module Dma {

  const WINDOW_BASE: nat := 0xFFFF_FE00_0000_0000
  const WINDOW_LIMIT: nat := 0xFFFF_FF80_0000_0000
  const MASSIVE: nat := 0x4_0000_0000
  const SLOTS: nat := 64

  datatype Range = Range(virt: nat, size: nat) {
    predicate Has(a: int) { virt <= a < virt + size }
    function End(): nat { virt + size }
  }

  const EMPTY := Range(0, 0)

  function One(r: Range, a: int): nat {
    if r.Has(a) then 1 else 0
  }

  /** How many of the ranges contain an address. */
  function Cover(s: seq<Range>, a: int): nat {
    if s == [] then 0 else Cover(s[..|s| - 1], a) + One(s[|s| - 1], a)
  }

  lemma {:induction false} CoverUpdate(s: seq<Range>, i: nat, r: Range, a: int)
    requires i < |s|
    ensures Cover(s[i := r], a) == Cover(s, a) - One(s[i], a) + One(r, a)
  {
    var n := |s| - 1;
    if i < n {
      CoverUpdate(s[..n], i, r, a);
      assert s[i := r][..n] == s[..n][i := r];
    } else {
      assert s[i := r][..n] == s[..n];
    }
  }

  lemma {:induction false} CoverRemove(s: seq<Range>, i: nat, a: int)
    requires i < |s|
    ensures Cover(s[..i] + s[i + 1..], a) == Cover(s, a) - One(s[i], a)
  {
    var n := |s| - 1;
    var t := s[..i] + s[i + 1..];
    if i < n {
      CoverRemove(s[..n], i, a);
      assert t[..n - 1] == s[..n][..i] + s[..n][i + 1..] && t[n - 1] == s[n];
    } else {
      assert t == s[..n];
    }
  }

  lemma CoverAppend(s: seq<Range>, r: Range, a: int)
    ensures Cover(s + [r], a) == Cover(s, a) + One(r, a)
  {
    assert (s + [r])[..|s|] == s;
  }

  /** Two ranges of a list with a common address count twice. */
  lemma CoverTwice(s: seq<Range>, i: nat, j: nat, a: int)
    requires i < |s| && j < |s| && i != j && s[i].Has(a) && s[j].Has(a)
    ensures Cover(s, a) >= 2
  {
    CoverUpdate(s, i, EMPTY, a);
    CoverUpdate(s[i := EMPTY], j, EMPTY, a);
  }

  lemma CoverOnce(s: seq<Range>, i: nat, a: int)
    requires i < |s| && s[i].Has(a)
    ensures Cover(s, a) >= 1
  {
    CoverUpdate(s, i, EMPTY, a);
  }

  /** Free, allocated and leaked ranges tile the part of the window handed out so far. */
  ghost predicate Tiled(free: seq<Range>, live: seq<Range>, leaked: seq<Range>, next: nat) {
    forall a: int :: Cover(free, a) + Cover(live, a) + Cover(leaked, a) == if WINDOW_BASE <= a < next then 1 else 0
  }

  /** Tiling means disjoint: no address lies in two free ranges, nor in a free and an allocated one. */
  lemma TiledDisjoint(free: seq<Range>, live: seq<Range>, leaked: seq<Range>, next: nat, a: int)
    requires Tiled(free, live, leaked, next)
    ensures forall i, j :: 0 <= i < j < |free| ==> !(free[i].Has(a) && free[j].Has(a))
    ensures forall i, j :: 0 <= i < j < |live| ==> !(live[i].Has(a) && live[j].Has(a))
    ensures forall i, j :: 0 <= i < |free| && 0 <= j < |live| ==> !(free[i].Has(a) && live[j].Has(a))
    ensures forall i :: 0 <= i < |free| && free[i].Has(a) ==> WINDOW_BASE <= a < next
    ensures forall i :: 0 <= i < |live| && live[i].Has(a) ==> WINDOW_BASE <= a < next
  {
    hide Cover;
    forall i, j | 0 <= i < j < |free| && free[i].Has(a)
      ensures !free[j].Has(a)
    {
      if free[j].Has(a) {
        CoverTwice(free, i, j, a);
      }
    }
    forall i, j | 0 <= i < j < |live| && live[i].Has(a)
      ensures !live[j].Has(a)
    {
      if live[j].Has(a) {
        CoverTwice(live, i, j, a);
      }
    }
    forall i | 0 <= i < |free| && free[i].Has(a)
      ensures Cover(free, a) >= 1
    {
      CoverOnce(free, i, a);
    }
    forall i | 0 <= i < |live| && live[i].Has(a)
      ensures Cover(live, a) >= 1
    {
      CoverOnce(live, i, a);
    }
  }

  predicate Adjacent(r: Range, q: Range) {
    r.size > 0 && q.size > 0 && (r.End() == q.virt || q.End() == r.virt)
  }

  /** No two free ranges are adjacent. */
  ghost predicate Spread(free: seq<Range>) {
    forall i, j :: 0 <= i < j < |free| ==> !Adjacent(free[i], free[j])
  }

  /** The table after slot j has been merged into slot i. */
  function Merged(free: seq<Range>, i: nat, j: nat): seq<Range>
    requires i < j < |free|
  {
    var r, q := free[i], free[j];
    free[i := Range(if r.End() == q.virt then r.virt else q.virt, r.size + q.size)][j := EMPTY]
  }

  lemma MergedCover(free: seq<Range>, i: nat, j: nat, a: int)
    requires i < j < |free| && Adjacent(free[i], free[j])
    ensures Cover(Merged(free, i, j), a) == Cover(free, a)
  {
    hide Cover;
    var r, q := free[i], free[j];
    var m := Range(if r.End() == q.virt then r.virt else q.virt, r.size + q.size);
    CoverUpdate(free, i, m, a);
    CoverUpdate(free[i := m], j, EMPTY, a);
  }

  function Used(free: seq<Range>): nat {
    if free == [] then 0 else Used(free[..|free| - 1]) + if free[|free| - 1].size > 0 then 1 else 0
  }

  lemma {:induction false} UsedUpdate(s: seq<Range>, i: nat, r: Range)
    requires i < |s|
    ensures Used(s[i := r]) == Used(s) - (if s[i].size > 0 then 1 else 0) + (if r.size > 0 then 1 else 0)
  {
    var n := |s| - 1;
    if i < n {
      UsedUpdate(s[..n], i, r);
      assert s[i := r][..n] == s[..n][i := r];
    } else {
      assert s[i := r][..n] == s[..n];
    }
  }

  /** A merge uses up a slot. */
  lemma MergedUsed(free: seq<Range>, i: nat, j: nat)
    requires i < j < |free| && Adjacent(free[i], free[j])
    ensures Used(Merged(free, i, j)) < Used(free)
  {
    hide Used;
    var r, q := free[i], free[j];
    var m := Range(if r.End() == q.virt then r.virt else q.virt, r.size + q.size);
    UsedUpdate(free, i, m);
    UsedUpdate(free[i := m], j, EMPTY);
  }

  /** The slots below i are adjacent to no later slot, and slot i to none of those before j. */
  ghost predicate Coalesced(free: seq<Range>, i: nat, j: nat) {
    && (forall x, y :: 0 <= x < i && x < y < |free| ==> !Adjacent(free[x], free[y]))
    && (i < |free| ==> forall y :: i < y < j && y < |free| ==> !Adjacent(free[i], free[y]))
  }

  /** Merging later slots gives an earlier one no new neighbour. */
  lemma MergedCoalesced(free: seq<Range>, i: nat, j: nat)
    requires i < j < |free| && Adjacent(free[i], free[j]) && Coalesced(free, i, j)
    ensures Coalesced(Merged(free, i, j), i, i + 1)
  {
    var m := Merged(free, i, j);
    forall x, y | 0 <= x < i && x < y < |free|
      ensures !Adjacent(m[x], m[y])
    {
      assert !Adjacent(free[x], free[i]) && !Adjacent(free[x], free[j]) && !Adjacent(free[x], free[y]);
    }
  }

  /** Every free slot is empty or a range past address 0. */
  ghost predicate Slots(free: seq<Range>) {
    |free| == SLOTS && forall i :: 0 <= i < |free| ==> free[i].size == 0 ==> free[i] == EMPTY
  }

  /** The first slot that is large enough, or SLOTS. */
  ghost predicate FirstFit(free: seq<Range>, size: nat, i: nat) {
    && i <= |free| && (i < |free| ==> free[i].size >= size)
    && forall k :: 0 <= k < i ==> free[k].size < size
  }

  /** The table after `size` bytes have been taken from the front of slot i. */
  function Taken(free: seq<Range>, i: nat, size: nat): seq<Range>
    requires i < |free| && size <= free[i].size
  {
    var r := Range(free[i].virt + size, free[i].size - size);
    free[i := if r.size == 0 then EMPTY else r]
  }

  /** The first slot that is large enough is used, from its front; the window grows only if there is none. */
  ghost predicate Served(free: seq<Range>, next: nat, size: nat, virt: nat, free': seq<Range>, next': nat) {
    if exists i :: 0 <= i < |free| && free[i].size >= size then
      && next' == next
      && exists i: nat ::
           i < |free| && FirstFit(free, size, i) && virt == free[i].virt && free' == Taken(free, i, size)
    else virt == next && free' == free && next' == next + size
  }

  /** Allocating from a slot keeps the tiling and gives no slot a neighbour. */
  lemma TakenKeeps(free: seq<Range>, live: seq<Range>, leaked: seq<Range>, next: nat, i: nat, size: nat)
    requires Slots(free) && Tiled(free, live, leaked, next) && Spread(free)
    requires i < |free| && 0 < size <= free[i].size
    ensures var t := Taken(free, i, size);
            Slots(t) && Spread(t) && Tiled(t, live + [Range(free[i].virt, size)], leaked, next)
  {
    hide Cover;
    var r, t := free[i], Taken(free, i, size);
    forall a: int
      ensures Cover(t, a) + Cover(live + [Range(r.virt, size)], a) == Cover(free, a) + Cover(live, a)
    {
      CoverUpdate(free, i, t[i], a);
      CoverAppend(live, Range(r.virt, size), a);
    }
    forall x, y | 0 <= x < y < |t|
      ensures !Adjacent(t[x], t[y])
    {
      assert !Adjacent(free[x], free[y]);
      var z := if x == i then y else x;
      if (x == i || y == i) && free[z].size > 0 {
        TiledDisjoint(free, live, leaked, next, free[z].End() - 1);
      }
    }
  }

  lemma GrowKeeps(free: seq<Range>, live: seq<Range>, leaked: seq<Range>, next: nat, size: nat)
    requires Tiled(free, live, leaked, next) && WINDOW_BASE <= next
    ensures Tiled(free, live + [Range(next, size)], leaked, next + size)
  {
    hide Cover;
    forall a: int
      ensures Cover(live + [Range(next, size)], a) == Cover(live, a) + One(Range(next, size), a)
    {
      CoverAppend(live, Range(next, size), a);
    }
  }

  function Without(live: seq<Range>, k: nat): seq<Range>
    requires k < |live|
  {
    live[..k] + live[k + 1..]
  }

  /** Freed memory that joins slot i, or fills it, keeps the tiling. */
  lemma JoinKeeps(free: seq<Range>, live: seq<Range>, leaked: seq<Range>, next: nat, k: nat, i: nat, r: Range)
    requires Tiled(free, live, leaked, next) && k < |live| && i < |free|
    requires forall a: int :: One(r, a) == One(free[i], a) + One(live[k], a)
    ensures Tiled(free[i := r], Without(live, k), leaked, next)
  {
    hide Cover;
    forall a: int
      ensures Cover(free[i := r], a) + Cover(Without(live, k), a) == Cover(free, a) + Cover(live, a)
    {
      CoverUpdate(free, i, r, a);
      CoverRemove(live, k, a);
      assert One(r, a) == One(free[i], a) + One(live[k], a);
    }
  }

  lemma LeakKeeps(free: seq<Range>, live: seq<Range>, leaked: seq<Range>, next: nat, k: nat)
    requires Tiled(free, live, leaked, next) && k < |live|
    ensures Tiled(free, Without(live, k), leaked + [live[k]], next)
  {
    hide Cover;
    forall a: int
      ensures Cover(Without(live, k), a) + Cover(leaked + [live[k]], a) == Cover(live, a) + Cover(leaked, a)
    {
      CoverRemove(live, k, a);
      CoverAppend(leaked, live[k], a);
    }
  }

  /** A freed range has no neighbour in a full table. */
  ghost predicate Stuck(free: seq<Range>, r: Range) {
    forall i :: 0 <= i < |free| ==> free[i].size > 0 && !Adjacent(free[i], r)
  }

  lemma WithoutMultiset(live: seq<Range>, k: nat)
    requires k < |live|
    ensures multiset(Without(live, k)) == multiset(live) - multiset{live[k]}
  {
    assert live == live[..k] + [live[k]] + live[k + 1..];
  }

  lemma SameCover(free: seq<Range>, free': seq<Range>, live: seq<Range>, leaked: seq<Range>, next: nat)
    requires Tiled(free, live, leaked, next) && forall a: int :: Cover(free', a) == Cover(free, a)
    ensures Tiled(free', live, leaked, next)
  {
    hide Cover;
  }

  datatype Result = Panic | At(virt: nat)

  class Window {
    const ranges: array<Range>
    var next: nat
    ghost var live: seq<Range>
    ghost var leaked: seq<Range>

    ghost predicate Valid()
      reads this, ranges
    {
      && WINDOW_BASE <= next <= WINDOW_LIMIT
      && Slots(ranges[..]) && Spread(ranges[..]) && Tiled(ranges[..], live, leaked, next)
      && forall r :: r in live ==> r.size > 0
    }

    constructor ()
      ensures Valid() && live == [] && leaked == [] && next == WINDOW_BASE && fresh(ranges)
    {
      ranges := new Range[SLOTS](_ => EMPTY);
      next, live, leaked := WINDOW_BASE, [], [];
      new;
      forall a: int
        ensures Cover(ranges[..], a) == 0
      {
        NoCover(ranges[..], a);
      }
    }

    /** dma_alloc_virt_range. */
    method Alloc(size: nat) returns (r: Result)
      requires Valid()
      modifies this, ranges
      ensures Valid() && leaked == old(leaked)
      ensures size > 0 ==> (r.Panic? <==> (forall k :: 0 <= k < SLOTS ==> old(ranges[k].size) < size) &&
                                          (size > MASSIVE || WINDOW_LIMIT - old(next) < size))
      ensures size > 0 && r.At? ==> live == old(live) + [Range(r.virt, size)]
      ensures size > 0 && r.At? ==> Served(old(ranges[..]), old(next), size, r.virt, ranges[..], next)
      ensures size == 0 ==> r == At(old(ranges[0].virt))
      ensures size == 0 || r.Panic? ==> ranges[..] == old(ranges[..]) && live == old(live) && next == old(next)
    {
      hide Tiled, Spread;
      for i := 0 to SLOTS
        invariant ranges[..] == old(ranges[..]) && live == old(live) && leaked == old(leaked) && next == old(next)
        invariant forall k :: 0 <= k < i ==> ranges[k].size < size
      {
        if ranges[i].size >= size {
          ghost var was := ranges[..];
          var virt := ranges[i].virt;
          ranges[i] := Range(virt + size, ranges[i].size - size);
          if ranges[i].size == 0 {
            ranges[i] := EMPTY;
          }
          if size > 0 {
            TakenKeeps(was, live, leaked, next, i, size);
            assert ranges[..] == Taken(was, i, size);
            assert FirstFit(was, size, i);
            live := live + [Range(virt, size)];
          } else {
            assert ranges[..] == was;
          }
          return At(virt);
        }
      }
      if size == 0 || size > MASSIVE {
        return Panic;
      }
      if next > WINDOW_LIMIT || WINDOW_LIMIT - next < size {
        return Panic;
      }
      var virt := next;
      GrowKeeps(ranges[..], live, leaked, next, size);
      live := live + [Range(virt, size)];
      next := next + size;
      return At(virt);
    }

    /** dma_free_virt_range. */
    method Free(virt: nat, size: nat)
      requires Valid() && (virt == 0 || size == 0 || Range(virt, size) in live)
      modifies this, ranges
      ensures Valid() && next == old(next)
      ensures virt == 0 || size == 0 ==> ranges[..] == old(ranges[..]) && live == old(live) && leaked == old(leaked)
      ensures virt != 0 && size != 0 ==> multiset(live) == multiset(old(live)) - multiset{Range(virt, size)}
      ensures virt != 0 && size != 0 ==>
                leaked == if Stuck(old(ranges[..]), Range(virt, size))
                          then old(leaked) + [Range(virt, size)] else old(leaked)
    {
      hide Tiled, Spread, Slots, Cover, Stuck;
      if virt == 0 || size == 0 {
        return;
      }
      ghost var k :| 0 <= k < |live| && live[k] == Range(virt, size);
      var inserted := Insert(virt, size, k);
      WithoutMultiset(live, k);
      if !inserted {
        LeakKeeps(ranges[..], live, leaked, next, k);
        leaked := leaked + [live[k]];
      }
      live := Without(live, k);
      ghost var was := ranges[..];
      Coalesce();
      SameCover(was, ranges[..], live, leaked, next);
    }

    /** The first two loops of dma_free_virt_range: joins the range to a neighbour or puts it into an empty slot. */
    method Insert(virt: nat, size: nat, ghost k: nat) returns (inserted: bool)
      requires Valid() && k < |live| && live[k] == Range(virt, size)
      modifies ranges
      ensures Slots(ranges[..])
      ensures inserted == !Stuck(old(ranges[..]), Range(virt, size))
      ensures inserted ==> Tiled(ranges[..], Without(live, k), leaked, next)
      ensures !inserted ==> ranges[..] == old(ranges[..])
    {
      hide Tiled, Spread;
      ghost var was := ranges[..];
      for i := 0 to SLOTS
        invariant ranges[..] == was
        invariant forall j :: 0 <= j < i ==> !Adjacent(was[j], Range(virt, size))
      {
        if ranges[i].size > 0 {
          if ranges[i].virt + ranges[i].size == virt {
            JoinKeeps(was, live, leaked, next, k, i, Range(ranges[i].virt, ranges[i].size + size));
            assert Adjacent(was[i], Range(virt, size));
            ranges[i] := Range(ranges[i].virt, ranges[i].size + size);
            assert ranges[..] == was[i := ranges[i]];
            return true;
          }
          if virt + size == ranges[i].virt {
            JoinKeeps(was, live, leaked, next, k, i, Range(virt, ranges[i].size + size));
            assert Adjacent(was[i], Range(virt, size));
            ranges[i] := Range(virt, ranges[i].size + size);
            assert ranges[..] == was[i := ranges[i]];
            return true;
          }
        }
      }
      for i := 0 to SLOTS
        invariant ranges[..] == was
        invariant forall j :: 0 <= j < i ==> was[j].size > 0
      {
        if ranges[i].size == 0 {
          JoinKeeps(was, live, leaked, next, k, i, Range(virt, size));
          ranges[i] := Range(virt, size);
          assert ranges[..] == was[i := ranges[i]];
          return true;
        }
      }
      return false;
    }

    /** The last loops of dma_free_virt_range; merging restarts the inner loop. */
    method Coalesce()
      requires Slots(ranges[..])
      modifies ranges
      ensures Slots(ranges[..]) && Spread(ranges[..])
      ensures forall a: int :: Cover(ranges[..], a) == Cover(old(ranges[..]), a)
    {
      hide Cover, Used;
      for i := 0 to SLOTS
        invariant Slots(ranges[..]) && Coalesced(ranges[..], i, i + 1)
        invariant forall a: int :: Cover(ranges[..], a) == Cover(old(ranges[..]), a)
      {
        if ranges[i].size > 0 {
          var j := i + 1;
          while j < SLOTS
            invariant i < j <= SLOTS
            invariant Slots(ranges[..]) && Coalesced(ranges[..], i, j)
            invariant forall a: int :: Cover(ranges[..], a) == Cover(old(ranges[..]), a)
            decreases Used(ranges[..]), SLOTS - j
          {
            if Adjacent(ranges[i], ranges[j]) {
              Merge(i, j);
              j := i;
            }
            j := j + 1;
          }
        }
      }
    }

    method Merge(i: nat, j: nat)
      requires Slots(ranges[..]) && i < j < SLOTS && Adjacent(ranges[i], ranges[j]) && Coalesced(ranges[..], i, j)
      modifies ranges
      ensures ranges[..] == Merged(old(ranges[..]), i, j)
      ensures Slots(ranges[..]) && Coalesced(ranges[..], i, i + 1) && Used(ranges[..]) < Used(old(ranges[..]))
      ensures forall a: int :: Cover(ranges[..], a) == Cover(old(ranges[..]), a)
    {
      ghost var was := ranges[..];
      MergedUsed(was, i, j);
      MergedCoalesced(was, i, j);
      forall a: int
        ensures Cover(Merged(was, i, j), a) == Cover(was, a)
      {
        MergedCover(was, i, j, a);
      }
      if ranges[i].virt + ranges[i].size == ranges[j].virt {
        ranges[i] := Range(ranges[i].virt, ranges[i].size + ranges[j].size);
      } else {
        ranges[i] := Range(ranges[j].virt, ranges[i].size + ranges[j].size);
      }
      ranges[j] := EMPTY;
      assert ranges[..] == Merged(was, i, j);
    }
  }

  lemma {:induction false} NoCover(s: seq<Range>, a: int)
    requires forall i :: 0 <= i < |s| ==> s[i] == EMPTY
    ensures Cover(s, a) == 0
  {
    if s != [] {
      NoCover(s[..|s| - 1], a);
    }
  }
}
