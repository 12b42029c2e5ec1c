/** The boot loader's page tables: a sizing pass that counts tables, and a building pass that takes them
    from a pool of that size. */
module BootPaging {
  import opened Options

  const PAGE: nat := 0x1000
  const LARGE: nat := 0x20_0000
  const GIB: nat := 0x4000_0000
  const HHDM: nat := 0xFFFF_8000_0000_0000
  const DIRECT_LIMIT: nat := 0x8000_0000_0000
  const U64: nat := 0x1_0000_0000_0000_0000
  const MAX_PML4: nat := 512
  const MAX_PD: nat := 32768
  const MAX_PT: nat := 8192

  /** One call of map_4k or map_2m: virtual and physical page number. */
  datatype Request = Small(virt: nat, frame: nat) | Big(virt: nat, frame: nat)

  /** The pages a request maps: the hardware looks at 36 bits of the page number. */
  predicate Maps(r: Request, page: nat) {
    match r
    case Small(v, _) => page == v % 0x10_0000_0000
    case Big(v, _) => page / 512 == v / 512 % 0x800_0000
  }

  function FrameFor(r: Request, page: nat): nat {
    match r
    case Small(_, f) => f
    case Big(_, f) => f + page % 512
  }

  // The requests of a memory map.

  /** add_direct_range and map_direct_range: identity and higher half, in large pages where a whole one fits. */
  function Direct(cursor: nat, limit: nat): (s: seq<Request>)
    decreases limit - cursor
  {
    if cursor >= limit then []
    else if cursor % LARGE == 0 && limit - cursor >= LARGE then
      [Big(cursor / PAGE, cursor / PAGE), Big((HHDM + cursor) / PAGE, cursor / PAGE)] + Direct(cursor + LARGE, limit)
    else
      [Small(cursor / PAGE, cursor / PAGE), Small((HHDM + cursor) / PAGE, cursor / PAGE)] + Direct(cursor + PAGE, limit)
  }

  lemma NoDirect(cursor: nat)
    ensures forall limit: nat :: limit <= cursor ==> Direct(cursor, limit) == []
  {
  }

  /** A range of physical addresses. */
  datatype Range = Range(base: nat, length: nat)

  function Directs(ranges: seq<Range>): seq<Request> {
    if ranges == [] then []
    else
      var r := ranges[|ranges| - 1];
      Directs(ranges[..|ranges| - 1]) + Direct(r.base, r.base + r.length)
  }

  /** The kernel image, in small pages. */
  function Image(virt: nat, phys: nat, size: nat): seq<Request>
    decreases size
  {
    if size == 0 then []
    else [Small(virt / PAGE, phys / PAGE)] + if size <= PAGE then [] else Image(virt + PAGE, phys + PAGE, size - PAGE)
  }

  // The sizing pass.

  /** UniqueSet.add: false only when the set is full. */
  method AddUnique(values: seq<nat>, value: nat, max: nat) returns (r: Option<seq<nat>>)
    requires NoDup(values) && |values| <= max
    ensures r.Some? ==> NoDup(r.value) && |r.value| <= max
    ensures r.Some? ==> forall x :: x in r.value <==> x in values || x == value
    ensures r.None? <==> value !in values && |values| == max
  {
    for i := 0 to |values|
      invariant value !in values[..i]
    {
      if values[i] == value {
        return Some(values);
      }
    }
    if |values| >= max {
      return None;
    }
    return Some(values + [value]);
  }

  ghost predicate NoDup(s: seq<nat>) {
    forall i, j :: 0 <= i < j < |s| ==> s[i] != s[j]
  }

  /** The tables a request needs are counted. */
  ghost predicate Counts(pml4: seq<nat>, pd: seq<nat>, pt: seq<nat>, r: Request) {
    r.virt / 0x800_0000 in pml4 && r.virt / 0x4_0000 in pd && (r.Small? ==> r.virt / 512 in pt)
  }

  /** Block x of `unit` bytes has an address in [lo, hi). */
  predicate Reaches(x: nat, unit: nat, lo: nat, hi: nat) {
    lo < hi && unit * x < hi && lo < unit * x + unit
  }

  /** What was added to the set is the number of a block of the range. */
  ghost predicate Adds(p: seq<nat>, q: seq<nat>, unit: nat, lo: nat, hi: nat) {
    forall x :: x in q ==> x in p || Reaches(x, unit, lo, hi)
  }

  const TIB: nat := 0x80_0000_0000

  // Which tables the requests need.

  ghost predicate Needs(rs: seq<Request>, unit: nat, x: nat) {
    unit > 0 && exists r :: r in rs && r.virt / unit == x
  }

  ghost predicate NeedsSmall(rs: seq<Request>, x: nat) {
    exists r :: r in rs && r.Small? && r.virt / 512 == x
  }

  /** Every table counted since is one that some request needs. */
  ghost predicate Only(p4: seq<nat>, p3: seq<nat>, p2: seq<nat>, pml4: seq<nat>, pd: seq<nat>, pt: seq<nat>,
                       rs: seq<Request>) {
    && (forall x :: x in pml4 ==> x in p4 || Needs(rs, 0x800_0000, x))
    && (forall x :: x in pd ==> x in p3 || Needs(rs, 0x4_0000, x))
    && (forall x :: x in pt ==> x in p2 || NeedsSmall(rs, x))
  }

  /** align_up, which stops at the largest number. */
  function AlignUp(value: nat, align: nat): (r: nat)
    requires value < U64 && align > 0
  {
    if value > U64 - 1 - (align - 1) then U64 - 1 else (value + align - 1) / align * align
  }

  lemma AlignDownBound(value: nat, align: nat)
    requires align > 0
    ensures value / align * align <= value
  {
  }

  const GIBS: nat := 0x4_0000_0000

  /** The number of the gibibyte after i steps from that of start, modulo 2^64 bytes. */
  function GibAt(start: nat, i: nat): nat {
    (start / GIB + i) % GIBS
  }

  ghost predicate GibCovered(pml4: seq<nat>, pd: seq<nat>, start: nat, cursor: nat) {
    forall a: nat :: start <= a < cursor ==> a / 0x80_0000_0000 in pml4 && a / GIB in pd
  }

  ghost predicate CountsAll(pml4: seq<nat>, pd: seq<nat>, pt: seq<nat>, rs: seq<Request>) {
    forall r :: r in rs ==> Counts(pml4, pd, pt, r)
  }

  class Estimator {
    var pml4: seq<nat>
    var pd: seq<nat>
    var pt: seq<nat>

    ghost predicate Valid()
      reads this
    {
      NoDup(pml4) && NoDup(pd) && NoDup(pt) && |pml4| <= MAX_PML4 && |pd| <= MAX_PD && |pt| <= MAX_PT
    }

    /** One of the three sets has no room left. */
    predicate Full()
      reads this
    {
      |pml4| == MAX_PML4 || |pd| == MAX_PD || |pt| == MAX_PT
    }

    /** reset. */
    constructor ()
      ensures Valid() && pml4 == [] && pd == [] && pt == []
    {
      pml4, pd, pt := [], [], [];
    }

    /** Nothing counted is forgotten. */
    twostate predicate Grows()
      reads this
    {
      && (forall x :: x in old(pml4) ==> x in pml4) && (forall x :: x in old(pd) ==> x in pd)
      && (forall x :: x in old(pt) ==> x in pt)
    }

    /** The loop over gibibytes of add_2m_range and add_4k_range, in 64-bit arithmetic. A range that ends
        in the last gibibyte makes the cursor wrap around and go on until the set is full. */
    method AddGibs(start: nat, end: nat) returns (ok: bool)
      requires Valid() && start < end < U64
      modifies this`pml4, this`pd
      ensures Valid() && Grows()
      ensures ok ==> forall a: nat :: start <= a < end ==> a / 0x80_0000_0000 in pml4 && a / GIB in pd
      ensures ok ==> end <= U64 - GIB
      ensures ok ==> Adds(old(pml4), pml4, TIB, start, end) && Adds(old(pd), pd, GIB, start, end)
      ensures !ok ==> Full()
    {
      hide GibAt, GibCovered, Adds;
      AddsSame(pml4, TIB, start, end);
      AddsSame(pd, GIB, start, end);
      var cursor := start / GIB * GIB;
      ghost var n := 0;
      GibStart(start);
      GibStep(start / GIB);
      GibNone(pml4, pd, start, cursor);
      while cursor < end
        invariant Valid() && Grows() && GibAt(start, n) < GIBS && cursor == GIB * GibAt(start, n)
        invariant forall i: nat :: i < n ==> GibAt(start, i) in pd
        invariant n <= MAX_PD
        invariant end <= U64 - GIB ==> GibCovered(pml4, pd, start, cursor)
        invariant end <= U64 - GIB ==> cursor % GIB == 0 && start < cursor + GIB
        invariant end <= U64 - GIB ==> Adds(old(pml4), pml4, TIB, start, end) && Adds(old(pd), pd, GIB, start, end)
        decreases MAX_PD - n
      {
        ghost var g := GibAt(start, n);
        GibStep(g);
        ghost var p4, p3 := pml4, pd;
        var x := AddUnique(pml4, cursor / 0x80_0000_0000, MAX_PML4);
        if x.None? {
          return false;
        }
        var y := AddUnique(pd, cursor / GIB, MAX_PD);
        pml4 := x.value;
        if y.None? {
          return false;
        }
        pd := y.value;
        GibNext(start, n);
        if end <= U64 - GIB {
          GibMore(p4, p3, pml4, pd, start, cursor);
          GibReaches(cursor, start, end);
          AddsOne(old(pml4), p4, pml4, TIB, start, end, cursor / TIB);
          AddsOne(old(pd), p3, pd, GIB, start, end, cursor / GIB);
        }
        n := n + 1;
        Crowded(pd, start, n);
        cursor := (cursor + GIB) % U64;
      }
      GibAll(pml4, pd, start, cursor, end);
      return true;
    }

    /** add_2m_range. */
    method AddLarge(virt: nat, size: nat) returns (ok: bool)
      requires Valid() && virt < U64 && size < U64
      modifies this`pml4, this`pd
      ensures Valid() && Grows()
      ensures ok ==> forall a: nat :: virt <= a < virt + size ==> a / 0x80_0000_0000 in pml4 && a / GIB in pd
      ensures ok && size > 0 ==> virt + size <= U64 - GIB
      ensures ok ==> Adds(old(pml4), pml4, TIB, virt, virt + size) && Adds(old(pd), pd, GIB, virt, virt + size)
      ensures !ok ==> Full() || virt + size > U64 - LARGE
    {
      hide Adds;
      AddsSame(pml4, TIB, virt, virt + size);
      AddsSame(pd, GIB, virt, virt + size);
      if size == 0 {
        return true;
      }
      if virt > U64 - 1 - size {
        return false;
      }
      var start, end := virt / LARGE * LARGE, AlignUp(virt + size, LARGE);
      if end == U64 - 1 {
        return false;
      }
      AlignDownBound(virt, LARGE);
      ok := AddGibs(start, end);
      if ok {
        AddsInner(old(pml4), pml4, TIB, LARGE, virt, virt + size);
        AddsInner(old(pd), pd, GIB, LARGE, virt, virt + size);
      }
    }

    /** add_4k_range. */
    method AddSmall(virt: nat, size: nat) returns (ok: bool)
      requires Valid() && virt < U64 && size < U64
      modifies this
      ensures Valid() && Grows()
      ensures ok ==> forall a: nat :: virt <= a < virt + size ==>
                a / 0x80_0000_0000 in pml4 && a / GIB in pd && a / LARGE in pt
      ensures ok && size > 0 ==> virt + size <= U64 - GIB
      ensures ok ==>
                && Adds(old(pml4), pml4, TIB, virt, virt + size) && Adds(old(pd), pd, GIB, virt, virt + size)
                && Adds(old(pt), pt, LARGE, virt, virt + size)
      ensures !ok ==> Full() || virt + size > U64 - PAGE
    {
      hide Adds;
      AddsSame(pml4, TIB, virt, virt + size);
      AddsSame(pd, GIB, virt, virt + size);
      AddsSame(pt, LARGE, virt, virt + size);
      if size == 0 {
        return true;
      }
      if virt > U64 - 1 - size {
        return false;
      }
      var start, end := virt / PAGE * PAGE, AlignUp(virt + size, PAGE);
      if end == U64 - 1 {
        return false;
      }
      AlignDownBound(virt, PAGE);
      ok := AddGibs(start, end);
      if !ok {
        return;
      }
      AddsInner(old(pml4), pml4, TIB, PAGE, virt, virt + size);
      AddsInner(old(pd), pd, GIB, PAGE, virt, virt + size);
      ghost var p4, p3 := pml4, pd;
      var cursor := start / LARGE * LARGE;
      AddsSame(pt, LARGE, start, end);
      while cursor < end
        invariant Valid() && Grows() && cursor % LARGE == 0 && pml4 == p4 && pd == p3 && start < cursor + LARGE
        invariant forall a: nat :: start <= a < cursor ==> a / LARGE in pt
        invariant Adds(old(pt), pt, LARGE, start, end)
        decreases end - cursor
      {
        var x := AddUnique(pt, cursor / LARGE, MAX_PT);
        if x.None? {
          return false;
        }
        ghost var p2 := pt;
        pt := x.value;
        LargeReaches(cursor, start, end);
        AddsOne(old(pt), p2, pt, LARGE, start, end, cursor / LARGE);
        forall a: nat | start <= a < cursor + LARGE
          ensures a / LARGE in pt
        {
          if a >= cursor {
            SameLarge(a, cursor);
          }
        }
        cursor := cursor + LARGE;
      }
      AddsInner(old(pt), pt, LARGE, PAGE, virt, virt + size);
    }

    /** add_direct_range. */
    method AddDirect(base: nat, length: nat) returns (ok: bool)
      requires Valid()
      modifies this
      ensures Valid() && Grows()
      ensures ok ==> forall r :: r in Direct(base, base + length) ==> Counts(pml4, pd, pt, r)
      ensures ok && length > 0 ==> base + length <= DIRECT_LIMIT - GIB
      ensures ok && base % PAGE == 0 ==>
                Only(old(pml4), old(pd), old(pt), pml4, pd, pt, Direct(base, base + length))
      ensures !ok ==> Full() || (length > 0 && base + length > DIRECT_LIMIT - GIB)
    {
      hide Counts, Direct, Only;
      OnlySame(pml4, pd, pt, Direct(base, base + length));
      if length == 0 {
        NoDirect(base);
        return true;
      }
      var limit := base + length;
      if limit > DIRECT_LIMIT {
        return false;
      }
      var cursor := base;
      while cursor < limit
        invariant Valid() && Grows()
        invariant forall r :: r in Direct(base, limit) ==> r in Direct(cursor, limit) || Counts(pml4, pd, pt, r)
        invariant cursor > base ==> cursor <= DIRECT_LIMIT - GIB
        invariant base % PAGE == 0 ==> cursor % PAGE == 0
        invariant base % PAGE == 0 ==> Only(old(pml4), old(pd), old(pt), pml4, pd, pt, Direct(base, limit))
        invariant forall r :: r in Direct(cursor, limit) ==> r in Direct(base, limit)
        decreases limit - cursor
      {
        ghost var p4, p3, p2 := pml4, pd, pt;
        ghost var c := cursor;
        ok, cursor := DirectStep(cursor, limit);
        if !ok {
          return;
        }
        if base % PAGE == 0 {
          OnlyMore(old(pml4), old(pd), old(pt), p4, p3, p2, pml4, pd, pt, Direct(base, limit), Direct(c, limit));
        }
      }
      NoDirect(cursor);
      return true;
    }

    /** One large or small page of a direct range. */
    method DirectStep(cursor: nat, limit: nat) returns (ok: bool, next: nat)
      requires Valid() && cursor < limit <= DIRECT_LIMIT
      modifies this
      ensures Valid() && Grows() && cursor < next
      ensures forall r :: Counts(old(pml4), old(pd), old(pt), r) ==> Counts(pml4, pd, pt, r)
      ensures ok ==> next <= DIRECT_LIMIT - GIB
      ensures ok ==> forall r :: r in Direct(cursor, limit) ==> r in Direct(next, limit) || Counts(pml4, pd, pt, r)
      ensures forall r :: r in Direct(next, limit) ==> r in Direct(cursor, limit)
      ensures cursor % PAGE == 0 ==> next % PAGE == 0
      ensures ok && cursor % PAGE == 0 ==>
                Only(old(pml4), old(pd), old(pt), pml4, pd, pt, Direct(cursor, limit))
      ensures !ok ==> Full() || limit > DIRECT_LIMIT - GIB
    {
      hide Counts, Only;
      StepAligned(cursor);
      if cursor % LARGE == 0 && limit - cursor >= LARGE {
        next := cursor + LARGE;
        ok := AddLargePair(cursor);
        ghost var pair := [Big(cursor / PAGE, cursor / PAGE), Big((HHDM + cursor) / PAGE, cursor / PAGE)];
        assert Direct(cursor, limit) == pair + Direct(next, limit);
        OnlyWider(old(pml4), old(pd), old(pt), pml4, pd, pt, pair, Direct(next, limit));
      } else {
        next := cursor + PAGE;
        ok := AddSmallPair(cursor);
        ghost var pair := [Small(cursor / PAGE, cursor / PAGE), Small((HHDM + cursor) / PAGE, cursor / PAGE)];
        assert Direct(cursor, limit) == pair + Direct(next, limit);
        OnlyWider(old(pml4), old(pd), old(pt), pml4, pd, pt, pair, Direct(next, limit));
      }
    }

    /** estimate_page_tables: the usable descriptors and the frame buffer, then the kernel image. */
    method Estimate(ranges: seq<Range>, kernel: nat, phys: nat, size: nat) returns (ok: bool)
      requires pml4 == [] && pd == [] && pt == [] && kernel < U64 && size < U64
      modifies this
      ensures Valid()
      ensures ok ==> CountsAll(pml4, pd, pt, Directs(ranges) + Image(kernel, phys, size))
      ensures ok ==> forall r :: r in ranges ==> r.length == 0 || r.base + r.length <= DIRECT_LIMIT - GIB
      ensures ok && size > 0 ==> kernel + size <= U64 - GIB
      ensures ok && kernel % PAGE == 0 && (forall r :: r in ranges ==> r.base % PAGE == 0) ==>
                Only([], [], [], pml4, pd, pt, Directs(ranges) + Image(kernel, phys, size))
      ensures !ok ==>
                || Full() || kernel + size > U64 - PAGE
                || exists r :: r in ranges && r.length > 0 && r.base + r.length > DIRECT_LIMIT - GIB
    {
      hide Counts, Direct, Image, Only, Adds;
      OnlySame(pml4, pd, pt, Directs([]));
      for i := 0 to |ranges|
        invariant Valid() && CountsAll(pml4, pd, pt, Directs(ranges[..i]))
        invariant (forall r :: r in ranges ==> r.base % PAGE == 0) ==>
                    Only([], [], [], pml4, pd, pt, Directs(ranges[..i]))
        invariant forall r :: r in ranges[..i] ==> r.length == 0 || r.base + r.length <= DIRECT_LIMIT - GIB
      {
        ghost var p4, p3, p2 := pml4, pd, pt;
        ok := AddDirect(ranges[i].base, ranges[i].length);
        if !ok {
          assert ranges[i] in ranges;
          return;
        }
        CountsGrow(p4, p3, p2, pml4, pd, pt, Directs(ranges[..i]));
        assert ranges[..i + 1][..i] == ranges[..i];
        if forall r :: r in ranges ==> r.base % PAGE == 0 {
          OnlyThen(p4, p3, p2, pml4, pd, pt, Directs(ranges[..i]),
                   Direct(ranges[i].base, ranges[i].base + ranges[i].length));
        }
      }
      assert ranges[..|ranges|] == ranges;
      ghost var p4, p3, p2 := pml4, pd, pt;
      ok := AddSmall(kernel, size);
      if ok {
        CountsGrow(p4, p3, p2, pml4, pd, pt, Directs(ranges));
        ImageCounts(pml4, pd, pt, kernel, phys, size);
        if kernel % PAGE == 0 && forall r :: r in ranges ==> r.base % PAGE == 0 {
          ImageOnly(p4, p3, p2, pml4, pd, pt, kernel, phys, size);
          OnlyThen(p4, p3, p2, pml4, pd, pt, Directs(ranges), Image(kernel, phys, size));
        }
      }
    }

    /** total_pages. */
    function Total(): nat
      reads this
    {
      1 + |pml4| + |pd| + |pt|
    }

    /** add_2m_range of one large page. */
    method AddLargeAt(a: nat, frame: nat) returns (ok: bool)
      requires Valid() && a % LARGE == 0 && a < U64
      modifies this`pml4, this`pd
      ensures Valid() && Grows()
      ensures forall r :: Counts(old(pml4), old(pd), old(pt), r) ==> Counts(pml4, pd, pt, r)
      ensures ok ==> Counts(pml4, pd, pt, Big(a / PAGE, frame))
      ensures ok ==> Only(old(pml4), old(pd), old(pt), pml4, pd, pt, [Big(a / PAGE, frame)])
      ensures ok ==> a + LARGE <= U64 - GIB
      ensures !ok ==> Full() || a + LARGE > U64 - LARGE
    {
      hide Adds, Only;
      ok := AddLarge(a, LARGE);
      if ok {
        assert a / 0x80_0000_0000 in pml4 && a / GIB in pd;
        Shifts(a);
        LargeOnly(old(pml4), old(pd), pt, pml4, pd, a, frame);
      }
    }

    /** add_4k_range of one page. */
    method AddSmallAt(a: nat, frame: nat) returns (ok: bool)
      requires Valid() && a < U64
      modifies this
      ensures Valid() && Grows()
      ensures forall r :: Counts(old(pml4), old(pd), old(pt), r) ==> Counts(pml4, pd, pt, r)
      ensures ok ==> Counts(pml4, pd, pt, Small(a / PAGE, frame))
      ensures ok && a % PAGE == 0 ==> Only(old(pml4), old(pd), old(pt), pml4, pd, pt, [Small(a / PAGE, frame)])
      ensures ok ==> a + PAGE <= U64 - GIB
      ensures !ok ==> Full() || a + PAGE > U64 - PAGE
    {
      hide Adds, Only;
      ok := AddSmall(a, PAGE);
      if ok {
        assert a / 0x80_0000_0000 in pml4 && a / GIB in pd && a / LARGE in pt;
        Shifts(a);
        if a % PAGE == 0 {
          SmallOnly(old(pml4), old(pd), old(pt), pml4, pd, pt, a, frame);
        }
      }
    }

    method AddLargePair(cursor: nat) returns (ok: bool)
      requires Valid() && cursor + LARGE <= DIRECT_LIMIT && cursor % LARGE == 0
      modifies this`pml4, this`pd
      ensures Valid() && Grows()
      ensures forall r :: Counts(old(pml4), old(pd), old(pt), r) ==> Counts(pml4, pd, pt, r)
      ensures ok ==> Counts(pml4, pd, pt, Big(cursor / PAGE, cursor / PAGE))
      ensures ok ==> Counts(pml4, pd, pt, Big((HHDM + cursor) / PAGE, cursor / PAGE))
      ensures ok ==> cursor + LARGE <= DIRECT_LIMIT - GIB
      ensures ok ==> Only(old(pml4), old(pd), old(pt), pml4, pd, pt,
                          [Big(cursor / PAGE, cursor / PAGE), Big((HHDM + cursor) / PAGE, cursor / PAGE)])
      ensures !ok ==> Full() || cursor + LARGE > DIRECT_LIMIT - GIB
    {
      hide Only, Counts;
      HigherAligned(cursor);
      ok := AddLargeAt(cursor, cursor / PAGE);
      if !ok {
        return;
      }
      ghost var p4, p3 := pml4, pd;
      ok := AddLargeAt(HHDM + cursor, cursor / PAGE);
      if ok {
        OnlyPair(old(pml4), old(pd), pt, p4, p3, pt, pml4, pd, pt, Big(cursor / PAGE, cursor / PAGE),
                 Big((HHDM + cursor) / PAGE, cursor / PAGE));
      }
    }

    method AddSmallPair(cursor: nat) returns (ok: bool)
      requires Valid() && cursor < DIRECT_LIMIT
      modifies this
      ensures Valid() && Grows()
      ensures forall r :: Counts(old(pml4), old(pd), old(pt), r) ==> Counts(pml4, pd, pt, r)
      ensures ok ==> Counts(pml4, pd, pt, Small(cursor / PAGE, cursor / PAGE))
      ensures ok ==> Counts(pml4, pd, pt, Small((HHDM + cursor) / PAGE, cursor / PAGE))
      ensures ok ==> cursor + PAGE <= DIRECT_LIMIT - GIB
      ensures ok && cursor % PAGE == 0 ==>
                Only(old(pml4), old(pd), old(pt), pml4, pd, pt,
                     [Small(cursor / PAGE, cursor / PAGE), Small((HHDM + cursor) / PAGE, cursor / PAGE)])
      ensures !ok ==> Full() || cursor + 2 * PAGE > DIRECT_LIMIT
    {
      hide Only, Counts;
      HigherAligned(cursor);
      ok := AddSmallAt(cursor, cursor / PAGE);
      if !ok {
        return;
      }
      ghost var p4, p3, p2 := pml4, pd, pt;
      ok := AddSmallAt(HHDM + cursor, cursor / PAGE);
      if ok && cursor % PAGE == 0 {
        OnlyPair(old(pml4), old(pd), old(pt), p4, p3, p2, pml4, pd, pt, Small(cursor / PAGE, cursor / PAGE),
                 Small((HHDM + cursor) / PAGE, cursor / PAGE));
      }
    }
  }

  lemma HigherAligned(a: nat)
    ensures (HHDM + a) % LARGE == a % LARGE && (HHDM + a) % PAGE == a % PAGE
  {
  }

  // ---------- Nothing is counted in vain ----------

  lemma AddsSame(p: seq<nat>, unit: nat, lo: nat, hi: nat)
    ensures Adds(p, p, unit, lo, hi)
  {
  }

  lemma AddsOne(p: seq<nat>, q: seq<nat>, q': seq<nat>, unit: nat, lo: nat, hi: nat, x: nat)
    requires Adds(p, q, unit, lo, hi) && Reaches(x, unit, lo, hi) && forall y :: y in q' <==> y in q || y == x
    ensures Adds(p, q', unit, lo, hi)
  {
  }

  lemma GibReaches(cursor: nat, start: nat, end: nat)
    requires cursor % GIB == 0 && start < cursor + GIB && cursor < end && start < end
    ensures Reaches(cursor / GIB, GIB, start, end) && Reaches(cursor / TIB, TIB, start, end)
  {
    var g := cursor / GIB;
    assert cursor == GIB * g && cursor / TIB == g / 512;
    assert g / 512 * 512 <= g < g / 512 * 512 + 512;
  }

  lemma LargeReaches(cursor: nat, start: nat, end: nat)
    requires cursor % LARGE == 0 && start < cursor + LARGE && cursor < end && start < end
    ensures Reaches(cursor / LARGE, LARGE, start, end)
  {
  }

  /** Blocks that reach into a range rounded to smaller blocks reach into the range itself. */
  lemma AddsInner(p: seq<nat>, q: seq<nat>, unit: nat, align: nat, lo: nat, hi: nat)
    requires (unit == TIB || unit == GIB || unit == LARGE) && (align == LARGE || align == PAGE) && lo < hi < U64
    requires AlignUp(hi, align) < U64 - 1 && Adds(p, q, unit, lo / align * align, AlignUp(hi, align))
    ensures Adds(p, q, unit, lo, hi)
  {
    forall x | x in q && x !in p
      ensures Reaches(x, unit, lo, hi)
    {
      InnerReaches(x, unit, align, lo, hi);
    }
  }

  lemma InnerReaches(x: nat, unit: nat, align: nat, lo: nat, hi: nat)
    requires (unit == TIB || unit == GIB || unit == LARGE) && (align == LARGE || align == PAGE) && lo < hi < U64
    requires AlignUp(hi, align) < U64 - 1 && Reaches(x, unit, lo / align * align, AlignUp(hi, align))
    ensures Reaches(x, unit, lo, hi)
  {
    var m := unit / align;
    assert unit == align * m;
    RoundedReaches(x, m, align, lo, hi);
  }

  lemma RoundedReaches(x: nat, m: nat, align: nat, lo: nat, hi: nat)
    requires align > 0 && m > 0
    requires align * m * x < (hi + align - 1) / align * align && lo / align * align < align * m * x + align * m
    ensures align * m * x < hi && lo < align * m * x + align * m
  {
    Division(lo, align);
    Division(hi + align - 1, align);
    Regroup(align, m, x);
    OneLess(align, m * x, (hi + align - 1) / align);
    OneLess(align, lo / align, m * x + m);
  }

  lemma Regroup(a: nat, m: nat, x: nat)
    ensures a * m * x == a * (m * x) && a * (m * x + m) == a * (m * x) + a * m
  {
  }

  lemma OneLess(a: nat, b: int, c: int)
    requires a * b < a * c
    ensures a * b <= a * c - a
  {
    Cancel(a, b, c);
    Grow(a, b, c - 1);
  }

  lemma Division(n: nat, d: nat)
    requires d > 0
    ensures n / d * d == d * (n / d) <= n < d * (n / d) + d
  {
  }

  lemma Cancel(a: nat, b: int, c: int)
    requires a * b < a * c
    ensures b < c
  {
  }

  lemma Grow(a: nat, b: int, c: int)
    requires b <= c
    ensures a * b <= a * c
  {
  }

  lemma OnlySame(pml4: seq<nat>, pd: seq<nat>, pt: seq<nat>, rs: seq<Request>)
    ensures Only(pml4, pd, pt, pml4, pd, pt, rs)
  {
  }

  lemma NeedsMore(rs: seq<Request>, qs: seq<Request>)
    requires forall r :: r in rs ==> r in qs
    ensures forall unit: nat, x: nat :: Needs(rs, unit, x) ==> Needs(qs, unit, x)
    ensures forall x: nat :: NeedsSmall(rs, x) ==> NeedsSmall(qs, x)
  {
  }

  /** First what rs need, then what some of rs need. */
  lemma OnlyMore(a: seq<nat>, b: seq<nat>, c: seq<nat>, a': seq<nat>, b': seq<nat>, c': seq<nat>, a'': seq<nat>,
                 b'': seq<nat>, c'': seq<nat>, rs: seq<Request>, qs: seq<Request>)
    requires Only(a, b, c, a', b', c', rs) && Only(a', b', c', a'', b'', c'', qs) && forall r :: r in qs ==> r in rs
    ensures Only(a, b, c, a'', b'', c'', rs)
  {
    hide Needs, NeedsSmall;
    NeedsMore(qs, rs);
  }

  lemma OnlyWider(a: seq<nat>, b: seq<nat>, c: seq<nat>, a': seq<nat>, b': seq<nat>, c': seq<nat>, rs: seq<Request>,
                  more: seq<Request>)
    ensures Only(a, b, c, a', b', c', rs) ==> Only(a, b, c, a', b', c', rs + more)
  {
    hide Needs, NeedsSmall;
    NeedsMore(rs, rs + more);
  }

  lemma OnlyThen(a: seq<nat>, b: seq<nat>, c: seq<nat>, a': seq<nat>, b': seq<nat>, c': seq<nat>, rs: seq<Request>,
                 qs: seq<Request>)
    requires Only([], [], [], a, b, c, rs) && Only(a, b, c, a', b', c', qs)
    ensures Only([], [], [], a', b', c', rs + qs)
  {
    hide Needs, NeedsSmall;
    NeedsMore(rs, rs + qs);
    NeedsMore(qs, rs + qs);
  }

  lemma OnlyPair(a: seq<nat>, b: seq<nat>, c: seq<nat>, a': seq<nat>, b': seq<nat>, c': seq<nat>, a'': seq<nat>,
                 b'': seq<nat>, c'': seq<nat>, r: Request, q: Request)
    requires Only(a, b, c, a', b', c', [r]) && Only(a', b', c', a'', b'', c'', [q])
    ensures Only(a, b, c, a'', b'', c'', [r, q])
  {
    hide Needs, NeedsSmall;
    NeedsMore([r], [r, q]);
    NeedsMore([q], [r, q]);
  }

  /** The blocks around one page. */
  lemma OneBlock(x: nat, unit: nat, align: nat, a: nat)
    requires (unit == TIB || unit == GIB || unit == LARGE) && (align == LARGE || align == PAGE) && a % align == 0
    requires Reaches(x, unit, a, a + align)
    ensures x == a / unit
  {
    var m, k := unit / align, a / align;
    assert unit == align * m && a == align * k;
    RoundedDown(x, m, align, k);
    Quotient(a, unit, x);
  }

  lemma RoundedDown(x: nat, m: nat, align: nat, k: nat)
    requires align * m * x < align * k + align
    ensures align * m * x <= align * k
  {
    assert align * (m * x) < align * (k + 1);
    Cancel(align, m * x, k + 1);
    Grow(align, m * x, k);
  }

  lemma Quotient(k: nat, m: nat, x: nat)
    requires m > 0 && m * x <= k < m * x + m
    ensures k / m == x
  {
    var q := k / m;
    assert m * q <= k < m * q + m;
    Cancel(m, x, q + 1);
    Cancel(m, q, x + 1);
  }

  lemma LargeOnly(p4: seq<nat>, p3: seq<nat>, pt: seq<nat>, pml4: seq<nat>, pd: seq<nat>, a: nat, frame: nat)
    requires a % LARGE == 0 && Adds(p4, pml4, TIB, a, a + LARGE) && Adds(p3, pd, GIB, a, a + LARGE)
    ensures Only(p4, p3, pt, pml4, pd, pt, [Big(a / PAGE, frame)])
  {
    hide Reaches;
    var r := Big(a / PAGE, frame);
    Shifts(a);
    forall x | x in pml4 && x !in p4
      ensures Needs([r], 0x800_0000, x)
    {
      OneBlock(x, TIB, LARGE, a);
      assert r in [r];
    }
    forall x | x in pd && x !in p3
      ensures Needs([r], 0x4_0000, x)
    {
      OneBlock(x, GIB, LARGE, a);
      assert r in [r];
    }
  }

  lemma SmallOnly(p4: seq<nat>, p3: seq<nat>, p2: seq<nat>, pml4: seq<nat>, pd: seq<nat>, pt: seq<nat>, a: nat,
                  frame: nat)
    requires a % PAGE == 0 && Adds(p4, pml4, TIB, a, a + PAGE) && Adds(p3, pd, GIB, a, a + PAGE)
    requires Adds(p2, pt, LARGE, a, a + PAGE)
    ensures Only(p4, p3, p2, pml4, pd, pt, [Small(a / PAGE, frame)])
  {
    hide Reaches;
    var r := Small(a / PAGE, frame);
    Shifts(a);
    forall x | x in pml4 && x !in p4
      ensures Needs([r], 0x800_0000, x)
    {
      OneBlock(x, TIB, PAGE, a);
      assert r in [r];
    }
    forall x | x in pd && x !in p3
      ensures Needs([r], 0x4_0000, x)
    {
      OneBlock(x, GIB, PAGE, a);
      assert r in [r];
    }
    forall x | x in pt && x !in p2
      ensures NeedsSmall([r], x)
    {
      OneBlock(x, LARGE, PAGE, a);
      assert r in [r];
    }
  }

  lemma StepAligned(cursor: nat)
    ensures cursor % PAGE == 0 ==> (cursor + PAGE) % PAGE == 0 && (cursor + LARGE) % PAGE == 0
  {
  }

  lemma BlockHas(x: nat, unit: nat, virt: nat, phys: nat, size: nat) returns (r: Request)
    requires (unit == TIB || unit == GIB || unit == LARGE) && virt % PAGE == 0
    requires Reaches(x, unit, virt, virt + size)
    ensures r in Image(virt, phys, size) && r.Small? && r.virt / (unit / PAGE) == x
  {
    var a := if unit * x < virt then virt else unit * x;
    UnitPages(x, unit);
    var k := (a - virt) / PAGE;
    PagesApart(virt, a);
    ImageHas(virt, phys, size, k);
    r := Small(virt / PAGE + k, phys / PAGE + k);
    var m := unit / PAGE;
    assert unit == PAGE * m && a == PAGE * (a / PAGE);
    PageBlock(x, m, a / PAGE);
  }

  lemma PageBlock(x: nat, m: nat, v: nat)
    requires m > 0 && PAGE * m * x <= PAGE * v < PAGE * m * x + PAGE * m
    ensures v / m == x
  {
    assert PAGE * (m * x) < PAGE * (v + 1) && PAGE * v < PAGE * (m * x + m);
    Cancel(PAGE, m * x, v + 1);
    Cancel(PAGE, v, m * x + m);
    Quotient(v, m, x);
  }

  lemma PagesApart(virt: nat, a: nat)
    requires virt % PAGE == 0 && a % PAGE == 0 && virt <= a
    ensures (a - virt) / PAGE * PAGE == a - virt && virt / PAGE + (a - virt) / PAGE == a / PAGE
  {
  }

  lemma UnitPages(x: nat, unit: nat)
    requires unit == TIB || unit == GIB || unit == LARGE
    ensures unit * x % PAGE == 0
  {
    var m := unit / PAGE;
    assert unit * x == PAGE * (m * x);
    Divides(m * x);
  }

  lemma Divides(n: nat)
    ensures PAGE * n % PAGE == 0
  {
  }

  lemma ImageOnly(p4: seq<nat>, p3: seq<nat>, p2: seq<nat>, pml4: seq<nat>, pd: seq<nat>, pt: seq<nat>, virt: nat,
                  phys: nat, size: nat)
    requires virt % PAGE == 0 && Adds(p4, pml4, TIB, virt, virt + size) && Adds(p3, pd, GIB, virt, virt + size)
    requires Adds(p2, pt, LARGE, virt, virt + size)
    ensures Only(p4, p3, p2, pml4, pd, pt, Image(virt, phys, size))
  {
    hide Reaches, Image;
    forall x | x in pml4 && x !in p4
      ensures Needs(Image(virt, phys, size), 0x800_0000, x)
    {
      var r := BlockHas(x, TIB, virt, phys, size);
    }
    forall x | x in pd && x !in p3
      ensures Needs(Image(virt, phys, size), 0x4_0000, x)
    {
      var r := BlockHas(x, GIB, virt, phys, size);
    }
    forall x | x in pt && x !in p2
      ensures NeedsSmall(Image(virt, phys, size), x)
    {
      var r := BlockHas(x, LARGE, virt, phys, size);
    }
  }

  lemma CountsGrow(a: seq<nat>, b: seq<nat>, c: seq<nat>, a': seq<nat>, b': seq<nat>, c': seq<nat>, rs: seq<Request>)
    requires CountsAll(a, b, c, rs)
    requires (forall x :: x in a ==> x in a') && (forall x :: x in b ==> x in b') && (forall x :: x in c ==> x in c')
    ensures CountsAll(a', b', c', rs)
  {
  }

  lemma {:induction false} ImageCounts(pml4: seq<nat>, pd: seq<nat>, pt: seq<nat>, virt: nat, phys: nat, size: nat)
    requires forall a: nat :: virt <= a < virt + size ==> a / 0x80_0000_0000 in pml4 && a / GIB in pd && a / LARGE in pt
    ensures CountsAll(pml4, pd, pt, Image(virt, phys, size))
    decreases size
  {
    if size > 0 {
      assert virt / 0x80_0000_0000 in pml4 && virt / GIB in pd && virt / LARGE in pt;
      Shifts(virt);
      if size > PAGE {
        ImageCounts(pml4, pd, pt, virt + PAGE, phys + PAGE, size - PAGE);
      }
    }
  }

  lemma SameLarge(a: nat, cursor: nat)
    requires cursor % LARGE == 0 && cursor <= a < cursor + LARGE
    ensures a / LARGE == cursor / LARGE
  {
  }

  lemma Shifts(a: nat)
    ensures a / PAGE / 0x800_0000 == a / 0x80_0000_0000 && a / PAGE / 0x4_0000 == a / GIB && a / PAGE / 512 == a / LARGE
  {
  }

  lemma GibStart(start: nat)
    requires start < U64
    ensures GibAt(start, 0) == start / GIB
  {
  }

  lemma GibNext(start: nat, i: nat)
    ensures GibAt(start, i) < GIBS
    ensures GibAt(start, i + 1) == if GibAt(start, i) + 1 < GIBS then GibAt(start, i) + 1 else 0
  {
  }

  /** The 64-bit step of the cursor. */
  lemma GibStep(g: nat)
    requires g < GIBS
    ensures (GIB * g + GIB) % U64 == if g + 1 < GIBS then GIB * (g + 1) else 0
    ensures GIB * g / GIB == g && GIB * g % GIB == 0 && GIB * g < U64
  {
  }

  lemma GibNone(pml4: seq<nat>, pd: seq<nat>, start: nat, cursor: nat)
    requires cursor <= start
    ensures GibCovered(pml4, pd, start, cursor)
  {
  }

  lemma GibAll(pml4: seq<nat>, pd: seq<nat>, start: nat, cursor: nat, end: nat)
    requires GibCovered(pml4, pd, start, cursor) && end <= cursor
    ensures forall a: nat :: start <= a < end ==> a / 0x80_0000_0000 in pml4 && a / GIB in pd
  {
  }

  lemma GibMore(p4: seq<nat>, p3: seq<nat>, pml4: seq<nat>, pd: seq<nat>, start: nat, cursor: nat)
    requires GibCovered(p4, p3, start, cursor) && cursor % GIB == 0
    requires forall x :: x in pml4 <==> x in p4 || x == cursor / 0x80_0000_0000
    requires forall x :: x in pd <==> x in p3 || x == cursor / GIB
    ensures GibCovered(pml4, pd, start, cursor + GIB)
  {
    forall a: nat | start <= a < cursor + GIB
      ensures a / 0x80_0000_0000 in pml4 && a / GIB in pd
    {
      if a >= cursor {
        SameGib(a, cursor);
      }
    }
  }

  /** A set with the numbers of n consecutive gibibytes has room for n. */
  lemma Crowded(pd: seq<nat>, start: nat, n: nat)
    requires n <= MAX_PD + 1 && forall i: nat :: i < n ==> GibAt(start, i) in pd
    ensures n <= |pd|
  {
    hide GibAt;
    WindowCard(start, n);
    ElementsCard(pd);
    SubsetCard(Window(start, n), Elements(pd));
  }

  ghost function Window(start: nat, n: nat): set<nat> {
    set i: nat | i < n :: GibAt(start, i)
  }

  lemma {:induction false} WindowCard(start: nat, n: nat)
    requires n <= MAX_PD + 1
    ensures |Window(start, n)| == n
  {
    hide GibAt;
    if n > 0 {
      WindowCard(start, n - 1);
      var x := GibAt(start, n - 1);
      assert Window(start, n) == Window(start, n - 1) + {x};
      if x in Window(start, n - 1) {
        var i: nat :| i < n - 1 && x == GibAt(start, i);
        Congruent(start, i, n - 1);
      }
    }
  }

  lemma Congruent(start: nat, i: nat, j: nat)
    requires i < j < i + GIBS
    ensures GibAt(start, i) != GibAt(start, j)
  {
  }

  function Elements(s: seq<nat>): set<nat> { set x | x in s }

  lemma {:induction false} ElementsCard(s: seq<nat>)
    ensures |Elements(s)| <= |s|
  {
    if s != [] {
      var n := |s| - 1;
      ElementsCard(s[..n]);
      assert Elements(s) == Elements(s[..n]) + {s[n]};
    }
  }

  lemma SubsetCard(a: set<nat>, b: set<nat>)
    requires a <= b
    ensures |a| <= |b|
  {
    assert b == a + (b - a);
  }

  lemma SameGib(a: nat, cursor: nat)
    requires cursor % GIB == 0 && cursor <= a < cursor + GIB
    ensures a / GIB == cursor / GIB && a / 0x80_0000_0000 == cursor / 0x80_0000_0000
  {
  }

  // The building pass.

  datatype Slot = Absent | Next(table: nat) | LargePage(frame: nat) | SmallPage(frame: nat)

  /** A table, by the addresses it serves: numbers of 512 GiB, 1 GiB and 2 MiB. */
  datatype Key = Root | Third(k: nat) | Second(k: nat) | First(k: nat)

  predicate Legal(key: Key) {
    match key
    case Root => true
    case Third(k) => k < 512
    case Second(k) => k < 0x4_0000
    case First(k) => k < 0x800_0000
  }

  function Parent(key: Key): Key {
    match key
    case Root => Root
    case Third(k) => Root
    case Second(k) => Third(k / 512)
    case First(k) => Second(k / 512)
  }

  function Child(key: Key, j: nat): Key {
    match key
    case Root => Third(j)
    case Third(k) => Second(512 * k + j)
    case Second(k) => First(512 * k + j)
    case First(k) => Root
  }

  lemma ChildParent(key: Key, j: nat)
    requires !key.First? && j < 512
    ensures Parent(Child(key, j)) == key && Child(key, j) != Root && (Legal(key) ==> Legal(Child(key, j)))
  {
  }

  lemma ChildInjective(key: Key, j: nat, key': Key, j': nat)
    requires !key.First? && !key'.First? && j < 512 && j' < 512 && Child(key, j) == Child(key', j')
    ensures key == key' && j == j'
  {
  }

  /** `ids` names the tables, `big` and `small` the pages mapped so far. */
  datatype View = View(ids: map<Key, nat>, owner: seq<Key>, big: map<nat, nat>, small: map<nat, nat>)

  /** What slot j of a table must hold. */
  function Expect(v: View, key: Key, j: nat): Slot {
    if key.First? then (if 512 * key.k + j in v.small then SmallPage(v.small[512 * key.k + j]) else Absent)
    else if Child(key, j) in v.ids then Next(v.ids[Child(key, j)])
    else if key.Second? && 512 * key.k + j in v.big then LargePage(v.big[512 * key.k + j])
    else Absent
  }

  ghost predicate Named(v: View) {
    && Root in v.ids && v.ids[Root] == 0
    && (forall key :: key in v.ids ==> v.ids[key] < |v.owner| && v.owner[v.ids[key]] == key && Legal(key))
    && (forall i :: 0 <= i < |v.owner| ==> v.owner[i] in v.ids && v.ids[v.owner[i]] == i)
  }

  ghost predicate Closed(v: View) {
    && (forall key :: key in v.ids ==> Parent(key) in v.ids)
    && (forall p :: p in v.small ==> First(p / 512) in v.ids)
    && (forall k :: k in v.big ==> Second(k / 512) in v.ids && First(k) !in v.ids)
  }

  ghost predicate Tree(tables: seq<seq<Slot>>, v: View) {
    && |tables| == |v.owner| && Named(v) && Closed(v)
    && (forall i :: 0 <= i < |tables| ==> |tables[i]| == 512)
    && (forall i, j :: 0 <= i < |tables| && 0 <= j < 512 ==> tables[i][j] == Expect(v, v.owner[i], j))
  }

  function EmptyRow(): (r: seq<Slot>)
    ensures |r| == 512 && forall j :: 0 <= j < 512 ==> r[j] == Absent
  {
    seq(512, _ => Absent)
  }

  /** A new table below `key`. */
  function Grown(v: View, c: Key): View {
    v.(ids := v.ids[c := |v.owner|], owner := v.owner + [c])
  }

  lemma GrownNamed(v: View, key: Key, j: nat)
    requires Named(v) && Closed(v) && key in v.ids && !key.First? && j < 512 && Child(key, j) !in v.ids
    requires key.Second? ==> 512 * key.k + j !in v.big
    ensures Named(Grown(v, Child(key, j))) && Closed(Grown(v, Child(key, j)))
  {
    ChildParent(key, j);
  }

  /** Nothing is below a table that does not exist yet. */
  lemma NewRow(v: View, c: Key, j: nat)
    requires Closed(v) && c !in v.ids && j < 512 && c != Root
    ensures Expect(Grown(v, c), c, j) == Absent
  {
    hide Legal;
    if c.First? {
      assert (512 * c.k + j) / 512 == c.k;
    } else {
      ChildParent(c, j);
      if c.Second? {
        assert (512 * c.k + j) / 512 == c.k;
      }
    }
  }

  lemma GrownExpect(v: View, key: Key, j: nat, i: nat, j': nat)
    requires Named(v) && Closed(v) && key in v.ids && !key.First? && j < 512 && Child(key, j) !in v.ids
    requires key.Second? ==> 512 * key.k + j !in v.big
    requires i < |v.owner| && j' < 512
    ensures Expect(Grown(v, Child(key, j)), v.owner[i], j') ==
            if i == v.ids[key] && j' == j then Next(|v.owner|) else Expect(v, v.owner[i], j')
  {
    hide Closed, Legal;
    var o := v.owner[i];
    if !o.First? && Child(o, j') == Child(key, j) {
      ChildInjective(o, j', key, j);
    }
  }

  lemma GrownTree(tables: seq<seq<Slot>>, v: View, key: Key, j: nat)
    requires Tree(tables, v) && key in v.ids && !key.First? && j < 512 && Child(key, j) !in v.ids
    requires key.Second? ==> 512 * key.k + j !in v.big
    ensures var t := v.ids[key];
            t < |tables| && Tree(tables[t := tables[t][j := Next(|tables|)]] + [EmptyRow()], Grown(v, Child(key, j)))
  {
    hide Expect, Child, Legal, Parent, Grown, Closed;
    var t, c, w := v.ids[key], Child(key, j), Grown(v, Child(key, j));
    GrownNamed(v, key, j);
    GrownOwner(v, c);
    var tables' := tables[t := tables[t][j := Next(|tables|)]] + [EmptyRow()];
    forall i, j' | 0 <= i < |tables'| && 0 <= j' < 512
      ensures tables'[i][j'] == Expect(w, w.owner[i], j')
    {
      if i < |tables| {
        GrownExpect(v, key, j, i, j');
      } else {
        ChildNotRoot(key, j);
        NewRow(v, c, j');
      }
    }
  }

  lemma GrownOwner(v: View, c: Key)
    ensures Grown(v, c).owner == v.owner + [c]
  {
  }

  lemma ChildNotRoot(key: Key, j: nat)
    requires !key.First?
    ensures Child(key, j) != Root
  {
  }

  /** Mapping a page changes one slot. */
  lemma SmallTree(tables: seq<seq<Slot>>, v: View, p: nat, f: nat)
    requires Tree(tables, v) && First(p / 512) in v.ids
    ensures var t := v.ids[First(p / 512)];
            t < |tables| && Tree(tables[t := tables[t][p % 512 := SmallPage(f)]], v.(small := v.small[p := f]))
  {
    hide Child, Legal, Parent;
    var t, w := v.ids[First(p / 512)], v.(small := v.small[p := f]);
    var tables' := tables[t := tables[t][p % 512 := SmallPage(f)]];
    forall i, j | 0 <= i < |tables'| && 0 <= j < 512
      ensures tables'[i][j] == Expect(w, w.owner[i], j)
    {
      assert tables[i][j] == Expect(v, v.owner[i], j);
      if v.owner[i].First? && 512 * v.owner[i].k + j == p {
        assert v.owner[i] == First(p / 512);
      }
    }
  }

  lemma BigTree(tables: seq<seq<Slot>>, v: View, k: nat, f: nat)
    requires Tree(tables, v) && Second(k / 512) in v.ids && First(k) !in v.ids
    ensures var t := v.ids[Second(k / 512)];
            t < |tables| && Tree(tables[t := tables[t][k % 512 := LargePage(f)]], v.(big := v.big[k := f]))
  {
    hide Legal, Parent, Expect, Child;
    var t, w := v.ids[Second(k / 512)], v.(big := v.big[k := f]);
    var tables' := tables[t := tables[t][k % 512 := LargePage(f)]];
    forall i, j | 0 <= i < |tables'| && 0 <= j < 512
      ensures tables'[i][j] == Expect(w, w.owner[i], j)
    {
      BigExpect(v, k, f, v.owner[i], j);
    }
  }

  lemma BigExpect(v: View, k: nat, f: nat, key: Key, j: nat)
    requires First(k) !in v.ids && j < 512
    ensures Expect(v.(big := v.big[k := f]), key, j) ==
            if key == Second(k / 512) && j == k % 512 then LargePage(f) else Expect(v, key, j)
  {
    if key.Second? && 512 * key.k + j == k {
      assert key.k == k / 512 && j == k % 512;
    }
  }

  // What the hardware sees.

  /** The walk of a page number through four levels. */
  function Walk(tables: seq<seq<Slot>>, page: nat): Option<nat>
    requires |tables| > 0 && forall i :: 0 <= i < |tables| ==> |tables[i]| == 512
  {
    var e4 := At(tables, 0, page / 0x800_0000 % 512);
    var e3 := if e4.Next? then At(tables, e4.table, page / 0x4_0000 % 512) else Absent;
    var e2 := if e3.Next? then At(tables, e3.table, page / 512 % 512) else Absent;
    var e1 := if e2.Next? then At(tables, e2.table, page % 512) else Absent;
    if e2.LargePage? then Some(e2.frame + page % 512)
    else if e1.SmallPage? then Some(e1.frame) else None
  }

  function At(tables: seq<seq<Slot>>, t: nat, j: nat): Slot
    requires j < 512 && forall i :: 0 <= i < |tables| ==> |tables[i]| == 512
  {
    if t < |tables| then tables[t][j] else Absent
  }

  /** The walk finds exactly the pages mapped. */
  lemma WalkFinds(tables: seq<seq<Slot>>, v: View, page: nat)
    requires Tree(tables, v) && page < 0x10_0000_0000
    ensures |tables| > 0
    ensures Walk(tables, page) == if page in v.small then Some(v.small[page])
                                  else if page / 512 in v.big then Some(v.big[page / 512] + page % 512) else None
  {
    hide Tree, Child, Legal;
    var k3, k2, k1 := page / 0x800_0000, page / 0x4_0000, page / 512;
    PageKeys(page);
    TreeFacts(tables, v);
    EntryAt(tables, v, Root, k3);
    if Third(k3) in v.ids {
      EntryAt(tables, v, Third(k3), k2 % 512);
      if Second(k2) in v.ids {
        EntryAt(tables, v, Second(k2), k1 % 512);
        if First(k1) in v.ids {
          EntryAt(tables, v, First(k1), page % 512);
        }
      }
    }
  }

  /** The tables on the way to a page. */
  lemma PageKeys(page: nat)
    requires page < 0x10_0000_0000
    ensures var k3, k2, k1 := page / 0x800_0000, page / 0x4_0000, page / 512;
            && k3 < 512 && Child(Root, k3) == Third(k3) && Child(Third(k3), k2 % 512) == Second(k2)
            && Child(Second(k2), k1 % 512) == First(k1) && 512 * k2 + k1 % 512 == k1 && 512 * k1 + page % 512 == page
            && Parent(First(k1)) == Second(k2) && Parent(Second(k2)) == Third(k3) && k1 / 512 == k2
  {
  }

  lemma TreeFacts(tables: seq<seq<Slot>>, v: View)
    requires Tree(tables, v)
    ensures |tables| > 0 && Root in v.ids && v.ids[Root] == 0 && Closed(v)
    ensures forall i :: 0 <= i < |tables| ==> |tables[i]| == 512
  {
  }

  lemma EntryAt(tables: seq<seq<Slot>>, v: View, key: Key, j: nat)
    requires Tree(tables, v) && key in v.ids && j < 512
    ensures (forall i :: 0 <= i < |tables| ==> |tables[i]| == 512) && At(tables, v.ids[key], j) == Expect(v, key, j)
  {
    hide Expect;
  }

  // Counting.

  /** The tables the sizing pass counted. */
  function Counted(pml4: seq<nat>, pd: seq<nat>, pt: seq<nat>): set<Key> {
    {Root} + Thirds(pml4) + Seconds(pd) + Firsts(pt)
  }

  function Thirds(s: seq<nat>): set<Key> { set x | x in s :: Third(x % 512) }

  function Seconds(s: seq<nat>): set<Key> { set x | x in s :: Second(x % 0x4_0000) }

  function Firsts(s: seq<nat>): set<Key> { set x | x in s :: First(x % 0x800_0000) }

  lemma {:induction false} ThirdsCard(s: seq<nat>)
    ensures |Thirds(s)| <= |s|
  {
    if s != [] {
      ThirdsCard(s[1..]);
      assert s == [s[0]] + s[1..];
      assert Thirds(s) == Thirds(s[1..]) + {Third(s[0] % 512)};
    }
  }

  lemma {:induction false} SecondsCard(s: seq<nat>)
    ensures |Seconds(s)| <= |s|
  {
    if s != [] {
      SecondsCard(s[1..]);
      assert s == [s[0]] + s[1..];
      assert Seconds(s) == Seconds(s[1..]) + {Second(s[0] % 0x4_0000)};
    }
  }

  lemma {:induction false} FirstsCard(s: seq<nat>)
    ensures |Firsts(s)| <= |s|
  {
    if s != [] {
      FirstsCard(s[1..]);
      assert s == [s[0]] + s[1..];
      assert Firsts(s) == Firsts(s[1..]) + {First(s[0] % 0x800_0000)};
    }
  }

  lemma CountedCard(pml4: seq<nat>, pd: seq<nat>, pt: seq<nat>)
    ensures |Counted(pml4, pd, pt)| <= 1 + |pml4| + |pd| + |pt|
  {
    ThirdsCard(pml4);
    SecondsCard(pd);
    FirstsCard(pt);
  }

  /** While a counted table is missing, the pool of the counted size is not used up. */
  lemma RoomLeft(v: View, tables: seq<seq<Slot>>, pml4: seq<nat>, pd: seq<nat>, pt: seq<nat>, c: Key)
    requires Tree(tables, v) && v.ids.Keys <= Counted(pml4, pd, pt) && c in Counted(pml4, pd, pt) && c !in v.ids
    ensures |tables| < 1 + |pml4| + |pd| + |pt|
  {
    hide Expect, Counted, Closed, Legal;
    CountedCard(pml4, pd, pt);
    NamedCard(v);
    Smaller(v.ids.Keys, Counted(pml4, pd, pt), c);
  }

  lemma Smaller(a: set<Key>, b: set<Key>, c: Key)
    requires a <= b && c in b && c !in a
    ensures |a| < |b|
  {
    assert b == a + (b - a);
  }

  lemma NamedCard(v: View)
    requires Named(v)
    ensures |v.ids.Keys| == |v.owner|
  {
    hide Legal;
    OwnersCard(v.owner, |v.owner|);
    assert Owners(v.owner, |v.owner|) == v.ids.Keys;
  }

  function Owners(owner: seq<Key>, n: nat): set<Key>
    requires n <= |owner|
  {
    set i | 0 <= i < n :: owner[i]
  }

  lemma {:induction false} OwnersCard(owner: seq<Key>, n: nat)
    requires n <= |owner| && forall i, j :: 0 <= i < j < |owner| ==> owner[i] != owner[j]
    ensures |Owners(owner, n)| == n
  {
    if n > 0 {
      OwnersCard(owner, n - 1);
      assert Owners(owner, n) == Owners(owner, n - 1) + {owner[n - 1]};
    }
  }

  // The result of a series of requests.

  function Slot2M(r: Request): nat { r.virt / 512 % 0x800_0000 }

  /** No 2 MiB slot is requested both as a large page and as small ones. */
  ghost predicate NoMix(rs: seq<Request>) {
    forall r, q :: r in rs && q in rs && r.Big? && q.Small? ==> Slot2M(r) != Slot2M(q)
  }

  /** Requests for the same page ask for the same frame. */
  ghost predicate Agree(rs: seq<Request>) {
    forall r, q, page: nat :: r in rs && q in rs && Maps(r, page) && Maps(q, page) ==>
      FrameFor(r, page) == FrameFor(q, page)
  }

  function Seen(v: View, page: nat): Option<nat> {
    if page in v.small then Some(v.small[page])
    else if page / 512 in v.big then Some(v.big[page / 512] + page % 512) else None
  }

  /** The frame of a page after a series of requests: the last one for the page decides. */
  function Last(done: seq<Request>, page: nat): Option<nat> {
    if done == [] then None
    else
      var r := done[|done| - 1];
      if Maps(r, page) then Some(FrameFor(r, page)) else Last(done[..|done| - 1], page)
  }

  lemma LastAdd(done: seq<Request>, r: Request, page: nat)
    ensures Last(done + [r], page) == if Maps(r, page) then Some(FrameFor(r, page)) else Last(done, page)
  {
    assert (done + [r])[..|done|] == done;
  }

  /** Exactly the requested pages are mapped, each as last requested. */
  ghost predicate Result(v: View, done: seq<Request>) {
    && (forall page: nat :: Seen(v, page) == Last(done, page))
    && (forall k :: k in v.big ==> exists r :: r in done && r.Big? && Slot2M(r) == k)
    && (forall k :: First(k) in v.ids ==> exists r :: r in done && r.Small? && Slot2M(r) == k)
  }

  /** Where requests agree, any of them says what the page is. */
  lemma {:induction false} AgreeLast(rs: seq<Request>, r: Request, page: nat)
    requires Agree(rs) && r in rs && Maps(r, page)
    ensures Last(rs, page) == Some(FrameFor(r, page))
  {
    hide Maps, FrameFor;
    var n := |rs| - 1;
    if !Maps(rs[n], page) {
      SubAgree(rs, rs[..n]);
      AgreeLast(rs[..n], r, page);
    }
  }

  lemma {:induction false} LastNone(rs: seq<Request>, page: nat)
    requires forall r :: r in rs ==> !Maps(r, page)
    ensures Last(rs, page) == None
  {
    if rs != [] {
      LastNone(rs[..|rs| - 1], page);
    }
  }

  /** The tables on the way to the pages of a request. */
  predicate OnPath(key: Key, r: Request) {
    var k := Slot2M(r);
    key == Third(k / 0x4_0000) || key == Second(k / 512) || (r.Small? && key == First(k))
  }

  lemma PathCounted(pml4: seq<nat>, pd: seq<nat>, pt: seq<nat>, r: Request, key: Key)
    requires Counts(pml4, pd, pt, r) && OnPath(key, r)
    ensures key in Counted(pml4, pd, pt)
  {
    SlotParts(r.virt);
    if key.Third? {
      assert Third(r.virt / 0x800_0000 % 512) in Thirds(pml4);
    } else if key.Second? {
      assert Second(r.virt / 0x4_0000 % 0x4_0000) in Seconds(pd);
    } else {
      assert First(r.virt / 512 % 0x800_0000) in Firsts(pt);
    }
  }

  lemma SlotParts(virt: nat)
    ensures var k := virt / 512 % 0x800_0000;
            virt / 0x800_0000 % 512 == k / 0x4_0000 && virt / 0x4_0000 % 0x4_0000 == k / 512
  {
    var n := virt / 512;
    var q, k := n / 0x800_0000, n % 0x800_0000;
    assert n == 0x800_0000 * q + k;
    assert n / 0x4_0000 == 512 * q + k / 0x4_0000 && virt / 0x800_0000 == n / 0x4_0000;
    assert n / 512 == 0x4_0000 * q + k / 512 && virt / 0x4_0000 == n / 512;
  }

  /** Only tables on the way to the request were added. */
  ghost predicate Widened(v: View, w: View, r: Request) {
    && (forall key :: key in v.ids ==> key in w.ids && w.ids[key] == v.ids[key])
    && (forall key :: key in w.ids ==> key in v.ids || OnPath(key, r))
    && w.big == v.big && w.small == v.small
  }

  lemma SmallResult(v: View, w: View, done: seq<Request>, r: Request)
    requires Result(v, done) && Widened(v, w, r) && r.Small? && Slot2M(r) !in v.big
    ensures Result(w.(small := w.small[r.virt % 0x10_0000_0000 := r.frame]), done + [r])
  {
    hide Widened, Maps, FrameFor, Last;
    var page := r.virt % 0x10_0000_0000;
    var u := w.(small := w.small[page := r.frame]);
    WidenedPages(v, w, r);
    SmallMaps(r);
    forall p: nat
      ensures Seen(u, p) == Last(done + [r], p)
    {
      LastAdd(done, r, p);
      assert Seen(v, p) == Last(done, p);
    }
    BigFrom(v, u, done, r);
    FirstFrom(v, w, u, done, r);
  }

  lemma SmallMaps(r: Request)
    requires r.Small?
    ensures var page := r.virt % 0x10_0000_0000; Maps(r, page) && FrameFor(r, page) == r.frame
    ensures forall p :: p != r.virt % 0x10_0000_0000 ==> !Maps(r, p)
  {
  }

  lemma BigResult(v: View, w: View, done: seq<Request>, r: Request)
    requires Result(v, done) && Widened(v, w, r) && r.Big? && First(Slot2M(r)) !in v.ids
    requires forall p :: p in v.small ==> First(p / 512) in v.ids
    ensures Result(w.(big := w.big[Slot2M(r) := r.frame]), done + [r])
  {
    hide Widened, Last;
    var k := Slot2M(r);
    var u := w.(big := w.big[k := r.frame]);
    WidenedPages(v, w, r);
    forall p: nat
      ensures Seen(u, p) == Last(done + [r], p)
    {
      LastAdd(done, r, p);
      assert Seen(v, p) == Last(done, p);
    }
    forall x | x in u.big
      ensures exists q :: q in done + [r] && q.Big? && Slot2M(q) == x
    {
      if x == k {
        assert r in done + [r];
      } else {
        var q :| q in done && q.Big? && Slot2M(q) == x;
        assert q in done + [r];
      }
    }
    FirstFrom(v, w, u, done, r);
  }

  lemma WidenedPages(v: View, w: View, r: Request)
    requires Widened(v, w, r)
    ensures w.big == v.big && w.small == v.small
  {
  }

  lemma BigFrom(v: View, u: View, done: seq<Request>, r: Request)
    requires Result(v, done) && u.big == v.big
    ensures forall k :: k in u.big ==> exists q :: q in done + [r] && q.Big? && Slot2M(q) == k
  {
    forall k | k in u.big
      ensures exists q :: q in done + [r] && q.Big? && Slot2M(q) == k
    {
      var q :| q in done && q.Big? && Slot2M(q) == k;
      assert q in done + [r];
    }
  }

  lemma FirstFrom(v: View, w: View, u: View, done: seq<Request>, r: Request)
    requires Result(v, done) && Widened(v, w, r) && u.ids == w.ids
    ensures forall k :: First(k) in u.ids ==> exists q :: q in done + [r] && q.Small? && Slot2M(q) == k
  {
    forall k | First(k) in u.ids
      ensures exists q :: q in done + [r] && q.Small? && Slot2M(q) == k
    {
      if First(k) in v.ids {
        var q :| q in done && q.Small? && Slot2M(q) == k;
        assert q in done + [r];
      } else {
        assert OnPath(First(k), r) && r in done + [r];
      }
    }
  }

  class Tables {
    const pool: nat
    var tables: seq<seq<Slot>>
    ghost var view: View

    ghost predicate Valid()
      reads this
    {
      Tree(tables, view) && |tables| <= pool
    }

    /** init: the pool is cleared and the top table taken from it. */
    constructor (pool: nat)
      requires pool > 0
      ensures Valid() && this.pool == pool && view.ids.Keys == {Root} && view.big == map[] && view.small == map[]
    {
      this.pool := pool;
      tables := [EmptyRow()];
      view := View(map[Root := 0], [Root], map[], map[]);
    }

    /** ensure_next: the table behind a slot, taken from the pool if there is none. */
    method EnsureNext(t: nat, j: nat, ghost key: Key, ghost r: Request) returns (next: Option<nat>)
      requires Valid() && key in view.ids && view.ids[key] == t && !key.First? && j < 512 && OnPath(Child(key, j), r)
      requires key.Second? ==> 512 * key.k + j !in view.big
      modifies this
      ensures Valid() && Widened(old(view), view, r)
      ensures next.None? ==> view == old(view) && |tables| == pool && Child(key, j) !in view.ids
      ensures next.Some? ==> Child(key, j) in view.ids && view.ids[Child(key, j)] == next.value
      ensures forall k :: k in view.ids ==> k in old(view.ids) || k == Child(key, j)
    {
      hide Tree, Child, OnPath, Legal;
      EntryAt(tables, view, key, j);
      TreeSize(tables, view, key);
      var entry := tables[t][j];
      if entry.Next? {
        return Some(entry.table);
      }
      if |tables| >= pool {
        return None;
      }
      GrownTree(tables, view, key, j);
      var n := |tables|;
      tables := tables[t := tables[t][j := Next(n)]] + [EmptyRow()];
      view := Grown(view, Child(key, j));
      return Some(n);
    }

    /** The two upper levels of map_2m and map_4k: the table of 2 MiB slots. */
    method Descend(ghost r: Request, k: nat) returns (t: Option<nat>, ghost missing: Key)
      requires Valid() && k == Slot2M(r)
      modifies this
      ensures Valid() && Widened(old(view), view, r)
      ensures t.None? ==> |tables| == pool && OnPath(missing, r) && missing !in view.ids
      ensures t.Some? ==> Second(k / 512) in view.ids && view.ids[Second(k / 512)] == t.value
      ensures forall x :: x in view.ids ==> x in old(view.ids) || !x.First?
    {
      hide Tree, Legal;
      RootThere(tables, view);
      var k3, k2 := k / 0x4_0000, k / 512;
      assert k2 / 512 == k3 && 512 * k3 + k2 % 512 == k2;
      missing := Third(k3);
      var a := EnsureNext(0, k3, Root, r);
      if a.None? {
        return None, missing;
      }
      missing := Second(k2);
      t := EnsureNext(a.value, k2 % 512, Third(k3), r);
    }

    /** map_2m of an aligned pair. */
    method MapLarge(r: Request) returns (ok: bool, ghost missing: Key)
      requires Valid() && r.Big? && First(Slot2M(r)) !in view.ids
      modifies this
      ensures Valid()
      ensures !ok ==> Widened(old(view), view, r) && |tables| == pool && OnPath(missing, r) && missing !in view.ids
      ensures ok ==> exists w :: Widened(old(view), w, r) && view == w.(big := w.big[Slot2M(r) := r.frame])
    {
      hide Tree, Legal, Widened;
      var k := Slot2M(r);
      var t;
      t, missing := Descend(r, k);
      if t.None? {
        return false, missing;
      }
      TreeFacts(tables, view);
      BigTree(tables, view, k, r.frame);
      tables := tables[t.value := tables[t.value][k % 512 := LargePage(r.frame)]];
      ghost var w := view;
      view := w.(big := w.big[k := r.frame]);
      return true, missing;
    }

    /** map_4k. */
    method MapSmall(r: Request) returns (ok: bool, ghost missing: Key)
      requires Valid() && r.Small? && Slot2M(r) !in view.big
      modifies this
      ensures Valid()
      ensures !ok ==> Widened(old(view), view, r) && |tables| == pool && OnPath(missing, r) && missing !in view.ids
      ensures ok ==> exists w ::
                Widened(old(view), w, r) && view == w.(small := w.small[r.virt % 0x10_0000_0000 := r.frame])
    {
      hide Tree, Legal, Widened, Child, OnPath, Closed, Slot2M;
      var k, page := Slot2M(r), r.virt % 0x10_0000_0000;
      PagePath(r);
      ghost var v := view;
      var t;
      t, missing := Descend(r, k);
      if t.None? {
        return false, missing;
      }
      ghost var u := view;
      WidenedPages(v, u, r);
      missing := First(k);
      var p := EnsureNext(t.value, k % 512, Second(k / 512), r);
      WidenedTrans(v, u, view, r);
      if p.None? {
        return false, missing;
      }
      TreeFacts(tables, view);
      SmallTree(tables, view, page, r.frame);
      tables := tables[p.value := tables[p.value][page % 512 := SmallPage(r.frame)]];
      ghost var w := view;
      view := w.(small := w.small[page := r.frame]);
      return true, missing;
    }

    /** One request of the plan `rs`, after those in `done`. */
    method Serve(r: Request, ghost done: seq<Request>, ghost rs: seq<Request>, ghost est: Estimate) returns (ok: bool)
      requires Valid() && Result(view, done) && Planned(rs, est) && r in rs && (forall q :: q in done ==> q in rs)
      requires view.ids.Keys <= Counted(est.pml4, est.pd, est.pt)
      modifies this
      ensures Valid()
      ensures !ok ==> pool < est.Total()
      ensures ok ==> Result(view, done + [r]) && view.ids.Keys <= Counted(est.pml4, est.pd, est.pt)
    {
      hide Tree, Result, Widened, Counted, NoMix, Counts, OnPath, Slot2M;
      NotMixed(view, done, rs, r);
      ghost var v := view;
      ghost var missing;
      if r.Big? {
        ok, missing := MapLarge(r);
      } else {
        ok, missing := MapSmall(r);
      }
      if !ok {
        WidenedCounted(v, view, r, est.pml4, est.pd, est.pt);
        PathCounted(est.pml4, est.pd, est.pt, r, missing);
        RoomLeft(view, tables, est.pml4, est.pd, est.pt, missing);
      } else if r.Big? {
        ghost var w :| Widened(v, w, r) && view == w.(big := w.big[Slot2M(r) := r.frame]);
        WidenedCounted(v, w, r, est.pml4, est.pd, est.pt);
        SmallBelow(old(tables), v);
        BigResult(v, w, done, r);
      } else {
        ghost var w :| Widened(v, w, r) && view == w.(small := w.small[r.virt % 0x10_0000_0000 := r.frame]);
        WidenedCounted(v, w, r, est.pml4, est.pd, est.pt);
        SmallResult(v, w, done, r);
      }
    }

    /** Two requests in a row. */
    method ServePair(r: Request, q: Request, ghost done: seq<Request>, ghost rs: seq<Request>,
                     ghost est: Estimate) returns (ok: bool)
      requires Valid() && Result(view, done) && Planned(rs, est) && r in rs && q in rs &&
               (forall x :: x in done ==> x in rs)
      requires view.ids.Keys <= Counted(est.pml4, est.pd, est.pt)
      modifies this
      ensures Valid()
      ensures !ok ==> pool < est.Total()
      ensures ok ==> Result(view, done + [r, q]) && view.ids.Keys <= Counted(est.pml4, est.pd, est.pt)
    {
      hide Tree, Result, Planned, Counted;
      ok := Serve(r, done, rs, est);
      if ok {
        ok := Serve(q, done + [r], rs, est);
        assert done + [r] + [q] == done + [r, q];
      }
    }

    /** map_direct_range. */
    method MapDirect(base: nat, length: nat, ghost before: seq<Request>, ghost rs: seq<Request>,
                     ghost est: Estimate) returns (ok: bool)
      requires Valid() && Result(view, before) && Planned(rs, est) && before + Direct(base, base + length) <= rs
      requires view.ids.Keys <= Counted(est.pml4, est.pd, est.pt)
      modifies this
      ensures Valid()
      ensures !ok ==> pool < est.Total() || (length > 0 && base + length > DIRECT_LIMIT)
      ensures ok ==>
                Result(view, before + Direct(base, base + length)) && view.ids.Keys <= Counted(est.pml4, est.pd, est.pt)
    {
      hide Tree, Result, Planned, Counted;
      if length == 0 {
        assert before + Direct(base, base) == before;
        return true;
      }
      var limit := base + length;
      if limit > DIRECT_LIMIT {
        return false;
      }
      var cursor := base;
      ghost var done := before;
      while cursor < limit
        invariant Valid() && Result(view, done) && view.ids.Keys <= Counted(est.pml4, est.pd, est.pt)
        invariant done + Direct(cursor, limit) == before + Direct(base, limit)
        decreases limit - cursor
      {
        ghost var rest := Direct(cursor, limit);
        var page := cursor / PAGE;
        if cursor % LARGE == 0 && limit - cursor >= LARGE {
          var r, q := Big(page, page), Big((HHDM + cursor) / PAGE, page);
          InPlan(rs, done, r, q, Direct(cursor + LARGE, limit));
          ok := ServePair(r, q, done, rs, est);
          if !ok {
            return;
          }
          done := done + [r, q];
          cursor := cursor + LARGE;
        } else {
          var r, q := Small(page, page), Small((HHDM + cursor) / PAGE, page);
          InPlan(rs, done, r, q, Direct(cursor + PAGE, limit));
          ok := ServePair(r, q, done, rs, est);
          if !ok {
            return;
          }
          done := done + [r, q];
          cursor := cursor + PAGE;
        }
      }
      assert done + Direct(cursor, limit) == done;
      return true;
    }

    /** build_page_tables. */
    method Build(ranges: seq<Range>, kernel: nat, phys: nat, size: nat, ghost est: Estimate) returns (ok: bool)
      requires Valid() && view.ids.Keys == {Root} && view.big == map[] && view.small == map[]
      requires Planned(Directs(ranges) + Image(kernel, phys, size), est)
      modifies this
      ensures Valid()
      ensures !ok ==> pool < est.Total() || exists r :: r in ranges && r.length > 0 && r.base + r.length > DIRECT_LIMIT
      ensures ok ==> Result(view, Directs(ranges) + Image(kernel, phys, size))
      ensures ok ==> view.ids.Keys <= Counted(est.pml4, est.pd, est.pt)
    {
      hide Tree, Result, Planned, Direct;
      ghost var rs := Directs(ranges) + Image(kernel, phys, size);
      NothingYet(view, est);
      for i := 0 to |ranges|
        invariant Valid() && Result(view, Directs(ranges[..i])) && view.ids.Keys <= Counted(est.pml4, est.pd, est.pt)
      {
        assert ranges[..i + 1][..i] == ranges[..i];
        DirectsPrefix(ranges, i + 1);
        PrefixTrans(Directs(ranges[..i + 1]), Directs(ranges), Image(kernel, phys, size));
        ok := MapDirect(ranges[i].base, ranges[i].length, Directs(ranges[..i]), rs, est);
        if !ok {
          assert ranges[i] in ranges;
          return;
        }
      }
      assert ranges[..|ranges|] == ranges;
      ok := MapImage(kernel, phys, size, Directs(ranges), rs, est);
    }

    /** The loop over the kernel image. */
    method MapImage(kernel: nat, phys: nat, size: nat, ghost before: seq<Request>, ghost rs: seq<Request>,
                    ghost est: Estimate)
      returns (ok: bool)
      requires Valid() && Result(view, before) && Planned(rs, est) && before + Image(kernel, phys, size) == rs
      requires view.ids.Keys <= Counted(est.pml4, est.pd, est.pt)
      modifies this
      ensures Valid()
      ensures !ok ==> pool < est.Total()
      ensures ok ==> Result(view, rs) && view.ids.Keys <= Counted(est.pml4, est.pd, est.pt)
    {
      hide Tree, Result, Planned, Counted, Image;
      NoImage(kernel, phys);
      var offset := 0;
      ghost var done := before;
      while offset < size
        invariant Valid() && Result(view, done) && view.ids.Keys <= Counted(est.pml4, est.pd, est.pt)
        invariant done + (if offset < size then Image(kernel + offset, phys + offset, size - offset) else []) == rs
        decreases size - offset
      {
        var r := Small((kernel + offset) / PAGE, (phys + offset) / PAGE);
        ghost var next := offset + PAGE;
        ghost var rest := if next < size then Image(kernel + next, phys + next, size - next) else [];
        ImageStep(kernel + offset, phys + offset, size - offset);
        InImage(rs, done, r, rest);
        ok := Serve(r, done, rs, est);
        if !ok {
          return;
        }
        done := done + [r];
        offset := offset + PAGE;
      }
      assert done + [] == done;
      return true;
    }
  }

  /** The outcome of the sizing pass. */
  datatype Estimate = Estimate(pml4: seq<nat>, pd: seq<nat>, pt: seq<nat>) {
    function Total(): nat { 1 + |pml4| + |pd| + |pt| }
  }

  /** A plan that was sized and asks for no 2 MiB slot in both ways. */
  ghost predicate Planned(rs: seq<Request>, est: Estimate) {
    NoMix(rs) && CountsAll(est.pml4, est.pd, est.pt, rs)
  }

  lemma SmallBelow(tables: seq<seq<Slot>>, v: View)
    requires Tree(tables, v)
    ensures forall p :: p in v.small ==> First(p / 512) in v.ids
  {
  }

  lemma InPlan(rs: seq<Request>, done: seq<Request>, r: Request, q: Request, rest: seq<Request>)
    requires done + ([r, q] + rest) <= rs
    ensures r in rs && q in rs && (forall x :: x in done ==> x in rs)
    ensures done + ([r, q] + rest) == done + [r, q] + rest
  {
    var all := done + ([r, q] + rest);
    assert all[|done|] == r && all[|done| + 1] == q && rs[|done|] == r && rs[|done| + 1] == q;
    forall x | x in done
      ensures x in rs
    {
      var i :| 0 <= i < |done| && done[i] == x;
      assert all[i] == x && rs[i] == x;
    }
  }

  lemma NoImage(virt: nat, phys: nat)
    ensures Image(virt, phys, 0) == []
  {
  }

  lemma ImageStep(virt: nat, phys: nat, size: nat)
    requires size > 0
    ensures Image(virt, phys, size) == [Small(virt / PAGE, phys / PAGE)] +
                                       if size > PAGE then Image(virt + PAGE, phys + PAGE, size - PAGE) else []
  {
  }

  lemma InImage(rs: seq<Request>, done: seq<Request>, r: Request, rest: seq<Request>)
    requires done + ([r] + rest) == rs
    ensures r in rs && (forall x :: x in done ==> x in rs) && rs == done + [r] + rest
  {
    assert rs[|done|] == r;
    forall x | x in done
      ensures x in rs
    {
      var i :| 0 <= i < |done| && done[i] == x;
      assert rs[i] == x;
    }
  }

  lemma NothingYet(v: View, est: Estimate)
    requires v.ids.Keys == {Root} && v.big == map[] && v.small == map[]
    ensures Result(v, []) && v.ids.Keys <= Counted(est.pml4, est.pd, est.pt)
  {
    forall k
      ensures First(k) !in v.ids
    {
      assert First(k) !in v.ids.Keys;
    }
  }

  lemma {:induction false} DirectsPrefix(ranges: seq<Range>, n: nat)
    requires n <= |ranges|
    ensures Directs(ranges[..n]) <= Directs(ranges)
    decreases |ranges| - n
  {
    hide Direct;
    if n < |ranges| {
      DirectsPrefix(ranges, n + 1);
      assert ranges[..n + 1][..n] == ranges[..n];
    } else {
      assert ranges[..n] == ranges;
    }
  }

  lemma PrefixTrans(a: seq<Request>, b: seq<Request>, c: seq<Request>)
    requires a <= b
    ensures a <= b + c
  {
  }

  /** What a request finds: it meets no slot of the other kind. */
  lemma NotMixed(v: View, done: seq<Request>, rs: seq<Request>, r: Request)
    requires Result(v, done) && NoMix(rs) && r in rs && forall q :: q in done ==> q in rs
    ensures r.Small? ==> Slot2M(r) !in v.big
    ensures r.Big? ==> First(Slot2M(r)) !in v.ids
  {
  }

  lemma SubAgree(rs: seq<Request>, qs: seq<Request>)
    requires Agree(rs) && forall q :: q in qs ==> q in rs
    ensures Agree(qs)
  {
  }

  lemma WidenedCounted(v: View, w: View, r: Request, pml4: seq<nat>, pd: seq<nat>, pt: seq<nat>)
    requires Widened(v, w, r) && v.ids.Keys <= Counted(pml4, pd, pt) && Counts(pml4, pd, pt, r)
    ensures w.ids.Keys <= Counted(pml4, pd, pt)
  {
    hide Counted, OnPath;
    forall key | key in w.ids
      ensures key in Counted(pml4, pd, pt)
    {
      if key !in v.ids {
        PathCounted(pml4, pd, pt, r, key);
      }
    }
  }

  lemma PagePath(r: Request)
    ensures r.virt % 0x10_0000_0000 / 512 == Slot2M(r)
    ensures var k := Slot2M(r);
            Child(Second(k / 512), k % 512) == First(k) && 512 * (k / 512) + k % 512 == k &&
            (r.Small? ==> OnPath(First(k), r))
  {
    var n, m := r.virt / 0x10_0000_0000, r.virt % 0x10_0000_0000;
    assert r.virt == 0x10_0000_0000 * n + m;
    assert r.virt / 512 == 0x800_0000 * n + m / 512;
  }

  lemma TreeSize(tables: seq<seq<Slot>>, v: View, key: Key)
    requires Tree(tables, v) && key in v.ids
    ensures v.ids[key] < |tables| && |tables| == |v.owner|
  {
  }

  lemma RootThere(tables: seq<seq<Slot>>, v: View)
    requires Tree(tables, v)
    ensures Root in v.ids && v.ids[Root] == 0
  {
  }

  lemma WidenedTrans(u: View, v: View, w: View, r: Request)
    requires Widened(u, v, r) && Widened(v, w, r)
    ensures Widened(u, w, r)
  {
  }

  // What the tables translate.

  /** The pages of a direct range, counted from its base, are requested at their own address and in the
      higher half. */
  lemma {:induction false} DirectCovers(cursor: nat, limit: nat, p: nat)
    requires cursor / PAGE <= p && (p - cursor / PAGE) * PAGE < limit - cursor && limit <= DIRECT_LIMIT
    ensures exists r :: r in Direct(cursor, limit) && Maps(r, p) && FrameFor(r, p) == p
    ensures exists r :: r in Direct(cursor, limit) && Maps(r, Higher(p)) && FrameFor(r, Higher(p)) == p
    decreases limit - cursor
  {
    hide Maps, FrameFor, Higher;
    var page := cursor / PAGE;
    if cursor % LARGE == 0 && limit - cursor >= LARGE {
      var r, q := Big(page, page), Big((HHDM + cursor) / PAGE, page);
      if p < page + 512 {
        BigPages(cursor, p);
        assert r in Direct(cursor, limit) && q in Direct(cursor, limit);
      } else {
        DirectCovers(cursor + LARGE, limit, p);
      }
    } else {
      var r, q := Small(page, page), Small((HHDM + cursor) / PAGE, page);
      if p == page {
        SmallPages(cursor);
        assert r in Direct(cursor, limit) && q in Direct(cursor, limit);
      } else {
        DirectCovers(cursor + PAGE, limit, p);
      }
    }
  }

  /** The page number of HHDM + p as the hardware sees it. */
  function Higher(p: nat): nat { (HHDM / PAGE + p) % 0x10_0000_0000 }

  lemma SmallPages(cursor: nat)
    requires cursor < DIRECT_LIMIT
    ensures var p := cursor / PAGE;
            && Maps(Small(p, p), p) && FrameFor(Small(p, p), p) == p
            && var q := Small((HHDM + cursor) / PAGE, p); Maps(q, Higher(p)) && FrameFor(q, Higher(p)) == p
  {
  }

  lemma BigPages(cursor: nat, p: nat)
    requires cursor % LARGE == 0 && cursor / PAGE <= p < cursor / PAGE + 512 && cursor < DIRECT_LIMIT
    ensures var r := Big(cursor / PAGE, cursor / PAGE); Maps(r, p) && FrameFor(r, p) == p
    ensures var q := Big((HHDM + cursor) / PAGE, cursor / PAGE); Maps(q, Higher(p)) && FrameFor(q, Higher(p)) == p
  {
    hide Higher;
    var k := cursor / LARGE;
    assert cursor == LARGE * k && cursor / PAGE == 512 * k && k < 0x400_0000;
    assert (HHDM + cursor) / PAGE == 0xF_FFF8_0000_0000 + 512 * k;
    HigherIs(p);
    InSlot(k, p);
  }

  lemma HigherIs(p: nat)
    requires p < 0x8_0000_0000
    ensures Higher(p) == 0x8_0000_0000 + p
  {
  }

  lemma InSlot(k: nat, p: nat)
    requires k < 0x400_0000 && 512 * k <= p < 512 * k + 512
    ensures p / 512 == k == 512 * k / 512 % 0x800_0000 && p % 512 == p - 512 * k
    ensures (0x8_0000_0000 + p) / 512 == 0x400_0000 + k && (0x8_0000_0000 + p) % 512 == p - 512 * k
    ensures (0xF_FFF8_0000_0000 + 512 * k) / 512 % 0x800_0000 == 0x400_0000 + k
  {
    assert (0xF_FFF8_0000_0000 + 512 * k) / 512 == 0x7FF_FC00_0000 + k;
    assert 0x7FF_FC00_0000 + k == 0x800_0000 * 0xFFFF + (0x400_0000 + k);
  }

  lemma {:induction false} RangeInDirects(ranges: seq<Range>, i: nat, r: Request)
    requires i < |ranges| && r in Direct(ranges[i].base, ranges[i].base + ranges[i].length)
    ensures r in Directs(ranges)
    decreases |ranges|
  {
    hide Direct;
    var n := |ranges| - 1;
    if i < n {
      RangeInDirects(ranges[..n], i, r);
    }
  }

  /** The walk finds what was last asked for. */
  lemma WalkIsLast(tables: seq<seq<Slot>>, v: View, rs: seq<Request>, page: nat)
    requires Tree(tables, v) && Result(v, rs) && page < 0x10_0000_0000
    ensures |tables| > 0 && (forall t :: 0 <= t < |tables| ==> |tables[t]| == 512)
    ensures Walk(tables, page) == Last(rs, page)
  {
    hide Tree, Walk, Last;
    TreeFacts(tables, v);
    WalkFinds(tables, v, page);
    assert Seen(v, page) == Last(rs, page);
  }

  /** Every page of the kernel image is asked for. */
  lemma {:induction false} ImageHas(virt: nat, phys: nat, size: nat, k: nat)
    requires k * PAGE < size
    ensures Small(virt / PAGE + k, phys / PAGE + k) in Image(virt, phys, size)
    decreases size
  {
    if k > 0 {
      ImageHas(virt + PAGE, phys + PAGE, size - PAGE, k - 1);
    }
  }
}
