/** What a memory map asks of the boot page tables: which plans are free of contradictions, and the way
    from sizing through building to the translations of every page. */
module BootPlan {
  import opened Options
  import opened BootPaging

  const HALF: nat := 0x8_0000_0000

  /** The request r of a direct range that ends at limit is for the address c, whole pages behind base. */
  predicate From(r: Request, base: nat, c: nat, limit: nat) {
    && base <= c < limit && (c - base) % PAGE == 0
    && (r.Big? ==> c % LARGE == 0 && c + LARGE <= limit)
    && r.frame == c / PAGE && (r.virt == c / PAGE || r.virt == HHDM / PAGE + c / PAGE)
  }

  lemma HigherPage(c: nat)
    ensures (HHDM + c) / PAGE == HHDM / PAGE + c / PAGE
  {
  }

  lemma WholePages(n: nat)
    requires n % PAGE == 0
    ensures (n + LARGE) % PAGE == 0 && (n + PAGE) % PAGE == 0
  {
  }

  /** The first step of a direct range takes a whole large page. */
  predicate Wide(cursor: nat, limit: nat) {
    cursor % LARGE == 0 && limit - cursor >= LARGE
  }

  /** A request of a direct range is made at the first step or later. */
  lemma DirectCases(cursor: nat, limit: nat, r: Request)
    requires r in Direct(cursor, limit)
    ensures cursor < limit
    ensures (From(r, cursor, cursor, limit) && r.Big? == Wide(cursor, limit)) ||
            r in Direct(if Wide(cursor, limit) then cursor + LARGE else cursor + PAGE, limit)
  {
    HigherPage(cursor);
  }

  lemma FromLater(r: Request, base: nat, next: nat, c: nat, limit: nat)
    requires From(r, next, c, limit) && (next == base + LARGE || next == base + PAGE)
    ensures From(r, base, c, limit)
  {
    WholePages(c - next);
  }

  lemma {:induction false} DirectFrom(cursor: nat, limit: nat, r: Request) returns (c: nat)
    requires r in Direct(cursor, limit)
    ensures From(r, cursor, c, limit)
    decreases limit - cursor
  {
    hide Direct, From;
    DirectCases(cursor, limit, r);
    var next := if Wide(cursor, limit) then cursor + LARGE else cursor + PAGE;
    if r in Direct(next, limit) {
      c := DirectFrom(next, limit, r);
      FromLater(r, cursor, next, c, limit);
    } else {
      c := cursor;
    }
  }

  lemma {:induction false} DirectsFrom(ranges: seq<Range>, r: Request) returns (i: nat)
    requires r in Directs(ranges)
    ensures i < |ranges| && r in Direct(ranges[i].base, ranges[i].base + ranges[i].length)
    decreases |ranges|
  {
    hide Direct;
    var n := |ranges| - 1;
    if r in Directs(ranges[..n]) {
      i := DirectsFrom(ranges[..n], r);
    } else {
      i := n;
    }
  }

  /** The pages of a range, counted from its base. */
  predicate OfRange(base: nat, length: nat, p: nat) {
    base / PAGE <= p && (p - base / PAGE) * PAGE < length
  }

  /** A direct request maps pages of its range, in either half, to themselves. */
  lemma FromPage(r: Request, base: nat, c: nat, limit: nat, page: nat)
    requires From(r, base, c, limit) && limit <= DIRECT_LIMIT && Maps(r, page)
    ensures FrameFor(r, page) == page % HALF && page % HALF * PAGE < limit && OfRange(base, limit - base, page % HALF)
  {
    Pages(base, c);
    if r.Small? {
      SmallFrom(c, r.virt);
    } else {
      BigFrom512(c, limit, r.virt, page);
    }
  }

  lemma Pages(base: nat, c: nat)
    requires base <= c && (c - base) % PAGE == 0
    ensures (c / PAGE - base / PAGE) * PAGE == c - base
  {
  }

  lemma SmallFrom(c: nat, virt: nat)
    requires c < DIRECT_LIMIT && (virt == c / PAGE || virt == HHDM / PAGE + c / PAGE)
    ensures virt % 0x10_0000_0000 % HALF == c / PAGE && c / PAGE * PAGE <= c
  {
  }

  lemma BigFrom512(c: nat, limit: nat, virt: nat, page: nat)
    requires c % LARGE == 0 && c + LARGE <= limit <= DIRECT_LIMIT &&
             (virt == c / PAGE || virt == HHDM / PAGE + c / PAGE)
    requires page / 512 == virt / 512 % 0x800_0000
    ensures page % HALF == c / PAGE + page % 512 && (c / PAGE + page % 512) * PAGE < c + LARGE
  {
    PageSlot(c);
    SlotLow(c / PAGE);
    SlotHigh(c / PAGE);
    var k := c / LARGE;
    assert c == LARGE * k && c / PAGE == 512 * k;
    InHalf(page, k);
  }

  lemma InHalf(page: nat, k: nat)
    requires k < 0x400_0000 && (page / 512 == k || page / 512 == 0x400_0000 + k)
    ensures page % HALF == 512 * k + page % 512
  {
    assert page == 512 * (page / 512) + page % 512;
  }

  // The kernel image.

  lemma NextPage(a: nat)
    ensures (a + PAGE) / PAGE == a / PAGE + 1
  {
  }

  lemma {:induction false} ImageFrom(virt: nat, phys: nat, size: nat, r: Request) returns (k: nat)
    requires r in Image(virt, phys, size)
    ensures k * PAGE < size && r == Small(virt / PAGE + k, phys / PAGE + k)
    decreases size
  {
    hide Image;
    if size == 0 {
      NoImage(virt, phys);
    } else {
      ImageStep(virt, phys, size);
      NextPage(virt);
      NextPage(phys);
      if r == Small(virt / PAGE, phys / PAGE) {
        k := 0;
      } else {
        k := ImageFrom(virt + PAGE, phys + PAGE, size - PAGE, r);
        k := k + 1;
      }
    }
  }

  /** The image lies in the higher half, behind everything that is mapped there directly. */
  ghost predicate Above(ranges: seq<Range>, kernel: nat, size: nat) {
    && HHDM <= kernel && kernel % PAGE == 0 && kernel + size <= U64
    && forall r :: r in ranges ==> r.base + r.length <= kernel - HHDM
  }

  /** The page number of page k of the image, as the hardware sees it. */
  function ImagePage(kernel: nat, k: nat): nat { (kernel / PAGE + k) % 0x10_0000_0000 }

  lemma ImageHalf(kernel: nat, size: nat, k: nat)
    requires HHDM <= kernel && kernel % PAGE == 0 && kernel + size <= U64 && k * PAGE < size
    ensures ImagePage(kernel, k) % HALF == (kernel - HHDM) / PAGE + k
    ensures ImagePage(kernel, k) >= HALF
  {
    var n := kernel / PAGE + k;
    assert n * PAGE < U64 && HHDM / PAGE <= n;
    assert HHDM / PAGE == 0xF_FFF8_0000_0000;
    assert n - 0xF_FFF0_0000_0000 == n % 0x10_0000_0000;
  }

  // Agreement.

  /** Some range has the page. */
  ghost predicate Asked(ranges: seq<Range>, p: nat) {
    exists r :: r in ranges && OfRange(r.base, r.length, p)
  }

  lemma DirectPage(ranges: seq<Range>, kernel: nat, size: nat, r: Request, page: nat)
    requires Above(ranges, kernel, size) && r in Directs(ranges) && Maps(r, page)
    ensures FrameFor(r, page) == page % HALF && page % HALF * PAGE < kernel - HHDM && Asked(ranges, page % HALF)
  {
    hide Direct, Directs, Maps, FrameFor, From;
    var i := DirectsFrom(ranges, r);
    var limit := ranges[i].base + ranges[i].length;
    var c := DirectFrom(ranges[i].base, limit, r);
    FromPage(r, ranges[i].base, c, limit, page);
  }

  lemma ImageFrame(kernel: nat, phys: nat, size: nat, r: Request, page: nat)
    requires HHDM <= kernel && kernel % PAGE == 0 && kernel + size <= U64
    requires r in Image(kernel, phys, size) && Maps(r, page)
    ensures page % HALF * PAGE >= kernel - HHDM
    ensures FrameFor(r, page) == phys / PAGE + (page % HALF - (kernel - HHDM) / PAGE)
  {
    hide Image;
    var k := ImageFrom(kernel, phys, size, r);
    ImageHalf(kernel, size, k);
  }

  /** Two requests for one page ask for the same frame: a plan with the image above the direct ranges is free
      of contradictions. */
  lemma PlanAgrees(ranges: seq<Range>, kernel: nat, phys: nat, size: nat)
    requires Above(ranges, kernel, size)
    ensures Agree(Directs(ranges) + Image(kernel, phys, size))
  {
    hide Directs, Image, Maps, FrameFor;
    var ds, ks := Directs(ranges), Image(kernel, phys, size);
    forall r, q, page: nat | r in ds + ks && q in ds + ks && Maps(r, page) && Maps(q, page)
      ensures FrameFor(r, page) == FrameFor(q, page)
    {
      PlanFrame(ranges, kernel, phys, size, r, page);
      PlanFrame(ranges, kernel, phys, size, q, page);
    }
  }

  lemma PlanFrame(ranges: seq<Range>, kernel: nat, phys: nat, size: nat, r: Request, page: nat)
    requires Above(ranges, kernel, size) && r in Directs(ranges) + Image(kernel, phys, size) && Maps(r, page)
    ensures FrameFor(r, page) == if page % HALF * PAGE < kernel - HHDM then page % HALF
                                 else phys / PAGE + (page % HALF - (kernel - HHDM) / PAGE)
  {
    hide Directs, Image, Maps, FrameFor;
    if r in Directs(ranges) {
      DirectPage(ranges, kernel, size, r, page);
    } else {
      ImageFrame(kernel, phys, size, r, page);
    }
  }

  // Slots.

  lemma PageSlot(c: nat)
    requires c < DIRECT_LIMIT
    ensures c / PAGE / 512 == c / LARGE && c / PAGE < HALF && c / LARGE < 0x400_0000
  {
  }

  lemma SlotLow(n: nat)
    requires n < HALF
    ensures n / 512 % 0x800_0000 == n / 512 < 0x400_0000
  {
  }

  lemma SlotHigh(n: nat)
    requires n < HALF
    ensures (HHDM / PAGE + n) / 512 % 0x800_0000 == 0x400_0000 + n / 512
  {
    assert HHDM / PAGE == 512 * 0x7FF_FC00_0000;
    var k := n / 512;
    assert (512 * 0x7FF_FC00_0000 + n) / 512 == 0x7FF_FC00_0000 + k;
    assert 0x7FF_FC00_0000 + k == 0x800_0000 * 0xFFFF + (0x400_0000 + k);
  }

  lemma SlotFrom(r: Request, base: nat, c: nat, limit: nat)
    requires From(r, base, c, limit) && limit <= DIRECT_LIMIT
    ensures Slot2M(r) % 0x400_0000 == c / LARGE && c / LARGE < 0x400_0000
  {
    PageSlot(c);
    SlotLow(c / PAGE);
    SlotHigh(c / PAGE);
  }

  lemma LaterSlot(c: nat, d: nat)
    requires c % LARGE == 0 && (d >= c + LARGE || d < c)
    ensures c / LARGE != d / LARGE
  {
  }

  lemma FromBound(r: Request, base: nat, c: nat, limit: nat)
    requires From(r, base, c, limit)
    ensures base <= c && (r.Big? ==> c % LARGE == 0)
  {
  }

  /** A range asks for a slot as one large page or as small ones, never both. */
  lemma {:induction false} RangeUnmixed(cursor: nat, limit: nat, r: Request, q: Request)
    requires limit <= DIRECT_LIMIT && r in Direct(cursor, limit) && q in Direct(cursor, limit) && r.Big? && q.Small?
    ensures Slot2M(r) != Slot2M(q)
    decreases limit - cursor
  {
    hide Slot2M, From, Direct;
    DirectCases(cursor, limit, r);
    DirectCases(cursor, limit, q);
    var next := if Wide(cursor, limit) then cursor + LARGE else cursor + PAGE;
    if r in Direct(next, limit) && q in Direct(next, limit) {
      RangeUnmixed(next, limit, r, q);
    } else if Wide(cursor, limit) {
      var d := DirectFrom(next, limit, q);
      SlotFrom(r, cursor, cursor, limit);
      SlotFrom(q, next, d, limit);
      FromBound(q, next, d, limit);
      LaterSlot(cursor, d);
    } else {
      var c := DirectFrom(next, limit, r);
      SlotFrom(r, next, c, limit);
      SlotFrom(q, cursor, cursor, limit);
      FromBound(r, next, c, limit);
      LaterSlot(c, cursor);
    }
  }

  ghost predicate Apart(r: Range, q: Range) {
    r.base + r.length <= q.base || q.base + q.length <= r.base
  }

  ghost predicate Disjoint(ranges: seq<Range>) {
    forall i, j :: 0 <= i < j < |ranges| ==> Apart(ranges[i], ranges[j])
  }

  lemma DirectUnmixed(ranges: seq<Range>, r: Request, q: Request)
    requires Disjoint(ranges) && forall x :: x in ranges ==> x.base + x.length <= DIRECT_LIMIT
    requires r in Directs(ranges) && q in Directs(ranges) && r.Big? && q.Small?
    ensures Slot2M(r) != Slot2M(q)
  {
    hide Direct, Directs, Slot2M;
    var i := DirectsFrom(ranges, r);
    var j := DirectsFrom(ranges, q);
    var a, b := ranges[i], ranges[j];
    if i == j {
      RangeUnmixed(a.base, a.base + a.length, r, q);
    } else {
      var c := DirectFrom(a.base, a.base + a.length, r);
      var d := DirectFrom(b.base, b.base + b.length, q);
      SlotFrom(r, a.base, c, a.base + a.length);
      SlotFrom(q, b.base, d, b.base + b.length);
      if i < j {
        assert Apart(a, b);
      } else {
        assert Apart(b, a);
      }
      assert c == LARGE * (c / LARGE);
    }
  }

  lemma ImageUnmixed(ranges: seq<Range>, kernel: nat, phys: nat, size: nat, r: Request, q: Request)
    requires Above(ranges, kernel, size)
    requires r in Directs(ranges) && q in Image(kernel, phys, size) && r.Big?
    ensures Slot2M(r) != Slot2M(q)
  {
    hide Direct, Directs, Slot2M, Image;
    var i := DirectsFrom(ranges, r);
    var limit := ranges[i].base + ranges[i].length;
    var c := DirectFrom(ranges[i].base, limit, r);
    SlotFrom(r, ranges[i].base, c, limit);
    var k := ImageFrom(kernel, phys, size, q);
    ImageHalf(kernel, size, k);
    ImageSlot(kernel, k, q);
    assert c == LARGE * (c / LARGE);
  }

  lemma ImageSlot(kernel: nat, k: nat, q: Request)
    requires q.virt == kernel / PAGE + k
    ensures Slot2M(q) % 0x400_0000 == ImagePage(kernel, k) % HALF / 512
  {
    PagePath(q);
  }

  lemma ImageSmall(kernel: nat, phys: nat, size: nat, q: Request)
    requires q in Image(kernel, phys, size)
    ensures q.Small?
  {
    hide Image;
    var k := ImageFrom(kernel, phys, size, q);
  }

  /** Disjoint ranges below the image never ask for a slot both ways. */
  lemma PlanUnmixed(ranges: seq<Range>, kernel: nat, phys: nat, size: nat)
    requires Above(ranges, kernel, size) && Disjoint(ranges)
    ensures NoMix(Directs(ranges) + Image(kernel, phys, size))
  {
    hide Directs, Image, Slot2M;
    var ds, ks := Directs(ranges), Image(kernel, phys, size);
    forall r: Request, q: Request | r in ds + ks && q in ds + ks && r.Big? && q.Small?
      ensures Slot2M(r) != Slot2M(q)
    {
      if r in ks {
        ImageSmall(kernel, phys, size, r);
      } else if q in ds {
        DirectUnmixed(ranges, r, q);
      } else {
        ImageUnmixed(ranges, kernel, phys, size, r, q);
      }
    }
  }

  // From the memory map to the translations.

  /** Page k of the image, as an offset from the direct map's page number. */
  predicate OfImage(kernel: nat, size: nat, p: nat)
    requires HHDM <= kernel
  {
    (kernel - HHDM) / PAGE <= p && (p - (kernel - HHDM) / PAGE) * PAGE < size
  }

  /** What a page should translate to: a page of a range to itself, in either half; a page of the image to
      its physical page; anything else to nothing. */
  ghost function Wanted(ranges: seq<Range>, kernel: nat, phys: nat, size: nat, page: nat): Option<nat>
    requires HHDM <= kernel
  {
    var p := page % HALF;
    if Asked(ranges, p) then Some(p)
    else if page >= HALF && OfImage(kernel, size, p) then Some(phys / PAGE + (p - (kernel - HHDM) / PAGE))
    else None
  }

  lemma {:induction false} AskedRequest(ranges: seq<Range>, page: nat) returns (r: Request)
    requires Asked(ranges, page % HALF) && page < 2 * HALF
    requires forall x :: x in ranges ==> x.base + x.length <= DIRECT_LIMIT
    ensures r in Directs(ranges) && Maps(r, page) && FrameFor(r, page) == page % HALF
  {
    hide Direct, Directs, Maps, FrameFor;
    var p := page % HALF;
    var x :| x in ranges && OfRange(x.base, x.length, p);
    var i :| 0 <= i < |ranges| && ranges[i] == x;
    DirectCovers(x.base, x.base + x.length, p);
    Halves(page);
    if page < HALF {
      r :| r in Direct(x.base, x.base + x.length) && Maps(r, p) && FrameFor(r, p) == p;
    } else {
      r :| r in Direct(x.base, x.base + x.length) && Maps(r, Higher(p)) && FrameFor(r, Higher(p)) == p;
    }
    RangeInDirects(ranges, i, r);
  }

  lemma Halves(page: nat)
    requires page < 2 * HALF
    ensures if page < HALF then page == page % HALF else page == Higher(page % HALF) == HALF + page % HALF
  {
  }

  lemma ImageRequest(kernel: nat, phys: nat, size: nat, page: nat)
    requires HHDM <= kernel && kernel % PAGE == 0 && kernel + size <= U64
    requires HALF <= page < 2 * HALF && OfImage(kernel, size, page % HALF)
    ensures var k := page % HALF - (kernel - HHDM) / PAGE;
            var r := Small(kernel / PAGE + k, phys / PAGE + k);
            r in Image(kernel, phys, size) && Maps(r, page) && FrameFor(r, page) == phys / PAGE + k
  {
    hide Image;
    var k := page % HALF - (kernel - HHDM) / PAGE;
    ImageHas(kernel, phys, size, k);
    ImageHalf(kernel, size, k);
  }

  lemma ImageIsOf(kernel: nat, phys: nat, size: nat, r: Request, page: nat)
    requires HHDM <= kernel && kernel % PAGE == 0 && kernel + size <= U64
    requires r in Image(kernel, phys, size) && Maps(r, page)
    ensures page >= HALF && OfImage(kernel, size, page % HALF)
  {
    hide Image;
    var k := ImageFrom(kernel, phys, size, r);
    ImageHalf(kernel, size, k);
  }

  /** The plan asks for exactly what is wanted. */
  lemma LastIsWanted(ranges: seq<Range>, kernel: nat, phys: nat, size: nat, page: nat)
    requires Above(ranges, kernel, size) && page < 2 * HALF
    ensures Last(Directs(ranges) + Image(kernel, phys, size), page) == Wanted(ranges, kernel, phys, size, page)
  {
    hide Directs, Image, Maps, FrameFor, Agree, OfImage, Asked, Last;
    var plan := Directs(ranges) + Image(kernel, phys, size);
    var p := page % HALF;
    PlanAgrees(ranges, kernel, phys, size);
    if Asked(ranges, p) {
      var r := AskedRequest(ranges, page);
      AgreeLast(plan, r, page);
    } else if page >= HALF && OfImage(kernel, size, p) {
      ImageRequest(kernel, phys, size, page);
      var k := p - (kernel - HHDM) / PAGE;
      AgreeLast(plan, Small(kernel / PAGE + k, phys / PAGE + k), page);
    } else {
      forall r | r in plan
        ensures !Maps(r, page)
      {
        if Maps(r, page) {
          if r in Directs(ranges) {
            DirectPage(ranges, kernel, size, r, page);
          } else {
            ImageIsOf(kernel, phys, size, r, page);
          }
        }
      }
      LastNone(plan, page);
    }
  }

  /** The hardware walk over the tables gives every page what is wanted, and nothing else. */
  ghost predicate Translates(tables: seq<seq<Slot>>, ranges: seq<Range>, kernel: nat, phys: nat, size: nat)
    requires HHDM <= kernel
  {
    && |tables| > 0 && (forall t :: 0 <= t < |tables| ==> |tables[t]| == 512)
    && (forall page: nat :: page < 2 * HALF ==> Walk(tables, page) == Wanted(ranges, kernel, phys, size, page))
  }

  lemma BuiltTranslates(tables: seq<seq<Slot>>, v: View, ranges: seq<Range>, kernel: nat, phys: nat, size: nat)
    requires Tree(tables, v) && Result(v, Directs(ranges) + Image(kernel, phys, size)) && Above(ranges, kernel, size)
    ensures Translates(tables, ranges, kernel, phys, size)
  {
    hide Tree, Result, Directs, Image, Walk, Wanted, Last;
    TreeFacts(tables, v);
    forall page: nat | page < 2 * HALF
      ensures Walk(tables, page) == Wanted(ranges, kernel, phys, size, page)
    {
      WalkIsLast(tables, v, Directs(ranges) + Image(kernel, phys, size), page);
      LastIsWanted(ranges, kernel, phys, size, page);
    }
  }

  /** Every page of every range translates to itself, at its own address and in the higher half. */
  lemma DirectTranslates(tables: seq<seq<Slot>>, ranges: seq<Range>, kernel: nat, phys: nat, size: nat, i: nat, p: nat)
    requires HHDM <= kernel && Translates(tables, ranges, kernel, phys, size) && i < |ranges|
    requires ranges[i].base + ranges[i].length <= DIRECT_LIMIT && OfRange(ranges[i].base, ranges[i].length, p)
    ensures Walk(tables, p) == Some(p) && Walk(tables, Higher(p)) == Some(p)
  {
    hide Walk;
    assert p < HALF;
    Halves(p);
    Halves(HALF + p);
    assert Asked(ranges, p);
  }

  /** Every page of the kernel image translates to its physical page. */
  lemma ImageTranslates(tables: seq<seq<Slot>>, ranges: seq<Range>, kernel: nat, phys: nat, size: nat, k: nat)
    requires Above(ranges, kernel, size) && Translates(tables, ranges, kernel, phys, size) && k * PAGE < size
    ensures ImagePage(kernel, k) < 2 * HALF && Walk(tables, ImagePage(kernel, k)) == Some(phys / PAGE + k)
  {
    hide Walk, ImagePage;
    ImageHalf(kernel, size, k);
    ImageBound(kernel, k);
    NotAsked(ranges, kernel, size, ImagePage(kernel, k) % HALF);
  }

  lemma ImageBound(kernel: nat, k: nat)
    ensures ImagePage(kernel, k) < 2 * HALF
  {
  }

  lemma NotAsked(ranges: seq<Range>, kernel: nat, size: nat, p: nat)
    requires Above(ranges, kernel, size) && p >= (kernel - HHDM) / PAGE
    ensures !Asked(ranges, p)
  {
    forall r | r in ranges
      ensures !OfRange(r.base, r.length, p)
    {
      assert r.base / PAGE * PAGE <= r.base;
    }
  }

  /** A range reaches all the pages its bytes lie in if and only if the last of them is counted from the base;
      that is so for every range that starts on a page. */
  lemma RangeWhole(base: nat, length: nat)
    requires length > 0
    ensures (forall a: nat :: base <= a < base + length ==> OfRange(base, length, a / PAGE)) <==>
            ((base + length - 1) / PAGE - base / PAGE) * PAGE < length
    ensures base % PAGE == 0 ==> ((base + length - 1) / PAGE - base / PAGE) * PAGE < length
  {
    var last := base + length - 1;
    if ((base + length - 1) / PAGE - base / PAGE) * PAGE < length {
      forall a: nat | base <= a < base + length
        ensures OfRange(base, length, a / PAGE)
      {
        assert base / PAGE <= a / PAGE <= last / PAGE;
      }
    } else {
      assert !OfRange(base, length, last / PAGE);
    }
  }

  /** Large pages start at multiples of 2 MiB. */
  ghost predicate LargeAligned(v: View) {
    forall k :: k in v.big ==> v.big[k] % 512 == 0
  }

  lemma {:induction false} DirectAligned(cursor: nat, limit: nat, r: Request)
    requires r in Direct(cursor, limit) && r.Big?
    ensures r.frame % 512 == 0
    decreases limit - cursor
  {
    if cursor % LARGE == 0 && limit - cursor >= LARGE {
      if r in Direct(cursor + LARGE, limit) {
        DirectAligned(cursor + LARGE, limit, r);
      }
    } else if r in Direct(cursor + PAGE, limit) {
      DirectAligned(cursor + PAGE, limit, r);
    }
  }

  lemma {:induction false} DirectsAligned(ranges: seq<Range>, r: Request)
    requires r in Directs(ranges) && r.Big?
    ensures r.frame % 512 == 0
  {
    hide Direct;
    var n := |ranges| - 1;
    if r in Directs(ranges[..n]) {
      DirectsAligned(ranges[..n], r);
    } else {
      DirectAligned(ranges[n].base, ranges[n].base + ranges[n].length, r);
    }
  }

  /** The request that decided what a page is. */
  lemma {:induction false} LastOne(rs: seq<Request>, page: nat) returns (r: Request)
    requires Last(rs, page).Some?
    ensures r in rs && Maps(r, page) && Last(rs, page) == Some(FrameFor(r, page))
  {
    hide Maps, FrameFor;
    var n := |rs| - 1;
    r := rs[n];
    if !Maps(r, page) {
      r := LastOne(rs[..n], page);
    }
  }

  lemma BuiltAligned(tables: seq<seq<Slot>>, v: View, ranges: seq<Range>, kernel: nat, phys: nat, size: nat)
    requires var rs := Directs(ranges) + Image(kernel, phys, size); Tree(tables, v) && Result(v, rs) && NoMix(rs)
    ensures LargeAligned(v)
  {
    hide Directs, Image, Last;
    var rs := Directs(ranges) + Image(kernel, phys, size);
    forall k | k in v.big
      ensures v.big[k] % 512 == 0
    {
      var page := 512 * k;
      assert page / 512 == k && page % 512 == 0 && First(k) !in v.ids;
      assert Seen(v, page) == Some(v.big[k]);
      var r := LastOne(rs, page);
      var q :| q in rs && q.Big? && Slot2M(q) == k;
      SameSlot(r, page, k);
      if r in Directs(ranges) {
        DirectsAligned(ranges, r);
      } else {
        ImageSmall(kernel, phys, size, r);
      }
    }
  }

  lemma SameSlot(r: Request, page: nat, k: nat)
    requires Maps(r, page) && page == 512 * k
    ensures Slot2M(r) == k && (r.Big? ==> FrameFor(r, page) == r.frame)
  {
  }

  /** A page of bytes from the middle of a page on: whatever else the tables hold, its second half is not mapped. */
  lemma HalfPageMissed(tables: seq<seq<Slot>>, kernel: nat, phys: nat, size: nat)
    requires HHDM <= kernel && Translates(tables, [Range(0x800, 0x1000)], kernel, phys, size)
    ensures Walk(tables, 0) == Some(0) && Walk(tables, 1) == None
  {
    hide Walk;
    var rs := [Range(0x800, 0x1000)];
    assert rs[0] in rs && OfRange(0x800, 0x1000, 0);
    assert Asked(rs, 0) && !Asked(rs, 1);
  }

  // ---------- The count is exact ----------

  /** Page numbers of addresses with all upper bits alike: below 2^47, or the last 2^47. */
  predicate Canonical(virt: nat) {
    virt < HALF || 0xF_FFF8_0000_0000 <= virt < 0x10_0000_0000_0000
  }

  ghost predicate AllCanonical(rs: seq<Request>) {
    forall r :: r in rs ==> Canonical(r.virt)
  }

  /** In either half. */
  predicate Half(x: nat, h: nat, top: nat) {
    x < h || (h <= top && top - h <= x < top)
  }

  lemma HalfInjective(x: nat, y: nat, h: nat, m: nat)
    requires h > 0 && Half(x, h, 2 * h * m) && Half(y, h, 2 * h * m) && x % (2 * h) == y % (2 * h)
    ensures x == y
  {
    HalfMod(x, h, m);
    HalfMod(y, h, m);
  }

  lemma HalfMod(x: nat, h: nat, m: nat)
    requires h > 0 && Half(x, h, 2 * h * m)
    ensures x % (2 * h) == if x < h then x else x - 2 * h * (m - 1)
  {
    if x < h {
      Remainder(x, 2 * h, 0, x);
    } else {
      assert m > 0;
      assert 2 * h * m == 2 * h * (m - 1) + 2 * h;
      Remainder(x, 2 * h, m - 1, x - 2 * h * (m - 1));
    }
  }

  lemma Remainder(x: nat, d: nat, q: nat, r: nat)
    requires d > 0 && x == d * q + r && r < d
    ensures x % d == r
  {
    Quotient(x, d, q);
    assert x == d * (x / d) + x % d;
  }

  lemma CanonicalParts(virt: nat)
    requires Canonical(virt)
    ensures Half(virt / 0x800_0000, 256, 512 * 0x1_0000) && Half(virt / 0x4_0000, 0x2_0000, 0x4_0000 * 0x1_0000)
    ensures Half(virt / 512, 0x400_0000, 0x800_0000 * 0x1_0000)
  {
  }

  lemma {:induction false} ThirdsExact(s: seq<nat>)
    requires NoDup(s) && forall x :: x in s ==> Half(x, 256, 512 * 0x1_0000)
    ensures |Thirds(s)| == |s|
  {
    hide Half;
    if s != [] {
      assert s == [s[0]] + s[1..];
      ThirdsExact(s[1..]);
      assert Thirds(s) == Thirds(s[1..]) + {Third(s[0] % 512)};
      forall x | x in s[1..]
        ensures x % 512 != s[0] % 512
      {
        if x % 512 == s[0] % 512 {
          HalfInjective(x, s[0], 256, 0x1_0000);
        }
      }
    }
  }

  lemma {:induction false} SecondsExact(s: seq<nat>)
    requires NoDup(s) && forall x :: x in s ==> Half(x, 0x2_0000, 0x4_0000 * 0x1_0000)
    ensures |Seconds(s)| == |s|
  {
    hide Half;
    if s != [] {
      assert s == [s[0]] + s[1..];
      SecondsExact(s[1..]);
      assert Seconds(s) == Seconds(s[1..]) + {Second(s[0] % 0x4_0000)};
      forall x | x in s[1..]
        ensures x % 0x4_0000 != s[0] % 0x4_0000
      {
        if x % 0x4_0000 == s[0] % 0x4_0000 {
          HalfInjective(x, s[0], 0x2_0000, 0x1_0000);
        }
      }
    }
  }

  lemma {:induction false} FirstsExact(s: seq<nat>)
    requires NoDup(s) && forall x :: x in s ==> Half(x, 0x400_0000, 0x800_0000 * 0x1_0000)
    ensures |Firsts(s)| == |s|
  {
    hide Half;
    if s != [] {
      assert s == [s[0]] + s[1..];
      FirstsExact(s[1..]);
      assert Firsts(s) == Firsts(s[1..]) + {First(s[0] % 0x800_0000)};
      forall x | x in s[1..]
        ensures x % 0x800_0000 != s[0] % 0x800_0000
      {
        if x % 0x800_0000 == s[0] % 0x800_0000 {
          HalfInjective(x, s[0], 0x400_0000, 0x1_0000);
        }
      }
    }
  }

  /** No two numbers that were counted stand for one table. */
  lemma CountedExact(pml4: seq<nat>, pd: seq<nat>, pt: seq<nat>, rs: seq<Request>)
    requires NoDup(pml4) && NoDup(pd) && NoDup(pt) && AllCanonical(rs) && Only([], [], [], pml4, pd, pt, rs)
    ensures |Counted(pml4, pd, pt)| == 1 + |pml4| + |pd| + |pt|
  {
    hide NoDup, Thirds, Seconds, Firsts, Half, Canonical;
    forall r | r in rs
      ensures Half(r.virt / 0x800_0000, 256, 512 * 0x1_0000)
      ensures Half(r.virt / 0x4_0000, 0x2_0000, 0x4_0000 * 0x1_0000)
      ensures Half(r.virt / 512, 0x400_0000, 0x800_0000 * 0x1_0000)
    {
      CanonicalParts(r.virt);
    }
    ThirdsExact(pml4);
    SecondsExact(pd);
    FirstsExact(pt);
    Kinds(pml4, pd, pt);
    FourKinds(Thirds(pml4), Seconds(pd), Firsts(pt));
  }

  lemma Kinds(pml4: seq<nat>, pd: seq<nat>, pt: seq<nat>)
    ensures forall k :: k in Thirds(pml4) ==> k.Third?
    ensures forall k :: k in Seconds(pd) ==> k.Second?
    ensures forall k :: k in Firsts(pt) ==> k.First?
  {
  }

  lemma FourKinds(a: set<Key>, b: set<Key>, c: set<Key>)
    requires (forall k :: k in a ==> k.Third?) && (forall k :: k in b ==> k.Second?)
    requires forall k :: k in c ==> k.First?
    ensures |{Root} + a + b + c| == 1 + |a| + |b| + |c|
  {
    assert {Root} !! a && ({Root} + a) !! b && ({Root} + a + b) !! c;
  }

  /** The tables on the way to a request that was served are there. */
  lemma ServedPath(tables: seq<seq<Slot>>, v: View, rs: seq<Request>, r: Request)
    requires Tree(tables, v) && Result(v, rs) && NoMix(rs) && r in rs
    ensures var k := Slot2M(r);
            && Third(k / 0x4_0000) in v.ids && Second(k / 512) in v.ids && (r.Small? ==> First(k) in v.ids)
  {
    hide Expect, Last, FrameFor;
    var k := Slot2M(r);
    var page := if r.Small? then r.virt % 0x10_0000_0000 else 512 * k;
    SlotOfPage(r, page);
    LastSome(rs, r, page);
    assert Seen(v, page).Some?;
    if page in v.small {
      assert First(k) in v.ids;
      assert Parent(First(k)) == Second(k / 512);
    } else {
      assert k in v.big;
    }
    assert Parent(Second(k / 512)) == Third(k / 512 / 512);
    Nested(k);
  }

  lemma Nested(k: nat)
    ensures k / 512 / 512 == k / 0x4_0000
  {
  }

  lemma SlotOfPage(r: Request, page: nat)
    requires page == if r.Small? then r.virt % 0x10_0000_0000 else 512 * Slot2M(r)
    ensures Maps(r, page) && page / 512 == Slot2M(r)
  {
  }

  lemma {:induction false} LastSome(rs: seq<Request>, r: Request, page: nat)
    requires r in rs && Maps(r, page)
    ensures Last(rs, page).Some?
  {
    hide Maps, FrameFor;
    var n := |rs| - 1;
    if !Maps(rs[n], page) {
      LastSome(rs[..n], r, page);
    }
  }

  /** Every counted table has been built. */
  lemma CountedBuilt(tables: seq<seq<Slot>>, v: View, rs: seq<Request>, pml4: seq<nat>, pd: seq<nat>, pt: seq<nat>)
    requires Tree(tables, v) && Result(v, rs) && NoMix(rs) && Only([], [], [], pml4, pd, pt, rs)
    ensures Counted(pml4, pd, pt) <= v.ids.Keys
  {
    hide Tree, Result, NoMix;
    forall x | x in pml4
      ensures Third(x % 512) in v.ids
    {
      assert Needs(rs, 0x800_0000, x);
      var r :| r in rs && r.virt / 0x800_0000 == x;
      ServedPath(tables, v, rs, r);
      SlotParts(r.virt);
    }
    forall x | x in pd
      ensures Second(x % 0x4_0000) in v.ids
    {
      assert Needs(rs, 0x4_0000, x);
      var r :| r in rs && r.virt / 0x4_0000 == x;
      ServedPath(tables, v, rs, r);
      SlotParts(r.virt);
    }
    forall x | x in pt
      ensures First(x % 0x800_0000) in v.ids
    {
      assert NeedsSmall(rs, x);
      var r :| r in rs && r.Small? && r.virt / 512 == x;
      ServedPath(tables, v, rs, r);
    }
    RootThere(tables, v);
  }

  lemma RootThere(tables: seq<seq<Slot>>, v: View)
    requires Tree(tables, v)
    ensures Root in v.ids
  {
  }

  /** So building takes as many tables as were counted. */
  lemma BuiltExact(tables: seq<seq<Slot>>, v: View, rs: seq<Request>, pml4: seq<nat>, pd: seq<nat>, pt: seq<nat>)
    requires Tree(tables, v) && Result(v, rs) && NoMix(rs) && v.ids.Keys <= Counted(pml4, pd, pt)
    requires NoDup(pml4) && NoDup(pd) && NoDup(pt) && AllCanonical(rs) && Only([], [], [], pml4, pd, pt, rs)
    ensures |tables| == 1 + |pml4| + |pd| + |pt|
  {
    hide Result, NoMix, Only, Counted, Expect, Closed;
    CountedBuilt(tables, v, rs, pml4, pd, pt);
    CountedExact(pml4, pd, pt, rs);
    assert v.ids.Keys == Counted(pml4, pd, pt);
    NamedCard(v);
  }

  lemma AtMost(tables: seq<seq<Slot>>, v: View, pml4: seq<nat>, pd: seq<nat>, pt: seq<nat>)
    requires Tree(tables, v) && v.ids.Keys <= Counted(pml4, pd, pt)
    ensures |tables| <= 1 + |pml4| + |pd| + |pt|
  {
    hide Expect, Counted, Closed;
    NamedCard(v);
    CountedCard(pml4, pd, pt);
    NotMore(v.ids.Keys, Counted(pml4, pd, pt));
  }

  lemma NotMore(a: set<Key>, b: set<Key>)
    requires a <= b
    ensures |a| <= |b|
  {
    assert b == a + (b - a);
  }

  lemma PlanCanonical(ranges: seq<Range>, kernel: nat, phys: nat, size: nat)
    requires HHDM <= kernel && kernel % PAGE == 0 && kernel + size <= U64
    requires forall r :: r in ranges ==> r.length == 0 || r.base + r.length <= DIRECT_LIMIT
    ensures AllCanonical(Directs(ranges) + Image(kernel, phys, size))
  {
    hide Directs, Image, Direct;
    forall r | r in Directs(ranges) + Image(kernel, phys, size)
      ensures Canonical(r.virt)
    {
      if r in Directs(ranges) {
        var i := DirectsFrom(ranges, r);
        assert ranges[i] in ranges;
        var c := DirectFrom(ranges[i].base, ranges[i].base + ranges[i].length, r);
      } else {
        var k := ImageFrom(kernel, phys, size, r);
      }
    }
  }

  /** Sizing and then building: once the sizing pass has counted the tables, a pool of that many pages, or
      more, is enough, and the tables translate exactly what was asked for. */
  method SizeAndBuild(ranges: seq<Range>, kernel: nat, phys: nat, size: nat, margin: nat)
    returns (est: Estimator, t: Tables?)
    requires Above(ranges, kernel, size)
    requires NoMix(Directs(ranges) + Image(kernel, phys, size))
    ensures t == null ==>
              || est.Full() || kernel + size > U64 - PAGE
              || exists r :: r in ranges && r.length > 0 && r.base + r.length > DIRECT_LIMIT - GIB
    ensures t != null ==> t.pool == est.Total() + margin && Translates(t.tables, ranges, kernel, phys, size)
    ensures t != null ==> t.Valid() && LargeAligned(t.view)
    ensures t != null ==> |t.tables| <= est.Total()
    ensures t != null && (forall r :: r in ranges ==> r.base % PAGE == 0) ==> |t.tables| == est.Total()
  {
    hide Directs, Image, NoMix, CountsAll, Translates, Only, AllCanonical, Counted;
    est := new Estimator();
    t := null;
    if kernel >= U64 || size >= U64 {
      return;
    }
    var ok := est.Estimate(ranges, kernel, phys, size);
    if !ok {
      return;
    }
    var tables := new Tables(est.Total() + margin);
    ok := tables.Build(ranges, kernel, phys, size, Estimate.Estimate(est.pml4, est.pd, est.pt));
    BuiltTranslates(tables.tables, tables.view, ranges, kernel, phys, size);
    BuiltAligned(tables.tables, tables.view, ranges, kernel, phys, size);
    ghost var rs := Directs(ranges) + Image(kernel, phys, size);
    AtMost(tables.tables, tables.view, est.pml4, est.pd, est.pt);
    if forall r :: r in ranges ==> r.base % PAGE == 0 {
      PlanCanonical(ranges, kernel, phys, size);
      BuiltExact(tables.tables, tables.view, rs, est.pml4, est.pd, est.pt);
    }
    t := tables;
  }
}
