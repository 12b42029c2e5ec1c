/** Unmapping pages one after the other, at whatever addresses a process asks for. */
module Clearing {
  import opened Options
  import opened Frames
  import opened PageTable
  import opened Cloning
  import opened Mapping
  import opened TableWalk
  import opened AddressSpace
  import opened Vma
  import opened CopyOnWrite
  import opened Rights
  import opened Permissions
  import opened KernelHalf

  // ---------- Pages and addresses ----------

  /** Every user page has an address. */
  lemma PathAddr(p: Path)
    requires UserPath(p)
    ensures AddrOf(p) < USER_LIMIT && AddrOf(p) % 4096 == 0 && PathOf(AddrOf(p)) == p
  {
    var n3 := 512 * (512 * (512 * (p[0] as nat) + p[1]) + p[2]) + p[3];
    var a := 4096 * n3;
    var n2 := 512 * (512 * (p[0] as nat) + p[1]) + p[2];
    var n1 := 512 * (p[0] as nat) + p[1];
    assert a / 0x1000 == n3;
    assert a / 0x20_0000 == n3 / 512 == n2;
    assert a / 0x4000_0000 == n2 / 512 == n1;
    assert a / 0x80_0000_0000 == n1 / 512 == p[0];
    assert n3 % 512 == p[3] && n2 % 512 == p[2] && n1 % 512 == p[1];
  }

  /** Two addresses below the limit are on one page exactly if they have one path. */
  lemma OnePage(x: nat, a: nat)
    requires x < USER_LIMIT && a < USER_LIMIT && a % 4096 == 0
    ensures PathOf(x) == PathOf(a) <==> a <= x < a + 4096
  {
    hide PathOf, AddrOf;
    PageBase(x);
    PageBase(a);
    if a <= x < a + 4096 {
      InPage(x, a);
      PathAddr(PathOf(x));
    }
  }

  lemma InPage(x: nat, a: nat)
    requires a % 4096 == 0
    ensures a <= x < a + 4096 <==> x - x % 4096 == a
  {
  }

  /** The number of pages after which the page walk starts over: it looks at 48 bits of an address. */
  const PERIOD: nat := 0x10_0000_0000

  /** The number of a page among those that the walk tells apart. */
  function Number(a: nat): nat { a / 4096 % PERIOD }

  /** The path of a page number. */
  function PathFor(n: nat): (p: Path)
    ensures |p| == 4
  {
    [n / 0x800_0000 % 512, n / 0x4_0000 % 512, n / 512 % 512, n % 512]
  }

  lemma PathByNumber(a: nat)
    ensures PathOf(a) == PathFor(a / 4096) == PathFor(Number(a))
  {
    var n := a / 4096;
    assert a / 0x20_0000 == n / 512 && a / 0x4000_0000 == n / 0x4_0000 && a / 0x80_0000_0000 == n / 0x800_0000;
    PathPeriodic(n);
  }

  lemma PathPeriodic(n: nat)
    ensures PathFor(n % PERIOD) == PathFor(n)
  {
    var q, r := n / PERIOD, n % PERIOD;
    assert n == PERIOD * q + r;
    LastDigit(0x800_0000 * q, r);
    ThirdDigit(q, r);
    SecondDigit(q, r);
    FirstDigit(q, r);
  }

  lemma LastDigit(b: nat, x: nat)
    ensures (512 * b + x) % 512 == x % 512
  {
  }

  lemma ThirdDigit(q: nat, r: nat)
    ensures (PERIOD * q + r) / 512 % 512 == r / 512 % 512
  {
    assert (PERIOD * q + r) / 512 == 0x800_0000 * q + r / 512;
    LastDigit(0x4_0000 * q, r / 512);
  }

  lemma SecondDigit(q: nat, r: nat)
    ensures (PERIOD * q + r) / 0x4_0000 % 512 == r / 0x4_0000 % 512
  {
    assert (PERIOD * q + r) / 0x4_0000 == 0x4_0000 * q + r / 0x4_0000;
    LastDigit(512 * q, r / 0x4_0000);
  }

  lemma FirstDigit(q: nat, r: nat)
    ensures (PERIOD * q + r) / 0x800_0000 % 512 == r / 0x800_0000 % 512
  {
    assert (PERIOD * q + r) / 0x800_0000 == 512 * q + r / 0x800_0000;
    LastDigit(q, r / 0x800_0000);
  }

  lemma PathInjective(n: nat, m: nat)
    requires n < PERIOD && m < PERIOD && PathFor(n) == PathFor(m)
    ensures n == m
  {
    var p := PathFor(n);
    Digits(n);
    Digits(m);
  }

  lemma Digits(n: nat)
    requires n < PERIOD
    ensures n == 0x800_0000 * (n / 0x800_0000 % 512) + 0x4_0000 * (n / 0x4_0000 % 512) + 512 * (n / 512 % 512) + n % 512
  {
    assert n / 0x4_0000 == n / 512 / 512 && n / 0x800_0000 == n / 0x4_0000 / 512;
  }

  /** Two addresses have one path exactly if their page numbers agree in 36 bits. */
  lemma SamePath(a: nat, b: nat)
    ensures PathOf(a) == PathOf(b) <==> Number(a) == Number(b)
  {
    hide PathOf, PathFor;
    PathByNumber(a);
    PathByNumber(b);
    if PathFor(Number(a)) == PathFor(Number(b)) {
      PathInjective(Number(a), Number(b));
    }
  }

  /** Addresses 2^48 bytes apart lead to one page, whether or not the processor would take them. */
  lemma TurnsAround(a: nat, m: nat)
    ensures PathOf(a + 0x1_0000_0000_0000 * m) == PathOf(a)
  {
    hide PathOf;
    var b := a + 0x1_0000_0000_0000 * m;
    assert b / 4096 == a / 4096 + PERIOD * m;
    SameNumber(a / 4096, m);
    SamePath(a, b);
  }

  lemma SameNumber(n: nat, m: nat)
    ensures (n + PERIOD * m) % PERIOD == n % PERIOD
  {
  }

  /** The path of page j of a range. */
  function PageAt(lo: nat, j: nat): (p: Path)
    ensures |p| == 4
  {
    PathOf(lo + 4096 * j)
  }

  /** One of the n pages from lo on has this path. */
  predicate OnWay(lo: nat, n: nat, q: Path) {
    exists j :: 0 <= j < n && PageAt(lo, j) == q
  }

  /** Pages of a range share a path exactly if they are a multiple of 2^48 bytes apart. */
  lemma Again(lo: nat, j: nat, m: nat)
    requires lo % 4096 == 0
    ensures PageAt(lo, j) == PageAt(lo, m) <==> (lo / 4096 + j) % PERIOD == (lo / 4096 + m) % PERIOD
  {
    hide PathOf;
    SamePath(lo + 4096 * j, lo + 4096 * m);
    assert (lo + 4096 * j) / 4096 == lo / 4096 + j && (lo + 4096 * m) / 4096 == lo / 4096 + m;
  }

  /** In 2^36 pages no path comes twice, and after them every path comes again. */
  lemma FirstTime(lo: nat, j: nat)
    requires lo % 4096 == 0
    ensures OnWay(lo, j, PageAt(lo, j)) <==> j >= PERIOD
  {
    hide PathOf;
    forall m | 0 <= m < j
      ensures PageAt(lo, m) == PageAt(lo, j) ==> j >= PERIOD
    {
      Again(lo, j, m);
      if j < PERIOD {
        Apart(lo / 4096, m, j);
      }
    }
    if j >= PERIOD {
      Again(lo, j, j - PERIOD);
      OnePeriod(lo / 4096 + (j - PERIOD));
      assert PageAt(lo, j - PERIOD) == PageAt(lo, j);
    }
  }

  lemma OnePeriod(n: nat)
    ensures (n + PERIOD) % PERIOD == n % PERIOD
  {
  }

  lemma Apart(b: nat, m: nat, j: nat)
    requires m < j < PERIOD
    ensures (b + m) % PERIOD != (b + j) % PERIOD
  {
  }

  lemma OnWayNext(lo: nat, n: nat, q: Path)
    ensures OnWay(lo, n + 1, q) <==> OnWay(lo, n, q) || PageAt(lo, n) == q
  {
    hide PageAt;
  }

  // ---------- One page ----------

  /** vmm_unmap_page_in on page p of process i. */
  ghost predicate Unhooks(s: Sys, i: nat, p: Path, s1: Sys)
    requires i < |s.procs| && s.procs[i].Alive? && |p| == 4
  {
    && s1.procs == s.procs && s1.ram == s.ram && Frames.Valid(s1.pmm) && SameReserved(s.pmm, s1.pmm)
    && (UserPath(p) ==> MapsPage(s, i, p, ABSENT, s1) && s1.pmm == s.pmm)
    && (KernelPath(p) ==> UnmapCost(s.St(), s.pmm, s1.St(), s1.pmm, s.procs[i].root, ENTRIES, p))
  }

  /** Page p of process i is unmapped and its frame given back; s1 is the state between the two. */
  ghost predicate Clears(s: Sys, i: nat, p: Path, s1: Sys, s': Sys) {
    && i < |s.procs| && s.procs[i].Alive? && |p| == 4
    && var r := Walk(s.mem, s.procs[i].root, p);
       if r.None? || r.value.frame == 0 then s' == s
       else Unhooks(s, i, p, s1) && s' == s1.(pmm := DecRef(s1.pmm, r.value.frame))
  }

  lemma ClearMaps(s: Sys, ext: seq<nat>, i: nat, p: Path, s1: Sys, ext1: seq<nat>)
    requires Inv(s, ext) && MapsPage(s, i, p, ABSENT, s1) && Swapped(ext, ext1, Walk(s.mem, s.procs[i].root, p), None)
    ensures Inv(s1, ext1) && s1.procs == s.procs
    ensures forall q: Path :: UserPath(q) ==>
              Walk(s1.mem, s.procs[i].root, q) == if q == p then None else Walk(s.mem, s.procs[i].root, q)
    ensures forall k: nat, x: nat :: Private(s, k, x) && !(k == i && PathOf(x) == p) ==> Read(s1, k, x) == Read(s, k, x)
  {
    hide Walk, Inv, PathOf, PageFits, Owned, Sound, SpaceRefs, TreeOk, OnlyTree;
    assert PageFits(s, i, p, None, s1) by { NothingFits(s, i, p, s1); }
    MapKeepsInv(s, ext, i, p, ABSENT, s1, ext1);
    InvOwned(s, ext, i);
  }

  lemma NothingFits(s: Sys, i: nat, p: Path, s': Sys)
    requires i < |s.procs| && s.procs[i].Alive? && UserPath(p)
    ensures PageFits(s, i, p, None, s')
  {
  }

  lemma MappedHeld(s: Sys, ext: seq<nat>, i: nat, p: Path)
    requires Inv(s, ext) && i < |s.procs| && s.procs[i].Alive? && UserPath(p)
    requires var r := Walk(s.mem, s.procs[i].root, p); r.Some? && 0 < r.value.frame < |s.pmm.rc|
    ensures s.pmm.rc[Walk(s.mem, s.procs[i].root, p).value.frame] > 0
  {
    hide Walk, Sound, PagesOk, NoMixing, RefsUpTo;
    MappedCounted(s, ext, i, p);
    TotalOne(s.mem, s.procs, i, Walk(s.mem, s.procs[i].root, p).value.frame);
  }

  /** What clearing a user page changes. */
  ghost predicate PageCleared(s: Sys, i: nat, p: Path, s': Sys)
    requires i < |s.procs| && s.procs[i].Alive?
  {
    && s'.procs == s.procs
    && (forall q: Path :: UserPath(q) ==>
          Walk(s'.mem, s.procs[i].root, q) == if q == p then None else Walk(s.mem, s.procs[i].root, q))
    && (forall k: nat, x: nat :: Private(s, k, x) && !(k == i && PathOf(x) == p) ==> Read(s', k, x) == Read(s, k, x))
  }

  lemma ClearUser(s: Sys, ext: seq<nat>, i: nat, p: Path, s1: Sys, s': Sys)
    requires Inv(s, ext) && Clears(s, i, p, s1, s') && UserPath(p)
    ensures Inv(s', ext) && PageCleared(s, i, p, s')
    ensures var r := Walk(s.mem, s.procs[i].root, p);
            s'.pmm == if r.Some? then DecRef(s.pmm, r.value.frame) else s.pmm
  {
    hide Walk, Inv, PathOf, MapsPage, Frames.Valid, SameReserved, UnmapCost, DecRef;
    InvSize(s, ext);
    InvValid(s, ext);
    InvPage(s, ext, i, p);
    var r := Walk(s.mem, s.procs[i].root, p);
    if r.Some? {
      var f := r.value.frame;
      if f < |ext| {
        var ext1 := ext[f := ext[f] + 1];
        ClearMaps(s, ext, i, p, s1, ext1);
        MappedHeld(s, ext, i, p);
        assert Drops(s1, f, s');
        DropKeepsInv(s1, ext1, f, s');
        assert ext1[f := ext[f]] == ext;
      } else {
        ClearMaps(s, ext, i, p, s1, ext);
      }
    }
  }

  lemma ClearSpares(s: Sys, ext: seq<nat>, i: nat, p: Path, s1: Sys, s': Sys, tables: set<nat>)
    requires Inv(s, ext) && Spared(s, ext, tables) && Clears(s, i, p, s1, s') && UserPath(p)
    ensures Spares(s, s', tables)
  {
    hide Walk, Inv, MapsPage, Frames.Valid, SameReserved, Spared, Spares, UnmapCost, DecRef;
    InvSize(s, ext);
    InvValid(s, ext);
    InvPage(s, ext, i, p);
    var r := Walk(s.mem, s.procs[i].root, p);
    if r.None? {
      SparesSelf(s, tables);
    } else {
      var f := r.value.frame;
      MapSpares(s, ext, i, p, ABSENT, s1, tables);
      SparesSize(s, s1, tables);
      if f < |s.pmm.rc| {
        MappedHeld(s, ext, i, p);
        MappedNotSpared(s, ext, tables, i, p);
        assert Drops(s1, f, s');
        DropSpares(s1, f, s', tables);
        SparesTrans(s, s1, s', tables);
      }
    }
  }

  lemma ClearRights(s: Sys, ext: seq<nat>, i: nat, p: Path, s1: Sys, s': Sys)
    requires Inv(s, ext) && Rightful(s) && Clears(s, i, p, s1, s') && UserPath(p)
    ensures Rightful(s') && (Permitted(s) ==> Permitted(s'))
  {
    hide Inv, Rightful, Permitted, DecRef, Walk, MapsPage, Frames.Valid, UnmapCost;
    var r := Walk(s.mem, s.procs[i].root, p);
    if r.Some? && r.value.frame != 0 {
      MapRights(s, ext, i, p, ABSENT, s1);
      SameTablesRights(s1, s');
    }
  }

  /** Clearing a user page keeps the whole system good. */
  lemma ClearGood(s: Sys, ext: seq<nat>, k: Kern, i: nat, p: Path, s1: Sys, s': Sys)
    requires Good(s, ext, k) && Clears(s, i, p, s1, s') && UserPath(p)
    ensures Good(s', ext, k) && PageCleared(s, i, p, s')
    ensures var r := Walk(s.mem, s.procs[i].root, p);
            s'.pmm == if r.Some? then DecRef(s.pmm, r.value.frame) else s.pmm
    ensures Permitted(s) ==> Permitted(s')
  {
    hide Inv, Intact, Clears, Spares, DecRef, Walk, Rightful, Permitted;
    ClearUser(s, ext, i, p, s1, s');
    ClearRights(s, ext, i, p, s1, s');
    IntactSpared(s, ext, k);
    ClearSpares(s, ext, i, p, s1, s', k.tables);
    SparedGood(s, ext, k, s');
  }

  // ---------- The kernel half ----------

  /** The frame is one whose references are counted, and somebody has one. */
  predicate Counted(pmm: Pmm, f: nat) {
    0 < f < |pmm.rc| && pmm.rc[f] > 0
  }

  /** Nothing happens at page p: it is not there, or no frame is free to split the 2 MiB page it lies in and
      its own frame has no count to lower. */
  ghost predicate Harmless(s: Sys, i: nat, p: Path, pmm: Pmm)
    requires i < |s.procs| && s.procs[i].Alive? && |p| == 4
  {
    var r := Walk(s.mem, s.procs[i].root, p);
    || r.None? || r.value.frame == 0
    || (!InPlace(s.mem, s.procs[i].root, p, 3) && pmm.free == 0 && !Counted(pmm, r.value.frame))
  }

  lemma HarmlessStep(s: Sys, i: nat, p: Path, s1: Sys, s': Sys)
    requires Clears(s, i, p, s1, s') && KernelPath(p) && Harmless(s, i, p, s.pmm) && Frames.Valid(s.pmm)
    ensures s' == s
  {
    hide Walk, MapsPage, InPlace, Mapped;
  }

  /** What makes a page of the kernel half of process i is the same wherever the system is good. */
  lemma KernelAlike(s: Sys, s': Sys, ext: seq<nat>, k: Kern, i: nat, p: Path)
    requires Good(s, ext, k) && Good(s', ext, k) && s'.procs == s.procs && i < |s.procs| && s.procs[i].Alive?
    requires KernelPath(p)
    ensures Walk(s'.mem, s.procs[i].root, p) == Walk(s.mem, s.procs[i].root, p)
    ensures InPlace(s'.mem, s.procs[i].root, p, 3) == InPlace(s.mem, s.procs[i].root, p, 3)
    ensures Walk(s.mem, s.procs[i].root, p).Some? ==> InPlace(s.mem, s.procs[i].root, p, 2)
  {
    hide Inv, Intact, Walk, TableAt, TopMarked;
    UpperWalks(s, ext, k, i, p);
    UpperWalks(s', ext, k, i, p);
    UpperTables(s, ext, k, i, p[..3]);
    UpperTables(s', ext, k, i, p[..3]);
    UpperTables(s, ext, k, i, p[..2]);
    assert Walk(k.mem, k.root, p).Some? ==> TableAt(k.mem, k.root, 4, p[..2]).Some? by { NoGiant(s, ext, k, p); }
  }

  lemma NoGiant(s: Sys, ext: seq<nat>, k: Kern, p: Path)
    requires Intact(s, ext, k) && KernelPath(p)
    ensures Walk(k.mem, k.root, p).Some? ==> TableAt(k.mem, k.root, 4, p[..2]).Some?
  {
  }

  /** Clearing a page of the kernel half that is there takes it from the kernel, or lowers a count that is not
      the process's to lower. */
  lemma BadStep(s: Sys, ext: seq<nat>, k: Kern, i: nat, p: Path, s1: Sys, s': Sys)
    requires Good(s, ext, k) && Clears(s, i, p, s1, s') && KernelPath(p) && !Harmless(s, i, p, s.pmm)
    ensures !Good(s', ext, k)
  {
    hide Inv, Intact, Walk, InPlace, Mapped, DecRef, MapsPage, Frames.Valid, SameReserved;
    KernelAlike(s, s, ext, k, i, p);
    var root := s.procs[i].root;
    if InPlace(s.mem, root, p, 3) || s.pmm.free > 0 {
      MappedAbsent(s.St(), s1.St(), root, ENTRIES, p);
      if Good(s', ext, k) {
        KernelAlike(s, s', ext, k, i, p);
      }
    } else {
      FreeBoundInv(s, ext);
      LowerCount(s, ext, s', Walk(s.mem, root, p).value.frame);
    }
  }

  lemma FreeBoundInv(s: Sys, ext: seq<nat>)
    requires Inv(s, ext)
    ensures s.pmm.free >= 0 && Frames.Valid(s.pmm)
  {
  }

  /** Lowering the count of a frame and nothing else makes the books wrong. */
  lemma LowerCount(s: Sys, ext: seq<nat>, s': Sys, f: nat)
    requires Inv(s, ext) && Counted(s.pmm, f) && Frames.Valid(s.pmm) && s' == s.(pmm := DecRef(s.pmm, f))
    ensures !Inv(s', ext)
  {
    hide PagesOk, NoMixing, TotalRefs;
  }

  // ---------- A range of pages ----------

  /** The n pages from address lo on are cleared one after the other. */
  ghost predicate ClearsTo(s: Sys, i: nat, lo: nat, n: nat, s': Sys)
    decreases n
  {
    if n == 0 then s' == s
    else
      var m, p := n - 1, PageAt(lo, n - 1);
      exists u, v :: ClearsTo(s, i, lo, m, u) && Clears(u, i, p, v, s')
  }

  lemma ClearsLast(s: Sys, i: nat, lo: nat, n: nat, s': Sys) returns (u: Sys, v: Sys)
    requires n > 0 && ClearsTo(s, i, lo, n, s')
    ensures ClearsTo(s, i, lo, n - 1, u) && Clears(u, i, PageAt(lo, n - 1), v, s')
  {
    hide Clears, PageAt;
    var m, p := n - 1, PageAt(lo, n - 1);
    u, v :| ClearsTo(s, i, lo, m, u) && Clears(u, i, p, v, s');
  }

  lemma ClearsNone(s: Sys, i: nat, lo: nat)
    ensures ClearsTo(s, i, lo, 0, s)
  {
  }

  lemma ClearsNext(s: Sys, i: nat, lo: nat, n: nat, u: Sys, v: Sys, s': Sys)
    requires ClearsTo(s, i, lo, n, u) && Clears(u, i, PageAt(lo, n), v, s')
    ensures ClearsTo(s, i, lo, n + 1, s')
  {
    hide Clears, PageAt;
  }

  /** The user pages of the range are not mapped any more, and nothing else changed for anybody. */
  ghost predicate Cleared(s: Sys, i: nat, lo: nat, n: nat, s': Sys)
    requires i < |s.procs| && s.procs[i].Alive?
  {
    && s'.procs == s.procs
    && (forall q: Path :: UserPath(q) ==>
          Walk(s'.mem, s.procs[i].root, q) == if OnWay(lo, n, q) then None else Walk(s.mem, s.procs[i].root, q))
    && (forall k: nat, x: nat :: Private(s, k, x) && !(k == i && OnWay(lo, n, PathOf(x))) ==>
          Read(s', k, x) == Read(s, k, x))
  }

  /** The frames as they will be when page j of the range has its turn, if nothing happens in the kernel half:
      each user page before it has given back one reference. */
  ghost function Dry(s: Sys, i: nat, lo: nat, j: nat): (d: Pmm)
    requires i < |s.procs| && s.procs[i].Alive? && Frames.Valid(s.pmm)
    ensures Frames.Valid(d)
    decreases j
  {
    if j == 0 then s.pmm
    else
      var d, p := Dry(s, i, lo, j - 1), PageAt(lo, j - 1);
      var r := Walk(s.mem, s.procs[i].root, p);
      if UserPath(p) && j <= PERIOD && r.Some? then DecRef(d, r.value.frame) else d
  }

  /** What munmap would have to ask before it changes anything: no page of the range is one of the kernel's,
      or at least none at which something can happen. */
  ghost predicate MayUnmap(s: Sys, i: nat, lo: nat, n: nat)
    requires i < |s.procs| && s.procs[i].Alive? && Frames.Valid(s.pmm)
  {
    forall j :: 0 <= j < n && KernelPath(PageAt(lo, j)) ==> Harmless(s, i, PageAt(lo, j), Dry(s, i, lo, j))
  }

  /** The state in which page n of the range has its turn. */
  ghost predicate Reached(s: Sys, ext: seq<nat>, k: Kern, i: nat, lo: nat, n: nat, u: Sys)
    requires i < |s.procs| && s.procs[i].Alive? && Frames.Valid(s.pmm)
  {
    && Good(u, ext, k) && Cleared(s, i, lo, n, u) && u.pmm == Dry(s, i, lo, n)
    && (Permitted(s) ==> Permitted(u))
  }

  lemma EitherPath(p: Path)
    requires |p| == 4
    ensures UserPath(p) <==> !KernelPath(p)
  {
  }

  lemma ReachedUser(s: Sys, ext: seq<nat>, k: Kern, i: nat, lo: nat, n: nat, u: Sys, v: Sys, s': Sys)
    requires i < |s.procs| && s.procs[i].Alive? && Frames.Valid(s.pmm) && lo % 4096 == 0
    requires Reached(s, ext, k, i, lo, n, u) && Clears(u, i, PageAt(lo, n), v, s') && UserPath(PageAt(lo, n))
    ensures Reached(s, ext, k, i, lo, n + 1, s')
  {
    hide Good, Clears, Walk, PathOf, OnWay, PageAt, DecRef, Frames.Valid;
    var p := PageAt(lo, n);
    ClearGood(u, ext, k, i, p, v, s');
    FirstTime(lo, n);
    forall q: Path | UserPath(q)
      ensures OnWay(lo, n + 1, q) <==> OnWay(lo, n, q) || p == q
    {
      OnWayNext(lo, n, q);
    }
    forall j: nat, x: nat | Private(s, j, x) && !(j == i && OnWay(lo, n + 1, PathOf(x)))
      ensures Read(s', j, x) == Read(s, j, x)
    {
      OnWayNext(lo, n, PathOf(x));
      assert Private(u, j, x);
    }
  }

  lemma ReachedKernel(s: Sys, ext: seq<nat>, k: Kern, i: nat, lo: nat, n: nat, u: Sys, v: Sys, s': Sys)
    requires i < |s.procs| && s.procs[i].Alive? && Frames.Valid(s.pmm) && Good(s, ext, k)
    requires Reached(s, ext, k, i, lo, n, u) && Clears(u, i, PageAt(lo, n), v, s') && KernelPath(PageAt(lo, n))
    ensures if Harmless(s, i, PageAt(lo, n), Dry(s, i, lo, n)) then Reached(s, ext, k, i, lo, n + 1, s')
            else !Good(s', ext, k)
  {
    hide Good, Clears, Walk, PathOf, OnWay, PageAt, DecRef, Frames.Valid, InPlace;
    var p := PageAt(lo, n);
    KernelAlike(s, u, ext, k, i, p);
    if Harmless(s, i, p, Dry(s, i, lo, n)) {
      HarmlessStep(u, i, p, v, s');
      assert s' == u;
      forall q: Path | UserPath(q)
        ensures OnWay(lo, n + 1, q) <==> OnWay(lo, n, q)
      {
        OnWayNext(lo, n, q);
      }
      forall j: nat, x: nat | Private(s, j, x) && !(j == i && OnWay(lo, n + 1, PathOf(x)))
        ensures Read(s', j, x) == Read(s, j, x)
      {
        OnWayNext(lo, n, PathOf(x));
      }
    } else {
      BadStep(u, ext, k, i, p, v, s');
    }
  }

  lemma ReachedStart(s: Sys, ext: seq<nat>, k: Kern, i: nat, lo: nat)
    requires i < |s.procs| && s.procs[i].Alive? && Frames.Valid(s.pmm) && Good(s, ext, k)
    ensures Reached(s, ext, k, i, lo, 0, s)
  {
    hide Good, Walk, PathOf, PageAt;
  }

  /** Clearing a range, where it may be cleared. */
  lemma {:induction false} ClearRange(s: Sys, ext: seq<nat>, k: Kern, i: nat, lo: nat, n: nat, s': Sys)
    requires i < |s.procs| && s.procs[i].Alive? && Frames.Valid(s.pmm) && Good(s, ext, k) && lo % 4096 == 0
    requires ClearsTo(s, i, lo, n, s') && MayUnmap(s, i, lo, n)
    ensures Reached(s, ext, k, i, lo, n, s')
    decreases n
  {
    hide Good, Reached, Clears, Harmless, Frames.Valid, Dry, PageAt;
    if n == 0 {
      ReachedStart(s, ext, k, i, lo);
    } else {
      hide ClearsTo;
      var u, v := ClearsLast(s, i, lo, n, s');
      ClearRange(s, ext, k, i, lo, n - 1, u);
      EitherPath(PageAt(lo, n - 1));
      if UserPath(PageAt(lo, n - 1)) {
        ReachedUser(s, ext, k, i, lo, n - 1, u, v, s');
      } else {
        ReachedKernel(s, ext, k, i, lo, n - 1, u, v, s');
      }
    }
  }

  /** The states the loop of munmap_process_range goes through, as long as they are good. */
  ghost predicate Passes(us: seq<Sys>, ext: seq<nat>, k: Kern, i: nat, lo: nat) {
    |us| > 0 && forall j :: 0 <= j < |us| - 1 && Good(us[j], ext, k) ==> StepsTo(us[j], i, PageAt(lo, j), us[j + 1])
  }

  ghost predicate StepsTo(s: Sys, i: nat, p: Path, s': Sys) {
    exists v :: Clears(s, i, p, v, s')
  }

  lemma {:induction false} PassReached(us: seq<Sys>, ext: seq<nat>, k: Kern, i: nat, lo: nat, n: nat)
    requires Passes(us, ext, k, i, lo) && n < |us| && lo % 4096 == 0 && Good(us[0], ext, k)
    requires i < |us[0].procs| && us[0].procs[i].Alive? && Frames.Valid(us[0].pmm)
    ensures (forall j :: 0 <= j <= n ==> Good(us[j], ext, k)) <==> MayUnmap(us[0], i, lo, n)
    ensures MayUnmap(us[0], i, lo, n) ==> Reached(us[0], ext, k, i, lo, n, us[n])
    decreases n
  {
    hide Good, Reached, Clears, Harmless, Frames.Valid, Dry, PageAt, StepsTo;
    var s := us[0];
    if n == 0 {
      ReachedStart(s, ext, k, i, lo);
    } else {
      var m := n - 1;
      PassReached(us, ext, k, i, lo, m);
      if MayUnmap(s, i, lo, m) {
        ReachedGood(s, ext, k, i, lo, m, us[m]);
        var v := StepOf(us, ext, k, i, lo, m);
        EitherPath(PageAt(lo, m));
        if UserPath(PageAt(lo, m)) {
          ReachedUser(s, ext, k, i, lo, m, us[m], v, us[n]);
        } else {
          ReachedKernel(s, ext, k, i, lo, m, us[m], v, us[n]);
        }
        if MayUnmap(s, i, lo, n) || UserPath(PageAt(lo, m)) {
          ReachedGood(s, ext, k, i, lo, n, us[n]);
        }
      }
    }
  }

  lemma ReachedGood(s: Sys, ext: seq<nat>, k: Kern, i: nat, lo: nat, n: nat, u: Sys)
    requires i < |s.procs| && s.procs[i].Alive? && Frames.Valid(s.pmm) && Reached(s, ext, k, i, lo, n, u)
    ensures Good(u, ext, k)
  {
    hide Good;
  }

  lemma StepOf(us: seq<Sys>, ext: seq<nat>, k: Kern, i: nat, lo: nat, m: nat) returns (v: Sys)
    requires Passes(us, ext, k, i, lo) && m + 1 < |us| && Good(us[m], ext, k)
    ensures Clears(us[m], i, PageAt(lo, m), v, us[m + 1])
  {
    hide Good, Clears, PageAt;
    assert StepsTo(us[m], i, PageAt(lo, m), us[m + 1]);
    v :| Clears(us[m], i, PageAt(lo, m), v, us[m + 1]);
  }

  // ---------- Which addresses a range means ----------

  lemma Between(lo: nat, n: nat, x: nat)
    requires lo % 4096 == 0 && lo <= x < lo + 4096 * n
    ensures var j := (x - lo) / 4096; 0 <= j < n && (lo + 4096 * j) / 4096 == x / 4096
  {
  }

  lemma SamePage36(a: nat, b: nat)
    requires a / 4096 == b / 4096
    ensures PathOf(a) == PathOf(b)
  {
    hide PathOf;
    SamePath(a, b);
  }

  lemma FarApart(x: nat, m: nat)
    ensures Number(x + 0x1_0000_0000_0000 * m) == Number(x)
  {
    assert (x + 0x1_0000_0000_0000 * m) / 4096 == x / 4096 + PERIOD * m;
    Turns(x / 4096, m);
  }

  lemma Turns(a: nat, m: nat)
    ensures (a + PERIOD * m) % PERIOD == a % PERIOD
  {
  }

  /** An address of the range is on its way, and so is every address that differs from one in the bits above
      the 48th only. */
  lemma OnWayFrom(lo: nat, n: nat, x: nat, m: nat)
    requires lo % 4096 == 0 && lo <= x + 0x1_0000_0000_0000 * m < lo + 4096 * n
    ensures OnWay(lo, n, PathOf(x))
  {
    hide PathOf;
    var y := x + 0x1_0000_0000_0000 * m;
    Between(lo, n, y);
    var j := (y - lo) / 4096;
    SamePage36(lo + 4096 * j, y);
    FarApart(x, m);
    SamePath(x, y);
    assert PageAt(lo, j) == PathOf(x);
  }

  lemma InRange(lo: nat, n: nat, x: nat)
    requires lo % 4096 == 0 && lo <= x < lo + 4096 * n
    ensures OnWay(lo, n, PathOf(x))
  {
    hide PathOf, OnWay;
    OnWayFrom(lo, n, x, 0);
  }

  /** The user addresses a range means: those of the range, and those that a non-canonical address of the range
      is walked as. */
  lemma OnWayExact(lo: nat, n: nat, x: nat)
    requires lo % 4096 == 0 && x < USER_LIMIT
    ensures OnWay(lo, n, PathOf(x)) <==> exists m: nat :: Aliases(lo, n, x, m)
  {
    hide PathOf;
    forall m: nat | Aliases(lo, n, x, m)
      ensures OnWay(lo, n, PathOf(x))
    {
      OnWayFrom(lo, n, x, m);
    }
    if OnWay(lo, n, PathOf(x)) {
      var j :| 0 <= j < n && PageAt(lo, j) == PathOf(x);
      var a := lo + 4096 * j;
      SamePath(a, x);
      var m := AliasOf(a, x);
      assert Aliases(lo, n, x, m);
    }
  }

  /** The m-th alias of address x lies in the range. */
  predicate Aliases(lo: nat, n: nat, x: nat, m: nat) {
    lo <= x + 0x1_0000_0000_0000 * m < lo + 4096 * n
  }

  lemma AliasOf(a: nat, x: nat) returns (m: nat)
    requires a % 4096 == 0 && x < USER_LIMIT && Number(a) == Number(x)
    ensures a <= x + 0x1_0000_0000_0000 * m < a + 4096
  {
    var n := a / 4096;
    m := n / PERIOD;
    assert n == PERIOD * m + n % PERIOD;
    assert x / 4096 % PERIOD == x / 4096;
  }

  /** Below 2^48 a range means its own addresses only. */
  lemma OnWayPlain(lo: nat, n: nat, x: nat)
    requires lo % 4096 == 0 && x < USER_LIMIT && lo + 4096 * n <= 0x1_0000_0000_0000
    ensures OnWay(lo, n, PathOf(x)) <==> lo <= x < lo + 4096 * n
  {
    hide PathOf, OnWay;
    OnWayExact(lo, n, x);
    if lo <= x < lo + 4096 * n {
      assert Aliases(lo, n, x, 0);
    }
    forall m: nat | Aliases(lo, n, x, m)
      ensures m == 0
    {
    }
  }

  /** A range of the user half has user pages only. */
  lemma UserRange(s: Sys, i: nat, lo: nat, n: nat)
    requires i < |s.procs| && s.procs[i].Alive? && Frames.Valid(s.pmm) && lo + 4096 * n <= USER_LIMIT
    ensures MayUnmap(s, i, lo, n)
  {
    hide PathOf, Harmless, Dry, Frames.Valid;
    forall j | 0 <= j < n
      ensures UserPath(PageAt(lo, j))
    {
      PageBase(lo + 4096 * j);
    }
  }

  lemma PassesNext(us: seq<Sys>, ext: seq<nat>, k: Kern, i: nat, lo: nat, v: Sys, s': Sys)
    requires Passes(us, ext, k, i, lo)
    requires var u := us[|us| - 1]; Good(u, ext, k) ==> Clears(u, i, PageAt(lo, |us| - 1), v, s')
    ensures Passes(us + [s'], ext, k, i, lo)
  {
    hide Good, Clears, PageAt;
    var n := |us| - 1;
    forall j | 0 <= j < |us| && Good((us + [s'])[j], ext, k)
      ensures StepsTo((us + [s'])[j], i, PageAt(lo, j), (us + [s'])[j + 1])
    {
      if j < n {
        assert StepsTo(us[j], i, PageAt(lo, j), us[j + 1]);
      }
    }
  }

  /** Good states all the way are a chain of cleared pages. */
  lemma {:induction false} PassClears(us: seq<Sys>, ext: seq<nat>, k: Kern, i: nat, lo: nat, n: nat)
    requires Passes(us, ext, k, i, lo) && n < |us| && forall j :: 0 <= j <= n ==> Good(us[j], ext, k)
    ensures ClearsTo(us[0], i, lo, n, us[n])
    decreases n
  {
    hide Good, Clears, PageAt, ClearsTo, Passes;
    if n == 0 {
      ClearsNone(us[0], i, lo);
    } else {
      PassClears(us, ext, k, i, lo, n - 1);
      var v := StepOf(us, ext, k, i, lo, n - 1);
      ClearsNext(us[0], i, lo, n - 1, us[n - 1], v, us[n]);
    }
  }
}
