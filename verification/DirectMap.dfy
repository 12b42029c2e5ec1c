/** A system whose kernel half maps all of memory, as the boot loader leaves it, and what munmap does to it. */
module DirectMap {
  import opened Options
  import opened Frames
  import opened PageTable
  import opened Cloning
  import opened Mapping
  import opened TableWalk
  import opened AddressSpace
  import opened Vma
  import opened CopyOnWrite
  import opened Rights
  import opened Permissions
  import opened KernelHalf
  import opened Clearing
  import opened MemoryCalls
  import opened Kernel
  import opened SharedFrame

  /** Frame f is at DIRECT + 4096 * f. */
  const DIRECT: nat := 0xFFFF_8000_0000_0000

  const KERNEL_FLAGS := NO_FLAGS.(present := true, writable := true)
  const LARGE_FLAGS := KERNEL_FLAGS.(huge := true)

  const SIZE: nat := 10

  /** Two address spaces; only the second, with root 1, has a page: frame 5. The kernel half is one 2 MiB page in the
      tables 7, 8 and 9. */
  function Layout(): (mem: Memory)
    ensures |mem| == SIZE
  {
    [EmptyTable(),
     Only(0, Pte(2, TABLE_FLAGS))[USER_ENTRIES := Pte(8, KERNEL_FLAGS)],
     Only(0, Pte(3, TABLE_FLAGS)), Only(0, Pte(4, TABLE_FLAGS)), Only(1, Pte(5, PAGE_FLAGS)),
     EmptyTable(),
     Only(USER_ENTRIES, Pte(8, KERNEL_FLAGS)),
     Only(USER_ENTRIES, Pte(8, KERNEL_FLAGS)), Only(0, Pte(9, KERNEL_FLAGS)), Only(0, Pte(0, LARGE_FLAGS))]
  }

  /** The kernel's tables are reserved: nobody counts them. */
  function Held(): (rc: seq<nat>)
    ensures |rc| == SIZE
  {
    [1, 1, 1, 1, 1, 1, 1, 0, 0, 0]
  }

  function Kernels(): (ext: seq<nat>)
    ensures |ext| == SIZE
  {
    [1, 0, 0, 0, 0, 0, 0, 0, 0, 0]
  }

  function Full(): (u: seq<bool>)
    ensures |u| == SIZE && forall f :: 0 <= f < SIZE ==> u[f]
  {
    seq(SIZE, _ => true)
  }

  function Users(): (ps: seq<Proc>)
    ensures |ps| == 2
  {
    [Alive(6, [SENTINEL]), Alive(1, Areas())]
  }

  function System(): Sys {
    Sys(Pmm(Full(), Held(), 0, 0, SIZE - 1), Layout(), seq(SIZE, _ => ZeroPage()), Users())
  }

  function Half(): Kern {
    Kern(Layout(), 7, {7, 8, 9})
  }

  // ---------- The kernel half ----------

  lemma OnlyTable(mem: Memory, f: nat, lo: nat, k: Index, e: Pte, level: nat, q: seq<Index>)
    requires Above(mem, f, lo, k, e) && q != [] && lo <= q[0] && e.Present()
    ensures TableAt(mem, f, level, q) ==
            if q[0] == k && level > 1 && !Huge(e, level) then TableAt(mem, e.frame, level - 1, q[1..]) else None
  {
    hide TableOf;
  }

  /** The entries from lo on are those of Only. */
  ghost predicate Above(mem: Memory, f: nat, lo: nat, k: Index, e: Pte) {
    forall j :: lo <= j < ENTRIES ==> TableOf(mem, f)[j] == if j == k then e else ABSENT
  }

  /** Both address spaces and the kernel's own have this kernel half. */
  lemma Halves(root: nat)
    requires root == 1 || root == 6 || root == 7
    ensures Above(Layout(), root, USER_ENTRIES, USER_ENTRIES, Pte(8, KERNEL_FLAGS))
    ensures Above(Layout(), 8, 0, 0, Pte(9, KERNEL_FLAGS)) && Above(Layout(), 9, 0, 0, Pte(0, LARGE_FLAGS))
  {
    hide Only, EmptyTable;
  }

  lemma HalfTable(root: nat, q: seq<Index>)
    requires (root == 1 || root == 6 || root == 7) && Upper(q)
    ensures TableAt(Layout(), root, 4, q) ==
            if q == [USER_ENTRIES] then Some(8) else if q == [USER_ENTRIES, 0] then Some(9) else None
  {
    hide Layout, Above, TableOf;
    Halves(root);
    OnlyTable(Layout(), root, USER_ENTRIES, USER_ENTRIES, Pte(8, KERNEL_FLAGS), 4, q);
    if |q| > 1 {
      OnlyTable(Layout(), 8, 0, 0, Pte(9, KERNEL_FLAGS), 3, q[1..]);
      if |q| > 2 {
        OnlyTable(Layout(), 9, 0, 0, Pte(0, LARGE_FLAGS), 2, q[1..][1..]);
      }
    }
  }

  /** Page n of the 2 MiB page is frame n. */
  lemma HalfWalk(root: nat, p: Path)
    requires (root == 1 || root == 6 || root == 7) && KernelPath(p)
    ensures !TopMarked(Layout(), root, p)
    ensures Walk(Layout(), root, p) ==
            if p[..3] == [USER_ENTRIES, 0, 0] then Some(Pte(p[3], KERNEL_FLAGS)) else None
  {
    hide Layout, TableOf;
    Halves(root);
    var e4 := TableOf(Layout(), root)[p[0]];
    assert p[1..][1..] == p[2..] && p[..3] == [p[0], p[1], p[2]];
    assert e4.Present() ==> Walk(Layout(), root, p) == WalkEntry(Layout(), TableOf(Layout(), 8)[p[1]], p[1..]);
    assert e4.Present() && p[1] == 0 ==>
        WalkEntry(Layout(), TableOf(Layout(), 8)[p[1]], p[1..]) ==
        WalkEntry(Layout(), TableOf(Layout(), 9)[p[2]], p[2..]);
  }

  lemma HalfShaped()
    ensures Shaped(Half())
  {
    hide Layout, TableAt, Walk, TopMarked;
    forall q: seq<Index> | Upper(q)
      ensures TableAt(Layout(), 7, 4, q) ==
              if q == [USER_ENTRIES] then Some(8) else if q == [USER_ENTRIES, 0] then Some(9) else None
    {
      HalfTable(7, q);
    }
    forall p: Path | KernelPath(p)
      ensures !TopMarked(Layout(), 7, p)
      ensures Walk(Layout(), 7, p).Some? ==> TableAt(Layout(), 7, 4, p[..2]).Some?
    {
      HalfWalk(7, p);
      if p[..3] == [USER_ENTRIES, 0, 0] {
        assert p[..2] == p[..3][..2] == [USER_ENTRIES, 0];
      }
    }
  }

  // ---------- The books ----------

  lemma UserHalves()
    ensures Line(Layout(), 1, 2, 3, 4, 5) && (forall j :: 0 <= j < USER_ENTRIES ==> TableOf(Layout(), 6)[j] == ABSENT)
  {
    hide EmptyTable;
  }

  lemma {:induction false} EmptyRefs(mem: Memory, f: nat, level: nat, n: nat, g: nat)
    requires n <= ENTRIES && forall j :: 0 <= j < n ==> TableOf(mem, f)[j] == ABSENT
    ensures RefsUpTo(mem, f, level, n, g) == 0
    decreases n
  {
    hide TableOf;
    if n > 0 {
      EmptyRefs(mem, f, level, n - 1, g);
    }
  }

  lemma Balance(g: nat)
    requires 0 < g < SIZE
    ensures Held()[g] == Kernels()[g] + TotalRefs(Layout(), Users(), g)
  {
    hide Layout, RefsUpTo, Line, Areas, TotalRefs;
    UserHalves();
    EmptyRefs(Layout(), 6, 4, USER_ENTRIES, g);
    LineRefs(Layout(), 1, 2, 3, 4, 5, g);
    TwoProcs(Layout(), Users()[0], Users()[1], g);
  }

  lemma UserPages(i: nat, p: Path)
    requires i < 2 && UserPath(p)
    ensures Walk(Layout(), Users()[i].root, p) == if i == 1 && p == PAGE_PATH then Some(Pte(5, PAGE_FLAGS)) else None
    ensures PageOk(System(), Users()[i], p)
  {
    hide Layout, Line, Areas;
    UserHalves();
    AreasFind();
    LineWalk(Layout(), 1, 2, 3, 4, 5, p);
    assert AddrOf(PAGE_PATH) == 4096;
  }

  lemma UserSpaces(i: nat)
    requires i < 2
    ensures ProcSound(System(), Users()[i])
  {
    hide Layout, Line, Areas, TableOf;
    UserHalves();
    AreasFind();
    LineSound(Layout(), Singles(Held()), 1, 2, 3, 4, 5);
  }

  lemma SystemFull()
    ensures Frames.Valid(System().pmm)
  {
    ClearCountFull(Full());
  }

  lemma SystemInv()
    ensures Inv(System(), Kernels())
  {
    hide Layout, Line, Areas, Walk, ProcSound, PageOk, Frames.Valid, TotalRefs;
    var s := System();
    SystemFull();
    forall g | 0 < g < SIZE
      ensures s.pmm.rc[g] == Kernels()[g] + TotalRefs(s.mem, s.procs, g)
    {
      Balance(g);
    }
    forall i | 0 <= i < 2
      ensures ProcSound(s, s.procs[i])
    {
      UserSpaces(i);
    }
    forall i, p: Path | 0 <= i < 2 && UserPath(p)
      ensures Walk(s.mem, s.procs[i].root, p) == if i == 1 && p == PAGE_PATH then Some(Pte(5, PAGE_FLAGS)) else None
      ensures PageOk(s, s.procs[i], p)
    {
      UserPages(i, p);
    }
  }

  lemma NoneReachable(mem: Memory, root: nat)
    requires forall j :: 0 <= j < USER_ENTRIES ==> TableOf(mem, root)[j] == ABSENT
    ensures Reachable(mem, root)
  {
    hide TableOf;
  }

  lemma SystemReached()
    ensures Rightful(System())
  {
    hide Layout, Line, Areas, Reachable;
    UserHalves();
    LineReachable(Layout(), 1, 2, 3, 4, 5);
    NoneReachable(Layout(), 6);
  }

  lemma SystemGood()
    ensures Good(System(), Kernels(), Half())
  {
    hide Inv, Shaped, Areas, Layout, Above, Rightful;
    SystemInv();
    SystemReached();
    HalfShaped();
    Halves(1);
    Halves(6);
    Halves(7);
    forall i | 0 <= i < 2
      ensures SameTop(Half(), Layout(), Users()[i].root)
    {
      SameHalf(Users()[i].root);
    }
  }

  lemma SameHalf(root: nat)
    requires Above(Layout(), root, USER_ENTRIES, USER_ENTRIES, Pte(8, KERNEL_FLAGS))
    ensures SameTop(Half(), Layout(), root)
  {
    hide Layout, TableOf;
    Halves(7);
  }

  // ---------- munmap ----------

  lemma DirectPath()
    ensures PageAt(DIRECT + 4096 * 5, 0) == [USER_ENTRIES, 0, 0, 5]
  {
    var a := DIRECT + 4096 * 5;
    Quotient(a, 0x80_0000_0000, 0x1FF_FF00, 0x5000);
    Quotient(a, 0x4000_0000, 0x3_FFFE_0000, 0x5000);
    Quotient(a, 0x20_0000, 0x7FF_FC00_0000, 0x5000);
    Quotient(a, 0x1000, 0xF_FFF8_0000_0005, 0);
  }

  lemma Quotient(a: nat, d: nat, q: nat, r: nat)
    requires a == q * d + r && r < d
    ensures a / d == q
  {
    var k := a / d;
    assert d * (k - q) == d * k - d * q == r - a % d;
    Scaled(d, k - q);
  }

  lemma Scaled(d: int, x: int)
    ensures d >= 0 && x >= 1 ==> d * x >= d
    ensures d >= 0 && x <= -1 ==> d * x <= -d
  {
  }

  /** The frame is given back; nothing else happens. */
  lemma Freed(v: Sys, s': Sys)
    requires Clears(System(), 0, [USER_ENTRIES, 0, 0, 5], v, s') && Frames.Valid(System().pmm)
    ensures s' == System().(pmm := DecRef(System().pmm, 5))
  {
    hide Layout, Walk, DecRef, TableAt, Mapped, Frames.Valid, SameReserved, MapsPage;
    var p: Path := [USER_ENTRIES, 0, 0, 5];
    HalfWalk(6, p);
    HalfTable(6, p[..3]);
  }

  /** Frame f is the page of process j at address 4096. */
  ghost predicate HasPage(s: Sys, j: nat, f: nat) {
    j < |s.procs| && s.procs[j].Alive? && Walk(s.mem, s.procs[j].root, PAGE_PATH) == Some(Pte(f, PAGE_FLAGS))
  }

  lemma SecondHas()
    ensures HasPage(System(), 1, 5)
  {
    hide Walk, Layout, Areas;
    UserPages(1, PAGE_PATH);
  }

  /** A run of the machine: the first process, which has no page, asks munmap for the page of frame 5 in the kernel
      half. The frame is free, the next one to be handed out, and still a page of the second process. */
  method FreesForeign() returns (m: Machine, ghost before: Sys)
    ensures Good(before, Kernels(), Half()) && HasPage(before, 1, 5)
    ensures Frames.Valid(m.t.pmm) && AllocFrame(m.t.pmm).1 == 5 && HasPage(m.View(), 1, 5)
  {
    hide Good, Walk, Frames.Valid, Clears, Passes, MayUnmap, Cuts, Layout, Areas, AllocFrame, DecRef, PageAt;
    before := System();
    SystemGood();
    SystemFull();
    SecondHas();
    var t := new Tables(Pmm(Full(), Held(), 0, 0, SIZE - 1), Layout(), 7);
    m := new Machine(t, seq(SIZE, _ => ZeroPage()), Users(), Half());
    var ok;
    ghost var us;
    ok, us := m.Munmap(0, DIRECT + 4096 * 5, 4096, true, Kernels());
    FirstStep(us);
    OnlyFive(m.t.pmm);
  }

  lemma FirstStep(us: seq<Sys>)
    requires |us| == 2 && us[0] == System() && Frames.Valid(us[0].pmm) &&
             Passes(us, Kernels(), Half(), 0, DIRECT + 4096 * 5)
    ensures us[1] == System().(pmm := DecRef(System().pmm, 5))
  {
    hide Good, Clears, DecRef, PageAt, Layout;
    SystemGood();
    DirectPath();
    var v :| Clears(us[0], 0, PageAt(DIRECT + 4096 * 5, 0), v, us[1]);
    Freed(v, us[1]);
  }

  lemma OnlyFive(p: Pmm)
    requires Frames.Valid(System().pmm) && p == DecRef(System().pmm, 5)
    ensures Frames.Valid(p) && !p.used[5] && AllocFrame(p).1 == 5
  {
    hide AllocFrame;
    assert p.free == FRAME_SIZE;
    assert forall f :: 0 <= f < SIZE && f != 5 ==> p.used[f];
  }
}
