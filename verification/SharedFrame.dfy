/** A system in which two processes hold one frame copy-on-write, and what sys_mprotect does to it. */
module SharedFrame {
  import opened Options
  import opened Bits
  import opened Frames
  import opened PageTable
  import opened Cloning
  import opened Mapping
  import opened TableWalk
  import opened AddressSpace
  import opened Vma
  import opened CopyOnWrite
  import opened Rights
  import opened Permissions
  import opened KernelHalf
  import opened Clearing
  import opened MemoryCalls
  import opened Kernel

  const TABLE_FLAGS := NO_FLAGS.(present := true, user := true, writable := true)
  const PAGE_FLAGS := NO_FLAGS.(present := true, user := true)

  /** A table with one entry. */
  function Only(k: Index, e: Pte): (t: Table)
    ensures t[k] == e && forall j :: 0 <= j < ENTRIES && j != k ==> t[j] == ABSENT
  {
    EmptyTable()[k := e]
  }

  /** The first n entries of a table are those of Only. */
  ghost predicate Holds(mem: Memory, f: nat, n: nat, k: Index, e: Pte)
    requires n <= ENTRIES
  {
    forall j :: 0 <= j < n ==> TableOf(mem, f)[j] == if j == k then e else ABSENT
  }

  /** A user half with one page, at address 4096. */
  ghost predicate Line(mem: Memory, root: nat, a: nat, b: nat, c: nat, page: nat) {
    && Holds(mem, root, USER_ENTRIES, 0, Pte(a, TABLE_FLAGS)) && Holds(mem, a, ENTRIES, 0, Pte(b, TABLE_FLAGS))
    && Holds(mem, b, ENTRIES, 0, Pte(c, TABLE_FLAGS)) && Holds(mem, c, ENTRIES, 1, Pte(page, PAGE_FLAGS))
  }

  lemma {:induction false} OnlyRefs(mem: Memory, f: nat, level: nat, n: nat, g: nat, k: Index, e: Pte)
    requires n <= ENTRIES && Holds(mem, f, n, k, e)
    ensures RefsUpTo(mem, f, level, n, g) == if k < n then EntryRefs(mem, e, level, g) else 0
    decreases n
  {
    hide TableOf;
    if n > 0 {
      OnlyRefs(mem, f, level, n - 1, g, k, e);
    }
  }

  function One(x: nat, g: nat): nat { if x == g then 1 else 0 }

  lemma TableRefs(mem: Memory, f: nat, level: nat, g: nat)
    requires level > 1
    ensures EntryRefs(mem, Pte(f, TABLE_FLAGS), level, g) == One(f, g) + RefsUpTo(mem, f, level - 1, ENTRIES, g)
  {
  }

  lemma LineRefs(mem: Memory, root: nat, a: nat, b: nat, c: nat, page: nat, g: nat)
    requires Line(mem, root, a, b, c, page)
    ensures SpaceRefs(mem, root, g) == One(root, g) + One(a, g) + One(b, g) + One(c, g) + One(page, g)
  {
    hide Holds, RefsUpTo;
    OnlyRefs(mem, root, 4, USER_ENTRIES, g, 0, Pte(a, TABLE_FLAGS));
    TableRefs(mem, a, 4, g);
    OnlyRefs(mem, a, 3, ENTRIES, g, 0, Pte(b, TABLE_FLAGS));
    TableRefs(mem, b, 3, g);
    OnlyRefs(mem, b, 2, ENTRIES, g, 0, Pte(c, TABLE_FLAGS));
    TableRefs(mem, c, 2, g);
    OnlyRefs(mem, c, 1, ENTRIES, g, 1, Pte(page, PAGE_FLAGS));
  }

  lemma OnlySound(mem: Memory, tables: set<nat>, f: nat, level: nat, n: nat, k: Index, e: Pte)
    requires n <= ENTRIES && Holds(mem, f, n, k, e) && EntrySound(mem, tables, e, level)
    ensures Sound(mem, tables, f, level, n)
  {
    hide TableOf;
  }

  lemma LineSound(mem: Memory, tables: set<nat>, root: nat, a: nat, b: nat, c: nat, page: nat)
    requires Line(mem, root, a, b, c, page) && a in tables && b in tables && c in tables
    ensures Sound(mem, tables, root, 4, USER_ENTRIES) && TopClear(mem, root)
  {
    hide TableOf, Sound;
    OnlySound(mem, tables, c, 1, ENTRIES, 1, Pte(page, PAGE_FLAGS));
    OnlySound(mem, tables, b, 2, ENTRIES, 0, Pte(c, TABLE_FLAGS));
    OnlySound(mem, tables, a, 3, ENTRIES, 0, Pte(b, TABLE_FLAGS));
    OnlySound(mem, tables, root, 4, USER_ENTRIES, 0, Pte(a, TABLE_FLAGS));
  }

  lemma OnlyWalk(mem: Memory, f: nat, n: nat, k: Index, e: Pte, p: Path)
    requires n <= ENTRIES && Holds(mem, f, n, k, e) && p[0] < n && e.Present() && !e.flags.huge
    ensures p[0] != k ==> Walk(mem, f, p) == None
    ensures p[0] == k ==> Walk(mem, f, p) == if |p| == 1 then Some(e) else Walk(mem, e.frame, p[1..])
  {
    hide TableOf;
  }

  const PAGE_PATH: Path := [0, 0, 0, 1]

  lemma LineWalk(mem: Memory, root: nat, a: nat, b: nat, c: nat, page: nat, p: Path)
    requires Line(mem, root, a, b, c, page) && UserPath(p)
    ensures Walk(mem, root, p) == if p == PAGE_PATH then Some(Pte(page, PAGE_FLAGS)) else None
  {
    hide Holds, Walk;
    OnlyWalk(mem, root, USER_ENTRIES, 0, Pte(a, TABLE_FLAGS), p);
    OnlyWalk(mem, a, ENTRIES, 0, Pte(b, TABLE_FLAGS), p[1..]);
    OnlyWalk(mem, b, ENTRIES, 0, Pte(c, TABLE_FLAGS), p[2..]);
    OnlyWalk(mem, c, ENTRIES, 1, Pte(page, PAGE_FLAGS), p[3..]);
    assert p[1..][1..] == p[2..] && p[2..][1..] == p[3..];
  }

  lemma OnlyLink(mem: Memory, f: nat, level: nat, n: nat, k: Index, a: nat, v: seq<Index>)
    requires n <= ENTRIES && Holds(mem, f, n, k, Pte(a, TABLE_FLAGS)) && v != [] && v[0] < n && level > 1
    ensures Link(mem, f, level, v) ==
            if v[0] != k then None else if |v| == 1 then Some(TABLE_FLAGS) else Link(mem, a, level - 1, v[1..])
  {
    hide TableOf;
  }

  /** User code can reach the page. */
  lemma LineReachable(mem: Memory, root: nat, a: nat, b: nat, c: nat, page: nat)
    requires Line(mem, root, a, b, c, page)
    ensures Reachable(mem, root)
  {
    hide Holds, Walk, Link;
    forall v: seq<Index> | Inner(v, USER_ENTRIES) && v != []
      ensures Link(mem, root, 4, v) in {None, Some(TABLE_FLAGS)}
    {
      OnlyLink(mem, root, 4, USER_ENTRIES, 0, a, v);
      if |v| > 1 {
        OnlyLink(mem, a, 3, ENTRIES, 0, b, v[1..]);
        if |v| > 2 {
          OnlyLink(mem, b, 2, ENTRIES, 0, c, v[1..][1..]);
        }
      }
    }
    forall p: Path | UserPath(p)
      ensures Walk(mem, root, p) in {None, Some(Pte(page, PAGE_FLAGS))}
    {
      LineWalk(mem, root, a, b, c, page, p);
    }
  }

  // ---------- The system ----------

  const FRAMES: nat := 11

  function Counts(): (rc: seq<nat>)
    ensures |rc| == FRAMES
  {
    [1, 1, 1, 1, 1, 2, 1, 1, 1, 1, 1]
  }

  /** The kernel holds frame 0 and its own top-level table. */
  function Own(): (ext: seq<nat>)
    ensures |ext| == FRAMES
  {
    [1, 0, 0, 0, 0, 0, 0, 0, 0, 0, 1]
  }

  function Tree(): (mem: Memory)
    ensures |mem| == FRAMES
  {
    [EmptyTable(),
     Only(0, Pte(2, TABLE_FLAGS)), Only(0, Pte(3, TABLE_FLAGS)), Only(0, Pte(4, TABLE_FLAGS)),
     Only(1, Pte(5, PAGE_FLAGS)),
     EmptyTable(),
     Only(0, Pte(7, TABLE_FLAGS)), Only(0, Pte(8, TABLE_FLAGS)), Only(0, Pte(9, TABLE_FLAGS)),
     Only(1, Pte(5, PAGE_FLAGS)),
     EmptyTable()]
  }

  function Areas(): seq<Area> {
    [SENTINEL, Area(4096, 8192, PAGE_FLAGS.(writable := true), Data, false)]
  }

  function Procs(): (ps: seq<Proc>)
    ensures |ps| == 2
  {
    [Alive(1, Areas()), Alive(6, Areas())]
  }

  function Used(): (u: seq<bool>)
    ensures |u| == FRAMES && forall f :: 0 <= f < FRAMES ==> u[f]
  {
    seq(FRAMES, _ => true)
  }

  function Both(): Sys {
    Sys(Pmm(Used(), Counts(), 0, 0, FRAMES - 1), Tree(), seq(FRAMES, _ => ZeroPage()), Procs())
  }

  /** A kernel half with nothing in it. */
  function Empty(): Kern {
    Kern(Tree(), 10, {10})
  }

  lemma EmptyShaped()
    ensures Shaped(Empty())
  {
    hide Only;
  }

  lemma BothGood()
    ensures Good(Both(), Own(), Empty())
  {
    hide Inv, Shaped, Only, Areas, Line, Reachable;
    BothInv();
    EmptyShaped();
    TwoLines();
    LineReachable(Tree(), 1, 2, 3, 4, 5);
    LineReachable(Tree(), 6, 7, 8, 9, 5);
  }

  lemma TwoLines()
    ensures Line(Tree(), 1, 2, 3, 4, 5) && Line(Tree(), 6, 7, 8, 9, 5)
  {
    hide Only, EmptyTable;
  }

  lemma FullPmm()
    ensures Frames.Valid(Both().pmm)
  {
    ClearCountFull(Used());
  }

  lemma {:induction false} ClearCountFull(u: seq<bool>)
    requires forall f :: 0 <= f < |u| ==> u[f]
    ensures ClearCount(u) == 0
  {
    if u != [] {
      ClearCountFull(u[..|u| - 1]);
    }
  }

  lemma TwoProcs(mem: Memory, p: Proc, q: Proc, g: nat)
    ensures TotalRefs(mem, [p, q], g) == ProcRefs(mem, p, g) + ProcRefs(mem, q, g)
  {
    hide ProcRefs;
    assert [p, q][..1] == [p] && [p][..0] == [];
    assert TotalRefs(mem, [p], g) == TotalRefs(mem, [], g) + ProcRefs(mem, p, g);
  }

  /** Every reference is the kernel's or comes from one of the two address spaces. */
  lemma Refs(g: nat)
    requires 0 < g < FRAMES
    ensures Counts()[g] == Own()[g] + TotalRefs(Tree(), Procs(), g)
  {
    hide Tree, SpaceRefs, Line, Areas, TotalRefs;
    TwoLines();
    LineRefs(Tree(), 1, 2, 3, 4, 5, g);
    LineRefs(Tree(), 6, 7, 8, 9, 5, g);
    TwoProcs(Tree(), Alive(1, Areas()), Alive(6, Areas()), g);
  }

  lemma AreasFind()
    ensures AreasOk(Areas()) && Find(Areas(), 4096) == Some(Areas()[1]) && !SharedAt(Areas(), 4096)
  {
    assert Areas()[1..] == [Areas()[1]];
  }

  lemma Pages(i: nat, p: Path)
    requires i < 2 && UserPath(p)
    ensures Walk(Tree(), Procs()[i].root, p) == if p == PAGE_PATH then Some(Pte(5, PAGE_FLAGS)) else None
    ensures PageOk(Both(), Procs()[i], p)
  {
    hide Tree, Line, Walk, Areas;
    TwoLines();
    AreasFind();
    LineWalk(Tree(), 1, 2, 3, 4, 5, p);
    LineWalk(Tree(), 6, 7, 8, 9, 5, p);
    assert AddrOf(PAGE_PATH) == 4096;
  }

  lemma Space(i: nat)
    requires i < 2
    ensures ProcSound(Both(), Procs()[i])
  {
    hide Tree, Line, Areas, Sound, TopClear, AreasOk;
    TwoLines();
    AreasFind();
    LineSound(Tree(), Singles(Counts()), 1, 2, 3, 4, 5);
    LineSound(Tree(), Singles(Counts()), 6, 7, 8, 9, 5);
  }

  /** Two processes hold frame 5 as the page at address 4096; neither may write it. */
  lemma BothInv()
    ensures Inv(Both(), Own())
  {
    hide Tree, Line, Areas, Walk, ProcSound, PageOk, Frames.Valid, TotalRefs;
    var s := Both();
    FullPmm();
    forall g | 0 < g < FRAMES
      ensures s.pmm.rc[g] == Own()[g] + TotalRefs(s.mem, s.procs, g)
    {
      Refs(g);
    }
    forall i | 0 <= i < 2
      ensures ProcSound(s, s.procs[i])
    {
      Space(i);
    }
    forall i, p: Path | 0 <= i < 2 && UserPath(p)
      ensures Walk(s.mem, s.procs[i].root, p) == if p == PAGE_PATH then Some(Pte(5, PAGE_FLAGS)) else None
      ensures PageOk(s, s.procs[i], p)
    {
      Pages(i, p);
    }
  }

  lemma PageMappedAt(s: Sys, i: nat)
    requires s == Both() && i < 2
    ensures AllMapped(s, i, 4096, 8192)
  {
    hide Tree, Line, Areas, Walk, PageOk, PathOf;
    forall x: nat | 4096 <= x < 8192
      ensures Walk(s.mem, s.procs[i].root, PathOf(x)).Some?
    {
      OnePage(x, 4096);
      PathAddr(PAGE_PATH);
      Pages(i, PAGE_PATH);
    }
  }

  lemma FirstPath()
    ensures PathOf(4096) == PAGE_PATH
  {
  }

  lemma Before()
    ensures Inv(Both(), Own()) && Private(Both(), 1, 4096) && Gets(Both(), 1, 4096, 0)
  {
    hide Inv, Tree, Walk, Areas, SharedAt, PageOk;
    BothInv();
    AreasFind();
    FirstPath();
    Pages(1, PAGE_PATH);
  }

  /** After sys_mprotect the first process can write the page. */
  lemma After(mid: Sys, s: Sys)
    requires Protects(Both(), 0, 4096, 1, true, false, mid, s)
    ensures exists s' :: Writes(s, 0, 4096, 7, s')
  {
    hide Inv, Intact, Rightful, Access, Tree, Walk, Areas, PathOf, Owned, ReflagsTo, Retagged, AllMapped, PageOk;
    BothGood();
    InvOwned(Both(), Own(), 0);
    ReflagRange(Both(), 0, 4096, 1, ProtFlags(true, false), mid);
    FirstPath();
    StillReached(mid);
    AccessIsPage(mid, 0, PAGE_PATH);
    Pages(0, PAGE_PATH);
    var page := s.ram[5];
    var s' := s.(ram := s.ram[5 := page[0 := 7]]);
    assert Writes(s, 0, 4096, 7, s');
  }

  lemma StillReached(mid: Sys)
    requires ReflagsTo(Both(), 0, 4096, 1, ProtFlags(true, false), mid)
    ensures Rightful(mid)
  {
    hide Inv, Intact, Rightful, Tree, Walk, Areas, PathOf, MapsPage;
    BothGood();
    var u := ReflagsLast(Both(), 0, 4096, 1, ProtFlags(true, false), mid);
    var p := PathOf(4096);
    MapRights(u, Own(), 0, p, Pte(Walk(u.mem, u.procs[0].root, p).value.frame, ProtFlags(true, false)), mid);
  }

  lemma OtherReads(mid: Sys, s: Sys, b: Byte, s': Sys)
    requires Protects(Both(), 0, 4096, 1, true, false, mid, s) && Writes(s, 0, 4096, b, s')
    ensures Private(s', 1, 4096) && Gets(s', 1, 4096, b)
  {
    hide Inv, Tree, Walk, Areas, PathOf, SharedAt, Protects, Writes, PageOk, Read;
    Before();
    FirstPath();
    Pages(0, PAGE_PATH);
    Pages(1, PAGE_PATH);
    ProtectShares(Both(), Own(), 0, 4096, false, mid, s, b, s', 1, 4096);
  }

  /** A run of the machine: the first process asks sys_mprotect for write access to its page, and from then
      on the other process reads what the first one writes there. */
  method LosesIsolation() returns (m: Machine, ghost before: Sys)
    ensures Inv(before, Own()) && Private(before, 1, 4096) && Gets(before, 1, 4096, 0)
    ensures exists mid :: Protects(before, 0, 4096, 1, true, false, mid, m.View())
    ensures exists s' :: Writes(m.View(), 0, 4096, 7, s')
    ensures forall b: Byte, s' :: Writes(m.View(), 0, 4096, b, s') ==> Private(s', 1, 4096) && Gets(s', 1, 4096, b)
  {
    hide Inv, Intact, Both, Own, Tree, Procs, Frames.Valid, AllMapped, Protects, Writes, Gets, Private, MayProtect;
    before := Both();
    Before();
    FullPmm();
    m := Start();
    PageMappedAt(before, 0);
    ghost var mid;
    var r;
    r, mid := m.Mprotect(0, 4096, 4096, true, false, Own());
    ghost var s := m.View();
    After(mid, s);
    forall b: Byte, s' | Writes(s, 0, 4096, b, s')
      ensures Private(s', 1, 4096) && Gets(s', 1, 4096, b)
    {
      OtherReads(mid, s, b, s');
    }
  }

  method Start() returns (m: Machine)
    ensures fresh(m) && fresh(m.t) && m.View() == Both() && m.Ok(Own()) && |m.procs| == 2 && m.procs[0].Alive?
  {
    hide Inv, Intact, Tree, Frames.Valid;
    BothGood();
    FullPmm();
    var t := new Tables(Pmm(Used(), Counts(), 0, 0, FRAMES - 1), Tree(), 10);
    m := new Machine(t, seq(FRAMES, _ => ZeroPage()), Procs(), Empty());
  }
}
