/** No page allows more than its area: what every step of the kernel keeps, but for one way of calling mprotect. */
module Protection {
  import opened Options
  import opened Frames
  import opened PageTable
  import opened Cloning
  import opened Mapping
  import opened TableWalk
  import opened Rights
  import opened Vma
  import opened AddressSpace
  import opened CopyOnWrite
  import opened Permissions
  import opened KernelHalf
  import opened Clearing
  import opened MemoryCalls
  import opened Kernel

  /** Where there are pages, the new list has the flags of the old one, or no area. */
  ghost predicate FlagsKept(s: Sys, i: nat, areas: seq<Area>)
    requires i < |s.procs| && s.procs[i].Alive?
  {
    forall p: Path :: UserPath(p) && Walk(s.mem, s.procs[i].root, p).Some? && Find(areas, AddrOf(p)).Some? ==>
      var v := Find(s.procs[i].areas, AddrOf(p));
      v.Some? && v.value.flags == Find(areas, AddrOf(p)).value.flags
  }

  lemma RelistPermits(s: Sys, i: nat, areas: seq<Area>, s': Sys)
    requires Permitted(s) && Relists(s, i, areas, s') && FlagsKept(s, i, areas)
    ensures Permitted(s')
  {
    hide Walk, Find, AddrOf;
    forall j, p: Path | 0 <= j < |s'.procs| && s'.procs[j].Alive? && UserPath(p)
      ensures PagePermitted(s'.mem, s'.procs[j], p)
    {
      assert PagePermitted(s.mem, s.procs[j], p);
    }
  }

  // ---------- munmap and mmap ----------

  lemma UnmapPermits(s: Sys, ext: seq<nat>, kern: Kern, i: nat, lo: nat, n: nat, s1: Sys, s': Sys)
    requires Good(s, ext, kern) && Frames.Valid(s.pmm) && Unmaps(s, i, lo, n, s1, s') && MayUnmap(s, i, lo, n)
    requires Permitted(s)
    ensures Permitted(s')
  {
    hide Good, Permitted, Walk, Cuts, ClearsTo, MayUnmap, OnWay, Frames.Valid, Dry, AddrOf, PathOf, Find;
    var areas := s.procs[i].areas;
    ClearRange(s, ext, kern, i, lo, n, s1);
    forall p: Path | UserPath(p)
      ensures Lookup(Cuts(areas, lo, lo + 4096 * n), AddrOf(p)) ==
              if lo <= AddrOf(p) < lo + 4096 * n then None else Lookup(areas, AddrOf(p))
    {
      CutsLookup(areas, lo, lo + 4096 * n, AddrOf(p));
    }
    RelistPermits(s1, i, Cuts(areas, lo, lo + 4096 * n), s');
  }

  lemma AddPermits(s: Sys, ext: seq<nat>, i: nat, v: Area, list: seq<Area>, s': Sys)
    requires Inv(s, ext) && Adds(s, i, v, list, s') && Permitted(s)
    ensures Permitted(s')
  {
    hide Inv, Permitted, Walk, Find, AddrOf, PathOf, Inserted, Kept, Vacant;
    AddKeepsInv(s, ext, i, v, list, s');
    forall p: Path | UserPath(p) && Walk(s.mem, s.procs[i].root, p).Some?
      ensures Find(list, AddrOf(p)) == Find(s.procs[i].areas, AddrOf(p))
    {
      PathAddr(p);
      InsertedFind(s.procs[i].areas, v, list, AddrOf(p));
    }
    RelistPermits(s, i, list, s');
  }

  lemma {:induction false} FillPermits(s: Sys, ext: seq<nat>, kern: Kern, i: nat, lo: nat, n: nat, s': Sys)
    requires Good(s, ext, kern) && i < |s.procs| && s.procs[i].Alive? && lo % 4096 == 0 && FillsTo(s, i, lo, n, s')
    requires Permitted(s)
    ensures Permitted(s')
    decreases n
  {
    hide Inv, Intact, Rightful, Faults, Permitted;
    if n > 0 {
      hide FillsTo;
      var u, w, nf := FillsLast(s, i, lo, n, s');
      FillPermits(s, ext, kern, i, lo, n - 1, u);
      FillGood(s, ext, kern, i, lo, n - 1, u);
      FaultRights(u, ext, i, lo + 4096 * (n - 1), Zeroed(nf), w, w, s');
    }
  }

  lemma MmapPermits(s: Sys, ext: seq<nat>, kern: Kern, i: nat, v: Area, list: seq<Area>, s1: Sys, s': Sys)
    requires Good(s, ext, kern) && Mmaps(s, i, v, list, s1, s') && Permitted(s)
    ensures Permitted(s')
  {
    hide Inv, Intact, Rightful, Permitted, FillsTo, Inserted, Kept, Vacant;
    AddPermits(s, ext, i, v, list, s1);
    AddGood(s, ext, kern, i, v, list, s1);
    FillPermits(s1, ext, kern, i, v.start, (v.end - v.start) / 4096, s');
  }

  lemma TriedPermits(s: Sys, ext: seq<nat>, kern: Kern, i: nat, v: Area, s1: Sys, t: Attempt, s': Sys)
    requires Good(s, ext, kern) && MmapFails(s, i, v, s1, t, s') && Permitted(s)
    ensures Permitted(t.cleared)
  {
    hide Inv, Intact, Rightful, Permitted, FillsTo, ClearsTo, Inserted, Kept, Vacant, Faults, MayUnmap, Cleared, Dry;
    AddPermits(s, ext, i, v, t.list, s1);
    AddGood(s, ext, kern, i, v, t.list, s1);
    FillPermits(s1, ext, kern, i, v.start, t.n, t.filled);
    FillGood(s1, ext, kern, i, v.start, t.n, t.filled);
    FaultRights(t.filled, ext, i, v.start + 4096 * t.n, t.c, t.w1, t.w2, t.tried);
    AttemptKeeps(s, ext, kern, i, v, s1, t, s');
    InvValid(t.tried, ext);
    UserRange(t.tried, i, v.start, t.n);
    ClearRange(t.tried, ext, kern, i, v.start, t.n, t.cleared);
  }

  lemma MmapFailPermits(s: Sys, ext: seq<nat>, kern: Kern, i: nat, v: Area, s1: Sys, t: Attempt, s': Sys)
    requires Good(s, ext, kern) && MmapFails(s, i, v, s1, t, s') && Permitted(s)
    ensures Permitted(s')
  {
    hide Inv, Intact, Rightful, Permitted, FillsTo, ClearsTo, Inserted, Kept, Vacant, Faults, Find, Walk, AddrOf,
      AreasOk, Cleared, Relistable;
    TriedPermits(s, ext, kern, i, v, s1, t, s');
    AttemptRelists(s, ext, kern, i, v, s1, t, s');
    InvAreas(s, ext, i);
    LeftAlike(s.procs[i].areas, t.left);
    forall p: Path | UserPath(p) && Find(t.left, AddrOf(p)).Some?
      ensures Find(t.list, AddrOf(p)) == Find(t.left, AddrOf(p))
    {
      InsertedFind(s.procs[i].areas, v, t.list, AddrOf(p));
      if v.start <= AddrOf(p) < v.end {
        VacantFind(s.procs[i].areas, v.start, v.end, AddrOf(p));
      }
    }
    RelistPermits(t.cleared, i, t.left, s');
  }

  // ---------- mprotect ----------

  /** sys_mprotect gives its flags to whole areas, but only to the pages of the range. What it would have to ask: no
      page beside the range, in an area that reaches into it, allows more than is asked for. */
  ghost predicate MayRetag(s: Sys, i: nat, lo: nat, n: nat, write: bool, exec: bool)
    requires i < |s.procs| && s.procs[i].Alive?
  {
    forall p: Path ::
      UserPath(p) && Walk(s.mem, s.procs[i].root, p).Some? && !(lo <= AddrOf(p) < lo + 4096 * n) &&
      Find(s.procs[i].areas, AddrOf(p)).Some? && Meets(Find(s.procs[i].areas, AddrOf(p)).value, lo, lo + 4096 * n) ==>
        Within(Walk(s.mem, s.procs[i].root, p).value.flags, ProtFlags(write, exec))
  }

  /** Pages of other processes keep their flags. */
  lemma {:induction false} ReflagOthers(s: Sys, ext: seq<nat>, i: nat, lo: nat, n: nat, flags: Flags, s': Sys, j: nat,
                                        p: Path)
    requires Inv(s, ext) && i < |s.procs| && s.procs[i].Alive? && lo % 4096 == 0 && lo + 4096 * n <= USER_LIMIT
    requires flags.present && !flags.huge && !flags.shared && ReflagsTo(s, i, lo, n, flags, s')
    requires MayProtect(s, i, lo, n, flags.writable)
    requires j < |s.procs| && j != i && s.procs[j].Alive? && UserPath(p)
    ensures Walk(s'.mem, s.procs[j].root, p) == Walk(s.mem, s.procs[j].root, p)
    decreases n
  {
    hide Inv, Walk, PathOf, HeldOnce, NoneShared, MapsPage, Read, Touches, PageSet;
    if n > 0 {
      hide ReflagsTo;
      var u := ReflagsLast(s, i, lo, n, flags, s');
      NoneSharedLess(s.procs[i].areas, lo, lo + 4096 * (n - 1), lo + 4096 * n);
      ReflagOthers(s, ext, i, lo, n - 1, flags, u, j, p);
      ProtectRange(s, ext, i, lo, n - 1, flags, u);
      var q := PathOf(lo + 4096 * (n - 1));
      var e := Pte(Walk(u.mem, u.procs[i].root, q).value.frame, flags);
      MapsTouches(u, ext, i, q, e, s');
      TouchPage(u, ext, i, q, LeafOf(e), s', j, p);
    }
  }

  /** The page of process i at p after mprotect, and its area. */
  lemma ProtectedPage(s: Sys, ext: seq<nat>, i: nat, lo: nat, n: nat, write: bool, exec: bool, s1: Sys, s': Sys,
                      p: Path)
    requires Inv(s, ext) && Protects(s, i, lo, n, write, exec, s1, s') && UserPath(p)
    ensures |s'.procs| == |s.procs| && s'.procs[i].Alive? && s'.procs[i].root == s.procs[i].root
    ensures var r := Walk(s.mem, s.procs[i].root, p);
            Walk(s'.mem, s.procs[i].root, p) ==
            if lo <= AddrOf(p) < lo + 4096 * n && r.Some? then Some(Pte(r.value.frame, ProtFlags(write, exec))) else r
    ensures var v := Find(s.procs[i].areas, AddrOf(p));
            Find(s'.procs[i].areas, AddrOf(p)) ==
            if v.Some? then Some(Retag(v.value, lo, lo + 4096 * n, ProtFlags(write, exec))) else None
  {
    hide Inv, Walk, PathOf, AddrOf, ReflagsTo, Retagged, Owned, AllMapped, Find, Retag;
    var flags := ProtFlags(write, exec);
    InvOwned(s, ext, i);
    ReflagRange(s, i, lo, n, flags, s1);
    ReflaggingProcs(s, i, lo, lo + 4096 * n, flags, s1);
    PathAddr(p);
    RetaggedFind(s.procs[i].areas, lo, lo + 4096 * n, flags, AddrOf(p));
  }

  /** mprotect leaves every page within its area if and only if no page beside the range allows more. */
  lemma ProtectPermits(s: Sys, ext: seq<nat>, i: nat, lo: nat, n: nat, write: bool, exec: bool, s1: Sys, s': Sys)
    requires Inv(s, ext) && Protects(s, i, lo, n, write, exec, s1, s') && MayProtect(s, i, lo, n, write)
    requires Permitted(s)
    ensures Permitted(s') <==> MayRetag(s, i, lo, n, write, exec)
  {
    hide Inv, Protects, Walk, AddrOf, Find, MayProtect;
    ProtectProcs(s, ext, i, lo, n, write, exec, s1, s');
    if MayRetag(s, i, lo, n, write, exec) {
      forall j, p: Path | 0 <= j < |s'.procs| && s'.procs[j].Alive? && UserPath(p)
        ensures PagePermitted(s'.mem, s'.procs[j], p)
      {
        assert PagePermitted(s.mem, s.procs[j], p);
        if j == i {
          ProtectedPage(s, ext, i, lo, n, write, exec, s1, s', p);
          HasAddress(s.procs[i].areas, AddrOf(p));
        } else {
          ProtectOthers(s, ext, i, lo, n, write, exec, s1, s', j, p);
        }
      }
    }
    if Permitted(s') {
      forall p: Path | UserPath(p) && Walk(s.mem, s.procs[i].root, p).Some? && !(lo <= AddrOf(p) < lo + 4096 * n)
        && Find(s.procs[i].areas, AddrOf(p)).Some?
        && Meets(Find(s.procs[i].areas, AddrOf(p)).value, lo, lo + 4096 * n)
        ensures Within(Walk(s.mem, s.procs[i].root, p).value.flags, ProtFlags(write, exec))
      {
        ProtectedPage(s, ext, i, lo, n, write, exec, s1, s', p);
        assert PagePermitted(s'.mem, s'.procs[i], p);
      }
    }
  }

  lemma ProtectProcs(s: Sys, ext: seq<nat>, i: nat, lo: nat, n: nat, write: bool, exec: bool, s1: Sys, s': Sys)
    requires Inv(s, ext) && Protects(s, i, lo, n, write, exec, s1, s')
    ensures i < |s.procs| == |s'.procs| && s.procs[i].Alive?
    ensures forall j :: 0 <= j < |s.procs| && j != i ==> s'.procs[j] == s.procs[j]
  {
    hide Inv, ReflagsTo, Retagged, AllMapped, Owned, Reflagging;
    InvOwned(s, ext, i);
    ReflagRange(s, i, lo, n, ProtFlags(write, exec), s1);
    ReflaggingProcs(s, i, lo, lo + 4096 * n, ProtFlags(write, exec), s1);
  }

  lemma {:induction false} HasAddress(list: seq<Area>, a: nat)
    ensures Find(list, a).Some? ==> Find(list, a).value.start <= a < Find(list, a).value.end
  {
    if list != [] {
      HasAddress(list[1..], a);
    }
  }

  lemma ProtectOthers(s: Sys, ext: seq<nat>, i: nat, lo: nat, n: nat, write: bool, exec: bool, s1: Sys, s': Sys, j: nat,
                      p: Path)
    requires Inv(s, ext) && Protects(s, i, lo, n, write, exec, s1, s') && MayProtect(s, i, lo, n, write)
    requires j < |s.procs| && j != i && s.procs[j].Alive? && UserPath(p)
    ensures Walk(s'.mem, s.procs[j].root, p) == Walk(s.mem, s.procs[j].root, p)
  {
    hide Inv, Walk, ReflagsTo, Retagged, AllMapped, HeldOnce, NoneShared;
    ReflagOthers(s, ext, i, lo, n, ProtFlags(write, exec), s1, j, p);
  }

  // ---------- Every step ----------

  /** Of the calls of mprotect, those that leave no page with more than its area. */
  ghost predicate Careful(c: Config, e: Event) {
    e.Mprotect? && e.i < |c.s.procs| && c.s.procs[e.i].Alive? ==> MayRetag(c.s, e.i, e.lo, e.n, e.write, e.exec)
  }

  lemma StepPermitted(c: Config, e: Event, c': Config)
    requires Good(c.s, c.ext, c.kern) && Step(c, e, c') && Permitted(c.s)
    ensures Permitted(c'.s) <==> Careful(c, e)
  {
    hide Inv, Intact, Rightful, Permitted, MayRetag, Spawns, Forks, ForkFails, Writes, Faults, Exits, Takes, Drops,
      Unmaps, Protects, MayProtect, Mmaps, MmapFails, MayUnmap, Frames.Valid, NewTopOf;
    var s, s', ext, kern := c.s, c'.s, c.ext, c.kern;
    match e {
      case Spawn(areas) => SpawnRights(s, ext, areas, s');
      case Fork(i) => ForkRights(s, ext, i, s');
      case ForkFail(i) => ForkFailRights(s, ext, i, s');
      case Write(i, a, b) => WritePermits(s, i, a, b, s');
      case PageFault(i, a) =>
        var f, s1, s2 :| Faults(s, i, a, f, s1, s2, s');
        FaultRights(s, ext, i, a, f, s1, s2, s');
      case Exit(i) => ExitPermits(s, i, s');
      case Mmap(i, v) =>
        var list, s1 :| Mmaps(s, i, v, list, s1, s');
        MmapPermits(s, ext, kern, i, v, list, s1, s');
      case MmapFail(i, v) =>
        var s1, t :| MmapFails(s, i, v, s1, t, s');
        MmapFailPermits(s, ext, kern, i, v, s1, t, s');
      case Munmap(i, lo, n) =>
        var s1 :| Unmaps(s, i, lo, n, s1, s');
        UnmapPermits(s, ext, kern, i, lo, n, s1, s');
      case Mprotect(i, lo, n, write, exec) =>
        var s1 :| Protects(s, i, lo, n, write, exec, s1, s');
        ProtectPermits(s, ext, i, lo, n, write, exec, s1, s');
        ProtectProcs(s, ext, i, lo, n, write, exec, s1, s');
      case Take(nf) =>
        var page :| Takes(s, nf, page, s');
        TakeRights(s, ext, nf, page, s');
      case Drop(f) => DropPermits(s, f, s');
    }
  }

  lemma WritePermits(s: Sys, i: nat, a: nat, b: Byte, s': Sys)
    requires Writes(s, i, a, b, s') && Rightful(s) && Permitted(s)
    ensures Permitted(s')
  {
    hide Rightful, Permitted;
    SameTablesRights(s, s');
  }

  lemma ExitPermits(s: Sys, i: nat, s': Sys)
    requires Exits(s, i, s') && Rightful(s) && Permitted(s)
    ensures Permitted(s')
  {
    hide Rightful, Permitted;
    SameTablesRights(s, s');
  }

  lemma DropPermits(s: Sys, f: nat, s': Sys)
    requires Drops(s, f, s') && Rightful(s) && Permitted(s)
    ensures Permitted(s')
  {
    hide Rightful, Permitted;
    SameTablesRights(s, s');
  }

  /** In every run, as long as mprotect is called with care, no process can write or execute a page whose area does not
      allow it. */
  lemma {:induction false} RunPermitted(cs: seq<Config>, es: seq<Event>)
    requires Run(cs, es) && Good(cs[0].s, cs[0].ext, cs[0].kern) && Permitted(cs[0].s)
    requires forall k :: 0 <= k < |es| ==> Careful(cs[k], es[k])
    ensures Good(cs[|es|].s, cs[|es|].ext, cs[|es|].kern) && Permitted(cs[|es|].s)
    decreases |es|
  {
    hide Good, Permitted, Careful, Step;
    if es != [] {
      var n := |es| - 1;
      RunPermitted(cs[..n + 1], es[..n]);
      StepPermitted(cs[n], es[n], cs[n + 1]);
      StepKeepsGood(cs[n], es[n], cs[n + 1]);
    }
  }

  lemma PermittedFromBoot(cs: seq<Config>, es: seq<Event>)
    requires Run(cs, es) && Boots(cs[0]) && Frames.Valid(cs[0].s.pmm)
    requires forall k :: 0 <= k < |es| ==> Careful(cs[k], es[k])
    ensures Permitted(cs[|es|].s)
  {
    hide Run, Good, Careful, Frames.Valid, Agrees;
    RunSize(cs, es);
    BootGood(cs[0]);
    RunPermitted(cs, es);
  }

  /** So a write of a process, anywhere in the run, goes to an area that is writable. */
  lemma WriteInArea(s: Sys, ext: seq<nat>, i: nat, a: nat, b: Byte, s': Sys)
    requires Inv(s, ext) && Permitted(s) && Writes(s, i, a, b, s')
    ensures var v := Find(s.procs[i].areas, a); v.Some? && v.value.flags.writable
  {
    hide Inv, Access, Walk, Find, AddrOf, PathOf;
    PageBase(a);
    AccessNarrows(s.mem, s.procs[i].root, PathOf(a));
    InvPage(s, ext, i, PathOf(a));
    assert PagePermitted(s.mem, s.procs[i], PathOf(a));
    InvAreas(s, ext, i);
    PrivatePage(s.procs[i].areas, a);
  }

  // ---------- Where mprotect loses it ----------

  /** The area mmap made is the only one in its range. */
  lemma OnlyNew(areas: seq<Area>, v: Area, list: seq<Area>, lo: nat, hi: nat)
    requires Vacant(areas, v.start, v.end) && Inserted(areas, v, list) && v.start <= lo && hi <= v.end &&
             v.kind != Shared
    ensures NoneShared(list, lo, hi)
  {
    var base := if areas == [] then [SENTINEL] else areas;
    var k :| 0 <= k <= |base| && list == base[..k] + [v] + base[k..];
    assert forall w :: w in list ==> w in base || w == v;
  }

  lemma NewRange(c: Config, i: nat, v: Area, c': Config, lo: nat, hi: nat)
    requires Good(c.s, c.ext, c.kern) && Step(c, Event.Mmap(i, v), c') && v.start <= lo && hi <= v.end
    ensures i < |c'.s.procs| && c'.s.procs[i].Alive? && NoneShared(c'.s.procs[i].areas, lo, hi)
  {
    hide Inv, Intact, Rightful, FillsTo, Inserted, Kept, Vacant, NoneShared;
    var list, s1 :| Mmaps(c.s, i, v, list, s1, c'.s);
    AddKeepsInv(c.s, c.ext, i, v, list, s1);
    FillRange(s1, c.ext, i, v.start, (v.end - v.start) / 4096, c'.s);
    OnlyNew(c.s.procs[i].areas, v, list, lo, hi);
  }

  /** The page behind the range can still be written; its area cannot. */
  lemma HalfProtected(s: Sys, ext: seq<nat>, i: nat, a: nat, s1: Sys, s': Sys)
    requires Inv(s, ext) && Protects(s, i, a, 1, false, false, s1, s') && a + 8192 <= USER_LIMIT
    requires var r, v := Walk(s.mem, s.procs[i].root, PathOf(a + 4096)), Find(s.procs[i].areas, a + 4096);
             && r.Some? && r.value.flags.writable && v.Some? && v == Find(s.procs[i].areas, a)
    ensures !Permitted(s')
  {
    hide Inv, Protects, Walk, PathOf, AddrOf, Find;
    ProtectProcs(s, ext, i, a, 1, false, false, s1, s');
    Aligned(s, i, a, s1, s');
    PageBase(a + 4096);
    HasAddress(s.procs[i].areas, a);
    ProtectedPage(s, ext, i, a, 1, false, false, s1, s', PathOf(a + 4096));
    assert !PagePermitted(s'.mem, s'.procs[i], PathOf(a + 4096));
  }

  lemma Aligned(s: Sys, i: nat, a: nat, s1: Sys, s': Sys)
    requires Protects(s, i, a, 1, false, false, s1, s')
    ensures a % 4096 == 0
  {
  }

  lemma TwoPages()
    ensures Pages(8192) == 2 && WrappedPages(4096) == 1
  {
  }

  /** What mmap of two pages at a leaves, as mprotect sees it. */
  lemma NewPages(s: Sys, i: nat, a: nat)
    requires Rightful(s) && i < |s.procs| && s.procs[i].Alive? && a + 8192 <= USER_LIMIT
    requires forall x: nat :: a <= x < a + 8192 ==> Allows(Access(s.mem, s.procs[i].root, PathOf(x)), true, true)
    ensures AllMapped(s, i, a, a + 4096)
    ensures Allows(Walk(s.mem, s.procs[i].root, PathOf(a + 4096)), true, true)
  {
    hide Rightful, Walk, Access, PathOf;
    forall x: nat | a <= x < a + 8192
      ensures Allows(Walk(s.mem, s.procs[i].root, PathOf(x)), true, true)
    {
      PageBase(x);
      AccessIsPage(s, i, PathOf(x));
    }
  }

  /** On every machine with room for it: mmap of two pages for writing, then mprotect of the first for reading only. The
      system is as good as before, but the second page can be written in an area that forbids it. */
  method LosesProtection(m: Machine, i: nat, ghost ext: seq<nat>)
    requires m.Ok(ext) && i < |m.procs| && m.procs[i].Alive?
    requires exists a :: MemoryCalls.Fits(m.procs[i].areas, a, 8192)
    requires m.t.pmm.free >= 8 * FRAME_SIZE
    modifies m`procs, m`ram, m.t`pmm, m.t`mem
    ensures m.Ok(ext) && !Permitted(m.View())
  {
    hide Inv, Intact, Rightful, Permitted, Walk, PathOf, Access, Find, Step, NoneShared, Protects, AllMapped, Pages,
      WrappedPages;
    ghost var s := m.View();
    TwoPages();
    var r := m.Mmap(i, 8192, true, true, true, ext);
    ghost var s1 := m.View();
    ghost var a := r.value;
    NewRange(Config(s, ext, m.kern), i, AnonArea(a, 8192, true), Config(s1, ext, m.kern), a, a + 4096);
    NewPages(s1, i, a);
    assert Find(s1.procs[i].areas, a + 4096) == Find(s1.procs[i].areas, a);
    ghost var mid;
    var ok;
    ok, mid := m.Mprotect(i, r.value, 4096, false, false, ext);
    HalfProtected(s1, ext, i, a, mid, m.View());
  }
}
