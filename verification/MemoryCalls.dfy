/** The system calls that change a process's areas and pages together: munmap, mprotect and anonymous mmap. */
module MemoryCalls {
  import opened Options
  import opened Frames
  import opened PageTable
  import opened Cloning
  import opened Mapping
  import opened TableWalk
  import opened Vma
  import opened CopyOnWrite
  import opened Rights
  import opened Permissions
  import opened KernelHalf
  import opened Clearing

  // ---------- Pages and addresses ----------

  function PageStart(a: nat): nat { a - a % 4096 }

  // ---------- A new list of areas ----------

  /** Process i gets another list of areas. */
  ghost predicate Relists(s: Sys, i: nat, areas: seq<Area>, s': Sys) {
    i < |s.procs| && s.procs[i].Alive? && s' == s.(procs := s.procs[i := Alive(s.procs[i].root, areas)])
  }

  /** The new list agrees with the old one about the pages that are mapped. */
  ghost predicate Relistable(s: Sys, i: nat, areas: seq<Area>)
    requires i < |s.procs| && s.procs[i].Alive?
  {
    AreasOk(areas) &&
    forall p: Path :: UserPath(p) && Walk(s.mem, s.procs[i].root, p).Some? ==>
      Find(areas, AddrOf(p)).Some? && SharedAt(areas, AddrOf(p)) == SharedAt(s.procs[i].areas, AddrOf(p))
  }

  lemma RelistPages(s: Sys, ext: seq<nat>, i: nat, areas: seq<Area>, s': Sys)
    requires Inv(s, ext) && Relists(s, i, areas, s') && Relistable(s, i, areas)
    ensures PagesOk(s') && NoMixing(s')
  {
    hide Walk, SharedAt, Sound, Find, AddrOf, AreasOk, Accounting, SameKind, Frames.Valid;
    forall j, p: Path | 0 <= j < |s'.procs| && s'.procs[j].Alive? && UserPath(p)
      ensures PageOk(s', s'.procs[j], p)
    {
      assert PageOk(s, s.procs[j], p);
    }
    forall j, k, p: Path, q: Path | 0 <= j < |s'.procs| && 0 <= k < |s'.procs| &&
        s'.procs[j].Alive? && s'.procs[k].Alive? && UserPath(p) && UserPath(q)
      ensures SameKind(Walk(s'.mem, s'.procs[j].root, p), Walk(s'.mem, s'.procs[k].root, q))
    {
      assert SameKind(Walk(s.mem, s.procs[j].root, p), Walk(s.mem, s.procs[k].root, q));
    }
  }

  lemma RelistKeepsInv(s: Sys, ext: seq<nat>, i: nat, areas: seq<Area>, s': Sys)
    requires Inv(s, ext) && Relists(s, i, areas, s') && Relistable(s, i, areas)
    ensures Inv(s', ext)
  {
    hide Sound, AreasOk, PagesOk, NoMixing, TotalRefs;
    RelistPages(s, ext, i, areas, s');
    forall g | 0 < g < |s.pmm.rc|
      ensures TotalRefs(s'.mem, s'.procs, g) == TotalRefs(s.mem, s.procs, g)
    {
      TotalChange(s.mem, s'.mem, s.procs, s'.procs, i, g);
    }
    forall j | 0 <= j < |s'.procs|
      ensures ProcSound(s', s'.procs[j])
    {
      assert ProcSound(s, s.procs[j]);
    }
  }

  lemma RelistSpares(s: Sys, i: nat, areas: seq<Area>, s': Sys, tables: set<nat>)
    requires Relists(s, i, areas, s') && |s.mem| == |s.pmm.rc| && Frames.Valid(s.pmm)
    ensures Spares(s, s', tables)
  {
  }

  lemma RelistRights(s: Sys, i: nat, areas: seq<Area>, s': Sys)
    requires Rightful(s) && Relists(s, i, areas, s')
    ensures Rightful(s')
  {
    hide Reachable;
  }

  lemma RelistGood(s: Sys, ext: seq<nat>, kern: Kern, i: nat, areas: seq<Area>, s': Sys)
    requires Good(s, ext, kern) && Relists(s, i, areas, s') && Relistable(s, i, areas)
    ensures Good(s', ext, kern)
  {
    hide Inv, Intact, Relistable, Spares, Rightful;
    InvSize(s, ext);
    InvValid(s, ext);
    RelistKeepsInv(s, ext, i, areas, s');
    RelistRights(s, i, areas, s');
    RelistSpares(s, i, areas, s', kern.tables);
    SparedGood(s, ext, kern, s');
  }

  lemma RelistReads(s: Sys, i: nat, areas: seq<Area>, s': Sys, k: nat, x: nat)
    requires Relists(s, i, areas, s') && k < |s.procs| && s.procs[k].Alive?
    ensures |s'.procs| == |s.procs| && s'.procs[k].Alive? && Read(s', k, x) == Read(s, k, x)
  {
    hide Walk, PathOf;
  }

  // ---------- munmap ----------

  /** munmap_process_range of n pages of process i from lo on, wherever that is: the areas lose them, and they
      are cleared. */
  ghost predicate Unmaps(s: Sys, i: nat, lo: nat, n: nat, s1: Sys, s': Sys) {
    && i < |s.procs| && s.procs[i].Alive? && 0 < n && lo % 4096 == 0
    && ClearsTo(s, i, lo, n, s1) && Relists(s1, i, Cuts(s.procs[i].areas, lo, lo + 4096 * n), s')
  }

  predicate Meets(v: Area, lo: nat, hi: nat) {
    v.start < hi && v.end > lo
  }

  /** An area meets a range if and only if they have an address in common. */
  lemma MeetsMeans(v: Area, lo: nat, hi: nat)
    requires v.start < v.end && lo < hi
    ensures Meets(v, lo, hi) <==> exists a: nat :: lo <= a < hi && v.Has(a)
  {
    if Meets(v, lo, hi) {
      var a := if v.start < lo then lo else v.start;
      assert lo <= a < hi && v.Has(a);
    }
  }

  /** An area that munmap_process_range does not touch. */
  predicate Fixed(v: Area) {
    v.kind == Text || v.kind == Stack
  }

  /** The pages that length bytes take. */
  function Pages(length: nat): nat {
    (length + 4095) / 4096
  }

  /** The pages are as many as are needed, and no more; sys_mprotect counts the same, as long as nothing wraps
      around. */
  lemma PagesMeans(length: nat)
    ensures length <= 4096 * Pages(length) < length + 4096
    ensures WrappedPages(length) == Pages(length) <==> length <= U64 - 4096
  {
  }

  /** munmap_process_range refuses a range that meets a text or stack area. */
  ghost predicate MeetsFixed(areas: seq<Area>, lo: nat, hi: nat) {
    exists v :: v in areas && v.start < hi && lo < v.end && v.kind in {Text, Stack}
  }

  /** The first loop of munmap_process_range. */
  method AnyFixed(areas: seq<Area>, lo: nat, hi: nat) returns (found: bool)
    ensures found <==> MeetsFixed(areas, lo, hi)
  {
    for k := 0 to |areas|
      invariant !MeetsFixed(areas[..k], lo, hi)
    {
      if Meets(areas[k], lo, hi) && Fixed(areas[k]) {
        return true;
      }
    }
    assert areas[..|areas|] == areas;
    return false;
  }

  /** Cutting whole pages out of a list leaves whole pages. */
  lemma {:induction false} CutsOk(list: seq<Area>, lo: nat, hi: nat)
    requires lo % 4096 == 0 && hi % 4096 == 0
    requires forall v :: v in list ==> v.start % 4096 == 0 && v.end % 4096 == 0 && v.flags.shared == (v.kind == Shared)
    ensures forall v :: v in Cuts(list, lo, hi) ==>
              v.start % 4096 == 0 && v.end % 4096 == 0 && v.flags.shared == (v.kind == Shared)
  {
    if list != [] {
      CutsOk(list[..|list| - 1], lo, hi);
    }
  }

  /** Cutting a range out of the areas concerns the addresses of the range only. */
  lemma CutAreas(areas: seq<Area>, lo: nat, hi: nat)
    requires AreasOk(areas) && lo < hi && lo % 4096 == 0 && hi % 4096 == 0
    ensures AreasOk(Cuts(areas, lo, hi))
    ensures forall a: nat :: Find(Cuts(areas, lo, hi), a).Some? == (!(lo <= a < hi) && Find(areas, a).Some?)
    ensures forall a: nat :: SharedAt(Cuts(areas, lo, hi), a) == (!(lo <= a < hi) && SharedAt(areas, a))
  {
    hide Cuts, Find, Sorted;
    CutsOk(areas, lo, hi);
    CutsSorted(areas, lo, hi);
    CutsNothing(lo, hi);
    forall a: nat
      ensures Find(Cuts(areas, lo, hi), a).Some? == (!(lo <= a < hi) && Find(areas, a).Some?)
      ensures SharedAt(Cuts(areas, lo, hi), a) == (!(lo <= a < hi) && SharedAt(areas, a))
    {
      CutsLookup(areas, lo, hi, a);
    }
  }

  /** munmap keeps the system good where it may be called. */
  lemma UnmapKeeps(s: Sys, ext: seq<nat>, kern: Kern, i: nat, lo: nat, n: nat, s1: Sys, s': Sys)
    requires Good(s, ext, kern) && Frames.Valid(s.pmm) && Unmaps(s, i, lo, n, s1, s') && MayUnmap(s, i, lo, n)
    ensures Good(s', ext, kern) && |s'.procs| == |s.procs|
  {
    hide Inv, Intact, Walk, PathOf, AreasOk, SharedAt, AddrOf, Cuts, Find, ClearsTo, MayUnmap, OnWay, Frames.Valid,
      Dry;
    var hi := lo + 4096 * n;
    var areas := s.procs[i].areas;
    ClearRange(s, ext, kern, i, lo, n, s1);
    InvAreas(s, ext, i);
    CutAreas(areas, lo, hi);
    forall p: Path | UserPath(p) && Walk(s1.mem, s1.procs[i].root, p).Some?
      ensures Find(Cuts(areas, lo, hi), AddrOf(p)).Some?
      ensures SharedAt(Cuts(areas, lo, hi), AddrOf(p)) == SharedAt(areas, AddrOf(p))
    {
      PathAddr(p);
      if lo <= AddrOf(p) < hi {
        InRange(lo, n, AddrOf(p));
      }
      InvPage(s1, ext, i, p);
    }
    RelistGood(s1, ext, kern, i, Cuts(areas, lo, hi), s');
  }

  lemma InvAreas(s: Sys, ext: seq<nat>, i: nat)
    requires Inv(s, ext) && i < |s.procs| && s.procs[i].Alive?
    ensures AreasOk(s.procs[i].areas)
  {
    assert ProcSound(s, s.procs[i]);
  }

  /** After munmap the range, and what it is walked as, reads as zeros for the process; nothing else changed for
      anybody. */
  lemma UnmapReads(s: Sys, ext: seq<nat>, kern: Kern, i: nat, lo: nat, n: nat, s1: Sys, s': Sys, k: nat, x: nat)
    requires Good(s, ext, kern) && Frames.Valid(s.pmm) && Unmaps(s, i, lo, n, s1, s') && MayUnmap(s, i, lo, n)
    requires Private(s', k, x)
    ensures |s'.procs| == |s.procs| && k < |s.procs| && s.procs[k].Alive?
    ensures Read(s', k, x) == if k == i && OnWay(lo, n, PathOf(x)) then 0 else Read(s, k, x)
    ensures !(k == i && OnWay(lo, n, PathOf(x))) ==> Private(s, k, x)
  {
    hide Inv, Intact, Walk, PathOf, AreasOk, SharedAt, Cuts, Find, ClearsTo, MayUnmap, OnWay, Frames.Valid, Dry;
    var hi := lo + 4096 * n;
    ClearRange(s, ext, kern, i, lo, n, s1);
    InvAreas(s, ext, i);
    CutAreas(s.procs[i].areas, lo, hi);
    RelistReads(s1, i, Cuts(s.procs[i].areas, lo, hi), s', k, x);
    PageBase(x);
    if lo <= x < hi {
      InRange(lo, n, x);
    }
  }

  /** munmap_process_range keeps the system good all the way if and only if no page of the range is one of the
      kernel's at which something can happen. The code asks nothing of the kind. */
  lemma UnmapExact(us: seq<Sys>, ext: seq<nat>, kern: Kern, i: nat, lo: nat, n: nat)
    requires Passes(us, ext, kern, i, lo) && |us| == n + 1 && lo % 4096 == 0 && Good(us[0], ext, kern)
    requires i < |us[0].procs| && us[0].procs[i].Alive? && Frames.Valid(us[0].pmm)
    ensures (forall j :: 0 <= j <= n ==> Good(us[j], ext, kern)) <==> MayUnmap(us[0], i, lo, n)
  {
    hide Good, Passes, MayUnmap, Reached, Frames.Valid;
    PassReached(us, ext, kern, i, lo, n);
  }

  // ---------- mprotect ----------

  /** The flags sys_mprotect computes from its arguments. */
  function ProtFlags(write: bool, exec: bool): Flags {
    NO_FLAGS.(present := true, user := true, writable := write, nx := !exec)
  }

  /** A whole area gets the flags, even if only a part of it is in the range. */
  function Retag(v: Area, lo: nat, hi: nat, flags: Flags): Area {
    if Meets(v, lo, hi) then v.(flags := flags) else v
  }

  function Retagged(list: seq<Area>, lo: nat, hi: nat, flags: Flags): (r: seq<Area>)
    ensures |r| == |list| && forall k :: 0 <= k < |list| ==> r[k] == Retag(list[k], lo, hi, flags)
  {
    if list == [] then [] else [Retag(list[0], lo, hi, flags)] + Retagged(list[1..], lo, hi, flags)
  }

  /** The loop of sys_mprotect over the areas. */
  method RetagAll(areas: seq<Area>, lo: nat, hi: nat, flags: Flags) returns (list: seq<Area>)
    ensures list == Retagged(areas, lo, hi, flags)
  {
    hide Retagged;
    list := areas;
    for k := 0 to |areas|
      invariant |list| == |areas| && list[k..] == areas[k..]
      invariant forall j :: 0 <= j < k ==> list[j] == Retag(areas[j], lo, hi, flags)
    {
      assert list[k] == list[k..][0] == areas[k];
      if list[k].start < hi && list[k].end > lo {
        list := list[k := list[k].(flags := flags)];
      }
    }
  }

  lemma {:induction false} RetaggedFind(list: seq<Area>, lo: nat, hi: nat, flags: Flags, a: nat)
    ensures var r := Find(list, a);
            Find(Retagged(list, lo, hi, flags), a) == if r.Some? then Some(Retag(r.value, lo, hi, flags)) else None
  {
    if list != [] {
      RetaggedFind(list[1..], lo, hi, flags, a);
      assert Retagged(list, lo, hi, flags)[1..] == Retagged(list[1..], lo, hi, flags);
    }
  }

  /** No area of kind Shared reaches into the range. */
  ghost predicate NoneShared(areas: seq<Area>, lo: nat, hi: nat) {
    forall v :: v in areas && Meets(v, lo, hi) ==> v.kind != Shared
  }

  lemma RetaggedKept(list: seq<Area>, lo: nat, hi: nat, flags: Flags)
    requires Kept(list)
    ensures Kept(Retagged(list, lo, hi, flags))
  {
    hide Retagged, Meets;
    var r := Retagged(list, lo, hi, flags);
    assert forall k :: 0 <= k < |list| ==> r[k].start == list[k].start && r[k].end == list[k].end;
    if list != [] {
      SentinelApart(lo, hi, flags);
    }
  }

  lemma SentinelApart(lo: nat, hi: nat, flags: Flags)
    ensures Retag(SENTINEL, lo, hi, flags) == SENTINEL
  {
  }

  lemma AtSome(areas: seq<Area>, v: Area) returns (k: nat)
    requires v in areas
    ensures k < |areas| && areas[k] == v
  {
    k :| 0 <= k < |areas| && areas[k] == v;
  }

  /** The new flags suit the list exactly if no area of the range is shared. */
  lemma RetaggedOk(areas: seq<Area>, lo: nat, hi: nat, flags: Flags)
    requires AreasOk(areas) && !flags.shared
    ensures AreasOk(Retagged(areas, lo, hi, flags)) <==> NoneShared(areas, lo, hi)
  {
    hide Retagged, Kept, Meets;
    var r := Retagged(areas, lo, hi, flags);
    RetaggedKept(areas, lo, hi, flags);
    if AreasOk(r) {
      forall v | v in areas && Meets(v, lo, hi)
        ensures v.kind != Shared
      {
        var k := AtSome(areas, v);
        assert r[k] in r;
      }
    }
    if NoneShared(areas, lo, hi) {
      forall w | w in r
        ensures w.start % 4096 == 0 && w.end % 4096 == 0 && w.flags.shared == (w.kind == Shared)
      {
        var k := AtSome(r, w);
        assert areas[k] in areas;
      }
    }
  }

  /** One page is mapped again with the same frame and new flags. */
  ghost predicate Reflags(s: Sys, i: nat, p: Path, flags: Flags, s': Sys) {
    && i < |s.procs| && s.procs[i].Alive? && UserPath(p)
    && var r := Walk(s.mem, s.procs[i].root, p);
       r.Some? && MapsPage(s, i, p, Pte(r.value.frame, flags), s')
  }

  ghost predicate ReflagsTo(s: Sys, i: nat, lo: nat, n: nat, flags: Flags, s': Sys)
    decreases n
  {
    if n == 0 then s' == s
    else
      var m, p := n - 1, PathOf(lo + 4096 * (n - 1));
      exists u :: ReflagsTo(s, i, lo, m, flags, u) && Reflags(u, i, p, flags, s')
  }

  lemma ReflagsLast(s: Sys, i: nat, lo: nat, n: nat, flags: Flags, s': Sys) returns (u: Sys)
    requires n > 0 && ReflagsTo(s, i, lo, n, flags, s')
    ensures ReflagsTo(s, i, lo, n - 1, flags, u) && Reflags(u, i, PathOf(lo + 4096 * (n - 1)), flags, s')
  {
    hide Reflags, PathOf;
    var m, p := n - 1, PathOf(lo + 4096 * (n - 1));
    u :| ReflagsTo(s, i, lo, m, flags, u) && Reflags(u, i, p, flags, s');
  }

  lemma ReflagsNone(s: Sys, i: nat, lo: nat, flags: Flags)
    ensures ReflagsTo(s, i, lo, 0, flags, s)
  {
  }

  lemma ReflagsNext(s: Sys, i: nat, lo: nat, n: nat, flags: Flags, u: Sys, s': Sys)
    requires ReflagsTo(s, i, lo, n, flags, u) && Reflags(u, i, PathOf(lo + 4096 * n), flags, s')
    ensures ReflagsTo(s, i, lo, n + 1, flags, s')
  {
    hide Reflags, PathOf;
  }

  /** The pages of process i in [lo, hi) have the flags; every page keeps its frame. */
  ghost predicate Reflagging(s: Sys, i: nat, lo: nat, hi: nat, flags: Flags, s': Sys)
    requires i < |s.procs| && s.procs[i].Alive?
  {
    && s'.procs == s.procs && s'.ram == s.ram && |s'.pmm.rc| == |s.pmm.rc|
    && (forall f :: 0 <= f < |s.pmm.rc| && s.pmm.rc[f] > 0 ==> s'.pmm.rc[f] == s.pmm.rc[f])
    && (forall x: nat :: x < USER_LIMIT ==>
          var r := Walk(s.mem, s.procs[i].root, PathOf(x));
          Walk(s'.mem, s.procs[i].root, PathOf(x)) ==
          if lo <= x < hi && r.Some? then Some(Pte(r.value.frame, flags)) else r)
  }

  lemma ReflagOwned(s: Sys, i: nat, a: nat, flags: Flags, s': Sys)
    requires a < USER_LIMIT && a % 4096 == 0 && flags.present && !flags.huge
    requires Reflags(s, i, PathOf(a), flags, s') && Owned(s.St(), s.procs[i].root)
    ensures Owned(s'.St(), s.procs[i].root) && Reflagging(s, i, a, a + 4096, flags, s')
  {
    hide Walk, PathOf, Sound, SpaceRefs, TreeOk, OnlyTree, AddrOf;
    forall x: nat | x < USER_LIMIT
      ensures UserPath(PathOf(x)) && (PathOf(x) == PathOf(a) <==> a <= x < a + 4096)
    {
      PageBase(x);
      OnePage(x, a);
    }
  }

  lemma ReflaggingMore(s: Sys, i: nat, lo: nat, mid: nat, hi: nat, flags: Flags, s1: Sys, s': Sys)
    requires i < |s.procs| && s.procs[i].Alive? && lo <= mid <= hi
    requires Reflagging(s, i, lo, mid, flags, s1) && Reflagging(s1, i, mid, hi, flags, s')
    ensures Reflagging(s, i, lo, hi, flags, s')
  {
    hide Walk, PathOf;
  }

  lemma ReflaggingNone(s: Sys, i: nat, lo: nat, flags: Flags)
    requires i < |s.procs| && s.procs[i].Alive?
    ensures Reflagging(s, i, lo, lo, flags, s)
  {
  }

  lemma ReflaggingProcs(s: Sys, i: nat, lo: nat, hi: nat, flags: Flags, s': Sys)
    requires i < |s.procs| && s.procs[i].Alive? && Reflagging(s, i, lo, hi, flags, s')
    ensures s'.procs == s.procs && s'.ram == s.ram
  {
  }

  lemma {:induction false} ReflagRange(s: Sys, i: nat, lo: nat, n: nat, flags: Flags, s': Sys)
    requires i < |s.procs| && s.procs[i].Alive? && Owned(s.St(), s.procs[i].root) && flags.present && !flags.huge
    requires lo % 4096 == 0 && lo + 4096 * n <= USER_LIMIT && ReflagsTo(s, i, lo, n, flags, s')
    ensures Owned(s'.St(), s.procs[i].root) && Reflagging(s, i, lo, lo + 4096 * n, flags, s')
    decreases n
  {
    hide Owned, Walk, PathOf, Reflags, Reflagging;
    if n == 0 {
      ReflaggingNone(s, i, lo, flags);
    } else {
      hide ReflagsTo;
      var u := ReflagsLast(s, i, lo, n, flags, s');
      var a := lo + 4096 * (n - 1);
      ReflagRange(s, i, lo, n - 1, flags, u);
      ReflaggingProcs(s, i, lo, a, flags, u);
      ReflagOwned(u, i, a, flags, s');
      ReflaggingMore(s, i, lo, a, a + 4096, flags, u, s');
    }
  }

  /** The frame of address x, if it is managed, is held once. */
  ghost predicate HeldOnce(s: Sys, i: nat, x: nat)
    requires i < |s.procs| && s.procs[i].Alive?
  {
    var r := Walk(s.mem, s.procs[i].root, PathOf(x));
    r.Some? && r.value.frame < |s.pmm.rc| ==> s.pmm.rc[r.value.frame] == 1
  }

  /** New flags for one private page keep the invariant, if they do not let the process write a frame that
      others hold. */
  lemma ReflagPage(s: Sys, ext: seq<nat>, i: nat, a: nat, flags: Flags, s': Sys)
    requires Inv(s, ext) && a < USER_LIMIT && a % 4096 == 0 && Reflags(s, i, PathOf(a), flags, s')
    requires flags.present && !flags.huge && !flags.shared && !SharedAt(s.procs[i].areas, a)
    requires flags.writable ==> HeldOnce(s, i, a)
    ensures Inv(s', ext) && s'.procs == s.procs
    ensures forall k: nat, x: nat :: Private(s, k, x) ==> Read(s', k, x) == Read(s, k, x)
  {
    hide Inv, Walk, PathOf, SharedAt, MapsPage, PageFits, Owned, Reflagging;
    var p := PathOf(a);
    var r := Walk(s.mem, s.procs[i].root, p).value;
    var e := Pte(r.frame, flags);
    InvSize(s, ext);
    InvOwned(s, ext, i);
    PrivateFrame(s, ext, i, a);
    MapsHeld(s, i, p, e, s', r.frame);
    SameFrameFits(s, ext, i, p, e, s');
    MapKeepsInv(s, ext, i, p, e, s', ext);
    ReflagOwned(s, i, a, flags, s');
    ReflaggingProcs(s, i, a, a + 4096, flags, s');
    forall k: nat, x: nat | Private(s, k, x)
      ensures Read(s', k, x) == Read(s, k, x)
    {
      if k == i {
        ReflagReads(s, i, a, a + 4096, flags, s', x);
      }
    }
  }

  lemma ReflagReads(s: Sys, i: nat, lo: nat, hi: nat, flags: Flags, s': Sys, x: nat)
    requires i < |s.procs| && s.procs[i].Alive? && Reflagging(s, i, lo, hi, flags, s') && x < USER_LIMIT
    ensures Read(s', i, x) == Read(s, i, x)
  {
    hide Walk, PathOf;
  }

  /** All pages of the range are mapped. */
  ghost predicate AllMapped(s: Sys, i: nat, lo: nat, hi: nat)
    requires i < |s.procs| && s.procs[i].Alive?
  {
    forall x: nat :: lo <= x < hi ==> Walk(s.mem, s.procs[i].root, PathOf(x)).Some?
  }

  /** sys_mprotect of n pages of process i from lo on: the areas it meets and the pages get the flags. */
  ghost predicate Protects(s: Sys, i: nat, lo: nat, n: nat, write: bool, exec: bool, s1: Sys, s': Sys) {
    && i < |s.procs| && s.procs[i].Alive? && lo % 4096 == 0 && lo + 4096 * n < USER_LIMIT
    && AllMapped(s, i, lo, lo + 4096 * n) && ReflagsTo(s, i, lo, n, ProtFlags(write, exec), s1)
    && Relists(s1, i, Retagged(s.procs[i].areas, lo, lo + 4096 * n, ProtFlags(write, exec)), s')
  }

  /** What sys_mprotect would have to ask before it changes anything: no area of the range is shared, and
      to allow writing, nobody else holds a frame of the range. */
  ghost predicate MayProtect(s: Sys, i: nat, lo: nat, n: nat, write: bool)
    requires i < |s.procs| && s.procs[i].Alive?
  {
    && NoneShared(s.procs[i].areas, lo, lo + 4096 * n)
    && (write ==> forall x: nat :: lo <= x < lo + 4096 * n ==> HeldOnce(s, i, x))
  }

  lemma PageMapped(s: Sys, i: nat, lo: nat, a: nat)
    requires i < |s.procs| && s.procs[i].Alive? && lo <= a && a % 4096 == 0 && a + 4096 <= USER_LIMIT
    requires AllMapped(s, i, lo, a) && Walk(s.mem, s.procs[i].root, PathOf(a)).Some?
    ensures AllMapped(s, i, lo, a + 4096)
  {
    hide Walk, PathOf;
    forall x: nat | a <= x < a + 4096
      ensures PathOf(x) == PathOf(a)
    {
      OnePage(x, a);
    }
  }

  /** The pages of len bytes in 64-bit arithmetic: sys_mprotect takes the largest lengths for none. */
  function WrappedPages(len: nat): nat {
    (len + 4095) % U64 / 4096
  }

  /** Exactly these lengths. */
  lemma WrapsToNothing(len: nat)
    requires len < U64
    ensures WrappedPages(len) == 0 <==> len == 0 || len > U64 - 4096
  {
    if len + 4095 < U64 {
      assert (len + 4095) % U64 == len + 4095;
    } else {
      assert (len + 4095) % U64 == len + 4095 - U64;
    }
  }

  /** In a range without shared areas no address is shared. */
  lemma NoneSharedAt(areas: seq<Area>, lo: nat, hi: nat, a: nat)
    requires NoneShared(areas, lo, hi) && lo <= a < hi
    ensures !SharedAt(areas, a)
  {
  }

  lemma HeldOnceKept(s: Sys, ext: seq<nat>, i: nat, lo: nat, mid: nat, flags: Flags, s1: Sys, x: nat)
    requires Inv(s, ext) && i < |s.procs| && s.procs[i].Alive? && Reflagging(s, i, lo, mid, flags, s1)
    requires mid <= x < USER_LIMIT && HeldOnce(s, i, x)
    ensures HeldOnce(s1, i, x)
  {
    hide Inv, Walk, PathOf;
  }

  lemma {:induction false} ProtectRange(s: Sys, ext: seq<nat>, i: nat, lo: nat, n: nat, flags: Flags, s': Sys)
    requires Inv(s, ext) && i < |s.procs| && s.procs[i].Alive? && lo % 4096 == 0 && lo + 4096 * n <= USER_LIMIT
    requires flags.present && !flags.huge && !flags.shared && ReflagsTo(s, i, lo, n, flags, s')
    requires MayProtect(s, i, lo, n, flags.writable)
    ensures Inv(s', ext) && s'.procs == s.procs
    ensures forall k: nat, x: nat :: Private(s, k, x) ==> Read(s', k, x) == Read(s, k, x)
    decreases n
  {
    hide Inv, Owned, Walk, PathOf, Reflags, Reflagging, NoneShared, HeldOnce, SharedAt, Read;
    if n > 0 {
      hide ReflagsTo;
      var u := ReflagsLast(s, i, lo, n, flags, s');
      var a := lo + 4096 * (n - 1);
      NoneSharedLess(s.procs[i].areas, lo, a, lo + 4096 * n);
      ProtectRange(s, ext, i, lo, n - 1, flags, u);
      NoneSharedAt(s.procs[i].areas, lo, lo + 4096 * n, a);
      if flags.writable {
        InvOwned(s, ext, i);
        ReflagRange(s, i, lo, n - 1, flags, u);
        HeldOnceKept(s, ext, i, lo, a, flags, u, a);
      }
      ReflagPage(u, ext, i, a, flags, s');
      assert forall k: nat, x: nat :: Private(s, k, x) ==> Private(u, k, x);
    }
  }

  lemma NoneSharedLess(areas: seq<Area>, lo: nat, mid: nat, hi: nat)
    requires NoneShared(areas, lo, hi) && mid <= hi
    ensures NoneShared(areas, lo, mid)
  {
  }

  /** New flags leave the kind of every address alone. */
  lemma RetaggedKind(areas: seq<Area>, lo: nat, hi: nat, flags: Flags, a: nat)
    ensures Find(Retagged(areas, lo, hi, flags), a).Some? == Find(areas, a).Some?
    ensures SharedAt(Retagged(areas, lo, hi, flags), a) == SharedAt(areas, a)
  {
    hide Find, Retagged;
    RetaggedFind(areas, lo, hi, flags, a);
  }

  /** New flags do not reach the kernel half. */
  lemma {:induction false} ReflagSpares(s: Sys, ext: seq<nat>, i: nat, lo: nat, n: nat, flags: Flags, s': Sys,
                                        tables: set<nat>)
    requires Inv(s, ext) && i < |s.procs| && s.procs[i].Alive? && lo % 4096 == 0 && lo + 4096 * n <= USER_LIMIT
    requires flags.present && !flags.huge && !flags.shared && ReflagsTo(s, i, lo, n, flags, s')
    requires MayProtect(s, i, lo, n, flags.writable) && Spared(s, ext, tables)
    ensures Spares(s, s', tables)
    decreases n
  {
    hide Inv, Owned, Walk, PathOf, MapsPage, Reflagging, NoneShared, HeldOnce, SharedAt, Read, Spared, Spares;
    InvSize(s, ext);
    InvValid(s, ext);
    if n == 0 {
      SparesSelf(s, tables);
    } else {
      hide ReflagsTo;
      var u := ReflagsLast(s, i, lo, n, flags, s');
      NoneSharedLess(s.procs[i].areas, lo, lo + 4096 * (n - 1), lo + 4096 * n);
      ReflagSpares(s, ext, i, lo, n - 1, flags, u, tables);
      ProtectRange(s, ext, i, lo, n - 1, flags, u);
      StaySpared(s, ext, u, ext, tables);
      var p := PathOf(lo + 4096 * (n - 1));
      MapSpares(u, ext, i, p, Pte(Walk(u.mem, u.procs[i].root, p).value.frame, flags), s', tables);
      SparesTrans(s, u, s', tables);
    }
  }

  lemma {:induction false} ReflagRights(s: Sys, ext: seq<nat>, i: nat, lo: nat, n: nat, flags: Flags, s': Sys)
    requires Inv(s, ext) && i < |s.procs| && s.procs[i].Alive? && lo % 4096 == 0 && lo + 4096 * n <= USER_LIMIT
    requires flags.present && !flags.huge && !flags.shared && ReflagsTo(s, i, lo, n, flags, s')
    requires MayProtect(s, i, lo, n, flags.writable) && Rightful(s) && flags.user
    ensures Rightful(s')
    decreases n
  {
    hide Inv, Rightful, Walk, PathOf, HeldOnce, NoneShared, MapsPage, Read;
    if n > 0 {
      hide ReflagsTo;
      var u := ReflagsLast(s, i, lo, n, flags, s');
      NoneSharedLess(s.procs[i].areas, lo, lo + 4096 * (n - 1), lo + 4096 * n);
      ReflagRights(s, ext, i, lo, n - 1, flags, u);
      ProtectRange(s, ext, i, lo, n - 1, flags, u);
      var p := PathOf(lo + 4096 * (n - 1));
      MapRights(u, ext, i, p, Pte(Walk(u.mem, u.procs[i].root, p).value.frame, flags), s');
    }
  }

  /** mprotect keeps the system good where it may be called. */
  lemma ProtectGood(s: Sys, ext: seq<nat>, kern: Kern, i: nat, lo: nat, n: nat, write: bool, exec: bool, s1: Sys,
                    s': Sys)
    requires Good(s, ext, kern) && Protects(s, i, lo, n, write, exec, s1, s') && MayProtect(s, i, lo, n, write)
    ensures Good(s', ext, kern)
  {
    hide Inv, Intact, ReflagsTo, Retagged, HeldOnce, NoneShared, AllMapped, Spares, Read, Rightful;
    var flags := ProtFlags(write, exec);
    ReflagRights(s, ext, i, lo, n, flags, s1);
    RelistRights(s1, i, Retagged(s.procs[i].areas, lo, lo + 4096 * n, flags), s');
    IntactSpared(s, ext, kern);
    ProtectRange(s, ext, i, lo, n, flags, s1);
    InvSize(s1, ext);
    InvValid(s1, ext);
    ReflagSpares(s, ext, i, lo, n, flags, s1, kern.tables);
    RelistSpares(s1, i, Retagged(s.procs[i].areas, lo, lo + 4096 * n, flags), s', kern.tables);
    SparesTrans(s, s1, s', kern.tables);
    ProtectKeepsInv(s, ext, i, lo, n, write, exec, s1, s');
    ProtectSize(s, ext, i, lo, n, write, exec, s1, s');
    SparedGood(s, ext, kern, s');
  }

  lemma ProtectKeepsInv(s: Sys, ext: seq<nat>, i: nat, lo: nat, n: nat, write: bool, exec: bool, s1: Sys, s': Sys)
    requires Inv(s, ext) && Protects(s, i, lo, n, write, exec, s1, s') && MayProtect(s, i, lo, n, write)
    ensures Inv(s', ext)
  {
    hide Inv, Walk, PathOf, AreasOk, SharedAt, AddrOf, Find, ReflagsTo, Retagged, HeldOnce, Read;
    var flags, areas := ProtFlags(write, exec), s.procs[i].areas;
    var updated := Retagged(areas, lo, lo + 4096 * n, flags);
    ProtectRange(s, ext, i, lo, n, flags, s1);
    InvAreas(s, ext, i);
    RetaggedOk(areas, lo, lo + 4096 * n, flags);
    forall p: Path | UserPath(p) && Walk(s1.mem, s1.procs[i].root, p).Some?
      ensures Find(updated, AddrOf(p)).Some? && SharedAt(updated, AddrOf(p)) == SharedAt(areas, AddrOf(p))
    {
      InvPage(s1, ext, i, p);
      RetaggedKind(areas, lo, lo + 4096 * n, flags, AddrOf(p));
    }
    RelistKeepsInv(s1, ext, i, updated, s');
  }

  /** Changing permissions changes nothing anybody reads. */
  lemma ProtectReads(s: Sys, ext: seq<nat>, i: nat, lo: nat, n: nat, write: bool, exec: bool, s1: Sys, s': Sys,
                     k: nat, x: nat)
    requires Inv(s, ext) && Protects(s, i, lo, n, write, exec, s1, s') && MayProtect(s, i, lo, n, write)
    requires Private(s', k, x)
    ensures |s'.procs| == |s.procs| && Private(s, k, x) && Read(s', k, x) == Read(s, k, x)
  {
    hide Inv, Walk, PathOf, AreasOk, SharedAt, Find, ReflagsTo, Retagged, HeldOnce, Read;
    var flags, areas := ProtFlags(write, exec), s.procs[i].areas;
    ProtectRange(s, ext, i, lo, n, flags, s1);
    RetaggedKind(areas, lo, lo + 4096 * n, flags, x);
    RelistReads(s1, i, Retagged(areas, lo, lo + 4096 * n, flags), s', k, x);
    assert Private(s, k, x);
  }

  /** A writable page of an invariant state is held once. */
  lemma WritableHeldOnce(s: Sys, ext: seq<nat>, i: nat, lo: nat, n: nat, exec: bool, s1: Sys, s': Sys, x: nat)
    requires Inv(s, ext) && Protects(s, i, lo, n, true, exec, s1, s') && Inv(s', ext) && lo <= x < lo + 4096 * n
    ensures HeldOnce(s, i, x)
  {
    hide Inv, Walk, PathOf, SharedAt, Owned, Sound, ReflagsTo, Retagged, AddrOf;
    var p, root := PathOf(x), s.procs[i].root;
    InvSize(s, ext);
    InvOwned(s, ext, i);
    ReflagRange(s, i, lo, n, ProtFlags(true, exec), s1);
    PageBase(x);
    InvPage(s', ext, i, p);
    var f := Walk(s.mem, root, p).value.frame;
    if f < |s.pmm.rc| {
      InvPage(s, ext, i, p);
      MappedHeld(s, ext, i, p);
    }
  }

  lemma ProtectSize(s: Sys, ext: seq<nat>, i: nat, lo: nat, n: nat, write: bool, exec: bool, s1: Sys, s': Sys)
    requires Inv(s, ext) && Protects(s, i, lo, n, write, exec, s1, s')
    ensures |s'.procs| == |s.procs|
  {
    hide Inv, Reflagging, Retagged, ReflagsTo, Owned, AllMapped;
    InvOwned(s, ext, i);
    ReflagRange(s, i, lo, n, ProtFlags(write, exec), s1);
    ReflaggingProcs(s, i, lo, lo + 4096 * n, ProtFlags(write, exec), s1);
  }

  lemma ProtectedAreas(s: Sys, ext: seq<nat>, i: nat, lo: nat, n: nat, write: bool, exec: bool, s1: Sys, s': Sys)
    requires Inv(s, ext) && Protects(s, i, lo, n, write, exec, s1, s') && Inv(s', ext)
    ensures NoneShared(s.procs[i].areas, lo, lo + 4096 * n)
  {
    hide Inv, Walk, PathOf, AreasOk, ReflagsTo, Retagged, NoneShared, Owned, Reflagging, AllMapped;
    var flags := ProtFlags(write, exec);
    InvOwned(s, ext, i);
    ReflagRange(s, i, lo, n, flags, s1);
    ReflaggingProcs(s, i, lo, lo + 4096 * n, flags, s1);
    InvAreas(s, ext, i);
    InvAreas(s', ext, i);
    RetaggedOk(s.procs[i].areas, lo, lo + 4096 * n, flags);
  }

  /** sys_mprotect keeps the invariant if and only if the range has no shared area and, where it allows
      writing, no frame that others hold. The code asks neither. */
  lemma ProtectExact(s: Sys, ext: seq<nat>, i: nat, lo: nat, n: nat, write: bool, exec: bool, s1: Sys, s': Sys)
    requires Inv(s, ext) && Protects(s, i, lo, n, write, exec, s1, s')
    ensures Inv(s', ext) <==> MayProtect(s, i, lo, n, write)
  {
    hide Inv, HeldOnce, NoneShared, ReflagsTo, Retagged, AllMapped;
    if MayProtect(s, i, lo, n, write) {
      ProtectKeepsInv(s, ext, i, lo, n, write, exec, s1, s');
    }
    if Inv(s', ext) {
      ProtectedAreas(s, ext, i, lo, n, write, exec, s1, s');
      if write {
        forall x: nat | lo <= x < lo + 4096 * n
          ensures HeldOnce(s, i, x)
        {
          WritableHeldOnce(s, ext, i, lo, n, exec, s1, s', x);
        }
      }
    }
  }

  lemma MapsTouches(s: Sys, ext: seq<nat>, i: nat, p: Path, e: Pte, s': Sys)
    requires Inv(s, ext) && MapsPage(s, i, p, e, s')
    ensures Touches(s, i, s') && PageSet(s, i, p, LeafOf(e), s')
  {
    hide Walk, Sound, SpaceRefs, TreeOk, OnlyTree, PagesOk, NoMixing;
    InvOwned(s, ext, i);
  }

  /** Where two processes hold one frame, a write that sys_mprotect has allowed to the one is read by the
      other. */
  lemma ProtectShares(s: Sys, ext: seq<nat>, i: nat, a: nat, exec: bool, s1: Sys, s2: Sys, b: Byte, s': Sys,
                      j: nat, y: nat)
    requires Inv(s, ext) && Protects(s, i, PageStart(a), 1, true, exec, s1, s2) && Writes(s2, i, a, b, s')
    requires j != i && Private(s, j, y) && y % 4096 == a % 4096
    requires var r, q := Walk(s.mem, s.procs[i].root, PathOf(a)), Walk(s.mem, s.procs[j].root, PathOf(y));
             r.Some? && q.Some? && q.value.frame == r.value.frame
    ensures |s'.procs| == |s.procs| && Private(s', j, y) && Read(s', j, y) == b
  {
    hide Inv, Walk, PathOf, SharedAt, Retagged, MapsPage, Touches, PageSet, AddrOf, Access;
    AccessNarrows(s2.mem, s2.procs[i].root, PathOf(a));
    var lo, flags := PageStart(a), ProtFlags(true, exec);
    var p := PathOf(lo);
    var u := ReflagsLast(s, i, lo, 1, flags, s1);
    OnePage(a, lo);
    PageBase(y);
    var e := Pte(Walk(s.mem, s.procs[i].root, p).value.frame, flags);
    MapsTouches(s, ext, i, p, e, s1);
    MapsProcsRam(s, i, p, e, s1);
    TouchPage(s, ext, i, p, LeafOf(e), s1, i, p);
    TouchPage(s, ext, i, p, LeafOf(e), s1, j, PathOf(y));
  }

  lemma MapsProcsRam(s: Sys, i: nat, p: Path, e: Pte, s': Sys)
    requires MapsPage(s, i, p, e, s')
    ensures s'.procs == s.procs && s'.ram == s.ram
  {
  }

  // ---------- mmap without a file ----------

  const U64: nat := 0x1_0000_0000_0000_0000
  const MMAP_BASE: nat := 0x1_0000_0000
  const STACK_TOP: nat := 0x7000_0000_0000

  /** A place where SYS_MMAP can put length bytes. */
  ghost predicate Fits(areas: seq<Area>, a: nat, length: nat) {
    MMAP_BASE <= a && a % 4096 == 0 && a + length < STACK_TOP && Vacant(areas, a, a + length)
  }

  /** No place before `start`. */
  ghost predicate NoneBefore(areas: seq<Area>, start: nat, length: nat) {
    forall a: nat :: a < start ==> !Fits(areas, a, length)
  }

  lemma SkipArea(areas: seq<Area>, k: nat, start: nat, length: nat, start': nat)
    requires k < |areas| && NoneBefore(areas, start, length) && start < areas[k].end && start + length > areas[k].start
    requires start' <= areas[k].end + 4095 && start' % 4096 == 0
    ensures NoneBefore(areas, start', length)
  {
    forall a: nat | a < start'
      ensures !Fits(areas, a, length)
    {
      if start <= a && a % 4096 == 0 {
        assert a < areas[k].end;
      }
    }
  }

  function RoundUp(a: nat): nat { (a + 4095) / 4096 * 4096 }

  lemma RoundUpIs(a: nat)
    ensures a <= RoundUp(a) <= a + 4095 && RoundUp(a) % 4096 == 0
  {
  }

  lemma NoPlace(areas: seq<Area>, start: nat, length: nat)
    requires NoneBefore(areas, start, length) && start + length >= STACK_TOP
    ensures forall a: nat :: !Fits(areas, a, length)
  {
  }

  /** The search of SYS_MMAP: the lowest place that is vacant, and none exactly if there is none. */
  method FindGap(areas: seq<Area>, length: nat) returns (r: Option<nat>)
    ensures r.Some? ==> Fits(areas, r.value, length) && NoneBefore(areas, r.value, length)
    ensures r.None? ==> forall a: nat :: !Fits(areas, a, length)
  {
    hide Fits, NoneBefore, RoundUp;
    var start := MMAP_BASE;
    NothingBefore(areas, length);
    var again := true;
    while again
      invariant MMAP_BASE <= start <= U64 && start % 4096 == 0 && NoneBefore(areas, start, length)
      invariant !again ==> Vacant(areas, start, start + length)
      decreases U64 - start, again
    {
      again := false;
      for k := 0 to |areas|
        invariant Vacant(areas[..k], start, start + length)
      {
        if start + length >= U64 {
          NoPlace(areas, start, length);
          return None;
        }
        if start < areas[k].end && start + length > areas[k].start {
          if areas[k].end > U64 - 4096 {
            SkipArea(areas, k, start, length, U64 - 4096);
            NoPlace(areas, U64 - 4096, length);
            return None;
          }
          RoundUpIs(areas[k].end);
          SkipArea(areas, k, start, length, RoundUp(areas[k].end));
          start := RoundUp(areas[k].end);
          again := true;
          break;
        }
      }
      assert areas[..|areas|] == areas;
    }
    if start + length >= STACK_TOP {
      NoPlace(areas, start, length);
      return None;
    }
    FitsHere(areas, start, length);
    return Some(start);
  }

  lemma NothingBefore(areas: seq<Area>, length: nat)
    ensures NoneBefore(areas, MMAP_BASE, length)
  {
  }

  lemma FitsHere(areas: seq<Area>, a: nat, length: nat)
    requires MMAP_BASE <= a && a % 4096 == 0 && a + length < STACK_TOP && Vacant(areas, a, a + length)
    ensures Fits(areas, a, length)
  {
  }

  /** A new private area of whole pages. */
  predicate NewArea(v: Area) {
    && v.start % 4096 == 0 && v.end % 4096 == 0 && 0 < v.start < v.end <= USER_LIMIT
    && v.kind != Shared && !v.flags.shared
  }

  /** Process i gets area v where it had none. */
  ghost predicate Adds(s: Sys, i: nat, v: Area, list: seq<Area>, s': Sys) {
    && Relists(s, i, list, s') && NewArea(v) && Vacant(s.procs[i].areas, v.start, v.end)
    && Inserted(s.procs[i].areas, v, list) && Kept(list)
  }

  lemma InsertedFind(areas: seq<Area>, v: Area, list: seq<Area>, a: nat)
    requires Inserted(areas, v, list) && Kept(list)
    ensures Find(list, a) == if v.Has(a) then Some(v) else Find(areas, a)
  {
    hide Sorted, Find;
    var base := if areas == [] then [SENTINEL] else areas;
    var k :| 0 <= k <= |base| && list == base[..k] + [v] + base[k..];
    if v.Has(a) {
      assert list[k] == v;
      FindAt(list, k, a);
    } else {
      FindSkips(base[..k], v, base[k..], a);
      assert base[..k] + base[k..] == base;
      SentinelFind(areas, a);
    }
  }

  lemma FindSkips(xs: seq<Area>, v: Area, ys: seq<Area>, a: nat)
    requires !v.Has(a)
    ensures Find(xs + [v] + ys, a) == Find(xs + ys, a)
  {
    hide Find;
    FindAppend(xs + [v], ys, a);
    FindAppend(xs, [v], a);
    FindOne(v, a);
    FindAppend(xs, ys, a);
  }

  lemma SentinelFind(areas: seq<Area>, a: nat)
    ensures Find(if areas == [] then [SENTINEL] else areas, a) == Find(areas, a)
  {
  }

  lemma InsertedOk(areas: seq<Area>, v: Area, list: seq<Area>)
    requires AreasOk(areas) && Inserted(areas, v, list) && Kept(list) && NewArea(v)
    ensures AreasOk(list)
  {
    hide Kept;
    var base := if areas == [] then [SENTINEL] else areas;
    var k :| 0 <= k <= |base| && list == base[..k] + [v] + base[k..];
    assert forall w :: w in list ==> w in base || w == v;
  }

  lemma VacantFind(areas: seq<Area>, lo: nat, hi: nat, a: nat)
    requires Vacant(areas, lo, hi) && lo <= a < hi
    ensures Find(areas, a) == None
  {
  }

  lemma AddKeepsInv(s: Sys, ext: seq<nat>, i: nat, v: Area, list: seq<Area>, s': Sys)
    requires Inv(s, ext) && Adds(s, i, v, list, s')
    ensures Inv(s', ext)
    ensures forall x: nat :: v.start <= x < v.end ==> Walk(s.mem, s.procs[i].root, PathOf(x)) == None
    ensures forall k: nat, x: nat :: Private(s, k, x) <==> Private(s', k, x)
  {
    hide Inv, Walk, PathOf, AreasOk, AddrOf, Find, Inserted, Kept, Vacant;
    var areas := s.procs[i].areas;
    InvAreas(s, ext, i);
    InsertedOk(areas, v, list);
    forall a: nat
      ensures Find(list, a).Some? == (v.Has(a) || Find(areas, a).Some?) && SharedAt(list, a) == SharedAt(areas, a)
      ensures v.Has(a) ==> Find(areas, a) == None
    {
      InsertedFind(areas, v, list, a);
      if v.Has(a) {
        VacantFind(areas, v.start, v.end, a);
      }
    }
    forall p: Path | UserPath(p) && Walk(s.mem, s.procs[i].root, p).Some?
      ensures Find(areas, AddrOf(p)).Some?
    {
      InvPage(s, ext, i, p);
    }
    forall x: nat | v.start <= x < v.end
      ensures Walk(s.mem, s.procs[i].root, PathOf(x)) == None
    {
      PageBase(x);
      PrivatePage(areas, x);
    }
    RelistKeepsInv(s, ext, i, list, s');
  }

  lemma AddGood(s: Sys, ext: seq<nat>, kern: Kern, i: nat, v: Area, list: seq<Area>, s': Sys)
    requires Good(s, ext, kern) && Adds(s, i, v, list, s')
    ensures Good(s', ext, kern)
  {
    hide Inv, Intact, Inserted, Kept, Vacant, Spares;
    InvSize(s, ext);
    InvValid(s, ext);
    AddKeepsInv(s, ext, i, v, list, s');
    RelistRights(s, i, list, s');
    RelistSpares(s, i, list, s', kern.tables);
    SparedGood(s, ext, kern, s');
  }

  /** n pages of the area from `lo` on got a zeroed frame each, one after the other. */
  ghost predicate FillsTo(s: Sys, i: nat, lo: nat, n: nat, s': Sys)
    decreases n
  {
    if n == 0 then s' == s
    else
      var m, a := n - 1, lo + 4096 * (n - 1);
      exists u, w, nf :: FillsTo(s, i, lo, m, u) && Faults(u, i, a, Zeroed(nf), w, w, s')
  }

  lemma FillsLast(s: Sys, i: nat, lo: nat, n: nat, s': Sys) returns (u: Sys, w: Sys, nf: nat)
    requires n > 0 && FillsTo(s, i, lo, n, s')
    ensures FillsTo(s, i, lo, n - 1, u) && Faults(u, i, lo + 4096 * (n - 1), Zeroed(nf), w, w, s')
  {
    hide Faults;
    var m, a := n - 1, lo + 4096 * (n - 1);
    u, w, nf :| FillsTo(s, i, lo, m, u) && Faults(u, i, a, Zeroed(nf), w, w, s');
  }

  lemma FillsNone(s: Sys, i: nat, lo: nat)
    ensures FillsTo(s, i, lo, 0, s)
  {
  }

  lemma FillsNext(s: Sys, i: nat, lo: nat, n: nat, u: Sys, nf: nat, w: Sys, s': Sys)
    requires FillsTo(s, i, lo, n, u) && Faults(u, i, lo + 4096 * n, Zeroed(nf), w, w, s')
    ensures FillsTo(s, i, lo, n + 1, s')
  {
    hide Faults;
  }

  /** The pages of process i outside [lo, hi) are mapped as before. */
  ghost predicate MappedAlike(s: Sys, i: nat, lo: nat, hi: nat, s': Sys)
    requires i < |s.procs| && s.procs[i].Alive?
  {
    forall x: nat :: x < USER_LIMIT && !(lo <= x < hi) ==>
      Walk(s'.mem, s.procs[i].root, PathOf(x)) == Walk(s.mem, s.procs[i].root, PathOf(x))
  }

  lemma TakeSamePage(s: Sys, ext: seq<nat>, nf: nat, page: Page, s': Sys, i: nat, p: Path)
    requires Inv(s, ext) && Takes(s, nf, page, s') && i < |s.procs| && s.procs[i].Alive? && UserPath(p)
    ensures Walk(s'.mem, s.procs[i].root, p) == Walk(s.mem, s.procs[i].root, p)
  {
    hide Inv, Owned, TreeOk, Walk;
    InvSize(s, ext);
    InvOwned(s, ext, i);
    OwnedTree(s.St(), s.procs[i].root);
    assert [] + p == p;
    WalkFree(s.St(), s'.mem, s.procs[i].root, USER_ENTRIES, [], p, s.procs[i].root);
  }

  lemma ZeroedElsewhere(s: Sys, ext: seq<nat>, i: nat, a: nat, nf: nat, w: Sys, s': Sys)
    requires Inv(s, ext) && Faults(s, i, a, Zeroed(nf), w, w, s') && a % 4096 == 0
    ensures MappedAlike(s, i, a, a + 4096, s')
  {
    hide Inv, Walk, PathOf, MapsPage, Touches, PageSet, AddrOf;
    InvSize(s, ext);
    TakeKeepsInv(s, ext, nf, ZeroPage(), w);
    var e := Pte(nf, MapFlags(Find(s.procs[i].areas, a).value));
    MapsTouches(w, ext[nf := 1], i, PathOf(a), e, s');
    forall x: nat | x < USER_LIMIT && !(a <= x < a + 4096)
      ensures Walk(s'.mem, s.procs[i].root, PathOf(x)) == Walk(s.mem, s.procs[i].root, PathOf(x))
    {
      PageBase(x);
      OnePage(x, a);
      TakeSamePage(s, ext, nf, ZeroPage(), w, i, PathOf(x));
      TouchPage(w, ext[nf := 1], i, PathOf(a), LeafOf(e), s', i, PathOf(x));
    }
  }

  lemma UndoneElsewhere(s: Sys, ext: seq<nat>, i: nat, a: nat, nf: nat, page: Page, w1: Sys, w2: Sys, s': Sys, lo: nat)
    requires Inv(s, ext) && Faults(s, i, a, Undone(nf, page), w1, w2, s')
    ensures MappedAlike(s, i, lo, lo, s') && s'.procs == s.procs
  {
    hide Inv, Walk, PathOf, Owned, TreeOk, SameSeen, OnlyTree, Balanced;
    InvSize(s, ext);
    TakeKeepsInv(s, ext, nf, page, w1);
    InvOwned(w1, ext[nf := 1], i);
    forall x: nat | x < USER_LIMIT
      ensures Walk(s'.mem, s.procs[i].root, PathOf(x)) == Walk(s.mem, s.procs[i].root, PathOf(x))
    {
      PageBase(x);
      TakeSamePage(s, ext, nf, page, w1, i, PathOf(x));
    }
  }

  lemma {:induction false} FillRange(s: Sys, ext: seq<nat>, i: nat, lo: nat, n: nat, s': Sys)
    requires Inv(s, ext) && i < |s.procs| && s.procs[i].Alive? && lo % 4096 == 0 && FillsTo(s, i, lo, n, s')
    ensures Inv(s', ext) && SameReads(s, s') && s'.procs == s.procs && MappedAlike(s, i, lo, lo + 4096 * n, s')
    decreases n
  {
    hide Inv, Faults, Read, Walk, PathOf;
    if n > 0 {
      hide FillsTo;
      var u, w, nf := FillsLast(s, i, lo, n, s');
      var a := lo + 4096 * (n - 1);
      FillRange(s, ext, i, lo, n - 1, u);
      FaultKeeps(u, ext, i, a, Zeroed(nf), w, w, s');
      ZeroedProcs(u, i, a, nf, w, s');
      ZeroedElsewhere(u, ext, i, a, nf, w, s');
    }
  }

  /** Filling pages does not reach the kernel half. */
  lemma {:induction false} FillGood(s: Sys, ext: seq<nat>, kern: Kern, i: nat, lo: nat, n: nat, s': Sys)
    requires Good(s, ext, kern) && i < |s.procs| && s.procs[i].Alive? && lo % 4096 == 0 && FillsTo(s, i, lo, n, s')
    ensures Good(s', ext, kern)
    decreases n
  {
    hide Inv, Intact, Faults, Read;
    if n > 0 {
      hide FillsTo;
      var u, w, nf := FillsLast(s, i, lo, n, s');
      FillGood(s, ext, kern, i, lo, n - 1, u);
      FillRange(s, ext, i, lo, n - 1, u);
      FaultGood(u, ext, kern, i, lo + 4096 * (n - 1), Zeroed(nf), w, w, s');
    }
  }

  lemma ZeroedProcs(s: Sys, i: nat, a: nat, nf: nat, w: Sys, s': Sys)
    requires Faults(s, i, a, Zeroed(nf), w, w, s')
    ensures s'.procs == s.procs
  {
    hide Mapped, Walk, PathOf;
  }

  /** SYS_MMAP without a file, done: the area is there and all its pages are mapped to zeroed frames. */
  ghost predicate Mmaps(s: Sys, i: nat, v: Area, list: seq<Area>, s1: Sys, s': Sys) {
    Adds(s, i, v, list, s1) && FillsTo(s1, i, v.start, (v.end - v.start) / 4096, s')
  }

  /** The new memory reads as zeros, as it did before it was there, and nothing else changed for anybody. */
  lemma MmapKeeps(s: Sys, ext: seq<nat>, kern: Kern, i: nat, v: Area, list: seq<Area>, s1: Sys, s': Sys)
    requires Good(s, ext, kern) && Mmaps(s, i, v, list, s1, s')
    ensures Good(s', ext, kern) && |s'.procs| == |s.procs|
    ensures forall k: nat, x: nat :: Private(s', k, x) ==> Private(s, k, x) && Read(s', k, x) == Read(s, k, x)
  {
    hide Inv, Intact, Walk, PathOf, FillsTo, Inserted, Kept, Vacant, SharedAt, Read;
    AddKeepsInv(s, ext, i, v, list, s1);
    AddGood(s, ext, kern, i, v, list, s1);
    FillGood(s1, ext, kern, i, v.start, (v.end - v.start) / 4096, s');
    FillRange(s1, ext, i, v.start, (v.end - v.start) / 4096, s');
    forall k: nat, x: nat | Private(s', k, x)
      ensures Private(s, k, x) && Read(s', k, x) == Read(s, k, x)
    {
      assert Private(s1, k, x);
      RelistReads(s, i, list, s1, k, x);
    }
  }

  /** How SYS_MMAP fails: n pages were filled, the next one could not be, or the area could not be entered,
      and the pages were cleared again. */
  datatype Attempt = Attempt(list: seq<Area>, n: nat, filled: Sys, c: Fault, w1: Sys, w2: Sys, tried: Sys,
                             cleared: Sys, left: seq<Area>)

  /** The list a failed vma_add leaves. */
  predicate Left(areas: seq<Area>, left: seq<Area>) {
    left == areas || (areas == [] && left == [SENTINEL])
  }

  lemma LeftAlike(areas: seq<Area>, left: seq<Area>)
    requires AreasOk(areas) && Left(areas, left)
    ensures AreasOk(left) && forall a: nat :: Find(left, a) == Find(areas, a)
  {
  }

  ghost predicate MmapFails(s: Sys, i: nat, v: Area, s1: Sys, t: Attempt, s': Sys) {
    && Adds(s, i, v, t.list, s1) && v.start + 4096 * t.n <= v.end && FillsTo(s1, i, v.start, t.n, t.filled)
    && (t.c.Ignored? || t.c.Undone?) && Faults(t.filled, i, v.start + 4096 * t.n, t.c, t.w1, t.w2, t.tried)
    && ClearsTo(t.tried, i, v.start, t.n, t.cleared)
    && Left(s.procs[i].areas, t.left) && Relists(t.cleared, i, t.left, s')
  }

  lemma AttemptKeeps(s: Sys, ext: seq<nat>, kern: Kern, i: nat, v: Area, s1: Sys, t: Attempt, s': Sys)
    requires Good(s, ext, kern) && MmapFails(s, i, v, s1, t, s')
    ensures Good(t.tried, ext, kern) && t.tried.procs == s1.procs && SameReads(s1, t.tried)
    ensures MappedAlike(s1, i, v.start, v.start + 4096 * t.n, t.tried)
  {
    hide Inv, Intact, Walk, PathOf, FillsTo, ClearsTo, Inserted, Kept, Vacant, SharedAt, Read, Faults;
    AddKeepsInv(s, ext, i, v, t.list, s1);
    AddGood(s, ext, kern, i, v, t.list, s1);
    FillRange(s1, ext, i, v.start, t.n, t.filled);
    FillGood(s1, ext, kern, i, v.start, t.n, t.filled);
    var a := v.start + 4096 * t.n;
    FaultGood(t.filled, ext, kern, i, a, t.c, t.w1, t.w2, t.tried);
    if t.c.Undone? {
      UndoneElsewhere(t.filled, ext, i, a, t.c.nf, t.c.page, t.w1, t.w2, t.tried, a);
    } else {
      IgnoredSame(t.filled, i, a, t.w1, t.w2, t.tried);
    }
  }

  lemma IgnoredSame(s: Sys, i: nat, a: nat, w1: Sys, w2: Sys, s': Sys)
    requires Faults(s, i, a, Ignored, w1, w2, s')
    ensures s' == s
  {
  }

  /** After a failed attempt, only pages of the old areas are mapped. */
  lemma AttemptRelists(s: Sys, ext: seq<nat>, kern: Kern, i: nat, v: Area, s1: Sys, t: Attempt, s': Sys)
    requires Good(s, ext, kern) && MmapFails(s, i, v, s1, t, s')
    ensures Good(t.cleared, ext, kern) && t.cleared.procs == s1.procs && Relistable(t.cleared, i, t.left)
    ensures Cleared(t.tried, i, v.start, t.n, t.cleared)
  {
    hide Inv, Intact, Walk, PathOf, FillsTo, ClearsTo, Inserted, Kept, Vacant, Read, Faults, AddrOf, Find, AreasOk,
      OnWay, Dry, MayUnmap;
    AddKeepsInv(s, ext, i, v, t.list, s1);
    AttemptKeeps(s, ext, kern, i, v, s1, t, s');
    InvValid(t.tried, ext);
    UserRange(t.tried, i, v.start, t.n);
    ClearRange(t.tried, ext, kern, i, v.start, t.n, t.cleared);
    InvAreas(s, ext, i);
    LeftAlike(s.procs[i].areas, t.left);
    forall p: Path | UserPath(p) && Walk(t.cleared.mem, s.procs[i].root, p).Some?
      ensures Find(t.left, AddrOf(p)).Some? && SharedAt(t.left, AddrOf(p)) == SharedAt(t.list, AddrOf(p))
    {
      PathAddr(p);
      if v.start <= AddrOf(p) < v.start + 4096 * t.n {
        InRange(v.start, t.n, AddrOf(p));
      }
      InvPage(s, ext, i, p);
      assert Private(s, i, AddrOf(p)) <==> Private(s1, i, AddrOf(p));
    }
  }

  /** A mmap that fails changes nothing anybody can read and leaves no reference behind. */
  lemma MmapFailKeeps(s: Sys, ext: seq<nat>, kern: Kern, i: nat, v: Area, s1: Sys, t: Attempt, s': Sys)
    requires Good(s, ext, kern) && MmapFails(s, i, v, s1, t, s')
    ensures Good(s', ext, kern) && |s'.procs| == |s.procs|
    ensures forall k: nat, x: nat :: Private(s', k, x) ==> Private(s, k, x) && Read(s', k, x) == Read(s, k, x)
  {
    hide Inv, Intact, FillsTo, ClearsTo, Inserted, Kept, Vacant, Faults, Relistable, Find, AreasOk, Walk, PathOf,
      OnWay;
    AttemptRelists(s, ext, kern, i, v, s1, t, s');
    AttemptKeeps(s, ext, kern, i, v, s1, t, s');
    AddKeepsInv(s, ext, i, v, t.list, s1);
    InvAreas(s, ext, i);
    LeftAlike(s.procs[i].areas, t.left);
    RelistGood(t.cleared, ext, kern, i, t.left, s');
    forall k: nat, x: nat | Private(s', k, x)
      ensures Private(s, k, x) && Read(s', k, x) == Read(s, k, x)
    {
      assert Private(s, k, x);
      assert Private(s1, k, x) && Private(t.tried, k, x);
      PageBase(x);
      OnWayPlain(v.start, t.n, x);
    }
  }

  /** A vacant range has a place in the list. */
  lemma InsertPlace(areas: seq<Area>, v: Area) returns (list: seq<Area>)
    requires Kept(areas) && Vacant(areas, v.start, v.end) && 0 < v.start < v.end
    ensures Inserted(areas, v, list) && Kept(list)
  {
    var base := if areas == [] then [SENTINEL] else areas;
    var k := 0;
    while k < |base| && base[k].start < v.start
      invariant k <= |base| && forall j :: 0 <= j < k ==> base[j].start < v.start
    {
      k := k + 1;
    }
    assert base[..k] + base[k..] == base;
    InsertLookup(base[..k], v, base[k..]);
    list := base[..k] + [v] + base[k..];
  }

  lemma SideOf(base: seq<Area>, v: Area, k: nat, list: seq<Area>, m: nat)
    requires m < |base| && k <= |base| && list == base[..k] + [v] + base[k..] && Sorted(list)
    ensures base[m].start <= base[m].end && if m < k then base[m].end <= v.start else v.end <= base[m].start
  {
    assert list[k] == v;
    assert base[m] == list[if m < k then m else m + 1];
  }

  /** And only one. */
  lemma InsertOnce(areas: seq<Area>, v: Area, xs: seq<Area>, ys: seq<Area>)
    requires Inserted(areas, v, xs) && Inserted(areas, v, ys) && Kept(xs) && Kept(ys) && v.start < v.end
    ensures xs == ys
  {
    hide Sorted;
    var base := if areas == [] then [SENTINEL] else areas;
    var j :| 0 <= j <= |base| && xs == base[..j] + [v] + base[j..];
    var k :| 0 <= k <= |base| && ys == base[..k] + [v] + base[k..];
    var m := if j < k then j else k;
    if m < |base| {
      SideOf(base, v, j, xs, m);
      SideOf(base, v, k, ys, m);
    }
  }

  /** The flags of anonymous memory. */
  function AnonFlags(write: bool): Flags {
    NO_FLAGS.(present := true, user := true, writable := write)
  }

  /** The area SYS_MMAP makes at address a. */
  function AnonArea(a: nat, length: nat, write: bool): Area {
    Area(a, a + 4096 * Pages(length), AnonFlags(write), Data, false)
  }

  /** In the area nothing is mapped yet, and it has all its addresses. */
  ghost predicate Ready(s: Sys, i: nat, v: Area)
    requires i < |s.procs| && s.procs[i].Alive?
  {
    forall x: nat :: v.start <= x < v.end ==>
      Find(s.procs[i].areas, x) == Some(v) && Walk(s.mem, s.procs[i].root, PathOf(x)) == None
  }

  lemma AddsReady(s: Sys, ext: seq<nat>, i: nat, v: Area, list: seq<Area>, s': Sys)
    requires Inv(s, ext) && Adds(s, i, v, list, s')
    ensures Ready(s', i, v)
  {
    hide Inv, Walk, PathOf, Find, Inserted, Kept, Vacant;
    AddKeepsInv(s, ext, i, v, list, s');
    forall x: nat | v.start <= x < v.end
      ensures Find(list, x) == Some(v)
    {
      InsertedFind(s.procs[i].areas, v, list, x);
    }
  }

  lemma StillReady(s: Sys, ext: seq<nat>, i: nat, v: Area, k: nat, s': Sys, a: nat)
    requires Inv(s, ext) && i < |s.procs| && s.procs[i].Alive? && Ready(s, i, v) && NewArea(v)
    requires FillsTo(s, i, v.start, k, s') && v.start + 4096 * k <= a < v.end
    ensures s'.procs == s.procs && Find(s.procs[i].areas, a) == Some(v)
    ensures Walk(s'.mem, s.procs[i].root, PathOf(a)) == None
  {
    hide Inv, Walk, PathOf, Find, FillsTo;
    FillRange(s, ext, i, v.start, k, s');
  }

  /** The new page has the flags of its area. */
  lemma ZeroedFlags(s: Sys, ext: seq<nat>, i: nat, a: nat, nf: nat, w: Sys, s': Sys, v: Area)
    requires Inv(s, ext) && Faults(s, i, a, Zeroed(nf), w, w, s') && Find(s.procs[i].areas, a) == Some(v)
    ensures HasFlags(Walk(s'.mem, s.procs[i].root, PathOf(a)), Some(v))
  {
    hide Inv, Walk, PathOf, MapsPage, Touches, PageSet, AddrOf, Find;
    InvSize(s, ext);
    TakeKeepsInv(s, ext, nf, ZeroPage(), w);
    var e := Pte(nf, MapFlags(v));
    MapsTouches(w, ext[nf := 1], i, PathOf(a), e, s');
    TouchPage(w, ext[nf := 1], i, PathOf(a), LeafOf(e), s', i, PathOf(a));
  }

  /** All filled pages have the flags of the area. */
  lemma {:induction false} FillFlags(s: Sys, ext: seq<nat>, i: nat, v: Area, n: nat, s': Sys)
    requires Inv(s, ext) && i < |s.procs| && s.procs[i].Alive? && Ready(s, i, v) && NewArea(v)
    requires FillsTo(s, i, v.start, n, s') && v.start + 4096 * n <= v.end
    ensures forall x: nat :: v.start <= x < v.start + 4096 * n ==>
              HasFlags(Walk(s'.mem, s.procs[i].root, PathOf(x)), Some(v))
    decreases n
  {
    hide Inv, Faults, Read, Walk, PathOf, Find, HasFlags;
    if n > 0 {
      hide FillsTo;
      var u, w, nf := FillsLast(s, i, v.start, n, s');
      var a := v.start + 4096 * (n - 1);
      FillRange(s, ext, i, v.start, n - 1, u);
      FillFlags(s, ext, i, v, n - 1, u);
      ZeroedFlags(u, ext, i, a, nf, w, s', v);
      ZeroedElsewhere(u, ext, i, a, nf, w, s');
      forall x: nat | v.start <= x < v.start + 4096 * n
        ensures HasFlags(Walk(s'.mem, s.procs[i].root, PathOf(x)), Some(v))
      {
        if x >= a {
          OnePage(x, a);
        }
      }
    }
  }

  /** At every address of area v user code has what the area asks for. */
  ghost predicate AllServed(s: Sys, i: nat, v: Area) {
    && i < |s.procs| && s.procs[i].Alive?
    && forall x: nat :: v.start <= x < v.end ==>
         Find(s.procs[i].areas, x) == Some(v) && HasFlags(Access(s.mem, s.procs[i].root, PathOf(x)), Some(v))
  }

  lemma FillServes(s: Sys, ext: seq<nat>, kern: Kern, i: nat, v: Area, s': Sys)
    requires Good(s, ext, kern) && i < |s.procs| && s.procs[i].Alive? && Ready(s, i, v) && NewArea(v)
    requires FillsTo(s, i, v.start, (v.end - v.start) / 4096, s')
    ensures AllServed(s', i, v)
  {
    hide Inv, Intact, Rightful, Walk, Access, PathOf, Find, HasFlags, FillsTo, SameReads, MappedAlike;
    var n := (v.end - v.start) / 4096;
    WholePages(v);
    FillRange(s, ext, i, v.start, n, s');
    FillGood(s, ext, kern, i, v.start, n, s');
    FillFlags(s, ext, i, v, n, s');
    forall x: nat | v.start <= x < v.end
      ensures HasFlags(Access(s'.mem, s'.procs[i].root, PathOf(x)), Some(v))
    {
      PageBase(x);
      AccessIsPage(s', i, PathOf(x));
    }
  }

  lemma WholePages(v: Area)
    requires NewArea(v)
    ensures v.start + 4096 * ((v.end - v.start) / 4096) == v.end
  {
  }

  /** Every page of the range, and every area that has an address of it, allows what mprotect was asked for. */
  ghost predicate NewRights(s: Sys, i: nat, lo: nat, n: nat, write: bool, exec: bool) {
    && i < |s.procs| && s.procs[i].Alive?
    && forall x: nat :: lo <= x < lo + 4096 * n ==>
         var q, v := Walk(s.mem, s.procs[i].root, PathOf(x)), Find(s.procs[i].areas, x);
         Allows(q, write, exec) && (v.Some? ==> HasFlags(q, v))
  }

  /** What mmap made: user code may use every byte of it, and write it if that was asked for. */
  ghost predicate NewMemory(s: Sys, i: nat, a: nat, length: nat, write: bool) {
    && i < |s.procs| && s.procs[i].Alive?
    && forall x: nat :: a <= x < a + length ==>
         var q, v := Access(s.mem, s.procs[i].root, PathOf(x)), Find(s.procs[i].areas, x);
         && Allows(q, write, true) && HasFlags(q, v) && v == Some(AnonArea(a, length, write))
         && v.value.start == a && a + length <= v.value.end < a + length + 4096 && v.value.kind == Data
  }

  lemma ProtectServes(s: Sys, ext: seq<nat>, i: nat, lo: nat, n: nat, write: bool, exec: bool, s1: Sys, s': Sys)
    requires Inv(s, ext) && Protects(s, i, lo, n, write, exec, s1, s')
    ensures NewRights(s', i, lo, n, write, exec)
  {
    hide Inv, Walk, PathOf, AreasOk, ReflagsTo, Retagged, Owned, AllMapped, Find;
    var flags := ProtFlags(write, exec);
    InvOwned(s, ext, i);
    ReflagRange(s, i, lo, n, flags, s1);
    ReflaggingProcs(s, i, lo, lo + 4096 * n, flags, s1);
    forall x: nat | lo <= x < lo + 4096 * n
      ensures var q, v := Walk(s'.mem, s'.procs[i].root, PathOf(x)), Find(s'.procs[i].areas, x);
              Allows(q, write, exec) && (v.Some? ==> HasFlags(q, v))
    {
      MappedThere(s, i, lo, lo + 4096 * n, x);
      RetaggedFlags(s.procs[i].areas, lo, lo + 4096 * n, flags, x);
    }
  }

  lemma MappedThere(s: Sys, i: nat, lo: nat, hi: nat, x: nat)
    requires i < |s.procs| && s.procs[i].Alive? && AllMapped(s, i, lo, hi) && lo <= x < hi
    ensures Walk(s.mem, s.procs[i].root, PathOf(x)).Some?
  {
    hide Walk, PathOf;
  }

  /** An address of the range lies in an area with the new flags, or in none. */
  lemma {:induction false} RetaggedFlags(list: seq<Area>, lo: nat, hi: nat, flags: Flags, x: nat)
    requires lo <= x < hi
    ensures var v := Find(Retagged(list, lo, hi, flags), x); v.Some? ==> v.value.flags == flags
  {
    if list != [] {
      RetaggedFlags(list[1..], lo, hi, flags, x);
      assert Retagged(list, lo, hi, flags)[1..] == Retagged(list[1..], lo, hi, flags);
    }
  }
}
