/** What user code may do with its pages, over every step of the system: no table takes anything from a page, and no
    page allows more than its area does. */
module Permissions {
  import opened Options
  import opened Frames
  import opened PageTable
  import opened Cloning
  import opened Mapping
  import opened TableWalk
  import opened Rights
  import opened AddressSpace
  import opened Vma
  import opened CopyOnWrite

  /** Tables of the user half forbid nothing, and user code can reach every page there. */
  ghost predicate Reachable(mem: Memory, root: nat) {
    && Open(mem, root)
    && forall p: Path :: UserPath(p) && Walk(mem, root, p).Some? ==> Walk(mem, root, p).value.flags.user
  }

  ghost predicate Rightful(s: Sys) {
    forall i :: 0 <= i < |s.procs| && s.procs[i].Alive? ==> Reachable(s.mem, s.procs[i].root)
  }

  /** Page r has what its area asks for: it is for user code, and may be written and executed exactly if the area
      may; so are its other attributes those of the area. */
  predicate HasFlags(r: Option<Pte>, v: Option<Area>) {
    && r.Some? && v.Some? && r.value.flags.user
    && r.value.flags.writable == v.value.flags.writable && r.value.flags.nx == v.value.flags.nx
    && r.value.flags.rest == v.value.flags.rest
  }

  /** Page r is for user code, which may write it if `write`, and execute it if `exec`. */
  predicate Allows(r: Option<Pte>, write: bool, exec: bool) {
    r.Some? && r.value.flags.user && r.value.flags.writable == write && r.value.flags.nx == !exec
  }

  predicate Within(f: Flags, area: Flags) {
    (f.writable ==> area.writable) && (!f.nx ==> !area.nx)
  }

  /** A page can be written only if its area can, and executed only if its area can. */
  ghost predicate PagePermitted(mem: Memory, pr: Proc, p: Path)
    requires UserPath(p) && pr.Alive?
  {
    var r, v := Walk(mem, pr.root, p), Find(pr.areas, AddrOf(p));
    r.Some? && v.Some? ==> Within(r.value.flags, v.value.flags)
  }

  ghost predicate Permitted(s: Sys) {
    forall i, p: Path :: 0 <= i < |s.procs| && s.procs[i].Alive? && UserPath(p) ==>
      PagePermitted(s.mem, s.procs[i], p)
  }

  // ---------- What user code can do ----------

  /** The byte user code gets from an address; None if the processor does not let it. */
  function Loads(s: Sys, i: nat, a: nat): Option<Byte>
    requires i < |s.procs| && s.procs[i].Alive?
  {
    var r := Access(s.mem, s.procs[i].root, PathOf(a));
    if r.Some? && r.value.flags.user && r.value.frame < |s.ram| then Some(s.ram[r.value.frame][a % 4096]) else None
  }

  /** User code gets a byte if and only if the page is there and the page and every table on the way are for it. */
  lemma LoadExact(s: Sys, i: nat, a: nat)
    requires i < |s.procs| && s.procs[i].Alive?
    ensures var root, p := s.procs[i].root, PathOf(a);
            var w := Walk(s.mem, root, p);
            Loads(s, i, a).Some? <==>
              w.Some? && w.value.flags.user && AllLinks(s.mem, root, p, (g: Flags) => g.user) && w.value.frame < |s.ram|
  {
    hide Access, Walk, AllLinks;
    AccessExact(s.mem, s.procs[i].root, PathOf(a));
    AccessNarrows(s.mem, s.procs[i].root, PathOf(a));
  }

  /** The page of an address, as the walk finds it, is what user code may use. */
  lemma AccessIsPage(s: Sys, i: nat, p: Path)
    requires Rightful(s) && i < |s.procs| && s.procs[i].Alive? && UserPath(p)
    ensures Access(s.mem, s.procs[i].root, p) == Walk(s.mem, s.procs[i].root, p)
    ensures Walk(s.mem, s.procs[i].root, p).Some? ==> Walk(s.mem, s.procs[i].root, p).value.flags.user
  {
    hide Access, Walk, Open;
    OpenAccess(s.mem, s.procs[i].root, p);
  }

  /** User code can load from every page there is, and gets what the process reads. */
  lemma LoadIsRead(s: Sys, ext: seq<nat>, i: nat, a: nat)
    requires Inv(s, ext) && Rightful(s) && Private(s, i, a)
    ensures Loads(s, i, a) ==
            if Walk(s.mem, s.procs[i].root, PathOf(a)).Some? then Some(Read(s, i, a)) else None
  {
    hide Access, Walk, Rightful, Accounting, NoMixing, SharedAt;
    PageBase(a);
    AccessIsPage(s, i, PathOf(a));
    assert PageOk(s, s.procs[i], PathOf(a));
    assert ProcSound(s, s.procs[i]);
    PrivatePage(s.procs[i].areas, a);
  }

  // ---------- Pages that stay what they are ----------

  /** The page is the same, or has lost its write permission. */
  predicate Fades(r: Option<Pte>, r': Option<Pte>) {
    r' == r || r' == Down(r)
  }

  lemma FadesReach(mem: Memory, root: nat, mem': Memory, root': nat)
    requires Reachable(mem, root) && Open(mem', root')
    requires forall p: Path :: UserPath(p) ==> Fades(Walk(mem, root, p), Walk(mem', root', p))
    ensures Reachable(mem', root')
  {
    hide Open, Walk;
  }

  lemma FadesPermitted(mem: Memory, pr: Proc, mem': Memory, pr': Proc, p: Path)
    requires pr.Alive? && pr'.Alive? && pr'.areas == pr.areas && UserPath(p) && PagePermitted(mem, pr, p)
    requires Fades(Walk(mem, pr.root, p), Walk(mem', pr'.root, p))
    ensures PagePermitted(mem', pr', p)
  {
    hide Walk;
  }

  /** Process j is what process k was, with pages that may have faded. */
  ghost predicate Continues(s: Sys, k: nat, s': Sys, j: nat) {
    && k < |s.procs| && j < |s'.procs| && s.procs[k].Alive? && s'.procs[j].Alive?
    && s'.procs[j].areas == s.procs[k].areas
    && (Open(s.mem, s.procs[k].root) ==> Open(s'.mem, s'.procs[j].root))
    && forall p: Path :: UserPath(p) ==>
         Fades(Walk(s.mem, s.procs[k].root, p), Walk(s'.mem, s'.procs[j].root, p))
  }

  ghost predicate Blank(s: Sys, j: nat)
    requires j < |s.procs| && s.procs[j].Alive?
  {
    Open(s.mem, s.procs[j].root) && forall p: Path :: UserPath(p) ==> Walk(s.mem, s.procs[j].root, p) == None
  }

  lemma ContinuesKeep(s: Sys, s': Sys)
    requires Rightful(s)
    requires forall j :: 0 <= j < |s'.procs| && s'.procs[j].Alive? ==>
               Blank(s', j) || exists k :: Continues(s, k, s', j)
    ensures Rightful(s') && (Permitted(s) ==> Permitted(s'))
  {
    hide Open, Walk, Blank, Continues;
    forall j | 0 <= j < |s'.procs| && s'.procs[j].Alive?
      ensures Reachable(s'.mem, s'.procs[j].root)
      ensures Permitted(s) ==> forall p: Path :: UserPath(p) ==> PagePermitted(s'.mem, s'.procs[j], p)
    {
      if Blank(s', j) {
        BlankKeeps(s', j);
      } else {
        var k :| Continues(s, k, s', j);
        ContinuesProc(s, k, s', j);
      }
    }
  }

  lemma BlankKeeps(s: Sys, j: nat)
    requires j < |s.procs| && s.procs[j].Alive? && Blank(s, j)
    ensures Reachable(s.mem, s.procs[j].root) && forall p: Path :: UserPath(p) ==> PagePermitted(s.mem, s.procs[j], p)
  {
    hide Open, Walk;
  }

  lemma ContinuesProc(s: Sys, k: nat, s': Sys, j: nat)
    requires Rightful(s) && Continues(s, k, s', j)
    ensures Reachable(s'.mem, s'.procs[j].root)
    ensures Permitted(s) ==> forall p: Path :: UserPath(p) ==> PagePermitted(s'.mem, s'.procs[j], p)
  {
    hide Open, Walk, PagePermitted;
    FadesReach(s.mem, s.procs[k].root, s'.mem, s'.procs[j].root);
    if Permitted(s) {
      forall p: Path | UserPath(p)
        ensures PagePermitted(s'.mem, s'.procs[j], p)
      {
        FadesPermitted(s.mem, s.procs[k], s'.mem, s'.procs[j], p);
      }
    }
  }

  /** Tables above the last level that stay the same stay open. */
  lemma OpenUppers(mem: Memory, mem': Memory, root: nat)
    requires UppersSame(mem, mem', root, 4, USER_ENTRIES) && Open(mem, root)
    ensures Open(mem', root)
  {
    hide UppersSame, Link;
    forall v: seq<Index> | Inner(v, USER_ENTRIES) && v != [] && Link(mem', root, 4, v).Some?
      ensures Grants(Link(mem', root, 4, v).value)
    {
      UppersLink(mem, mem', root, 4, USER_ENTRIES, v);
    }
  }

  /** Free frames are no tables of a process. */
  lemma UsedUppers(s: Sys, ext: seq<nat>, mem': Memory, j: nat)
    requires Inv(s, ext) && j < |s.procs| && s.procs[j].Alive? && |mem'| == |s.mem| == |s.pmm.used|
    requires forall t :: 0 <= t < |mem'| && s.pmm.used[t] ==> mem'[t] == s.mem[t]
    ensures UppersSame(s.mem, mem', s.procs[j].root, 4, USER_ENTRIES)
  {
    hide Inv, Owned, TableAt;
    InvOwned(s, ext, j);
    OwnedTree(s.St(), s.procs[j].root);
    forall q: seq<Index> | |q| + 1 < 4 && Below(q, USER_ENTRIES) && TableAt(s.mem, s.procs[j].root, 4, q).Some?
      ensures TableOf(mem', TableAt(s.mem, s.procs[j].root, 4, q).value) ==
              TableOf(s.mem, TableAt(s.mem, s.procs[j].root, 4, q).value)
    {
      assert Inner(q, USER_ENTRIES);
    }
  }

  /** A copy of process i writes no table of process j, but last-level tables of process i. */
  lemma LeavesUppers(s: Sys, ext: seq<nat>, i: nat, mem': Memory, dst: nat, n: nat, j: nat)
    requires Inv(s, ext) && i < |s.procs| && j < |s.procs| && s.procs[i].Alive? && s.procs[j].Alive?
    requires Shadows(s.St(), mem', s.procs[i].root, dst, 4, n, USER_ENTRIES)
    requires dst < |s.pmm.used| ==> !s.pmm.used[dst]
    ensures UppersSame(s.mem, mem', s.procs[j].root, 4, USER_ENTRIES)
  {
    hide Inv, Owned, TableAt, Mirrors, LeafTable, Layered;
    InvOwned(s, ext, i);
    InvOwned(s, ext, j);
    OwnedLayered(s.St(), s.procs[i].root);
    if i == j {
      OwnedUppers(s.St(), mem', s.procs[i].root, dst, n);
    } else {
      OwnedTree(s.St(), s.procs[j].root);
      forall q: seq<Index> | |q| + 1 < 4 && Below(q, USER_ENTRIES) && TableAt(s.mem, s.procs[j].root, 4, q).Some?
        ensures TableOf(mem', TableAt(s.mem, s.procs[j].root, 4, q).value) ==
                TableOf(s.mem, TableAt(s.mem, s.procs[j].root, 4, q).value)
      {
        assert Inner(q, USER_ENTRIES);
        NotLeaf(s, ext, i, j, TableAt(s.mem, s.procs[j].root, 4, q).value);
      }
    }
  }

  lemma NotLeaf(s: Sys, ext: seq<nat>, i: nat, j: nat, t: nat)
    requires Inv(s, ext) && i < |s.procs| && j < |s.procs| && s.procs[i].Alive? && s.procs[j].Alive? && i != j
    requires 0 < t < |s.pmm.rc| && s.pmm.rc[t] == 1 == SpaceRefs(s.mem, s.procs[j].root, t)
    ensures !LeafTable(s.mem, s.procs[i].root, 4, USER_ENTRIES, t)
  {
    hide Inv, TableAt;
    if LeafTable(s.mem, s.procs[i].root, 4, USER_ENTRIES, t) {
      var q: seq<Index> :| |q| + 1 == 4 && Below(q, USER_ENTRIES) &&
                           TableAt(s.mem, s.procs[i].root, 4, q) == Some(t);
      PathRefs(s.mem, s.procs[i].root, 4, USER_ENTRIES, q);
      HeldTwice(s, ext, i, j, t);
    }
  }

  // ---------- Steps ----------

  lemma SpawnRights(s: Sys, ext: seq<nat>, areas: seq<Area>, s': Sys)
    requires Inv(s, ext) && Rightful(s) && Spawns(s, areas, s')
    ensures Rightful(s') && (Permitted(s) ==> Permitted(s'))
  {
    hide Inv, Rightful, Permitted, Blank, Continues;
    SpawnWeaker(s, areas, s');
    forall j | 0 <= j < |s'.procs| && s'.procs[j].Alive?
      ensures Blank(s', j) || exists k :: Continues(s, k, s', j)
    {
      if j < |s.procs| {
        SpawnOld(s, areas, s', j);
        InvSize(s, ext);
        UsedContinues(s, ext, s', j);
      } else {
        SpawnBlank(s, ext, areas, s');
      }
    }
    ContinuesKeep(s, s');
  }

  /** Where frames in use keep their contents. */
  lemma UsedContinues(s: Sys, ext: seq<nat>, s': Sys, j: nat)
    requires Inv(s, ext) && j < |s.procs| && s.procs[j].Alive? && j < |s'.procs| && s'.procs[j] == s.procs[j]
    requires |s'.mem| == |s.mem| == |s.pmm.used|
    requires forall t :: 0 <= t < |s.mem| && s.pmm.used[t] ==> s'.mem[t] == s.mem[t]
    ensures Continues(s, j, s', j)
  {
    hide Inv, Open, Walk, UppersSame;
    assert TablesWeaker(s, s'.mem);
    WeakerSpace(s, ext, s'.mem, j);
    UsedUppers(s, ext, s'.mem, j);
    if Open(s.mem, s.procs[j].root) {
      OpenUppers(s.mem, s'.mem, s.procs[j].root);
    }
  }

  lemma SpawnBlank(s: Sys, ext: seq<nat>, areas: seq<Area>, s': Sys)
    requires Inv(s, ext) && Spawns(s, areas, s')
    ensures s'.procs[|s.procs|].Alive? && Blank(s', |s.procs|)
  {
    hide Inv;
    var root := s'.procs[|s.procs|].root;
    forall v: seq<Index> | Inner(v, USER_ENTRIES) && v != []
      ensures Link(s'.mem, root, 4, v) == None
    {
      assert TableOf(s'.mem, root)[v[0]] == ABSENT;
    }
    forall p: Path | UserPath(p)
      ensures Walk(s'.mem, root, p) == None
    {
      assert TableOf(s'.mem, root)[p[0]] == ABSENT;
    }
  }

  lemma ForkRights(s: Sys, ext: seq<nat>, i: nat, s': Sys)
    requires Inv(s, ext) && Rightful(s) && Forks(s, i, s')
    ensures Rightful(s') && (Permitted(s) ==> Permitted(s'))
  {
    hide Inv, Rightful, Permitted, Blank, Continues, SpaceCloned, RamKept;
    forall j | 0 <= j < |s'.procs| && s'.procs[j].Alive?
      ensures Blank(s', j) || exists k :: Continues(s, k, s', j)
    {
      if j < |s.procs| {
        assert s'.procs[j] == s'.procs[..|s.procs|][j] == s.procs[j];
        ForkContinues(s, ext, i, s', j);
      } else {
        ChildContinues(s, ext, i, s');
      }
    }
    ContinuesKeep(s, s');
  }

  lemma ForkContinues(s: Sys, ext: seq<nat>, i: nat, s': Sys, j: nat)
    requires Inv(s, ext) && Forks(s, i, s') && j < |s.procs| && s.procs[j].Alive? && s'.procs[j] == s.procs[j]
    ensures Continues(s, j, s', j)
  {
    hide Inv, Open, Walk, UppersSame, Shadows, Copied, Sound, RefsUpTo, Held, Aside, SourceTop, TablesWeaker;
    InvSize(s, ext);
    ForkWeakens(s, i, s');
    WeakerSpace(s, ext, s'.mem, j);
    LeavesUppers(s, ext, i, s'.mem, s'.procs[|s.procs|].root, USER_ENTRIES, j);
    if Open(s.mem, s.procs[j].root) {
      OpenUppers(s.mem, s'.mem, s.procs[j].root);
    }
  }

  lemma ChildContinues(s: Sys, ext: seq<nat>, i: nat, s': Sys)
    requires Inv(s, ext) && Forks(s, i, s')
    ensures Continues(s, i, s', |s.procs|)
  {
    hide Inv, Open, Walk, Shadows, Sound, RefsUpTo, Held, Aside, SourceTop, Owned;
    InvOwned(s, ext, i);
    if Open(s.mem, s.procs[i].root) {
      OpenCopy(s.St(), s'.mem, s.procs[i].root, s'.procs[|s.procs|].root);
    }
  }

  /** After a fork the child may use every page as the parent could, but for writing pages that are not shared. */
  lemma ForkAccess(s: Sys, ext: seq<nat>, i: nat, s': Sys, p: Path)
    requires Inv(s, ext) && Forks(s, i, s') && UserPath(p)
    ensures Access(s'.mem, s'.procs[|s.procs|].root, p) == Down(Access(s.mem, s.procs[i].root, p))
  {
    hide Inv, Walk, Shadows, Sound, RefsUpTo, Held, Aside, SourceTop, Owned, Access, Copied, Layered;
    InvOwned(s, ext, i);
    OwnedLayered(s.St(), s.procs[i].root);
    CopyAccess(s.St(), s'.mem, s.procs[i].root, s'.procs[|s.procs|].root, p);
  }

  lemma ForkFailRights(s: Sys, ext: seq<nat>, i: nat, s': Sys)
    requires Inv(s, ext) && Rightful(s) && ForkFails(s, i, s')
    ensures Rightful(s') && (Permitted(s) ==> Permitted(s'))
  {
    hide Inv, Rightful, Permitted, Blank, Open, Walk, UppersSame, Shadows, TablesWeaker, RamKept, Aside, SourceTop;
    forall j | 0 <= j < |s'.procs| && s'.procs[j].Alive?
      ensures Blank(s', j) || exists k :: Continues(s, k, s', j)
    {
      WeakerSpace(s, ext, s'.mem, j);
      InvSize(s, ext);
      LeavesUppers(s, ext, i, s'.mem, |s.mem|, 0, j);
      if Open(s.mem, s.procs[j].root) {
        OpenUppers(s.mem, s'.mem, s.procs[j].root);
      }
      assert Continues(s, j, s', j);
    }
    ContinuesKeep(s, s');
  }

  /** Where the tables stay the same. */
  lemma SameTablesRights(s: Sys, s': Sys)
    requires Rightful(s) && s'.mem == s.mem && |s'.procs| == |s.procs|
    requires forall j :: 0 <= j < |s.procs| && s'.procs[j].Alive? ==> s'.procs[j] == s.procs[j]
    ensures Rightful(s') && (Permitted(s) ==> Permitted(s'))
  {
    hide Open, Walk, PagePermitted;
  }

  lemma TakeRights(s: Sys, ext: seq<nat>, nf: nat, page: Page, s': Sys)
    requires Inv(s, ext) && Rightful(s) && Takes(s, nf, page, s')
    ensures Rightful(s') && (Permitted(s) ==> Permitted(s'))
  {
    hide Inv, Rightful, Permitted, Blank, Continues;
    InvSize(s, ext);
    forall j | 0 <= j < |s'.procs| && s'.procs[j].Alive?
      ensures Blank(s', j) || exists k :: Continues(s, k, s', j)
    {
      UsedContinues(s, ext, s', j);
    }
    ContinuesKeep(s, s');
  }

  /** Other processes when tables of process i are written. */
  lemma OthersContinue(s: Sys, ext: seq<nat>, i: nat, s': Sys, j: nat)
    requires Inv(s, ext) && i < |s.procs| && j < |s.procs| && i != j && s.procs[i].Alive? && s.procs[j].Alive?
    requires OnlyTree(s.St(), s'.mem, s.procs[i].root, USER_ENTRIES) && s'.procs == s.procs
    ensures Continues(s, j, s', j)
  {
    hide Inv, Open, Walk, UppersSame, OnlyTree, SpaceRefs, Sound, TopClear;
    OthersKept(s, ext, i, s'.mem, j);
    if Open(s.mem, s.procs[j].root) {
      OpenUppers(s.mem, s'.mem, s.procs[j].root);
    }
  }

  lemma BuildRights(s: Sys, ext: seq<nat>, i: nat, s': Sys)
    requires Inv(s, ext) && Rightful(s) && BuildsTables(s, i, s')
    ensures Rightful(s') && (Permitted(s) ==> Permitted(s'))
  {
    hide Inv, Rightful, Permitted, Blank, Open, Walk, Owned, TreeOk, OnlyTree, OnlyFree, UpperKept, Balanced, Linked,
      SameSeen;
    InvOwned(s, ext, i);
    forall j | 0 <= j < |s'.procs| && s'.procs[j].Alive?
      ensures Blank(s', j) || exists k :: Continues(s, k, s', j)
    {
      if j == i {
        if Open(s.mem, s.procs[i].root) {
          OpenLinked(s.St(), s'.mem, s.procs[i].root);
        }
        assert Continues(s, j, s', j);
      } else {
        OthersContinue(s, ext, i, s', j);
      }
    }
    ContinuesKeep(s, s');
  }

  /** The page of the new entry is one for user code, and allows no more than its area. */
  ghost predicate Proper(s: Sys, i: nat, p: Path, e: Pte)
    requires i < |s.procs| && s.procs[i].Alive? && UserPath(p)
  {
    e.Present() ==>
      e.flags.user &&
      (Find(s.procs[i].areas, AddrOf(p)).Some? ==> Within(e.flags, Find(s.procs[i].areas, AddrOf(p)).value.flags))
  }

  lemma MapRights(s: Sys, ext: seq<nat>, i: nat, p: Path, e: Pte, s': Sys)
    requires Inv(s, ext) && Rightful(s) && MapsPage(s, i, p, e, s') && (e.Present() ==> e.flags.user)
    ensures Rightful(s') && (Permitted(s) && Proper(s, i, p, e) ==> Permitted(s'))
  {
    hide Inv, Open, Walk, Owned, TreeOk, OnlyTree, OnlyFree, UpperKept, MappedOwned, Linked, Seen;
    forall j | 0 <= j < |s'.procs| && s'.procs[j].Alive?
      ensures Reachable(s'.mem, s'.procs[j].root)
      ensures Permitted(s) && Proper(s, i, p, e) ==>
                forall q: Path :: UserPath(q) ==> PagePermitted(s'.mem, s'.procs[j], q)
    {
      if j == i {
        MapReaches(s, ext, i, p, e, s');
      } else {
        OthersContinue(s, ext, i, s', j);
        ContinuesProc(s, j, s', j);
      }
    }
  }

  lemma MapReaches(s: Sys, ext: seq<nat>, i: nat, p: Path, e: Pte, s': Sys)
    requires Inv(s, ext) && Rightful(s) && MapsPage(s, i, p, e, s') && (e.Present() ==> e.flags.user)
    ensures Reachable(s'.mem, s'.procs[i].root)
    ensures Permitted(s) && Proper(s, i, p, e) ==>
              forall q: Path :: UserPath(q) ==> PagePermitted(s'.mem, s'.procs[i], q)
  {
    hide Inv, Open, Walk, Owned, TreeOk, OnlyTree, OnlyFree, UpperKept, Linked, Seen, Sound, TopClear, SpaceRefs;
    InvOwned(s, ext, i);
    OpenLinked(s.St(), s'.mem, s.procs[i].root);
  }

  // ---------- Page faults ----------

  lemma AreaProper(s: Sys, ext: seq<nat>, i: nat, a: nat, e: Pte)
    requires Inv(s, ext) && i < |s.procs| && s.procs[i].Alive? && a < USER_LIMIT && Find(s.procs[i].areas, a).Some?
    requires e.flags.user && e.flags.writable == Find(s.procs[i].areas, a).value.flags.writable
    requires e.flags.nx == Find(s.procs[i].areas, a).value.flags.nx
    ensures UserPath(PathOf(a)) && Proper(s, i, PathOf(a), e)
  {
    hide Inv, PathOf;
    FaultArea(s, ext, i, a);
  }

  lemma TakenInv(s: Sys, ext: seq<nat>, nf: nat, page: Page, s1: Sys)
    requires Inv(s, ext) && Rightful(s) && Takes(s, nf, page, s1)
    ensures nf < |ext| && Inv(s1, ext[nf := 1]) && Rightful(s1) && (Permitted(s) ==> Permitted(s1))
    ensures s1.procs == s.procs
  {
    hide Inv, Rightful, Permitted;
    InvSize(s, ext);
    TakeKeepsInv(s, ext, nf, page, s1);
    TakeRights(s, ext, nf, page, s1);
  }

  lemma FaultRights(s: Sys, ext: seq<nat>, i: nat, a: nat, c: Fault, s1: Sys, s2: Sys, s': Sys)
    requires Inv(s, ext) && Rightful(s) && Faults(s, i, a, c, s1, s2, s')
    ensures Rightful(s') && (Permitted(s) ==> Permitted(s'))
  {
    hide Inv, Rightful, Permitted, Takes, BuildsTables, MapsPage, Proper, PathOf, Walk, Reflagged, Find;
    if !c.Ignored? {
      var v, p := Find(s.procs[i].areas, a).value, PathOf(a);
      match c {
        case Undone(nf, page) =>
          TakenInv(s, ext, nf, page, s1);
          BuildRights(s1, ext[nf := 1], i, s2);
          SameTablesRights(s2, s');
        case Zeroed(nf) =>
          TakenInv(s, ext, nf, ZeroPage(), s1);
          AreaProper(s1, ext[nf := 1], i, a, Pte(nf, MapFlags(v)));
          MapRights(s1, ext[nf := 1], i, p, Pte(nf, MapFlags(v)), s');
        case CopiedTo(nf) =>
          TakenInv(s, ext, nf, s.ram[Walk(s.mem, s.procs[i].root, p).value.frame], s1);
          AreaProper(s1, ext[nf := 1], i, a, Pte(nf, MapFlags(v)));
          MapRights(s1, ext[nf := 1], i, p, Pte(nf, MapFlags(v)), s2);
          SameTablesRights(s2, s');
        case Reused =>
          var e := Pte(Walk(s.mem, s.procs[i].root, p).value.frame, MapFlags(v));
          AreaProper(s, ext, i, a, e);
          MapRights(s, ext, i, p, e, s');
        case Reshared(e) =>
          ResharedFlags(s, ext, i, v, p, s', e);
          AreaProper(s, ext, i, a, e);
          MapRights(s, ext, i, p, e, s');
      }
    }
  }

  lemma ResharedFlags(s: Sys, ext: seq<nat>, i: nat, v: Area, p: Path, s': Sys, e: Pte)
    requires Inv(s, ext) && i < |s.procs| && s.procs[i].Alive?
    requires Reflagged(s.St(), s'.St(), s.procs[i].root, USER_ENTRIES, p, MapFlags(v), e)
    ensures e.flags.user && e.flags.writable == v.flags.writable && e.flags.nx == v.flags.nx
    ensures e.flags.rest == v.flags.rest
  {
    hide Inv, Owned, Mapped, Walk;
    InvOwned(s, ext, i);
  }
}
