/** The kernel half, which every address space shares: nothing a process can ask for may change it. */
module KernelHalf {
  import opened Options
  import opened Frames
  import opened PageTable
  import opened Cloning
  import opened Mapping
  import opened TableWalk
  import opened AddressSpace
  import opened Vma
  import opened CopyOnWrite
  import opened Rights
  import opened Permissions

  /** The kernel half as it should be: the kernel's top-level table, its tables, and what is in them. */
  datatype Kern = Kern(mem: Memory, root: nat, tables: set<nat>)

  predicate KernelPath(p: Path) {
    |p| == 4 && p[0] >= USER_ENTRIES
  }

  /** The indices of a table of the kernel half. */
  predicate Upper(q: seq<Index>) {
    0 < |q| <= 3 && q[0] >= USER_ENTRIES
  }

  /** The kernel half is a tree of its own tables, without bit 7 at the top and without 1 GiB pages: the boot
      loader makes neither. */
  ghost predicate Shaped(k: Kern) {
    && 0 < k.root < |k.mem| && k.root in k.tables
    && (forall q: seq<Index> :: Upper(q) && TableAt(k.mem, k.root, 4, q).Some? ==>
          TableAt(k.mem, k.root, 4, q).value in k.tables)
    && (forall q: seq<Index>, u: seq<Index> ::
          Upper(q) && Upper(u) && TableAt(k.mem, k.root, 4, q).Some? ==>
            TableAt(k.mem, k.root, 4, q) == TableAt(k.mem, k.root, 4, u) ==> q == u)
    && (forall p: Path :: KernelPath(p) ==> !TopMarked(k.mem, k.root, p))
    && (forall p: Path :: KernelPath(p) && Walk(k.mem, k.root, p).Some? ==> TableAt(k.mem, k.root, 4, p[..2]).Some?)
  }

  /** The kernel's tables are in use, nobody else refers to them, and they are as they should be; and every
      process has the kernel half. */
  ghost predicate Intact(s: Sys, ext: seq<nat>, k: Kern) {
    && Shaped(k) && |k.mem| == |s.mem| && Spared(s, ext, k.tables)
    && (forall t :: t in k.tables ==> s.mem[t] == k.mem[t])
    && (forall i :: 0 <= i < |s.procs| && s.procs[i].Alive? ==> SameTop(k, s.mem, s.procs[i].root))
  }

  /** These tables are in use, and the references to them are all the kernel's own. */
  ghost predicate Spared(s: Sys, ext: seq<nat>, tables: set<nat>) {
    |s.mem| == |s.pmm.rc| == |s.pmm.used| == |ext| &&
    forall t :: t in tables ==> 0 < t < |s.mem| && s.pmm.used[t] && s.pmm.rc[t] == ext[t]
  }

  ghost predicate SameTop(k: Kern, mem: Memory, root: nat) {
    forall j :: USER_ENTRIES <= j < ENTRIES ==> TableOf(mem, root)[j] == TableOf(k.mem, k.root)[j]
  }

  // ---------- What the kernel half translates ----------

  lemma {:induction false} SameTables(k: Kern, mem: Memory, u: seq<Index>, v: seq<Index>, f: nat)
    requires Shaped(k) && |mem| == |k.mem| && (forall t :: t in k.tables ==> t < |mem| && mem[t] == k.mem[t])
    requires Upper(u) && |u| + |v| <= 3 && TableAt(k.mem, k.root, 4, u) == Some(f)
    ensures TableAt(mem, f, 4 - |u|, v) == TableAt(k.mem, f, 4 - |u|, v)
    decreases |v|
  {
    if v != [] {
      var e := TableOf(k.mem, f)[v[0]];
      if Branches(e, 4 - |u|) {
        TableAtAppend(k.mem, k.root, 4, u, v[0]);
        assert (u + [v[0]])[0] == u[0];
        SameTables(k, mem, u + [v[0]], v[1..], e.frame);
      }
    }
  }

  lemma {:induction false} SameWalksBelow(k: Kern, mem: Memory, u: seq<Index>, p: Path, f: nat)
    requires Shaped(k) && |mem| == |k.mem| && (forall t :: t in k.tables ==> t < |mem| && mem[t] == k.mem[t])
    requires Upper(u) && |u| + |p| == 4 && TableAt(k.mem, k.root, 4, u) == Some(f)
    ensures Walk(mem, f, p) == Walk(k.mem, f, p)
    decreases |p|
  {
    hide Shaped;
    TableIn(k, u);
    var e := TableOf(k.mem, f)[p[0]];
    if |p| > 1 && Branches(e, |p|) {
      TableAtAppend(k.mem, k.root, 4, u, p[0]);
      assert (u + [p[0]])[0] == u[0];
      SameWalksBelow(k, mem, u + [p[0]], p[1..], e.frame);
      WalkInto(mem, f, p);
      WalkInto(k.mem, f, p);
    } else {
      WalkEnds(k.mem, mem, f, p);
    }
  }

  lemma TableIn(k: Kern, u: seq<Index>)
    requires Shaped(k) && Upper(u) && TableAt(k.mem, k.root, 4, u).Some?
    ensures TableAt(k.mem, k.root, 4, u).value in k.tables
  {
  }

  /** The tables of the kernel half, as a process reaches them. */
  lemma UpperTables(s: Sys, ext: seq<nat>, k: Kern, i: nat, q: seq<Index>)
    requires Intact(s, ext, k) && i < |s.procs| && s.procs[i].Alive? && Upper(q)
    ensures TableAt(s.mem, s.procs[i].root, 4, q) == TableAt(k.mem, k.root, 4, q)
  {
    var e := TableOf(k.mem, k.root)[q[0]];
    assert TableOf(s.mem, s.procs[i].root)[q[0]] == e;
    if Branches(e, 4) {
      assert [q[0]][1..] == [];
      assert TableAt(k.mem, k.root, 4, [q[0]]) == Some(e.frame);
      SameTables(k, s.mem, [q[0]], q[1..], e.frame);
    }
  }

  /** Every process sees the kernel half as it should be. */
  lemma UpperWalks(s: Sys, ext: seq<nat>, k: Kern, i: nat, p: Path)
    requires Intact(s, ext, k) && i < |s.procs| && s.procs[i].Alive? && KernelPath(p)
    ensures Walk(s.mem, s.procs[i].root, p) == Walk(k.mem, k.root, p)
    ensures !TopMarked(s.mem, s.procs[i].root, p)
  {
    var e := TableOf(k.mem, k.root)[p[0]];
    assert TableOf(s.mem, s.procs[i].root)[p[0]] == e;
    if Branches(e, 4) {
      assert [p[0]][1..] == [];
      assert TableAt(k.mem, k.root, 4, [p[0]]) == Some(e.frame);
      SameWalksBelow(k, s.mem, [p[0]], p[1..], e.frame);
      WalkInto(k.mem, k.root, p);
      WalkInto(s.mem, s.procs[i].root, p);
    }
  }

  /** A table that the kernel spares is no table of a process. */
  lemma NotOwn(s: Sys, ext: seq<nat>, k: Kern, i: nat, t: nat)
    requires Inv(s, ext) && Intact(s, ext, k) && i < |s.procs| && t in k.tables
    ensures ProcRefs(s.mem, s.procs[i], t) == 0
  {
    hide PagesOk, NoMixing, Shaped, ProcRefs;
    TotalOne(s.mem, s.procs, i, t);
  }

  /** User half and kernel half of an address space are one tree. */
  lemma SpaceTree(s: Sys, ext: seq<nat>, k: Kern, i: nat)
    requires Inv(s, ext) && Intact(s, ext, k) && i < |s.procs| && s.procs[i].Alive?
    ensures TreeOk(s.St(), s.procs[i].root, ENTRIES)
  {
    hide Inv, Intact, SpaceRefs, Owned;
    var root := s.procs[i].root;
    InvOwned(s, ext, i);
    OwnedTree(s.St(), root);
    forall q: seq<Index> | Inner(q, ENTRIES) && TableAt(s.mem, root, 4, q).Some?
      ensures var t := TableAt(s.mem, root, 4, q).value; 0 < t < |s.mem| && s.pmm.used[t]
    {
      TreeTableAt(s, ext, k, i, q);
    }
    forall q: seq<Index>, u: seq<Index> | Inner(q, ENTRIES) && Inner(u, ENTRIES) &&
        TableAt(s.mem, root, 4, q).Some? && TableAt(s.mem, root, 4, q) == TableAt(s.mem, root, 4, u)
      ensures q == u
    {
      TreeTableAt(s, ext, k, i, q);
      TreeTableAt(s, ext, k, i, u);
      if Upper(q) && Upper(u) {
        UpperOnce(s, ext, k, i, q, u);
      }
    }
  }

  lemma UpperOnce(s: Sys, ext: seq<nat>, k: Kern, i: nat, q: seq<Index>, u: seq<Index>)
    requires Intact(s, ext, k) && i < |s.procs| && s.procs[i].Alive? && Upper(q) && Upper(u)
    requires TableAt(s.mem, s.procs[i].root, 4, q).Some?
    requires TableAt(s.mem, s.procs[i].root, 4, q) == TableAt(s.mem, s.procs[i].root, 4, u)
    ensures q == u
  {
    UpperTables(s, ext, k, i, q);
    UpperTables(s, ext, k, i, u);
  }

  /** A table of the user half is held once, by this process; one of the kernel half by no process. */
  lemma TreeTableAt(s: Sys, ext: seq<nat>, k: Kern, i: nat, q: seq<Index>)
    requires Inv(s, ext) && Intact(s, ext, k) && i < |s.procs| && s.procs[i].Alive?
    requires Inner(q, ENTRIES) && TableAt(s.mem, s.procs[i].root, 4, q).Some?
    ensures var t := TableAt(s.mem, s.procs[i].root, 4, q).value;
            && 0 < t < |s.mem| && s.St().Tidy() && s.pmm.used[t]
            && ((t in k.tables) <==> Upper(q))
  {
    hide PagesOk, NoMixing, Shaped, SpaceRefs, Walk;
    var root, t := s.procs[i].root, TableAt(s.mem, s.procs[i].root, 4, q).value;
    if Upper(q) {
      UpperTables(s, ext, k, i, q);
      TableIn(k, q);
    } else {
      InvOwned(s, ext, i);
      OwnedTree(s.St(), root);
      if t in k.tables {
        NotOwn(s, ext, k, i, t);
      }
    }
  }

  // ---------- Steps that spare the kernel's tables ----------

  /** Going from s to s', these tables and the kernel half of every process stayed as they were. */
  ghost predicate Spares(s: Sys, s': Sys, tables: set<nat>) {
    && |s'.mem| == |s.mem| == |s.pmm.rc| && Frames.Valid(s'.pmm) && SameReserved(s.pmm, s'.pmm)
    && (forall t :: t in tables && t < |s.mem| ==> s'.mem[t] == s.mem[t] && s'.pmm.rc[t] == s.pmm.rc[t])
    && |s.procs| <= |s'.procs|
    && (forall j :: 0 <= j < |s.procs| && s'.procs[j].Alive? ==> KeepsTop(s, s', j))
  }

  ghost predicate KeepsTop(s: Sys, s': Sys, j: nat)
    requires j < |s.procs| && j < |s'.procs|
  {
    && s.procs[j].Alive? && s'.procs[j].Alive? && s'.procs[j].root == s.procs[j].root
    && UpperKept(s.mem, s'.mem, s.procs[j].root, USER_ENTRIES)
  }

  lemma SparesTrans(s: Sys, s1: Sys, s2: Sys, tables: set<nat>)
    requires Spares(s, s1, tables) && Spares(s1, s2, tables)
    ensures Spares(s, s2, tables)
  {
    hide Frames.Valid;
    SameReservedTransitive(s.pmm, s1.pmm, s2.pmm);
    forall j | 0 <= j < |s.procs| && s2.procs[j].Alive?
      ensures KeepsTop(s, s2, j)
    {
      assert KeepsTop(s1, s2, j) && KeepsTop(s, s1, j);
    }
  }

  lemma SparesSelf(s: Sys, tables: set<nat>)
    requires |s.mem| == |s.pmm.rc| && Frames.Valid(s.pmm)
    ensures Spares(s, s, tables)
  {
  }

  /** The kernel half survives what spares it. */
  lemma SparedIntact(s: Sys, ext: seq<nat>, k: Kern, s': Sys, ext': seq<nat>)
    requires Intact(s, ext, k) && Spares(s, s', k.tables) && Frames.Valid(s.pmm)
    requires |ext'| == |ext| && forall t :: t in k.tables && t < |ext| ==> ext'[t] == ext[t]
    requires forall j :: |s.procs| <= j < |s'.procs| && s'.procs[j].Alive? ==> SameTop(k, s'.mem, s'.procs[j].root)
    ensures Intact(s', ext', k)
  {
    hide Shaped;
    forall t | t in k.tables
      ensures s'.pmm.used[t]
    {
      assert Reserved(s.pmm, t) == Reserved(s'.pmm, t);
    }
    forall i | 0 <= i < |s'.procs| && s'.procs[i].Alive?
      ensures SameTop(k, s'.mem, s'.procs[i].root)
    {
      if i < |s.procs| {
        assert KeepsTop(s, s', i) && SameTop(k, s.mem, s.procs[i].root);
      }
    }
  }

  /** Spared tables stay spared. */
  lemma StaySpared(s: Sys, ext: seq<nat>, s': Sys, ext': seq<nat>, tables: set<nat>)
    requires Spared(s, ext, tables) && Spares(s, s', tables) && Frames.Valid(s.pmm)
    requires |ext'| == |ext| && forall t :: t in tables && t < |ext| ==> ext'[t] == ext[t]
    ensures Spared(s', ext', tables)
  {
    forall t | t in tables
      ensures s'.pmm.used[t]
    {
      assert Reserved(s.pmm, t) == Reserved(s'.pmm, t);
    }
  }

  /** No process refers to a spared table. */
  lemma SparedRefs(s: Sys, ext: seq<nat>, tables: set<nat>, t: nat, i: nat)
    requires Inv(s, ext) && Spared(s, ext, tables) && t in tables && i < |s.procs|
    ensures TotalRefs(s.mem, s.procs, t) == 0 && ProcRefs(s.mem, s.procs[i], t) == 0
  {
    hide PagesOk, NoMixing, ProcRefs, Spared;
    assert 0 < t < |s.mem| && s.pmm.rc[t] == ext[t] by { SparedAt(s, ext, tables, t); }
    TotalOne(s.mem, s.procs, i, t);
  }

  lemma SparedAt(s: Sys, ext: seq<nat>, tables: set<nat>, t: nat)
    requires Spared(s, ext, tables) && t in tables
    ensures 0 < t < |s.mem| == |s.pmm.rc| == |ext| == |s.pmm.used| && s.pmm.rc[t] == ext[t] && s.pmm.used[t]
  {
  }

  lemma TakeSpares(s: Sys, ext: seq<nat>, nf: nat, page: Page, s': Sys, tables: set<nat>)
    requires Inv(s, ext) && Spared(s, ext, tables) && Takes(s, nf, page, s')
    ensures Spares(s, s', tables) && nf !in tables
  {
    hide PagesOk, NoMixing, Accounting, Sound;
    forall j | 0 <= j < |s.procs| && s'.procs[j].Alive?
      ensures KeepsTop(s, s', j)
    {
      assert ProcSound(s, s.procs[j]);
    }
  }

  lemma DropSpares(s: Sys, f: nat, s': Sys, tables: set<nat>)
    requires |s.mem| == |s.pmm.rc| && Drops(s, f, s') && f !in tables
    ensures Spares(s, s', tables)
  {
  }

  /** Changes within the tables of process i do not reach the top-level tables of the others. */
  lemma OtherTops(s: Sys, ext: seq<nat>, i: nat, mem': Memory, j: nat)
    requires Inv(s, ext) && i < |s.procs| && j < |s.procs| && i != j && s.procs[i].Alive? && s.procs[j].Alive?
    requires OnlyTree(s.St(), mem', s.procs[i].root, USER_ENTRIES)
    ensures TableOf(mem', s.procs[j].root) == TableOf(s.mem, s.procs[j].root)
  {
    hide PagesOk, NoMixing, RefsUpTo, Sound, Walk;
    var root := s.procs[j].root;
    InvOwned(s, ext, i);
    InvOwned(s, ext, j);
    OwnedTree(s.St(), s.procs[i].root);
    assert ProcSound(s, s.procs[j]);
    if mem'[root] != s.mem[root] {
      HeldTwice(s, ext, i, j, root);
    }
  }

  lemma TouchSpares(s: Sys, ext: seq<nat>, i: nat, s': Sys, tables: set<nat>)
    requires Inv(s, ext) && Spared(s, ext, tables) && Touches(s, i, s')
    ensures Spares(s, s', tables)
  {
    hide PagesOk, NoMixing, Accounting, ProcSound, SpaceRefs, Owned;
    InvOwned(s, ext, i);
    OwnedTree(s.St(), s.procs[i].root);
    forall t | t in tables
      ensures s'.mem[t] == s.mem[t]
    {
      SparedRefs(s, ext, tables, t, i);
    }
    forall j | 0 <= j < |s.procs| && s'.procs[j].Alive?
      ensures KeepsTop(s, s', j)
    {
      if j != i {
        OtherTops(s, ext, i, s'.mem, j);
      }
    }
  }

  lemma MapSpares(s: Sys, ext: seq<nat>, i: nat, p: Path, e: Pte, s': Sys, tables: set<nat>)
    requires Inv(s, ext) && Spared(s, ext, tables) && MapsPage(s, i, p, e, s')
    ensures Spares(s, s', tables)
  {
    hide Inv, Spared, Spares, TreeOk, MappedOwned, OnlyTree, OnlyFree;
    assert Touches(s, i, s');
    TouchSpares(s, ext, i, s', tables);
  }

  lemma BuildSpares(s: Sys, ext: seq<nat>, i: nat, s': Sys, tables: set<nat>)
    requires Inv(s, ext) && Spared(s, ext, tables) && BuildsTables(s, i, s')
    ensures Spares(s, s', tables)
  {
    hide Inv, Spared, Spares, TreeOk, OnlyTree, OnlyFree, SameSeen, Owned;
    assert Touches(s, i, s');
    TouchSpares(s, ext, i, s', tables);
  }

  lemma ExitSpares(s: Sys, ext: seq<nat>, i: nat, s': Sys, tables: set<nat>)
    requires Inv(s, ext) && Spared(s, ext, tables) && Exits(s, i, s')
    ensures Spares(s, s', tables)
  {
    hide PagesOk, NoMixing, Accounting, ProcSound, SpaceRefs;
    forall t | t in tables
      ensures s'.pmm.rc[t] == s.pmm.rc[t]
    {
      SparedRefs(s, ext, tables, t, i);
    }
  }

  /** The tables a copy may change are those of the process. */
  lemma AsideTables(s: Sys, ext: seq<nat>, i: nat, dst: nat, mem': Memory, tables: set<nat>)
    requires Inv(s, ext) && Spared(s, ext, tables) && i < |s.procs| && s.procs[i].Alive? && |mem'| == |s.mem|
    requires Aside(s.St(), mem', s.procs[i].root, dst, 4, USER_ENTRIES) && dst !in tables
    requires SourceTop(s.St(), mem', s.procs[i].root, 4, USER_ENTRIES)
    requires dst < |s.pmm.used| ==> !s.pmm.used[dst]
    ensures forall t :: t in tables ==> mem'[t] == s.mem[t]
    ensures forall j :: 0 <= j < |s.procs| && s.procs[j].Alive? ==>
              UpperKept(s.mem, mem', s.procs[j].root, USER_ENTRIES)
  {
    hide PagesOk, NoMixing, Accounting, RefsUpTo, Sound;
    var root := s.procs[i].root;
    assert ProcSound(s, s.procs[i]);
    InvOwned(s, ext, i);
    assert SpaceRefs(s.mem, root, root) <= 1;
    forall t | t in tables
      ensures mem'[t] == s.mem[t]
    {
      SparedRefs(s, ext, tables, t, i);
    }
    forall j | 0 <= j < |s.procs| && s.procs[j].Alive? && j != i
      ensures mem'[s.procs[j].root] == s.mem[s.procs[j].root]
    {
      assert ProcSound(s, s.procs[j]);
      var r := s.procs[j].root;
      if RefsUpTo(s.mem, root, 4, USER_ENTRIES, r) > 0 || r == root {
        HeldTwice(s, ext, i, j, r);
      }
    }
  }

  lemma ForkSpares(s: Sys, ext: seq<nat>, i: nat, s': Sys, tables: set<nat>)
    requires Inv(s, ext) && Spared(s, ext, tables) && Forks(s, i, s')
    ensures Spares(s, s', tables)
    ensures forall j :: USER_ENTRIES <= j < ENTRIES ==>
              TableOf(s'.mem, s'.procs[|s.procs|].root)[j] == TableOf(s.mem, s.procs[i].root)[j]
  {
    hide PagesOk, NoMixing, Accounting, ProcSound, RefsUpTo, Copied, Sound, Held;
    var child := s'.procs[|s.procs|].root;
    AsideTables(s, ext, i, child, s'.mem, tables);
    forall t | t in tables
      ensures s'.pmm.rc[t] == s.pmm.rc[t]
    {
      ForkCount(s, ext, i, s', tables, t);
    }
    forall j | 0 <= j < |s.procs| && s'.procs[j].Alive?
      ensures KeepsTop(s, s', j)
    {
      assert s'.procs[j] == s'.procs[..|s.procs|][j];
    }
  }

  lemma ForkCount(s: Sys, ext: seq<nat>, i: nat, s': Sys, tables: set<nat>, t: nat)
    requires Inv(s, ext) && Spared(s, ext, tables) && Forks(s, i, s') && t in tables
    ensures t < |s.pmm.rc| && s'.pmm.rc[t] == s.pmm.rc[t]
  {
    hide PagesOk, NoMixing, ProcSound, RefsUpTo, Copied, Sound, Held, Aside;
    SparedRefs(s, ext, tables, t, i);
    if s.pmm.rc[t] == 0 {
      assert Reserved(s.pmm, t) == Reserved(s'.pmm, t);
    } else if SpaceRefs(s'.mem, s'.procs[|s.procs|].root, t) > 0 {
      var p := ChildRefs(s, ext, i, s', t);
      MappedCounted(s, ext, i, p);
    }
  }

  lemma ForkFailSpares(s: Sys, ext: seq<nat>, i: nat, s': Sys, tables: set<nat>)
    requires Inv(s, ext) && Spared(s, ext, tables) && ForkFails(s, i, s')
    ensures Spares(s, s', tables)
  {
    hide PagesOk, NoMixing, Accounting, ProcSound, RefsUpTo, Aside, SourceTop, TablesWeaker;
    assert |s'.mem| == |s.mem| by { WeakerSize(s, s'.mem); }
    AsideTables(s, ext, i, |s.mem|, s'.mem, tables);
  }

  lemma WeakerSize(s: Sys, mem': Memory)
    requires TablesWeaker(s, mem')
    ensures |mem'| == |s.mem|
  {
  }

  lemma SpawnSpares(s: Sys, ext: seq<nat>, areas: seq<Area>, s': Sys, tables: set<nat>)
    requires Inv(s, ext) && Spared(s, ext, tables) && Spawns(s, areas, s')
    ensures Spares(s, s', tables)
  {
    hide PagesOk, NoMixing, Accounting, RefsUpTo, Sound;
    forall j | 0 <= j < |s.procs| && s'.procs[j].Alive?
      ensures KeepsTop(s, s', j)
    {
      SpawnOld(s, areas, s', j);
      assert ProcSound(s, s.procs[j]);
    }
  }

  /** A frame that a process maps is no table of the kernel's. */
  lemma MappedNotSpared(s: Sys, ext: seq<nat>, tables: set<nat>, i: nat, p: Path)
    requires Inv(s, ext) && Spared(s, ext, tables) && i < |s.procs| && s.procs[i].Alive? && UserPath(p)
    requires Walk(s.mem, s.procs[i].root, p).Some?
    ensures Walk(s.mem, s.procs[i].root, p).value.frame !in tables
  {
    hide Inv, Spared, Walk;
    var f := Walk(s.mem, s.procs[i].root, p).value.frame;
    MappedCounted(s, ext, i, p);
    if f in tables {
      SparedRefs(s, ext, tables, f, i);
    }
  }

  /** Taking a frame and then changing the tables of one process. */
  lemma TakeThenSpared(s: Sys, ext: seq<nat>, nf: nat, page: Page, s1: Sys, tables: set<nat>)
    requires Inv(s, ext) && Spared(s, ext, tables) && Takes(s, nf, page, s1)
    ensures Spares(s, s1, tables) && nf !in tables && nf < |ext|
    ensures Inv(s1, ext[nf := 1]) && Spared(s1, ext[nf := 1], tables)
  {
    hide PagesOk, NoMixing, Accounting, ProcSound, Spared, Spares;
    TakeSpares(s, ext, nf, page, s1, tables);
    TakeKeepsInv(s, ext, nf, page, s1);
    StaySpared(s, ext, s1, ext[nf := 1], tables);
  }

  lemma FaultSpares(s: Sys, ext: seq<nat>, i: nat, a: nat, c: Fault, s1: Sys, s2: Sys, s': Sys, tables: set<nat>)
    requires Inv(s, ext) && Spared(s, ext, tables) && Faults(s, i, a, c, s1, s2, s')
    ensures Spares(s, s', tables)
  {
    hide Inv, Spared, Spares, Walk, PathOf, Takes, MapsPage, BuildsTables;
    InvSize(s, ext);
    InvValid(s, ext);
    match c {
      case Ignored => SparesSelf(s, tables);
      case Undone(nf, page) =>
        TakeThenSpared(s, ext, nf, page, s1, tables);
        BuildSpares(s1, ext[nf := 1], i, s2, tables);
        SparesSize(s1, s2, tables);
        SparesTrans(s, s1, s2, tables);
        DropSpares(s2, nf, s', tables);
        SparesTrans(s, s2, s', tables);
      case Zeroed(nf) =>
        TakeThenSpared(s, ext, nf, ZeroPage(), s1, tables);
        MapSpares(s1, ext[nf := 1], i, PathOf(a), Pte(nf, MapFlags(Find(s.procs[i].areas, a).value)), s', tables);
        SparesTrans(s, s1, s', tables);
      case CopiedTo(nf) =>
        var f := Walk(s.mem, s.procs[i].root, PathOf(a)).value.frame;
        MappedNotSpared(s, ext, tables, i, PathOf(a));
        TakeThenSpared(s, ext, nf, s.ram[f], s1, tables);
        MapSpares(s1, ext[nf := 1], i, PathOf(a), Pte(nf, MapFlags(Find(s.procs[i].areas, a).value)), s2, tables);
        SparesSize(s1, s2, tables);
        SparesTrans(s, s1, s2, tables);
        DropSpares(s2, f, s', tables);
        SparesTrans(s, s2, s', tables);
      case Reused =>
        var f := Walk(s.mem, s.procs[i].root, PathOf(a)).value.frame;
        MapSpares(s, ext, i, PathOf(a), Pte(f, MapFlags(Find(s.procs[i].areas, a).value)), s', tables);
      case Reshared(e) => MapSpares(s, ext, i, PathOf(a), e, s', tables);
    }
  }

  lemma InvValid(s: Sys, ext: seq<nat>)
    requires Inv(s, ext)
    ensures Frames.Valid(s.pmm)
  {
  }

  lemma SparesSize(s: Sys, s': Sys, tables: set<nat>)
    requires Spares(s, s', tables)
    ensures |s'.mem| == |s'.pmm.rc|
  {
  }

  lemma WriteSpares(s: Sys, ext: seq<nat>, i: nat, a: nat, b: Byte, s': Sys, tables: set<nat>)
    requires Inv(s, ext) && Writes(s, i, a, b, s')
    ensures Spares(s, s', tables)
  {
    hide PagesOk, NoMixing, Accounting, ProcSound, Walk;
  }

  /** The invariant of the whole system: the books are right, the kernel half is as it should be, and user code can use
      its pages. */
  ghost predicate Good(s: Sys, ext: seq<nat>, k: Kern) {
    Inv(s, ext) && Intact(s, ext, k) && Rightful(s)
  }

  /** What keeps the books, spares the kernel half and starts no process keeps the system good. */
  lemma SparedGood(s: Sys, ext: seq<nat>, k: Kern, s': Sys)
    requires Good(s, ext, k) && Inv(s', ext) && Spares(s, s', k.tables) && |s'.procs| == |s.procs| && Rightful(s')
    ensures Good(s', ext, k)
  {
    hide Inv, Intact, Spares, Rightful;
    InvValid(s, ext);
    InvSize(s, ext);
    SparedIntact(s, ext, k, s', ext);
  }

  lemma IntactSpared(s: Sys, ext: seq<nat>, k: Kern)
    requires Intact(s, ext, k)
    ensures Spared(s, ext, k.tables)
  {
  }

  lemma FaultGood(s: Sys, ext: seq<nat>, k: Kern, i: nat, a: nat, c: Fault, s1: Sys, s2: Sys, s': Sys)
    requires Good(s, ext, k) && Faults(s, i, a, c, s1, s2, s')
    ensures Good(s', ext, k) && SameReads(s, s')
  {
    hide Inv, Intact, Faults, Spares, Private, Read, Rightful;
    FaultKeeps(s, ext, i, a, c, s1, s2, s');
    FaultRights(s, ext, i, a, c, s1, s2, s');
    IntactSpared(s, ext, k);
    FaultSpares(s, ext, i, a, c, s1, s2, s', k.tables);
    SparedGood(s, ext, k, s');
  }
}
