/** Copying and tearing down page-table trees in place: clone_page_table_level,
    free_page_table_level and the address-space operations built on them. */
module AddressSpace {
  import opened Options
  import opened Frames
  import opened PageTable
  import opened Cloning
  import opened Mapping
  import opened TableWalk
  import opened Rights

  datatype Outcome = Done | Failed | Panic

  /** Dropping the first `n` entries of `f` gave back exactly what they refer to. */
  ghost predicate Released(rc0: seq<nat>, rc: seq<nat>, mem: Memory, f: nat, level: nat, n: nat)
    requires n <= ENTRIES
  {
    && |rc| == |rc0| > 0 && rc[0] == rc0[0]
    && forall g :: 0 < g < |rc0| ==> rc[g] == rc0[g] - RefsUpTo(mem, f, level, n, g)
  }

  ghost function HeldFrames(rc: seq<nat>): set<nat> {
    set t | 0 < t < |rc| && rc[t] > 0
  }

  /** Nothing in the tree makes the copy panic: no huge page, no reference count that overflows. */
  ghost predicate Clonable(s: State, src: nat, level: nat, hi: nat)
    requires hi <= ENTRIES
  {
    && Sound(s.mem, HeldFrames(s.rc), src, level, hi)
    && forall g :: 0 < g < |s.rc| ==> s.rc[g] + RefsUpTo(s.mem, src, level, hi, g) <= MAX_REFS
  }

  /** A copy with `tables` new tables: it takes exactly that many frames, and fails exactly when there
      are fewer. */
  predicate Costs(r: Outcome, before: int, after: int, tables: nat) {
    && (r == Done ==> after == before - FRAME_SIZE * tables && before >= FRAME_SIZE * tables)
    && (r == Failed ==> before < FRAME_SIZE * tables)
  }

  /** The tables that a copy of entry i needs. */
  ghost function NewTables(mem: Memory, src: nat, level: nat, i: nat): nat
    requires i < ENTRIES
  {
    EntryTables(mem, TableOf(mem, src)[i], level)
  }

  /** The tables of an address space: the top-level table and those of the user half. */
  ghost function SpaceTables(mem: Memory, root: nat): nat {
    1 + TablesUpTo(mem, root, 4, USER_ENTRIES)
  }

  lemma ValidTidy(p: Pmm, mem: Memory)
    requires Frames.Valid(p) && |mem| == |p.rc|
    ensures State(p.rc, mem, p.used).Tidy()
  {
  }

  lemma FreeBound(p: Pmm)
    requires Frames.Valid(p)
    ensures p.free >= 0
  {
  }

  lemma NoTables(mem: Memory, f: nat, level: nat)
    ensures TablesUpTo(mem, f, level, 0) == 0
  {
  }

  lemma TablesStep(mem: Memory, f: nat, level: nat, i: nat, hi: nat)
    requires i < hi <= ENTRIES
    ensures TablesUpTo(mem, f, level, i + 1) == TablesUpTo(mem, f, level, i) + NewTables(mem, f, level, i)
    ensures TablesUpTo(mem, f, level, i + 1) <= TablesUpTo(mem, f, level, hi)
    ensures level == 1 ==> NewTables(mem, f, level, i) == 0
  {
    TablesMonotone(mem, f, level, i + 1, hi);
  }

  /** An entry that is still to be copied is present exactly if it was at the start. */
  lemma CloneSource(s0: State, s: State, src: nat, dst: nat, level: nat, i: nat, hi: nat)
    requires CloneReady(s0, src, dst, level, hi) && CloneInv(s0, s, src, dst, level, i, hi) && i < hi
    ensures hi <= ENTRIES && src < |s.mem|
    ensures !s.mem[src][i].Present() ==> NewTables(s0.mem, src, level, i) == 0
    ensures Branches(s.mem[src][i], level) ==> NewTables(s0.mem, src, level, i) > 0
  {
    hide RefsUpTo, EntryRefs, Walk;
  }

  /** The child that is copied next has as many tables as at the start. */
  lemma ChildTables(s0: State, s: State, nf: nat, src: nat, dst: nat, level: nat, i: nat, hi: nat)
    requires CloneReady(s0, src, dst, level, hi) && i < hi && level > 1
    requires CloneInv(s0, s, src, dst, level, i, hi)
    requires Branches(s.mem[src][i], level) && 0 < nf < |s.rc| && !s.used[nf]
    ensures hi <= ENTRIES && nf < |s.mem| && src < |s.mem|
    ensures NewTables(s0.mem, src, level, i) ==
            1 + TablesUpTo(s.mem[nf := EmptyTable()], s.mem[src][i].frame, level - 1, ENTRIES)
  {
    hide RefsUpTo, EntryRefs, Walk, WeakerBelow, TablesUpTo;
    ChildBefore(s0, s, nf, src, dst, level, i, hi);
    WeakerTables(s0.mem, s.mem, s0.mem[src][i], level);
    WeakerTables(s.mem, s.mem[nf := EmptyTable()], s.mem[src][i], level);
  }

  lemma {:induction false} RootTables(s0: State, s1: State, src: nat, n: nat)
    requires n <= USER_ENTRIES && src < |s0.mem| && src < |s1.mem|
    requires forall j :: 0 <= j < USER_ENTRIES ==> s1.mem[src][j] == s0.mem[src][j]
    requires forall j :: 0 <= j < USER_ENTRIES ==> WeakerBelow(s0.mem, s1.mem, s0.mem[src][j], 4)
    ensures TablesUpTo(s1.mem, src, 4, n) == TablesUpTo(s0.mem, src, 4, n)
  {
    hide WeakerBelow;
    if n > 0 {
      RootTables(s0, s1, src, n - 1);
      WeakerTables(s0.mem, s1.mem, s0.mem[src][n - 1], 4);
    }
  }

  /** A child of a clonable tree is clonable when its turn comes. */
  lemma ChildClonable(s0: State, s: State, nf: nat, src: nat, dst: nat, level: nat, i: nat, hi: nat)
    requires CloneReady(s0, src, dst, level, hi) && i < hi && level > 1
    requires CloneInv(s0, s, src, dst, level, i, hi) && Clonable(s0, src, level, hi)
    requires forall g :: 0 <= g < |s.rc| ==> s.rc[g] <= MAX_REFS
    requires Branches(s.mem[src][i], level) && 0 < nf < |s.rc| && !s.used[nf]
    ensures Clonable(s.Take(nf, EmptyTable()), s.mem[src][i].frame, level - 1, ENTRIES)
  {
    hide Walk, Copied, Aside, SourceTop;
    var s1, c := s.Take(nf, EmptyTable()), s.mem[src][i].frame;
    ChildBefore(s0, s, nf, src, dst, level, i, hi);
    assert Weaker(s0.mem[src], s.mem[src]);
    assert EntrySound(s0.mem, HeldFrames(s0.rc), s0.mem[src][i], level);
    WeakerSound(s0.mem, s.mem, HeldFrames(s0.rc), HeldFrames(s1.rc), s0.mem[src][i], level);
    WeakerSound(s.mem, s1.mem, HeldFrames(s1.rc), HeldFrames(s1.rc), s.mem[src][i], level);
    forall g | 0 < g < |s.rc|
      ensures s1.rc[g] + RefsUpTo(s1.mem, c, level - 1, ENTRIES, g) <= MAX_REFS
    {
      RefsMonotone(s0.mem, src, level, i + 1, hi, g);
    }
  }

  lemma LeafHeld(s0: State, s: State, src: nat, dst: nat, i: nat, hi: nat)
    requires CloneReady(s0, src, dst, 1, hi) && i < hi
    requires CloneInv(s0, s, src, dst, 1, i, hi)
    requires s.mem[src][i].Present()
    ensures var f := s.mem[src][i].frame; 0 < f < |s.rc| ==> s.rc[f] > 0
  {
    var f := s.mem[src][i].frame;
    assert Weaker(s0.mem[src], s.mem[src]);
    assert s0.mem[src][i].Present() && s0.mem[src][i].frame == f;
    RefsOfEntry(s0.mem, src, 1, i, hi, f);
  }

  lemma NoHugeEntry(s0: State, s: State, src: nat, dst: nat, level: nat, i: nat, hi: nat)
    requires CloneReady(s0, src, dst, level, hi) && i < hi && 2 <= level <= 3
    requires CloneInv(s0, s, src, dst, level, i, hi) && Clonable(s0, src, level, hi)
    ensures s.mem[src][i].Present() ==> !s.mem[src][i].flags.huge
  {
    assert Weaker(s0.mem[src], s.mem[src]);
    assert EntrySound(s0.mem, HeldFrames(s0.rc), TableOf(s0.mem, src)[i], level);
  }

  /** A page of a clonable tree can take one more reference when its turn comes. */
  lemma LeafClonable(s0: State, s: State, src: nat, dst: nat, i: nat, hi: nat)
    requires CloneReady(s0, src, dst, 1, hi) && i < hi
    requires CloneInv(s0, s, src, dst, 1, i, hi) && Clonable(s0, src, 1, hi)
    requires s.mem[src][i].Present()
    ensures var f := s.mem[src][i].frame; 0 < f < |s.rc| ==> s.rc[f] < MAX_REFS
  {
    var f := s.mem[src][i].frame;
    assert Weaker(s0.mem[src], s.mem[src]);
    assert s0.mem[src][i].Present() && s0.mem[src][i].frame == f;
    RefsMonotone(s0.mem, src, 1, i + 1, hi, f);
  }

  lemma {:induction false} AbsentTail(mem: Memory, f: nat, level: nat, i: nat, n: nat, g: nat)
    requires i <= n <= ENTRIES
    requires forall j :: i <= j < n ==> TableOf(mem, f)[j] == ABSENT
    ensures RefsUpTo(mem, f, level, n, g) == RefsUpTo(mem, f, level, i, g)
    decreases n
  {
    if i < n {
      AbsentTail(mem, f, level, i, n - 1, g);
    }
  }

  /** An unfinished copy can be torn down, and that restores every reference count. */
  lemma UnfinishedCopy(s0: State, s: State, src: nat, dst: nat, level: nat, i: nat, hi: nat)
    requires CloneInv(s0, s, src, dst, level, i, hi)
    ensures Accounted(s, dst, level, hi) && Sound(s.mem, Fresh(s0.rc, s.rc), dst, level, hi)
    ensures forall rc: seq<nat> :: Released(s.rc, rc, s.mem, dst, level, hi) ==> rc == s0.rc
  {
    forall g | 0 < g < |s.rc|
      ensures s.rc[g] == s0.rc[g] + RefsUpTo(s.mem, dst, level, hi, g)
    {
      AbsentTail(s.mem, dst, level, i, hi, g);
    }
    forall rc: seq<nat> | Released(s.rc, rc, s.mem, dst, level, hi)
      ensures rc == s0.rc
    {
      assert forall g :: 0 <= g < |rc| ==> rc[g] == s0.rc[g];
    }
  }

  lemma UnfinishedRoot(s0: State, s: State, src: nat, root: nat, i: nat)
    requires CloneReady(s0, src, root, 4, USER_ENTRIES) && CloneInv(s0, s, src, root, 4, i, USER_ENTRIES)
    requires s0.rc[root] == 1
    ensures Sound(s.mem, Fresh(s0.rc, s.rc), root, 4, USER_ENTRIES)
    ensures forall g :: 0 < g < |s.rc| ==>
              s0.rc[g] - (if g == root then 1 else 0) == s.rc[g] - SpaceRefs(s.mem, root, g) >= 0
    ensures |s.rc| == |s0.rc| > 0 && s.rc[0] == s0.rc[0] && 0 < root < |s.rc|
  {
    UnfinishedCopy(s0, s, src, root, 4, i, USER_ENTRIES);
    forall g | 0 < g < |s.rc|
      ensures s0.rc[g] == s.rc[g] - RefsUpTo(s.mem, root, 4, USER_ENTRIES, g)
    {
      AbsentTail(s.mem, root, 4, i, USER_ENTRIES, g);
    }
  }

  /** A child that could not be copied leaves the copy as far as it was. */
  lemma ChildFailed(s0: State, s: State, nf: nat, mem2: Memory, src: nat, dst: nat, level: nat, i: nat, hi: nat)
    requires CloneReady(s0, src, dst, level, hi) && i < hi && level > 1
    requires CloneInv(s0, s, src, dst, level, i, hi)
    requires Branches(s.mem[src][i], level) && 0 < nf < |s.rc| && !s.used[nf]
    requires var s1, c := s.Take(nf, EmptyTable()), s.mem[src][i].frame;
             && Held(s1.used, nf, s1.mem, mem2) && Aside(s1, mem2, c, nf, level - 1, ENTRIES)
    ensures CloneInv(s0, s.(mem := mem2), src, dst, level, i, hi) && mem2[dst] == s.mem[dst]
  {
    ChildBefore(s0, s, nf, src, dst, level, i, hi);
    assert mem2[dst] == s.mem[dst];
    StepKeeps(s0, s, mem2, Fresh(s0.rc, s.rc), src, dst, level, i, hi);
  }

  lemma EntryFailed(s0: State, s: State, nf: nat, mem2: Memory, src: nat, dst: nat, level: nat, i: nat, hi: nat)
    requires CloneReady(s0, src, dst, level, hi) && i < hi && level > 1
    requires CloneInv(s0, s, src, dst, level, i, hi) && Shadows(s0, s.mem, src, dst, level, i, hi)
    requires Branches(s.mem[src][i], level) && 0 < nf < |s.rc| && !s.used[nf]
    requires var s1, c := s.Take(nf, EmptyTable()), s.mem[src][i].frame;
             && Held(s1.used, nf, s1.mem, mem2) && Aside(s1, mem2, c, nf, level - 1, ENTRIES)
             && Shadows(s1, mem2, c, nf, level - 1, 0, ENTRIES)
    ensures CloneInv(s0, s.(mem := mem2), src, dst, level, i, hi) && Shadows(s0, mem2, src, dst, level, i, hi)
  {
    hide CloneInv, CloneReady, Aside, Shadows, Weaker;
    CloneBounds(s0, s, src, dst, level, i, hi);
    ChildFailed(s0, s, nf, mem2, src, dst, level, i, hi);
    ShadowsFailed(s0, s, nf, mem2, src, dst, level, i, hi);
  }

  lemma EntryDone(s0: State, s: State, s1: State, s2: State, mem': Memory, d: Pte, src: nat, dst: nat, level: nat,
                  i: nat, hi: nat)
    requires NodeCopied(s0, s, s1, s2, mem', d, src, dst, level, i, hi)
    requires Shadows(s0, s.mem, src, dst, level, i, hi)
    requires d.flags.(shared := false) == s.mem[src][i].flags.(shared := false)
    requires Shadows(s1, s2.mem, s.mem[src][i].frame, d.frame, level - 1, ENTRIES, ENTRIES)
    ensures CloneInv(s0, s2.(mem := mem'), src, dst, level, i + 1, hi) && Shadows(s0, mem', src, dst, level, i + 1, hi)
    ensures dst < |mem'| == |s.mem| && mem'[dst] == s.mem[dst][i := d]
  {
    hide CloneInv, CloneReady, Shadows;
    CloneBounds(s0, s, src, dst, level, i, hi);
    CloneBounds(s1, s2, s.mem[src][i].frame, d.frame, level - 1, ENTRIES, ENTRIES);
    NodeAside(s0, s, s1, s2, mem', d, src, dst, level, i, hi);
    CopyNode(s0, s, s1, s2, mem', d, src, dst, level, i, hi);
    ShadowsNode(s0, s, s1, s2, mem', d, src, dst, level, i, hi);
  }

  /** A top-level table with an empty user half and the kernel half of `t`. */
  function NewTop(t: Table): (top: Table)
    ensures forall j :: 0 <= j < USER_ENTRIES ==> top[j] == ABSENT
    ensures forall j :: USER_ENTRIES <= j < ENTRIES ==> top[j] == t[j]
  {
    EmptyTable()[..USER_ENTRIES] + t[USER_ENTRIES..]
  }

  /** A table the copy can start from: its user half lies in managed memory and is accounted for. */
  ghost predicate UserRoot(s: State, src: nat) {
    && s.Tidy() && 0 < src < |s.rc| && s.rc[src] > 0
    && (forall j :: 0 <= j < USER_ENTRIES ==> EntryRooted(s.mem, s.mem[src][j], 4))
    && Accounted(s, src, 4, USER_ENTRIES)
  }

  /** `root` is a new top-level table whose user half is a copy-on-write copy of that of `src`, whose
      kernel half is that of `src`, and whose references are exactly what was taken. */
  ghost predicate SpaceCloned(s0: State, s: State, src: nat, root: nat) {
    && |s.rc| == |s0.rc| && s.Tidy() && s0.Tidy() && 0 < root < |s0.rc| && 0 < src < |s0.rc|
    && !s0.used[root] && s.rc[0] == s0.rc[0] && RefsUpTo(s.mem, root, 4, USER_ENTRIES, root) == 0
    && (forall g :: 0 < g < |s0.rc| ==>
          s.rc[g] == s0.rc[g] + SpaceRefs(s.mem, root, g))
    && Copied(s0.mem, s.mem, src, root, 4, USER_ENTRIES)
    && (forall j :: USER_ENTRIES <= j < ENTRIES ==> s.mem[root][j] == s0.mem[src][j])
    && Held(s0.used, root, s0.mem, s.mem) && Aside(s0, s.mem, src, root, 4, USER_ENTRIES)
    && Sound(s.mem, Fresh(s0.rc, s.rc), root, 4, USER_ENTRIES) && SourceTop(s0, s.mem, src, 4, USER_ENTRIES)
    && (TopClear(s0.mem, src) ==> TopClear(s.mem, root))
    && Shadows(s0, s.mem, src, root, 4, USER_ENTRIES, USER_ENTRIES)
  }

  /** The first n entries of a copied table have bit 7 set only where the source has. */
  ghost predicate SameMarks(t0: Table, t: Table, n: nat)
    requires n <= ENTRIES
  {
    forall j :: 0 <= j < n && t[j].flags.huge ==> t0[j].flags.huge && t0[j].Present()
  }

  ghost predicate RootTaken(s0: State, s1: State, src: nat, root: nat) {
    && UserRoot(s0, src) && s0.rc[0] > 0
    && 0 < root < |s0.rc| && !s0.used[root] && s1.rc == s0.rc[root := 1] && s1.used == s0.used[root := true]
    && |s1.mem| == |s0.mem| && s1.mem == s0.mem[root := s1.mem[root]]
    && (forall j :: 0 <= j < USER_ENTRIES ==> s1.mem[root][j] == ABSENT)
    && (forall j :: USER_ENTRIES <= j < ENTRIES ==> s1.mem[root][j] == s0.mem[src][j])
  }

  /** Taking the new top-level table disturbs nothing. */
  lemma RootReady(s0: State, s1: State, src: nat, root: nat)
    requires RootTaken(s0, s1, src, root)
    ensures CloneReady(s1, src, root, 4, USER_ENTRIES)
    ensures forall g :: RefsUpTo(s1.mem, src, 4, USER_ENTRIES, g) == RefsUpTo(s0.mem, src, 4, USER_ENTRIES, g)
    ensures forall j :: 0 <= j < USER_ENTRIES ==> SameBelow(s0.mem, s1.mem, s0.mem[src][j], 4)
    ensures forall j :: 0 <= j < USER_ENTRIES ==> WeakerBelow(s0.mem, s1.mem, s0.mem[src][j], 4)
  {
    assert RefsUpTo(s0.mem, src, 4, USER_ENTRIES, root) <= s0.rc[root];
    OffPath(s0.mem, src, 4, USER_ENTRIES, root, s1.mem[root]);
    forall j | 0 <= j < USER_ENTRIES
      ensures EntryRooted(s1.mem, s1.mem[src][j], 4)
    {
      WeakerRooted(s0.mem, s1.mem, s0.mem[src][j], 4);
    }
  }

  lemma Untouched(s0: State, src: nat)
    requires s0.Tidy()
    ensures Held(s0.used, |s0.mem|, s0.mem, s0.mem) && Aside(s0, s0.mem, src, |s0.mem|, 4, USER_ENTRIES)
    ensures SourceTop(s0, s0.mem, src, 4, USER_ENTRIES)
  {
  }

  lemma UserRootBounds(s0: State, src: nat)
    requires UserRoot(s0, src)
    ensures s0.Tidy() && 0 < src < |s0.rc| && s0.rc[src] > 0
  {
  }

  lemma TakeRoot(s0: State, pmm: Pmm, s1: State, src: nat, root: nat)
    requires UserRoot(s0, src) && Frames.Valid(pmm) && s0.rc == pmm.rc
    requires 0 < root < |s0.rc| && !s0.used[root]
    requires s1 == s0.Take(root, EmptyTable()).(mem := s0.mem[root := EmptyTable()][root := NewTop(s0.mem[src])])
    ensures RootTaken(s0, s1, src, root)
  {
  }

  lemma RootClonable(s0: State, s1: State, src: nat, root: nat)
    requires RootTaken(s0, s1, src, root) && Clonable(s0, src, 4, USER_ENTRIES)
    ensures Clonable(s1, src, 4, USER_ENTRIES)
  {
    RootReady(s0, s1, src, root);
    forall j | 0 <= j < USER_ENTRIES
      ensures EntrySound(s1.mem, HeldFrames(s1.rc), s1.mem[src][j], 4)
    {
      assert EntrySound(s0.mem, HeldFrames(s0.rc), s0.mem[src][j], 4);
      WeakerSound(s0.mem, s1.mem, HeldFrames(s0.rc), HeldFrames(s1.rc), s0.mem[src][j], 4);
    }
    forall g | 0 < g < |s1.rc|
      ensures s1.rc[g] + RefsUpTo(s1.mem, src, 4, USER_ENTRIES, g) <= MAX_REFS
    {
      assert s0.rc[g] + RefsUpTo(s0.mem, src, 4, USER_ENTRIES, g) <= MAX_REFS;
    }
  }

  lemma RootKeeps(s0: State, s1: State, s: State, src: nat, root: nat, i: nat)
    requires RootTaken(s0, s1, src, root) && CloneInv(s1, s, src, root, 4, i, USER_ENTRIES)
    ensures Held(s0.used, root, s0.mem, s.mem) && Aside(s0, s.mem, src, root, 4, USER_ENTRIES)
    ensures SourceTop(s0, s.mem, src, 4, USER_ENTRIES)
  {
    hide Walk, Copied, Sound, RefsUpTo, Clonable;
    RootReady(s0, s1, src, root);
  }

  lemma RootFailed(s0: State, s1: State, mem: Memory, src: nat, root: nat)
    requires RootTaken(s0, s1, src, root)
    requires Held(s1.used, root, s1.mem, mem) && Aside(s1, mem, src, root, 4, USER_ENTRIES)
    requires SourceTop(s1, mem, src, 4, USER_ENTRIES)
    ensures Held(s0.used, |mem|, s0.mem, mem) && Aside(s0, mem, src, |mem|, 4, USER_ENTRIES)
    ensures SourceTop(s0, mem, src, 4, USER_ENTRIES)
    ensures s1.rc[root := 0] == s0.rc
  {
    hide CloneReady, SameBelow, WeakerBelow, RefsUpTo, UserRoot, Weaker;
    UserRootBounds(s0, src);
    RootReady(s0, s1, src, root);
    forall t | 0 <= t < |s0.used| && s0.used[t]
      ensures t != root && s1.used[t] && s1.mem[t] == s0.mem[t]
    {
    }
  }

  lemma RootSound(s0: State, s1: State, s: State, src: nat, root: nat)
    requires RootTaken(s0, s1, src, root) && CloneInv(s1, s, src, root, 4, USER_ENTRIES, USER_ENTRIES)
    ensures Sound(s.mem, Fresh(s0.rc, s.rc), root, 4, USER_ENTRIES)
  {
    hide Copied, Held, Aside;
    assert Fresh(s1.rc, s.rc) <= Fresh(s0.rc, s.rc);
    forall j | 0 <= j < USER_ENTRIES
      ensures EntrySound(s.mem, Fresh(s0.rc, s.rc), s.mem[root][j], 4)
    {
      assert EntrySound(s.mem, Fresh(s1.rc, s.rc), TableOf(s.mem, root)[j], 4);
      WeakerSound(s.mem, s.mem, Fresh(s1.rc, s.rc), Fresh(s0.rc, s.rc), s.mem[root][j], 4);
    }
  }

  lemma RootCopied(s0: State, s1: State, s: State, src: nat, root: nat)
    requires RootTaken(s0, s1, src, root) && Copied(s1.mem, s.mem, src, root, 4, USER_ENTRIES)
    ensures Copied(s0.mem, s.mem, src, root, 4, USER_ENTRIES)
  {
    RootReady(s0, s1, src, root);
    forall p: Path | |p| == 4 && p[0] < USER_ENTRIES
      ensures Walk(s1.mem, src, p) == Walk(s0.mem, src, p)
    {
      SameWalk(s0.mem, s1.mem, s0.mem[src][p[0]], p);
    }
  }

  /** The source keeps its marks while it is copied. */
  lemma SourceMark(s0: State, s: State, src: nat, dst: nat, i: nat)
    requires CloneReady(s0, src, dst, 4, USER_ENTRIES) && CloneInv(s0, s, src, dst, 4, i, USER_ENTRIES) &&
             i < USER_ENTRIES
    ensures src < |s.mem| && src < |s0.mem|
    ensures s.mem[src][i].flags.huge == s0.mem[src][i].flags.huge && s.mem[src][i].Present() == s0.mem[src][i].Present()
  {
    hide RefsUpTo, Copied, Sound;
    assert Weaker(s0.mem[src], s.mem[src]);
  }

  lemma RootMarks(s0: State, s1: State, s: State, src: nat, root: nat)
    requires RootTaken(s0, s1, src, root) && |s.mem| == |s1.mem| && SameMarks(s1.mem[src], s.mem[root], USER_ENTRIES)
    ensures TopClear(s0.mem, src) ==> TopClear(s.mem, root)
  {
    UserRootBounds(s0, src);
    assert s1.mem[src] == s0.mem[src];
  }

  lemma RootShadows(s0: State, s1: State, mem: Memory, src: nat, root: nat, i: nat, dst: nat)
    requires RootTaken(s0, s1, src, root) && Shadows(s1, mem, src, root, 4, i, USER_ENTRIES) && i <= USER_ENTRIES
    requires dst == root || i == 0
    ensures Shadows(s0, mem, src, dst, 4, i, USER_ENTRIES)
  {
    hide Shadows, CloneReady, UserRoot;
    UserRootBounds(s0, src);
    RootReady(s0, s1, src, root);
    ShadowsBefore(s0, s1, mem, src, root, 4, i, USER_ENTRIES, dst);
  }

  lemma RootDone(s0: State, s1: State, s: State, src: nat, root: nat)
    requires RootTaken(s0, s1, src, root) && CloneInv(s1, s, src, root, 4, USER_ENTRIES, USER_ENTRIES)
    requires SameMarks(s1.mem[src], s.mem[root], USER_ENTRIES)
    requires Shadows(s1, s.mem, src, root, 4, USER_ENTRIES, USER_ENTRIES)
    ensures SpaceCloned(s0, s, src, root)
  {
    hide Copied, Held, Aside, Sound, EntryRefs, RefsUpTo, UserRoot, TopClear, SameMarks, Shadows;
    RootShadows(s0, s1, s.mem, src, root, USER_ENTRIES, root);
    UserRootBounds(s0, src);
    RootReady(s0, s1, src, root);
    RootKeeps(s0, s1, s, src, root, USER_ENTRIES);
    RootCopied(s0, s1, s, src, root);
    RootSound(s0, s1, s, src, root);
    RootMarks(s0, s1, s, src, root);
    assert s.rc[root] == s1.rc[root] + RefsUpTo(s.mem, root, 4, USER_ENTRIES, root);
  }

  lemma SteppedTable(s0: State, s: State, root: nat, hi: nat, q: seq<Index>, i: Index, r: nat)
    requires Stepped(s0, s, root, hi, q, i, r) && r != 0 && Inner(q + [i], hi)
    ensures TreeOk(s, root, hi) && TableAt(s.mem, root, 4, q + [i]) == Some(r) && 0 < r < |s.mem|
  {
  }

  lemma UntouchedLinks(s0: State, src: nat)
    requires s0.Tidy()
    ensures Shadows(s0, s0.mem, src, |s0.mem|, 4, 0, USER_ENTRIES)
  {
    hide Link, Layered;
  }

  /** flags | preserved, as vmm_set_page_flags computes it. */
  function KeepFlags(flags: Flags, o: Flags): Flags {
    flags.(present := flags.present || o.present, user := flags.user || o.user, shared := flags.shared || o.shared)
  }

  /** Why the walk from s to page p ends early; mem is the memory afterwards. */
  ghost predicate NotReached(s: State, free: int, mem: Memory, root: nat, hi: nat, p: Path, alloc: bool) {
    || TopMarked(s.mem, root, p)
    || (free < 3 * FRAME_SIZE && (NeedsFrames(s, root, hi) || (alloc && Walk(s.mem, root, p) == None)))
    || (!alloc && Walk(mem, root, p) == None)
  }

  /** Why a walk that takes no tables may not reach a page that is mapped. */
  ghost predicate Stuck(s: State, free: int, root: nat, hi: nat, p: Path) {
    || TopMarked(s.mem, root, p)
    || (free < 3 * FRAME_SIZE && NeedsFrames(s, root, hi))
  }

  /** The walk to page p passes its first n levels without splitting anything. */
  predicate InPlace(mem: Memory, root: nat, p: Path, n: nat)
    requires |p| == 4 && n <= 3
  {
    TableAt(mem, root, 4, p[..n]).Some? && !TopMarked(mem, root, p)
  }

  /** What unmapping a mapped page costs: nothing if it has an entry of its own, a frame if it lies in a 2 MiB
      page; without that frame nothing happens at all. */
  ghost predicate UnmapCost(s0: State, pmm0: Pmm, s: State, pmm: Pmm, root: nat, hi: nat, p: Path)
    requires |p| == 4
  {
    && (InPlace(s0.mem, root, p, 3) ==> Mapped(s0, s, root, hi, p, ABSENT) && pmm == pmm0)
    && (InPlace(s0.mem, root, p, 2) && Walk(s0.mem, root, p).Some? && pmm0.free > 0 ==>
          Mapped(s0, s, root, hi, p, ABSENT))
    && (!InPlace(s0.mem, root, p, 3) && pmm0.free == 0 ==> pmm == pmm0 && s == s0)
  }

  /** A last-level table that is reached in memory as it was needed no split. */
  lemma ReachedInPlace(mem: Memory, root: nat, p: Path, pt: nat)
    requires |p| == 4 && TableAt(mem, root, 4, p[..3]) == Some(pt)
    ensures TopMarked(mem, root, p) || InPlace(mem, root, p, 3)
  {
  }

  lemma RootTable(s: State, root: nat, hi: nat, p: Path)
    requires TreeOk(s, root, hi) && |p| == 4 && p[0] < hi
    ensures TableAt(s.mem, root, 4, []) == Some(root) && Inner([] + [p[0]], hi) && 0 < root < |s.mem|
  {
    assert [] + [p[0]] == [p[0]];
    var u: seq<Index> := [];
    assert Inner(u, hi) && TableAt(s.mem, root, 4, u) == Some(root);
  }

  /** Where a walk passes in place, the entries on its way are present and not huge. */
  lemma PlainSteps(s: State, root: nat, hi: nat, p: Path)
    requires TreeOk(s, root, hi) && |p| == 4 && p[0] < hi
    ensures InPlace(s.mem, root, p, 3) ==> InPlace(s.mem, root, p, 2)
    ensures InPlace(s.mem, root, p, 2) ==>
              var e4 := TableOf(s.mem, root)[p[0]];
              var e3 := TableOf(s.mem, e4.frame)[p[1]];
              && e4.Present() && !e4.flags.huge && 0 < e4.frame < |s.mem|
              && e3.Present() && !e3.flags.huge && 0 < e3.frame < |s.mem| && root < |s.mem|
              && TableAt(s.mem, root, 4, p[..2]) == Some(e3.frame)
              && (Walk(s.mem, root, p).Some? ==> TableOf(s.mem, e3.frame)[p[2]].Present())
              && (InPlace(s.mem, root, p, 3) ==>
                    TableOf(s.mem, e3.frame)[p[2]].Present() && !TableOf(s.mem, e3.frame)[p[2]].flags.huge &&
                    TableAt(s.mem, root, 4, p[..3]) == Some(TableOf(s.mem, e3.frame)[p[2]].frame) &&
                    TableOf(s.mem, e3.frame)[p[2]].frame > 0)
  {
    RootTable(s, root, hi, p);
    assert p[..1] + [p[1]] == p[..2] && p[..2] + [p[2]] == p[..3] && [] + [p[0]] == p[..1];
    TableAtAppend(s.mem, root, 4, [], p[0]);
    if InPlace(s.mem, root, p, 3) {
      TableAtPrefix(s.mem, root, 4, p[..2], p[..3]);
      assert Inner(p[..3], hi);
    }
    if InPlace(s.mem, root, p, 2) {
      TableAtPrefix(s.mem, root, 4, p[..1], p[..2]);
      assert Inner(p[..1], hi) && Inner(p[..2], hi);
      TableAtAppend(s.mem, root, 4, p[..1], p[1]);
      TableAtAppend(s.mem, root, 4, p[..2], p[2]);
      assert p == p[..2] + p[2..];
      WalkTable(s.mem, root, p[..2], p[2..]);
    }
  }

  lemma RootHeld(p: Pmm)
    requires Frames.Valid(p)
    ensures p.rc[0] > 0
  {
  }

  lemma NotThere(e: Pte, level: nat, alloc: bool)
    requires !e.Present() && !alloc
    ensures Blocked(e, level, alloc)
  {
  }

  /** The outcome of split_huge_page in a tree. */
  lemma SplitDone(s0: State, s: State, root: nat, hi: nat, q: seq<Index>, i: Index, r: nat, t: nat, level: nat,
                  alloc: bool)
    requires TreeOk(s0, root, hi) && Inner(q + [i], hi) && |q| == 4 - level && 2 <= level <= 4
    requires TableAt(s0.mem, root, 4, q) == Some(t) && 0 < t < |s0.mem| && |s.mem| == |s0.mem|
    requires s0.mem[t][i].Present() && s0.mem[t][i].flags.huge && |s0.rc| > 0 && s0.rc[0] > 0
    requires r == 0 ==> s.rc == s0.rc && s.used == s0.used
    requires r == 0 ==> forall f :: 0 <= f < |s.mem| && f < |s.used| && s.used[f] ==> s.mem[f] == s0.mem[f]
    requires s0.Tidy() && (r != 0 ==> level <= 3 && r < |s0.mem| && !s0.used[r])
    requires r != 0 ==> s.rc == s0.rc[r := 1] && s.used == s0.used[r := true]
    requires r != 0 ==> s.mem == s0.mem[r := s.mem[r]][t := s0.mem[t][i := Pte(r, SplitFlags(s0.mem[t][i]))]]
    requires r != 0 ==> forall j :: 0 <= j < ENTRIES ==> s.mem[r][j] == SplitEntry(s0.mem[t][i], level, j)
    ensures Stepped(s0, s, root, hi, q, i, r) && forall u: bool :: Passable(s0.mem, s.mem, root, hi, u, alloc)
    ensures r == 0 ==> s.mem[t] == s0.mem[t] && TableAt(s.mem, root, 4, q) == Some(t)
    ensures r == 0 ==> if level == 4 then Blocked(s.mem[t][i], level, alloc) else NeedsFrames(s0, root, hi)
  {
    hide TreeOk, Stepped, Owned, TableAt, SplitEntry, Passable;
    TreeTable(s0, root, hi, q, i);
    if r == 0 {
      StepFailed(s0, s, root, hi, q, i);
      FailedTables(s0, s, root, hi);
      HugeNeedsFrames(s0, root, hi, q, i);
      PassableFree(s0, s.mem, root, hi, true, alloc);
      PassableFree(s0, s.mem, root, hi, false, alloc);
    } else {
      StepSplit(s0, s, root, hi, q, i, r);
      PassableSplit(s0, s, root, hi, q, i, r, true, alloc);
      PassableSplit(s0, s, root, hi, q, i, r, false, alloc);
    }
  }

  /** Page `p` keeps its frame and gets new flags, present, user and shared bits added to. */
  ghost predicate Reflagged(s0: State, s: State, root: nat, hi: nat, p: Path, flags: Flags, e: Pte) {
    && Mapped(s0, s, root, hi, p, e) && Walk(s0.mem, root, p).Some?
    && e.frame == Walk(s0.mem, root, p).value.frame
    && e.flags.writable == flags.writable
    && (hi == USER_ENTRIES && Owned(s0, root) ==>
          e.flags.(huge := false) == KeepFlags(flags, Walk(s0.mem, root, p).value.flags).(huge := false))
  }

  lemma ReflaggedLeaf(s0: State, s: State, s': State, root: nat, hi: nat, p: Path, flags: Flags, o: Pte)
    requires Walked(s0, s, root, hi) && |p| == 4 && p[0] < hi && TableAt(s.mem, root, 4, p[..3]).Some?
    requires o == TableOf(s.mem, TableAt(s.mem, root, 4, p[..3]).value)[p[3]] && o.Present()
    requires Mapped(s0, s', root, hi, p, Pte(o.frame, KeepFlags(flags, o.flags)))
    ensures Reflagged(s0, s', root, hi, p, flags, Pte(o.frame, KeepFlags(flags, o.flags)))
  {
    hide Mapped, Owned, Balanced, WalkEntry, TreeOk, OnlyTree;
    assert p == p[..3] + [p[3]];
    WalkTable(s.mem, root, p[..3], [p[3]]);
    OldLeaf(s.mem, TableAt(s.mem, root, 4, p[..3]).value, p[3]);
    assert Seen(Walk(s0.mem, root, p)) == Seen(Walk(s.mem, root, p));
  }

  /** The part of the kernel's memory manager that owns page tables. */
  class Tables {
    var pmm: Pmm
    var mem: Memory
    const kernelRoot: nat

    ghost predicate Valid()
      reads this
    {
      Frames.Valid(pmm) && |mem| == |pmm.rc|
    }

    ghost function St(): State
      reads this
    {
      State(pmm.rc, mem, pmm.used)
    }

    constructor (pmm: Pmm, mem: Memory, kernelRoot: nat)
      requires Frames.Valid(pmm) && |mem| == |pmm.rc|
      ensures Valid() && this.pmm == pmm && this.mem == mem && this.kernelRoot == kernelRoot
    {
      this.pmm, this.mem, this.kernelRoot := pmm, mem, kernelRoot;
    }

    /** pmm_alloc_frame followed by zeroing the table in it. */
    method AllocTable() returns (f: nat)
      requires Valid()
      modifies this`pmm, this`mem
      ensures Valid() && SameReserved(old(pmm), pmm)
      ensures f == 0 <==> old(pmm).free == 0
      ensures f == 0 ==> pmm == old(pmm) && mem == old(mem)
      ensures f != 0 ==> pmm.free == old(pmm).free - FRAME_SIZE
      ensures f != 0 ==> f < |mem| && old(pmm.rc)[f] == 0 && !old(pmm.used)[f]
      ensures f != 0 ==> pmm.rc == old(pmm.rc)[f := 1] && mem == old(mem)[f := EmptyTable()]
      ensures f != 0 ==> pmm.used == old(pmm.used)[f := true]
    {
      var r := AllocFrame(pmm);
      pmm, f := r.0, r.1;
      if f != 0 {
        mem := mem[f := EmptyTable()];
      }
    }

    /** One entry of free_page_table_level and vmm_free_address_space. */
    method FreeEntry(e: Pte, level: nat, ghost tables: set<nat>)
      requires Valid() && 1 <= level <= 4
      requires EntrySound(mem, tables, e, level)
      requires forall g :: 0 < g < |pmm.rc| ==> EntryRefs(mem, e, level, g) <= pmm.rc[g]
      modifies this`pmm
      ensures Valid() && SameReserved(old(pmm), pmm) && pmm.rc[0] == old(pmm.rc)[0]
      ensures forall g :: 0 < g < |pmm.rc| ==> pmm.rc[g] == old(pmm.rc)[g] - EntryRefs(mem, e, level, g)
      decreases level, 0
    {
      if e.Present() {
        if level > 1 {
          FreeLevel(e.frame, level - 1, tables);
        }
        if level > 1 || 0 < e.frame < |pmm.rc| {
          pmm := DecRef(pmm, e.frame);
        }
      }
    }

    /** free_page_table_level: gives back every page and table below `table`, exactly once each. */
    method FreeLevel(table: nat, level: nat, ghost tables: set<nat>)
      requires Valid() && 1 <= level <= 3
      requires Sound(mem, tables, table, level, ENTRIES) && Accounted(St(), table, level, ENTRIES)
      modifies this`pmm
      ensures Valid() && SameReserved(old(pmm), pmm)
      ensures Released(old(pmm.rc), pmm.rc, mem, table, level, ENTRIES)
      decreases level, 2
    {
      FreePrefix(table, level, ENTRIES, tables);
    }

    /** The loop of free_page_table_level over the first n entries. */
    method FreePrefix(table: nat, level: nat, n: nat, ghost tables: set<nat>)
      requires Valid() && 1 <= level <= 4 && n <= ENTRIES
      requires Sound(mem, tables, table, level, n) && Accounted(St(), table, level, n)
      modifies this`pmm
      ensures Valid() && SameReserved(old(pmm), pmm)
      ensures Released(old(pmm.rc), pmm.rc, mem, table, level, n)
      decreases level, 1
    {
      for i := 0 to n
        invariant Valid() && SameReserved(old(pmm), pmm)
        invariant Released(old(pmm.rc), pmm.rc, mem, table, level, i)
      {
        forall g | 0 < g < |pmm.rc|
          ensures EntryRefs(mem, TableOf(mem, table)[i], level, g) <= pmm.rc[g]
        {
          RefsMonotone(mem, table, level, i + 1, n, g);
        }
        FreeEntry(TableOf(mem, table)[i], level, tables);
      }
    }

    /** One table entry of clone_page_table_level and vmm_clone_address_space: take a table, copy the
        child into it, hook it in. On failure the table is given back. */
    method CloneEntry(src: nat, dst: nat, level: nat, i: nat, hi: nat, d: Flags, ghost s0: State) returns (r: Outcome)
      requires Valid() && 2 <= level <= 4 && i < hi
      requires CloneReady(s0, src, dst, level, hi) && CloneInv(s0, St(), src, dst, level, i, hi)
      requires Branches(mem[src][i], level) && d.(shared := false) == mem[src][i].flags.(shared := false)
      requires Shadows(s0, mem, src, dst, level, i, hi)
      modifies this`pmm, this`mem
      ensures r != Panic ==> Valid() && SameReserved(old(pmm), pmm)
      ensures r == Done ==> CloneInv(s0, St(), src, dst, level, i + 1, hi)
      ensures r == Done ==> Shadows(s0, mem, src, dst, level, i + 1, hi)
      ensures r == Done ==> dst < |mem| == |old(mem)| && i < ENTRIES && mem[dst][i].flags == d &&
                            mem[dst] == old(mem)[dst][i := mem[dst][i]]
      ensures r == Failed ==> CloneInv(s0, St(), src, dst, level, i, hi) && Shadows(s0, mem, src, dst, level, i, hi)
      ensures Clonable(s0, src, level, hi) ==> r != Panic
      ensures Costs(r, old(pmm).free, pmm.free, NewTables(s0.mem, src, level, i))
      decreases level, 0
    {
      hide CloneInv, CloneReady, Clonable, Held, Aside, SameReserved, DecRef, Frames.Valid, RefsUpTo, EntryRefs,
        Shadows;
      hide TablesUpTo;
      ghost var s, pmm0 := St(), pmm;
      CloneBounds(s0, s, src, dst, level, i, hi);
      var c := mem[src][i].frame;
      var nf := AllocTable();
      if nf == 0 {
        CloneSource(s0, s, src, dst, level, i, hi);
        return Failed;
      }
      ghost var s1, pmm1 := St(), pmm;
      ChildReady(s0, s, nf, src, dst, level, i, hi);
      ChildTables(s0, s, nf, src, dst, level, i, hi);
      if Clonable(s0, src, level, hi) {
        RefsBounded(pmm0);
        ChildClonable(s0, s, nf, src, dst, level, i, hi);
      }
      r := CloneLevel(c, nf, level - 1);
      if r == Panic {
        return;
      }
      SameReservedTransitive(pmm0, pmm1, pmm);
      if r == Failed {
        SameReservedTransitive(pmm0, pmm, DecRef(pmm, nf));
        pmm := DecRef(pmm, nf);
        assert pmm.rc == s.rc;
        CountsDecide(pmm0, pmm);
        EntryFailed(s0, s, nf, mem, src, dst, level, i, hi);
      } else {
        ghost var s2 := St();
        mem := mem[dst := mem[dst][i := Pte(nf, d)]];
        EntryDone(s0, s, s1, s2, mem, Pte(nf, d), src, dst, level, i, hi);
      }
    }

    /** clone_page_table_level. On failure everything taken so far has been given back. */
    method CloneLevel(src: nat, dst: nat, level: nat) returns (r: Outcome)
      requires Valid() && 1 <= level <= 3
      requires CloneReady(St(), src, dst, level, ENTRIES)
      modifies this`pmm, this`mem
      ensures r != Panic ==> Valid() && SameReserved(old(pmm), pmm)
      ensures r == Done ==> CloneInv(old(St()), St(), src, dst, level, ENTRIES, ENTRIES)
      ensures r == Done ==> Shadows(old(St()), mem, src, dst, level, ENTRIES, ENTRIES)
      ensures r == Failed ==> pmm.rc == old(pmm.rc) && Shadows(old(St()), mem, src, dst, level, 0, ENTRIES)
      ensures r == Failed ==> Held(old(pmm.used), dst, old(mem), mem) && Aside(old(St()), mem, src, dst, level, ENTRIES)
      ensures Clonable(old(St()), src, level, ENTRIES) ==> r != Panic
      ensures Costs(r, old(pmm).free, pmm.free, TablesUpTo(old(mem), src, level, ENTRIES))
      decreases level, 1
    {
      hide CloneInv, CloneReady, Clonable, Held, Aside, SameReserved, Frames.Valid, Released, Accounted, Sound,
        RefsUpTo, Shadows;
      hide TablesUpTo, NewTables;
      ghost var s0, pmm0 := St(), pmm;
      SameReservedReflexive(pmm);
      CloneStart(s0, src, dst, level, ENTRIES);
      ShadowsStart(s0, src, dst, level, ENTRIES);
      NoTables(s0.mem, src, level);
      for i := 0 to ENTRIES
        invariant Valid() && SameReserved(pmm0, pmm)
        invariant CloneInv(s0, St(), src, dst, level, i, ENTRIES) && Shadows(s0, mem, src, dst, level, i, ENTRIES)
        invariant pmm.free == pmm0.free - FRAME_SIZE * TablesUpTo(s0.mem, src, level, i)
      {
        TablesStep(s0.mem, src, level, i, ENTRIES);
        CloneSource(s0, St(), src, dst, level, i, ENTRIES);
        CloneBounds(s0, St(), src, dst, level, i, ENTRIES);
        ghost var s, pmm1 := St(), pmm;
        var e := mem[src][i];
        if !e.Present() {
          CopyAbsent(s0, s, src, dst, level, i, ENTRIES);
          ShadowsAbsent(s0, s, src, dst, level, i, ENTRIES);
          assert mem[dst][i := ABSENT] == mem[dst];
          mem := mem[dst := mem[dst][i := ABSENT]];
          assert mem == s.mem;
        } else if level == 1 {
          r := CloneLeaf(src, dst, i, s0);
          if r == Panic {
            return;
          }
          SameReservedTransitive(pmm0, pmm1, pmm);
        } else if e.flags.huge {
          if Clonable(s0, src, level, ENTRIES) {
            NoHugeEntry(s0, s, src, dst, level, i, ENTRIES);
          }
          return Panic;
        } else {
          r := CloneEntry(src, dst, level, i, ENTRIES, e.flags, s0);
          if r == Panic {
            return;
          }
          SameReservedTransitive(pmm0, pmm1, pmm);
          if r == Failed {
            ghost var pmm2 := pmm;
            CloneKeeps(s0, St(), src, dst, level, i, ENTRIES);
            UnfinishedCopy(s0, St(), src, dst, level, i, ENTRIES);
            ShadowsFewer(s0, mem, src, dst, level, i, ENTRIES);
            FreeLevel(dst, level, Fresh(s0.rc, pmm.rc));
            SameReservedTransitive(pmm0, pmm2, pmm);
            return;
          }
        }
      }
      FreeBound(pmm);
      return Done;
    }

    /** One page of clone_page_table_level. */
    method CloneLeaf(src: nat, dst: nat, i: nat, ghost s0: State) returns (r: Outcome)
      requires Valid() && i < ENTRIES
      requires CloneReady(s0, src, dst, 1, ENTRIES) && CloneInv(s0, St(), src, dst, 1, i, ENTRIES)
      requires mem[src][i].Present() && Shadows(s0, mem, src, dst, 1, i, ENTRIES)
      modifies this`pmm, this`mem
      ensures r == Done ==> Valid() && SameReserved(old(pmm), pmm) && CloneInv(s0, St(), src, dst, 1, i + 1, ENTRIES)
      ensures r == Done ==> Shadows(s0, mem, src, dst, 1, i + 1, ENTRIES)
      ensures r in {Done, Panic} && (Clonable(s0, src, 1, ENTRIES) ==> r == Done)
      ensures pmm.free == old(pmm).free
    {
      hide CloneInv, CloneReady, Clonable, RefsUpTo, EntryRefs, Shadows;
      ghost var s := St();
      CloneBounds(s0, s, src, dst, 1, i, ENTRIES);
      var e := mem[src][i];
      if Saturated(pmm, e.frame) {
        if Clonable(s0, src, 1, ENTRIES) {
          LeafClonable(s0, s, src, dst, i, ENTRIES);
        }
        return Panic;
      }
      LeafHeld(s0, s, src, dst, i, ENTRIES);
      IncRefKeepsValid(pmm, e.frame);
      pmm := IncRef(pmm, e.frame);
      mem := mem[src := mem[src][i := DownPte(e)]];
      mem := mem[dst := mem[dst][i := DownPte(e)]];
      CopyLeaf(s0, s, St(), src, dst, i, ENTRIES);
      CloneKeeps(s0, s, src, dst, 1, i, ENTRIES);
      ShadowsLeaf(s0, s, St(), src, dst, i, ENTRIES, DownPte(e));
      return Done;
    }

    /** The loop of vmm_free_address_space over the user half. */
    method FreeUserHalf(root: nat, ghost tables: set<nat>)
      requires Valid() && Sound(mem, tables, root, 4, USER_ENTRIES) && Accounted(St(), root, 4, USER_ENTRIES)
      modifies this`pmm
      ensures Valid() && SameReserved(old(pmm), pmm)
      ensures Released(old(pmm.rc), pmm.rc, mem, root, 4, USER_ENTRIES)
    {
      hide RefsUpTo, EntryRefs, Sound, Accounted, Released, Valid, SameReserved;
      FreePrefix(root, 4, USER_ENTRIES, tables);
    }

    /** vmm_free_address_space: gives back the user half and the top-level table. */
    method FreeAddressSpace(root: nat, ghost tables: set<nat>)
      requires Valid()
      requires root != 0 && root != kernelRoot ==>
                 && Sound(mem, tables, root, 4, USER_ENTRIES) && root < |pmm.rc|
                 && (forall g :: 0 < g < |pmm.rc| ==> SpaceRefs(mem, root, g) <= pmm.rc[g])
      modifies this`pmm
      ensures Valid() && SameReserved(old(pmm), pmm) && pmm.rc[0] == old(pmm.rc)[0]
      ensures root == 0 || root == kernelRoot ==> pmm == old(pmm)
      ensures root != 0 && root != kernelRoot ==>
                forall g :: 0 < g < |pmm.rc| ==> pmm.rc[g] == old(pmm.rc)[g] - SpaceRefs(mem, root, g)
    {
      if root == 0 || root == kernelRoot {
        return;
      }
      FreeUserHalf(root, tables);
      assert SpaceRefs(mem, root, root) <= old(pmm.rc)[root];
      pmm := DecRef(pmm, root);
    }

    /** vmm_create_address_space: a top-level table with an empty user half and the kernel's own half. */
    method CreateAddressSpace() returns (root: nat)
      requires Valid() && kernelRoot < |mem|
      modifies this`pmm, this`mem
      ensures Valid() && SameReserved(old(pmm), pmm)
      ensures root == 0 <==> old(pmm).free == 0
      ensures root == 0 ==> pmm == old(pmm) && mem == old(mem)
      ensures root != 0 ==> root < |mem| && !old(pmm.used)[root] && pmm.rc == old(pmm.rc)[root := 1]
      ensures root != 0 ==> |mem| == |old(mem)| && mem == old(mem)[root := mem[root]]
      ensures root != 0 ==> forall j :: 0 <= j < USER_ENTRIES ==> mem[root][j] == ABSENT
      ensures root != 0 && root != kernelRoot ==>
                forall j :: USER_ENTRIES <= j < ENTRIES ==> mem[root][j] == old(mem)[kernelRoot][j]
    {
      root := AllocTable();
      if root != 0 {
        mem := mem[root := NewTop(mem[kernelRoot])];
      }
    }

    /** vmm_free_address_space on a copy that could not be finished. */
    method DropUnfinished(src: nat, root: nat, ghost i: nat, ghost s0: State)
      requires Valid() && CloneReady(s0, src, root, 4, USER_ENTRIES) && root != kernelRoot
      requires root < |s0.rc| && s0.rc[root] == 1
      requires CloneInv(s0, St(), src, root, 4, i, USER_ENTRIES)
      modifies this`pmm
      ensures Valid() && SameReserved(old(pmm), pmm) && pmm.rc == s0.rc[root := 0]
    {
      hide CloneInv, CloneReady, SpaceRefs, Sound, SameReserved, Frames.Valid;
      ghost var rc := pmm.rc;
      UnfinishedRoot(s0, St(), src, root, i);
      FreeAddressSpace(root, Fresh(s0.rc, pmm.rc));
      forall g | 0 <= g < |rc|
        ensures pmm.rc[g] == s0.rc[root := 0][g]
      {
        assert g > 0 ==> s0.rc[g] - (if g == root then 1 else 0) == rc[g] - SpaceRefs(mem, root, g);
      }
    }

    /** The loop of vmm_clone_address_space over the user half, with its cleanup. */
    method CloneUserHalf(src: nat, root: nat) returns (r: Outcome)
      requires Valid() && CloneReady(St(), src, root, 4, USER_ENTRIES)
      requires root < |pmm.rc| && pmm.rc[root] == 1 && root != kernelRoot
      modifies this`pmm, this`mem
      ensures r != Panic ==> Valid() && SameReserved(old(pmm), pmm)
      ensures r == Done ==> CloneInv(old(St()), St(), src, root, 4, USER_ENTRIES, USER_ENTRIES)
      ensures r == Done ==> src < |old(mem)| && root < |mem| && SameMarks(old(mem)[src], mem[root], USER_ENTRIES)
      ensures r == Done ==> Shadows(old(St()), mem, src, root, 4, USER_ENTRIES, USER_ENTRIES)
      ensures r == Failed ==> Shadows(old(St()), mem, src, root, 4, 0, USER_ENTRIES)
      ensures r == Failed ==> pmm.rc == old(pmm.rc)[root := 0]
      ensures r == Failed ==>
                Held(old(pmm.used), root, old(mem), mem) && Aside(old(St()), mem, src, root, 4, USER_ENTRIES)
      ensures r == Failed ==> SourceTop(old(St()), mem, src, 4, USER_ENTRIES)
      ensures Clonable(old(St()), src, 4, USER_ENTRIES) ==> r != Panic
      ensures Costs(r, old(pmm).free, pmm.free, TablesUpTo(old(mem), src, 4, USER_ENTRIES))
    {
      hide CloneInv, CloneReady, Clonable, Held, Aside, SourceTop, SameReserved, Frames.Valid, SpaceRefs, RefsUpTo,
        Shadows;
      hide TablesUpTo, NewTables;
      ghost var s0, pmm0 := St(), pmm;
      SameReservedReflexive(pmm);
      CloneStart(s0, src, root, 4, USER_ENTRIES);
      ShadowsStart(s0, src, root, 4, USER_ENTRIES);
      CloneBounds(s0, s0, src, root, 4, 0, USER_ENTRIES);
      NoTables(s0.mem, src, 4);
      for i := 0 to USER_ENTRIES
        invariant Valid() && SameReserved(pmm0, pmm)
        invariant CloneInv(s0, St(), src, root, 4, i, USER_ENTRIES) && Shadows(s0, mem, src, root, 4, i, USER_ENTRIES)
        invariant pmm.free == pmm0.free - FRAME_SIZE * TablesUpTo(s0.mem, src, 4, i)
        invariant src < |s0.mem| && root < |mem| && SameMarks(s0.mem[src], mem[root], i)
      {
        TablesStep(s0.mem, src, 4, i, USER_ENTRIES);
        CloneSource(s0, St(), src, root, 4, i, USER_ENTRIES);
        CloneBounds(s0, St(), src, root, 4, i, USER_ENTRIES);
        ghost var s, pmm1 := St(), pmm;
        var e := mem[src][i];
        if !e.Present() {
          CopyAbsent(s0, s, src, root, 4, i, USER_ENTRIES);
          ShadowsAbsent(s0, s, src, root, 4, i, USER_ENTRIES);
          assert mem[root][i := ABSENT] == mem[root];
          mem := mem[root := mem[root][i := ABSENT]];
          assert mem == s.mem;
        } else {
          SourceMark(s0, s, src, root, i);
          r := CloneEntry(src, root, 4, i, USER_ENTRIES, e.flags.(shared := false), s0);
          if r == Panic {
            return;
          }
          SameReservedTransitive(pmm0, pmm1, pmm);
          if r == Failed {
            ghost var pmm2 := pmm;
            CloneKeeps(s0, St(), src, root, 4, i, USER_ENTRIES);
            ShadowsFewer(s0, mem, src, root, 4, i, USER_ENTRIES);
            DropUnfinished(src, root, i, s0);
            SameReservedTransitive(pmm0, pmm2, pmm);
            return;
          }
        }
      }
      FreeBound(pmm);
      return Done;
    }

    /** vmm_clone_address_space. */
    method CloneAddressSpace(src: nat) returns (r: Outcome, root: nat)
      requires Valid() && (src != 0 ==> UserRoot(St(), src)) && (kernelRoot < |pmm.rc| ==> pmm.used[kernelRoot])
      modifies this`pmm, this`mem
      ensures r != Panic ==> Valid() && SameReserved(old(pmm), pmm)
      ensures r == Done ==> src != 0 && SpaceCloned(old(St()), St(), src, root)
      ensures r == Failed ==> pmm.rc == old(pmm.rc)
      ensures r == Failed ==> Held(old(pmm.used), |mem|, old(mem), mem)
      ensures r == Failed ==> Aside(old(St()), mem, src, |mem|, 4, USER_ENTRIES)
      ensures r == Failed ==> SourceTop(old(St()), mem, src, 4, USER_ENTRIES)
      ensures r == Failed && src != 0 ==> Shadows(old(St()), mem, src, |mem|, 4, 0, USER_ENTRIES)
      ensures src != 0 && Clonable(old(St()), src, 4, USER_ENTRIES) ==> r != Panic
      ensures src != 0 ==> Costs(r, old(pmm).free, pmm.free, SpaceTables(old(mem), src))
    {
      hide CloneInv, CloneReady, Clonable, SameReserved, Held, Aside, SourceTop, SpaceCloned, UserRoot, RootTaken,
        Frames.Valid;
      hide RefsUpTo, NewTop, TablesUpTo, SameMarks, Shadows;
      ghost var s0, pmm0 := St(), pmm;
      SameReservedReflexive(pmm);
      ValidTidy(pmm, mem);
      if src == 0 {
        Untouched(s0, src);
        return Failed, 0;
      }
      root := AllocTable();
      if root == 0 {
        Untouched(s0, src);
        UntouchedLinks(s0, src);
        return Failed, 0;
      }
      ghost var pmm1 := pmm;
      UserRootBounds(s0, src);
      mem := mem[root := NewTop(mem[src])];
      ghost var s1 := St();
      TakeRoot(s0, pmm0, s1, src, root);
      RootReady(s0, s1, src, root);
      RootTables(s0, s1, src, USER_ENTRIES);
      if Clonable(s0, src, 4, USER_ENTRIES) {
        RootClonable(s0, s1, src, root);
      }
      r := CloneUserHalf(src, root);
      if r == Panic {
        return;
      }
      SameReservedTransitive(pmm0, pmm1, pmm);
      if r == Done {
        RootDone(s0, s1, St(), src, root);
      } else {
        RootFailed(s0, s1, mem, src, root);
        RootShadows(s0, s1, mem, src, root, 0, |mem|);
      }
    }

    // ---------- Mapping and unmapping single pages ----------

    /** split_huge_page: 1 GiB and 2 MiB entries become a table of 512 smaller ones. */
    method SplitHugePage(t: nat, i: Index, level: nat) returns (nf: nat)
      requires Valid() && t < |mem|
      modifies this`pmm, this`mem
      ensures Valid() && SameReserved(old(pmm), pmm)
      ensures nf == 0 ==> pmm.rc == old(pmm.rc) && pmm.used == old(pmm.used)
      ensures nf == 0 ==> forall f :: 0 <= f < |mem| && pmm.used[f] ==> mem[f] == old(mem)[f]
      ensures nf == 0 ==> pmm.free == old(pmm).free
      ensures old(pmm).free == 0 ==> pmm == old(pmm) && mem == old(mem)
      ensures nf != 0 <==> 2 <= level <= 3 && old(mem)[t][i].Present() && old(mem)[t][i].flags.huge && old(pmm).free > 0
      ensures nf != 0 ==> pmm.free == old(pmm).free - FRAME_SIZE
      ensures nf != 0 ==> nf < |mem| && !old(pmm.used)[nf] && pmm.rc == old(pmm.rc)[nf := 1]
      ensures nf != 0 ==> pmm.used == old(pmm.used)[nf := true]
      ensures nf != 0 && old(pmm.used)[t] ==>
                |mem| == |old(mem)| &&
                mem == old(mem)[nf := mem[nf]][t := old(mem)[t][i := Pte(nf, SplitFlags(old(mem)[t][i]))]]
      ensures nf != 0 && old(pmm.used)[t] ==>
                forall j :: 0 <= j < ENTRIES ==> mem[nf][j] == SplitEntry(old(mem)[t][i], level, j)
    {
      var e := mem[t][i];
      if !e.Present() || !e.flags.huge {
        SameReservedReflexive(pmm);
        return 0;
      }
      nf := AllocTable();
      if nf == 0 {
        return 0;
      }
      if level != 2 && level != 3 {
        SameReservedTransitive(old(pmm), pmm, DecRef(pmm, nf));
        pmm := DecRef(pmm, nf);
        assert pmm.rc == old(pmm.rc);
        CountsDecide(old(pmm), pmm);
        return 0;
      }
      ghost var pmm1 := pmm;
      for j := 0 to ENTRIES
        invariant pmm == pmm1 && |mem| == |old(mem)| && mem == old(mem)[nf := mem[nf]]
        invariant forall k :: 0 <= k < j ==> mem[nf][k] == SplitEntry(e, level, k)
      {
        mem := mem[nf := mem[nf][j := SplitEntry(e, level, j)]];
      }
      mem := mem[t := mem[t][i := Pte(nf, SplitFlags(e))]];
    }

    /** get_next_level: the table below entry i of the table at q, splitting a huge page or, if asked,
        taking a new table. `ok` says that the tables are a tree and that this one is where it should be;
        without it only the frames stay consistent. Tables outside managed memory read as empty. */
    method GetNextLevel(t: nat, i: Index, level: nat, alloc: bool, user: bool,
                        ghost root: nat, ghost hi: nat, ghost q: seq<Index>, ghost ok: bool) returns (r: nat)
      requires Valid() && 2 <= level <= 4
      requires ok ==> |q| == 4 - level && Inner(q + [i], hi) && TreeOk(St(), root, hi)
      requires ok ==> TableAt(mem, root, 4, q) == Some(t)
      modifies this`pmm, this`mem
      ensures Valid() && SameReserved(old(pmm), pmm)
      ensures ok ==> Stepped(old(St()), St(), root, hi, q, i, r) && t < |mem| == |old(mem)|
      ensures ok ==> Passable(old(mem), mem, root, hi, user, alloc)
      ensures r != 0 ==> old(pmm).free - FRAME_SIZE <= pmm.free
      ensures level == 4 && t < |old(mem)| && old(mem)[t][i].Present() && old(mem)[t][i].flags.huge ==> r == 0
      ensures ok && r == 0 ==> pmm.free == old(pmm).free && mem[t] == old(mem)[t]
      ensures ok && r == 0 ==> TableAt(mem, root, 4, q) == Some(t)
      ensures ok && r == 0 ==>
                Blocked(mem[t][i], level, alloc) ||
                (pmm.free == 0 && (NeedsFrames(old(St()), root, hi) || !mem[t][i].Present()))
      ensures old(pmm).free == 0 ==> pmm == old(pmm) && mem == old(mem)
      ensures t < |old(mem)| && old(mem)[t][i].Present() && !old(mem)[t][i].flags.huge ==>
                r == old(mem)[t][i].frame && pmm == old(pmm) && mem == old(mem)
      ensures t < |old(mem)| && old(mem)[t][i].Present() && level < 4 && old(pmm).free > 0 && ok ==> r != 0
    {
      hide TreeOk, Stepped, Frames.Valid, SameReserved, Owned, TableAt, SplitEntry, Blocked, Passable;
      ghost var s0 := St();
      r := 0;
      PassableSame(mem, root, hi, user, alloc);
      if ok {
        TreeTable(s0, root, hi, q, i);
      }
      if t >= |mem| {
        SameReservedReflexive(pmm);
        return;
      }
      if mem[t][i].Present() {
        if mem[t][i].flags.huge {
          RootHeld(pmm);
          FreeBound(pmm);
          r := SplitHugePage(t, i, level);
          if ok {
            SplitDone(s0, St(), root, hi, q, i, r, t, level, alloc);
          }
        } else {
          r := mem[t][i].frame;
          SameReservedReflexive(pmm);
          if ok {
            StepDown(s0, root, hi, q, i);
            TreeChild(s0, root, hi, q, i);
          }
        }
      } else if !alloc {
        SameReservedReflexive(pmm);
        if ok {
          RootHeld(pmm);
          StepFailed(s0, s0, root, hi, q, i);
          NotThere(mem[t][i], level, alloc);
        }
      } else {
        r := AllocTable();
        if r == 0 {
          if ok {
            RootHeld(pmm);
            StepFailed(s0, s0, root, hi, q, i);
          }
        } else {
          mem := mem[t := mem[t][i := NewTable(r, user)]];
          if ok {
            StepAttach(s0, St(), root, hi, q, i, r, user);
            PassableAttach(s0, St(), root, hi, q, i, r, user);
          }
        }
      }
    }

    /** The first two calls of get_next_level that lead to the last-level table of a page. */
    method DescendUpper(root: nat, virt: nat, alloc: bool, ghost hi: nat, ghost ok: bool) returns (pd: nat)
      requires Valid() && (ok ==> TreeOk(St(), root, hi) && PathOf(virt)[0] < hi)
      modifies this`pmm, this`mem
      ensures Valid() && SameReserved(old(pmm), pmm)
      ensures ok ==> Walked(old(St()), St(), root, hi) && Passable(old(mem), mem, root, hi, virt < USER_LIMIT, alloc)
      ensures ok && pd != 0 ==> TableAt(mem, root, 4, PathOf(virt)[..2]) == Some(pd)
      ensures ok ==> pmm.free >= old(pmm).free - 2 * FRAME_SIZE
      ensures ok && TopMarked(old(mem), root, PathOf(virt)) ==> pd == 0
      ensures ok && pd == 0 ==> NotReached(old(St()), old(pmm).free, mem, root, hi, PathOf(virt), alloc)
      ensures old(pmm).free == 0 ==> pmm == old(pmm) && mem == old(mem)
      ensures ok && InPlace(old(mem), root, PathOf(virt), 2) ==> pd != 0 && pmm == old(pmm) && mem == old(mem)
    {
      hide Walked, Stepped, TreeOk, SameReserved, Frames.Valid, PathOf, Walk, NeedsFrames, TableAt, InPlace, Passable;
      ghost var s0, pmm0 := St(), pmm;
      var p := PathOf(virt);
      if ok {
        WalkedStart(s0, root, hi);
        RootTable(s0, root, hi, p);
        PlainSteps(s0, root, hi, p);
      }
      var pdpt := GetNextLevel(root, p[0], 4, alloc, virt < USER_LIMIT, root, hi, [], ok);
      ghost var s1, pmm1 := St(), pmm;
      if ok {
        WalkedStep(s0, s0, s1, root, hi, [], p[0], pdpt);
      }
      if pdpt == 0 {
        if ok {
          BlockedWalk(mem, root, [], root, p, alloc);
          WalkedNone(s0, s1, root, hi, p);
        }
        return 0;
      }
      if ok {
        SteppedTable(s0, s1, root, hi, [], p[0], pdpt);
        assert [] + [p[0]] == [p[0]];
      }
      pd := GetNextLevel(pdpt, p[1], 3, alloc, virt < USER_LIMIT, root, hi, [p[0]], ok);
      SameReservedTransitive(pmm0, pmm1, pmm);
      if ok {
        WalkedStep(s0, s1, St(), root, hi, [p[0]], p[1], pd);
        WalkedPassable(s0, s1, St(), root, hi, virt < USER_LIMIT, alloc);
        if pd == 0 {
          BlockedWalk(mem, root, [p[0]], pdpt, p, alloc);
          WalkedNone(s0, St(), root, hi, p);
          NeedsFramesKept(s0, s1, root, hi);
        } else {
          SteppedTable(s1, St(), root, hi, [p[0]], p[1], pd);
          assert [p[0]] + [p[1]] == p[..2];
        }
      }
    }

    /** The three calls of get_next_level that lead to the last-level table of a page. */
    method Descend(root: nat, virt: nat, alloc: bool, ghost hi: nat, ghost ok: bool) returns (pt: nat)
      requires Valid() && (ok ==> TreeOk(St(), root, hi) && PathOf(virt)[0] < hi)
      modifies this`pmm, this`mem
      ensures Valid() && SameReserved(old(pmm), pmm)
      ensures ok ==> Walked(old(St()), St(), root, hi) && Passable(old(mem), mem, root, hi, virt < USER_LIMIT, alloc)
      ensures ok && pt != 0 ==> TableAt(mem, root, 4, PathOf(virt)[..3]) == Some(pt) && pt < |mem|
      ensures ok ==> pmm.free >= old(pmm).free - 3 * FRAME_SIZE
      ensures ok && TopMarked(old(mem), root, PathOf(virt)) ==> pt == 0
      ensures ok && pt == 0 ==> NotReached(old(St()), old(pmm).free, mem, root, hi, PathOf(virt), alloc)
      ensures old(pmm).free == 0 ==> pmm == old(pmm) && mem == old(mem)
      ensures ok && InPlace(old(mem), root, PathOf(virt), 3) ==> pt != 0 && pmm == old(pmm) && mem == old(mem)
      ensures ok && InPlace(old(mem), root, PathOf(virt), 2) && Walk(old(mem), root, PathOf(virt)).Some? ==>
                old(pmm).free > 0 ==> pt != 0
    {
      hide Walked, Stepped, TreeOk, SameReserved, Frames.Valid, PathOf, Walk, NeedsFrames, TableAt, InPlace, Passable;
      ghost var s0, pmm0 := St(), pmm;
      var p := PathOf(virt);
      if ok {
        PlainSteps(s0, root, hi, p);
      }
      var pd := DescendUpper(root, virt, alloc, hi, ok);
      if pd == 0 {
        return 0;
      }
      ghost var s2, pmm2 := St(), pmm;
      if ok {
        WalkedTree(s0, s2, root, hi);
        assert Inner(p[..2] + [p[2]], hi);
      }
      pt := GetNextLevel(pd, p[2], 2, alloc, virt < USER_LIMIT, root, hi, p[..2], ok);
      SameReservedTransitive(pmm0, pmm2, pmm);
      if ok {
        WalkedStep(s0, s2, St(), root, hi, p[..2], p[2], pt);
        WalkedPassable(s0, s2, St(), root, hi, virt < USER_LIMIT, alloc);
        if pt != 0 {
          SteppedTable(s2, St(), root, hi, p[..2], p[2], pt);
          assert p[..2] + [p[2]] == p[..3];
        } else {
          BlockedWalk(mem, root, p[..2], pd, p, alloc);
          WalkedNone(s0, St(), root, hi, p);
          NeedsFramesKept(s0, s2, root, hi);
        }
      }
    }

    /** vmm_map_page_in: `Panic` stands for the two consistency panics. */
    method MapPage(root: nat, virt: nat, frame: nat, flags: Flags, ghost hi: nat) returns (r: Outcome)
      requires Valid() && TreeOk(St(), root, hi) && PathOf(virt)[0] < hi
      modifies this`pmm, this`mem
      ensures r == Panic <==> (virt >= KERNEL_STACK_TOP && flags.user) || (virt < USER_LIMIT && !flags.user)
      ensures r == Panic ==> pmm == old(pmm) && mem == old(mem)
      ensures Valid() && SameReserved(old(pmm), pmm)
      ensures r == Done ==> Mapped(old(St()), St(), root, hi, PathOf(virt), Pte(frame, flags))
      ensures r == Failed ==> Walked(old(St()), St(), root, hi)
      ensures Linked(old(mem), mem, root, hi, virt < USER_LIMIT)
      ensures r == Failed ==> NotReached(old(St()), old(pmm).free, mem, root, hi, PathOf(virt), true)
      ensures TopMarked(old(mem), root, PathOf(virt)) && r != Panic ==> r == Failed
      ensures pmm.free >= old(pmm).free - 3 * FRAME_SIZE
    {
      hide Walked, Mapped, TreeOk, SameReserved, Frames.Valid, PathOf, Linked;
      PassableSame(mem, root, hi, virt < USER_LIMIT, true);
      if (virt >= KERNEL_STACK_TOP && flags.user) || (virt < USER_LIMIT && !flags.user) {
        SameReservedReflexive(pmm);
        return Panic;
      }
      var pt := Descend(root, virt, true, hi, true);
      if pt == 0 {
        return Failed;
      }
      ghost var s := St();
      mem := mem[pt := mem[pt][PathOf(virt)[3] := Pte(frame, flags)]];
      MapLeaf(old(St()), s, St(), root, hi, PathOf(virt), Pte(frame, flags));
      LeafPassable(old(St()), s, mem, root, hi, PathOf(virt), Pte(frame, flags), virt < USER_LIMIT, true);
      return Done;
    }

    /** vmm_unmap_page_no_flush_in: afterwards the page is not mapped, unless a huge page could not be
        split or the top-level entry has bit 7 set. In tables that are no tree anything may happen to them. */
    method UnmapPage(root: nat, virt: nat, ghost hi: nat)
      requires Valid()
      modifies this`pmm, this`mem
      ensures Valid() && SameReserved(old(pmm), pmm)
      ensures TreeOk(old(St()), root, hi) && PathOf(virt)[0] < hi ==>
                && (Mapped(old(St()), St(), root, hi, PathOf(virt), ABSENT) || Walked(old(St()), St(), root, hi))
                && (Walk(mem, root, PathOf(virt)) == None || Stuck(old(St()), old(pmm).free, root, hi, PathOf(virt)))
                && UnmapCost(old(St()), old(pmm), St(), pmm, root, hi, PathOf(virt))
                && forall u: bool :: Linked(old(mem), mem, root, hi, u)
    {
      hide Walked, Mapped, TreeOk, SameReserved, Frames.Valid, PathOf, NeedsFrames, Walk, InPlace, TableAt, Linked;
      ghost var s0, ok := St(), TreeOk(St(), root, hi) && PathOf(virt)[0] < hi;
      var pt := Descend(root, virt, false, hi, ok);
      if pt != 0 && pt < |mem| {
        ghost var s := St();
        mem := mem[pt := mem[pt][PathOf(virt)[3] := ABSENT]];
        if ok {
          MapLeaf(s0, s, St(), root, hi, PathOf(virt), ABSENT);
          MappedAbsent(s0, St(), root, hi, PathOf(virt));
          LeafPassable(s0, s, mem, root, hi, PathOf(virt), ABSENT, virt < USER_LIMIT, false);
        }
      }
      if ok && old(pmm).free == 0 && pt != 0 {
        ReachedInPlace(s0.mem, root, PathOf(virt), pt);
      }
    }

    /** vmm_set_page_flags on a given table: rewrites the flags of a mapped page, keeping its frame and
        its present, user and shared bits. */
    method SetPageFlags(root: nat, virt: nat, flags: Flags, ghost hi: nat) returns (ghost e: Pte)
      requires Valid() && TreeOk(St(), root, hi) && PathOf(virt)[0] < hi
      modifies this`pmm, this`mem
      ensures Valid() && SameReserved(old(pmm), pmm)
      ensures
        || Reflagged(old(St()), St(), root, hi, PathOf(virt), flags, e)
        || (Walked(old(St()), St(), root, hi) &&
            (Walk(mem, root, PathOf(virt)) == None || Stuck(old(St()), old(pmm).free, root, hi, PathOf(virt))))
      ensures forall u: bool :: Linked(old(mem), mem, root, hi, u)
    {
      hide Walked, Mapped, TreeOk, SameReserved, Frames.Valid, PathOf, NeedsFrames, Walk, Linked;
      e := ABSENT;
      var pt := Descend(root, virt, false, hi, true);
      if pt != 0 {
        var o := mem[pt][PathOf(virt)[3]];
        if o.Present() {
          ghost var s := St();
          var n := Pte(o.frame, KeepFlags(flags, o.flags));
          mem := mem[pt := mem[pt][PathOf(virt)[3] := n]];
          e := n;
          MapLeaf(old(St()), s, St(), root, hi, PathOf(virt), n);
          LeafPassable(old(St()), s, mem, root, hi, PathOf(virt), n, virt < USER_LIMIT, false);
          ReflaggedLeaf(old(St()), s, St(), root, hi, PathOf(virt), flags, o);
        } else {
          LeafAbsent(mem, root, PathOf(virt));
        }
      }
    }
  }
}
