/** What copying a page-table tree means: the relation between the reference counts and tables
    before (s0) and after (s) the first `i` entries of `src` were copied to `dst`.
    Entries from `hi` on are not part of the copy (the kernel half of a top-level table). */
module Cloning {
  import opened PageTable

  /** Reference counts, tables and the frames the allocator does not hand out: those that are held and those
      that are reserved. */
  datatype State = State(rc: seq<nat>, mem: Memory, used: seq<bool>) {
    /** What is held is in use. */
    ghost predicate Tidy() {
      |mem| == |used| == |rc| && forall f :: 0 <= f < |rc| && rc[f] > 0 ==> used[f]
    }

    /** Frame nf, free until now, becomes table t. */
    function Take(nf: nat, t: Table): State
      requires nf < |rc| && nf < |mem| && nf < |used|
    {
      State(rc[nf := 1], mem[nf := t], used[nf := true])
    }
  }

  /** Tables that were taken from the free frames since rc0, each held once. */
  ghost function Fresh(rc0: seq<nat>, rc: seq<nat>): set<nat>
    requires |rc0| == |rc|
  {
    set t | 0 < t < |rc0| && rc0[t] == 0 && rc[t] == 1
  }

  /** Every table below `e` lies in managed memory. */
  ghost predicate EntryRooted(mem: Memory, e: Pte, level: nat)
    decreases level
  {
    Branches(e, level) ==>
      0 < e.frame < |mem| && forall i :: 0 <= i < ENTRIES ==> EntryRooted(mem, mem[e.frame][i], level - 1)
  }

  /** Everything the first `n` entries of `f` refer to is held. */
  ghost predicate Accounted(s: State, f: nat, level: nat, n: nat)
    requires n <= ENTRIES
  {
    forall g :: 0 < g < |s.rc| ==> RefsUpTo(s.mem, f, level, n, g) <= s.rc[g]
  }

  ghost predicate CloneReady(s0: State, src: nat, dst: nat, level: nat, hi: nat) {
    && s0.Tidy() && hi <= ENTRIES && level > 0
    && 0 < src < |s0.rc| && 0 < dst < |s0.rc| && src != dst
    && s0.rc[0] > 0 && s0.rc[src] > 0 && s0.rc[dst] > 0
    && (forall j :: 0 <= j < hi ==> s0.mem[dst][j] == ABSENT)
    && (forall j :: 0 <= j < hi ==> EntryRooted(s0.mem, s0.mem[src][j], level))
    && Accounted(s0, src, level, hi)
    && RefsUpTo(s0.mem, src, level, hi, dst) == 0
  }

  /** Frames in use are kept, up to lost write permission. */
  ghost predicate Held(used: seq<bool>, dst: nat, mem: Memory, mem': Memory)
  {
    && |mem| == |mem'| == |used|
    && forall t :: 0 <= t < |used| && used[t] && t != dst ==> Weaker(mem[t], mem'[t])
  }

  /** Frames in use in s0 that the copied tree does not refer to are untouched. */
  ghost predicate Aside(s0: State, mem: Memory, src: nat, dst: nat, level: nat, hi: nat)
    requires |mem| == |s0.mem| == |s0.used| && hi <= ENTRIES
  {
    forall t :: 0 <= t < |s0.used| && s0.used[t] && t != dst && t != src ==>
      RefsUpTo(s0.mem, src, level, hi, t) == 0 ==> mem[t] == s0.mem[t]
  }

  /** Entries of the source from `hi` on are untouched, unless the source refers to itself. */
  ghost predicate SourceTop(s0: State, mem: Memory, src: nat, level: nat, hi: nat)
    requires hi <= ENTRIES
  {
    RefsUpTo(s0.mem, src, level, hi, src) == 0 ==>
      forall j :: hi <= j < ENTRIES ==> TableOf(mem, src)[j] == TableOf(s0.mem, src)[j]
  }

  /** Source and copy translate alike: as the source did, without write permission. */
  ghost predicate Copied(mem0: Memory, mem: Memory, src: nat, dst: nat, level: nat, i: nat) {
    forall p: Path :: |p| == level && p[0] < i ==>
      && Walk(mem, dst, p) == Down(Walk(mem0, src, p))
      && Walk(mem, src, p) == Down(Walk(mem0, src, p))
  }

  ghost predicate CloneInv(s0: State, s: State, src: nat, dst: nat, level: nat, i: nat, hi: nat)
  {
    && |s.rc| == |s0.rc| && s.Tidy() && s0.Tidy() && i <= hi <= ENTRIES
    && (forall f :: 0 <= f < |s0.used| && s0.used[f] ==> s.used[f])
    && 0 < dst < |s0.rc| && s.rc[0] == s0.rc[0]
    && (forall g :: 0 < g < |s0.rc| ==> s.rc[g] == s0.rc[g] + RefsUpTo(s.mem, dst, level, i, g))
    && (forall j :: i <= j < hi ==> s.mem[dst][j] == ABSENT)
    && (forall j :: hi <= j < ENTRIES ==> s.mem[dst][j] == s0.mem[dst][j])
    && Copied(s0.mem, s.mem, src, dst, level, i)
    && Held(s0.used, dst, s0.mem, s.mem)
    && Aside(s0, s.mem, src, dst, level, hi) && SourceTop(s0, s.mem, src, level, hi)
    && Sound(s.mem, Fresh(s0.rc, s.rc), dst, level, i)
    && (forall g :: 0 < g < |s0.rc| && s0.rc[g] > 0 ==>
          RefsUpTo(s.mem, dst, level, i, g) <= RefsUpTo(s0.mem, src, level, i, g))
  }

  lemma CloneStart(s0: State, src: nat, dst: nat, level: nat, hi: nat)
    requires CloneReady(s0, src, dst, level, hi)
    ensures CloneInv(s0, s0, src, dst, level, 0, hi)
  {
  }

  lemma CloneBounds(s0: State, s: State, src: nat, dst: nat, level: nat, i: nat, hi: nat)
    requires CloneReady(s0, src, dst, level, hi) && CloneInv(s0, s, src, dst, level, i, hi)
    ensures |s.mem| == |s.rc| == |s0.rc| && 0 < src < |s.mem| && 0 < dst < |s.mem| && hi <= ENTRIES
    ensures i < hi ==> s.mem[dst][i] == ABSENT
  {
  }

  lemma CloneKeeps(s0: State, s: State, src: nat, dst: nat, level: nat, i: nat, hi: nat)
    requires CloneInv(s0, s, src, dst, level, i, hi)
    ensures |s.mem| == |s.rc| == |s0.rc| == |s0.mem| && hi <= ENTRIES
    ensures Held(s0.used, dst, s0.mem, s.mem) && Aside(s0, s.mem, src, dst, level, hi)
    ensures SourceTop(s0, s.mem, src, level, hi)
  {
  }

  // ---------- Framing ----------

  lemma {:induction false} WeakerRooted(mem: Memory, mem': Memory, e: Pte, level: nat)
    requires |mem| == |mem'| && WeakerBelow(mem, mem', e, level) && EntryRooted(mem, e, level)
    ensures EntryRooted(mem', e, level) && EntryRooted(mem', DownPte(e), level)
    decreases level
  {
    if Branches(e, level) {
      forall i | 0 <= i < ENTRIES
        ensures EntryRooted(mem', mem'[e.frame][i], level - 1)
      {
        WeakerChild(mem, mem', e, level, i);
        WeakerRooted(mem, mem', mem[e.frame][i], level - 1);
      }
    }
  }

  lemma WeakerTransitive(a: Table, b: Table, c: Table)
    requires Weaker(a, b) && Weaker(b, c)
    ensures Weaker(a, c)
  {
  }

  lemma HeldTransitive(used: seq<bool>, dst: nat, a: Memory, b: Memory, c: Memory)
    requires Held(used, dst, a, b) && Held(used, dst, b, c)
    ensures Held(used, dst, a, c)
  {
    forall t | 0 <= t < |used| && used[t] && t != dst
      ensures Weaker(a[t], c[t])
    {
      WeakerTransitive(a[t], b[t], c[t]);
    }
  }

  /** What the source tree refers to is held, so it only gets weaker. */
  lemma SourceBelow(s0: State, mem: Memory, src: nat, dst: nat, level: nat, j: nat, hi: nat)
    requires CloneReady(s0, src, dst, level, hi) && j < hi
    requires Held(s0.used, dst, s0.mem, mem)
    ensures WeakerBelow(s0.mem, mem, s0.mem[src][j], level)
    ensures forall g :: EntryRefs(mem, mem[src][j], level, g) == EntryRefs(s0.mem, s0.mem[src][j], level, g)
  {
    var e := s0.mem[src][j];
    forall t | EntryRefs(s0.mem, e, level, t) > 0
      ensures Weaker(TableOf(s0.mem, t), TableOf(mem, t))
    {
      RefsOfEntry(s0.mem, src, level, j, hi, t);
    }
    forall g
      ensures EntryRefs(mem, mem[src][j], level, g) == EntryRefs(s0.mem, e, level, g)
    {
      WeakerRefs(s0.mem, mem, e, level, g);
    }
  }

  lemma CurrentBelow(s0: State, mem: Memory, mem': Memory, src: nat, dst: nat, level: nat, j: nat, hi: nat)
    requires CloneReady(s0, src, dst, level, hi) && j < hi
    requires Held(s0.used, dst, s0.mem, mem) && Held(s0.used, dst, mem, mem')
    ensures WeakerBelow(mem, mem', mem[src][j], level)
  {
    SourceBelow(s0, mem, src, dst, level, j, hi);
    forall t | EntryRefs(mem, mem[src][j], level, t) > 0
      ensures Weaker(TableOf(mem, t), TableOf(mem', t))
    {
      RefsOfEntry(s0.mem, src, level, j, hi, t);
    }
  }

  lemma {:induction false} PrefixRefs(mem: Memory, mem': Memory, f: nat, level: nat, i: nat, g: nat)
    requires i <= ENTRIES
    requires forall j :: 0 <= j < i ==>
               TableOf(mem', f)[j] == TableOf(mem, f)[j] && WeakerBelow(mem, mem', TableOf(mem, f)[j], level)
    ensures RefsUpTo(mem', f, level, i, g) == RefsUpTo(mem, f, level, i, g)
  {
    if i > 0 {
      PrefixRefs(mem, mem', f, level, i - 1, g);
      WeakerRefs(mem, mem', TableOf(mem, f)[i - 1], level, g);
    }
  }

  /** Going from s to mem', where held tables got weaker, keeps what was copied so far. */
  lemma StepKeeps(s0: State, s: State, mem': Memory, tables: set<nat>, src: nat, dst: nat, level: nat, i: nat, hi: nat)
    requires CloneReady(s0, src, dst, level, hi)
    requires CloneInv(s0, s, src, dst, level, i, hi)
    requires Held(s.used, dst, s.mem, mem')
    requires forall j :: 0 <= j < i ==> mem'[dst][j] == s.mem[dst][j]
    requires Fresh(s0.rc, s.rc) <= tables
    ensures forall g :: RefsUpTo(mem', dst, level, i, g) == RefsUpTo(s.mem, dst, level, i, g)
    ensures Copied(s0.mem, mem', src, dst, level, i)
    ensures Held(s0.used, dst, s0.mem, mem')
    ensures Sound(mem', tables, dst, level, i)
  {
    forall j | 0 <= j < i
      ensures WeakerBelow(s.mem, mem', s.mem[dst][j], level)
    {
      forall t | EntryRefs(s.mem, s.mem[dst][j], level, t) > 0
        ensures Weaker(TableOf(s.mem, t), TableOf(mem', t))
      {
        RefsOfEntry(s.mem, dst, level, j, i, t);
        if t == dst {
          RefsMonotone(s0.mem, src, level, i, hi, dst);
        }
      }
    }
    forall g
      ensures RefsUpTo(mem', dst, level, i, g) == RefsUpTo(s.mem, dst, level, i, g)
    {
      PrefixRefs(s.mem, mem', dst, level, i, g);
    }
    assert Held(s0.used, dst, s.mem, mem');
    HeldTransitive(s0.used, dst, s0.mem, s.mem, mem');
    forall p: Path | |p| == level && p[0] < i
      ensures Walk(mem', dst, p) == Down(Walk(s0.mem, src, p))
      ensures Walk(mem', src, p) == Down(Walk(s0.mem, src, p))
    {
      WeakerWalk(s.mem, mem', s.mem[dst][p[0]], p);
      CurrentBelow(s0, s.mem, mem', src, dst, level, p[0], hi);
      WeakerWalk(s.mem, mem', s.mem[src][p[0]], p);
    }
    forall j | 0 <= j < i
      ensures EntrySound(mem', tables, mem'[dst][j], level)
    {
      WeakerSound(s.mem, mem', Fresh(s0.rc, s.rc), tables, s.mem[dst][j], level);
    }
  }

  // ---------- One entry ----------

  /** The copy grows by entry i. */
  lemma Extend(s0: State, s: State, s': State, src: nat, dst: nat, level: nat, i: nat, hi: nat)
    requires CloneReady(s0, src, dst, level, hi) && i < hi
    requires CloneInv(s0, s, src, dst, level, i, hi)
    requires Held(s.used, dst, s.mem, s'.mem) && Aside(s0, s'.mem, src, dst, level, hi)
    requires SourceTop(s0, s'.mem, src, level, hi)
    requires forall j :: 0 <= j < ENTRIES && j != i ==> s'.mem[dst][j] == s.mem[dst][j]
    requires |s'.rc| == |s.rc| && s'.rc[0] == s.rc[0] && Fresh(s0.rc, s.rc) <= Fresh(s0.rc, s'.rc)
    requires s'.Tidy() && forall f :: 0 <= f < |s.used| && s.used[f] ==> s'.used[f]
    requires forall g :: 0 < g < |s.rc| ==> s'.rc[g] == s.rc[g] + EntryRefs(s'.mem, s'.mem[dst][i], level, g)
    requires forall g :: 0 < g < |s.rc| && s0.rc[g] > 0 ==>
               EntryRefs(s'.mem, s'.mem[dst][i], level, g) <= EntryRefs(s0.mem, s0.mem[src][i], level, g)
    requires forall p: Path :: |p| == level && p[0] == i ==>
               && Walk(s'.mem, dst, p) == Down(Walk(s0.mem, src, p))
               && Walk(s'.mem, src, p) == Down(Walk(s0.mem, src, p))
    requires EntrySound(s'.mem, Fresh(s0.rc, s'.rc), s'.mem[dst][i], level)
    ensures CloneInv(s0, s', src, dst, level, i + 1, hi)
  {
    hide Walk, Held, EntrySound, EntryRefs;
    StepKeeps(s0, s, s'.mem, Fresh(s0.rc, s'.rc), src, dst, level, i, hi);
    forall g | 0 < g < |s0.rc|
      ensures s'.rc[g] == s0.rc[g] + RefsUpTo(s'.mem, dst, level, i + 1, g)
      ensures s0.rc[g] > 0 ==> RefsUpTo(s'.mem, dst, level, i + 1, g) <= RefsUpTo(s0.mem, src, level, i + 1, g)
    {
      assert RefsUpTo(s'.mem, dst, level, i + 1, g) ==
             RefsUpTo(s'.mem, dst, level, i, g) + EntryRefs(s'.mem, s'.mem[dst][i], level, g);
      assert RefsUpTo(s0.mem, src, level, i + 1, g) ==
             RefsUpTo(s0.mem, src, level, i, g) + EntryRefs(s0.mem, s0.mem[src][i], level, g);
    }
  }

  lemma CopyAbsent(s0: State, s: State, src: nat, dst: nat, level: nat, i: nat, hi: nat)
    requires CloneReady(s0, src, dst, level, hi) && i < hi
    requires CloneInv(s0, s, src, dst, level, i, hi)
    requires !s.mem[src][i].Present()
    ensures CloneInv(s0, s, src, dst, level, i + 1, hi)
  {
    assert Weaker(s0.mem[src], s.mem[src]);
    assert !s0.mem[src][i].Present();
    Extend(s0, s, s, src, dst, level, i, hi);
  }

  /** A page: both sides lose write permission unless it is shared, and its frame is held once more. */
  lemma CopyLeaf(s0: State, s: State, s': State, src: nat, dst: nat, i: nat, hi: nat)
    requires CloneReady(s0, src, dst, 1, hi) && i < hi
    requires CloneInv(s0, s, src, dst, 1, i, hi)
    requires s.mem[src][i].Present()
    requires var e := DownPte(s.mem[src][i]);
             && s'.mem == s.mem[src := s.mem[src][i := e]][dst := s.mem[dst][i := e]]
             && s'.rc == (if 0 < e.frame < |s.rc| then s.rc[e.frame := s.rc[e.frame] + 1] else s.rc)
             && s'.used == s.used
    ensures CloneInv(s0, s', src, dst, 1, i + 1, hi)
  {
    hide Copied, Sound;
    LeafBefore(s0, s, src, dst, i, hi);
    Extend(s0, s, s', src, dst, 1, i, hi);
  }

  /** The frame of a leaf is in use from the start. */
  lemma LeafBefore(s0: State, s: State, src: nat, dst: nat, i: nat, hi: nat)
    requires CloneReady(s0, src, dst, 1, hi) && i < hi
    requires CloneInv(s0, s, src, dst, 1, i, hi)
    requires s.mem[src][i].Present()
    ensures var e := s.mem[src][i];
            e in {s0.mem[src][i], DownPte(s0.mem[src][i])} && (0 < e.frame < |s.rc| ==> s0.rc[e.frame] > 0)
  {
    hide Copied, Sound, Walk;
    assert Weaker(s0.mem[src], s.mem[src]);
    RefsOfEntry(s0.mem, src, 1, i, hi, s.mem[src][i].frame);
  }

  /** The situation in which table `d.frame` was taken and zeroed (s1), the child of entry i copied
      into it (s2), and only then hooked into dst (mem'). */
  ghost predicate NodeCopied(s0: State, s: State, s1: State, s2: State, mem': Memory, d: Pte, src: nat, dst: nat,
                             level: nat, i: nat, hi: nat)
  {
    && CloneReady(s0, src, dst, level, hi) && i < hi
    && CloneInv(s0, s, src, dst, level, i, hi)
    && Branches(s.mem[src][i], level) && Branches(d, level)
    && 0 < d.frame < |s.rc| && !s.used[d.frame] && s1 == s.Take(d.frame, EmptyTable())
    && CloneReady(s1, s.mem[src][i].frame, d.frame, level - 1, ENTRIES)
    && CloneInv(s1, s2, s.mem[src][i].frame, d.frame, level - 1, ENTRIES, ENTRIES)
    && mem' == s2.mem[dst := s2.mem[dst][i := d]]
  }

  /** Before the child is copied, what it refers to is what it referred to at the start. */
  lemma ChildBefore(s0: State, s: State, nf: nat, src: nat, dst: nat, level: nat, i: nat, hi: nat)
    requires CloneReady(s0, src, dst, level, hi) && i < hi
    requires CloneInv(s0, s, src, dst, level, i, hi)
    requires Branches(s.mem[src][i], level) && 0 < nf < |s.rc| && !s.used[nf]
    ensures var mem1, c := s.mem[nf := EmptyTable()], s.mem[src][i].frame;
            && WeakerBelow(s0.mem, s.mem, s0.mem[src][i], level)
            && WeakerBelow(s.mem, mem1, s.mem[src][i], level)
            && (forall g :: RefsUpTo(mem1, c, level - 1, ENTRIES, g) + (if g == c then 1 else 0) ==
                            EntryRefs(s0.mem, s0.mem[src][i], level, g) <= RefsUpTo(s0.mem, src, level, hi, g))
  {
    var mem1, c := s.mem[nf := EmptyTable()], s.mem[src][i].frame;
    SourceBelow(s0, s.mem, src, dst, level, i, hi);
    CurrentBelow(s0, s.mem, mem1, src, dst, level, i, hi);
    forall g
      ensures RefsUpTo(mem1, c, level - 1, ENTRIES, g) + (if g == c then 1 else 0) ==
              EntryRefs(s0.mem, s0.mem[src][i], level, g) <= RefsUpTo(s0.mem, src, level, hi, g)
    {
      WeakerRefs(s.mem, mem1, s.mem[src][i], level, g);
      RefsOfEntry(s0.mem, src, level, i, hi, g);
    }
  }

  /** Copying the child does not touch dst, nor anything outside the source tree. */
  lemma NodeAside(s0: State, s: State, s1: State, s2: State, mem': Memory, d: Pte, src: nat, dst: nat, level: nat,
                  i: nat, hi: nat)
    requires NodeCopied(s0, s, s1, s2, mem', d, src, dst, level, i, hi)
    ensures s2.mem[dst] == s.mem[dst] && s.mem[src][i].frame != dst
    ensures RefsUpTo(s1.mem, s.mem[src][i].frame, level - 1, ENTRIES, dst) == 0
    ensures RefsUpTo(s2.mem, d.frame, level - 1, ENTRIES, dst) == 0 && dst != d.frame
    ensures Aside(s0, mem', src, dst, level, hi) && SourceTop(s0, mem', src, level, hi)
  {
    hide Copied, Sound;
    ChildBefore(s0, s, d.frame, src, dst, level, i, hi);
  }

  /** If the first n entries of a table do not lead to dst, an update of dst changes nothing below them. */
  lemma OffPath(mem: Memory, f: nat, level: nat, n: nat, dst: nat, t: Table)
    requires dst < |mem| && f != dst && n <= ENTRIES && RefsUpTo(mem, f, level, n, dst) == 0
    ensures forall j :: 0 <= j < n ==>
              && SameBelow(mem, mem[dst := t], TableOf(mem, f)[j], level)
              && WeakerBelow(mem, mem[dst := t], TableOf(mem, f)[j], level)
    ensures forall g :: RefsUpTo(mem[dst := t], f, level, n, g) == RefsUpTo(mem, f, level, n, g)
  {
    forall j | 0 <= j < n
      ensures SameBelow(mem, mem[dst := t], TableOf(mem, f)[j], level)
      ensures WeakerBelow(mem, mem[dst := t], TableOf(mem, f)[j], level)
    {
      RefsOfEntry(mem, f, level, j, n, dst);
    }
    forall g
      ensures RefsUpTo(mem[dst := t], f, level, n, g) == RefsUpTo(mem, f, level, n, g)
    {
      PrefixRefs(mem, mem[dst := t], f, level, n, g);
    }
  }

  lemma NodeRefs(s0: State, s: State, s1: State, s2: State, mem': Memory, d: Pte, src: nat, dst: nat, level: nat,
                 i: nat, hi: nat)
    requires NodeCopied(s0, s, s1, s2, mem', d, src, dst, level, i, hi)
    ensures forall g :: 0 < g < |s.rc| ==> s2.rc[g] == s.rc[g] + EntryRefs(mem', d, level, g)
    ensures forall g :: 0 < g < |s.rc| && s0.rc[g] > 0 ==>
              EntryRefs(mem', d, level, g) <= EntryRefs(s0.mem, s0.mem[src][i], level, g)
  {
    hide Copied, Sound, Aside, Held;
    ChildBefore(s0, s, d.frame, src, dst, level, i, hi);
    NodeAside(s0, s, s1, s2, mem', d, src, dst, level, i, hi);
    OffPath(s2.mem, d.frame, level - 1, ENTRIES, dst, mem'[dst]);
    forall g | 0 < g < |s.rc|
      ensures s2.rc[g] == s.rc[g] + EntryRefs(mem', d, level, g)
      ensures s0.rc[g] > 0 ==> EntryRefs(mem', d, level, g) <= EntryRefs(s0.mem, s0.mem[src][i], level, g)
    {
      assert RefsUpTo(mem', d.frame, level - 1, ENTRIES, g) == RefsUpTo(s2.mem, d.frame, level - 1, ENTRIES, g);
    }
  }

  /** The translations through entry i, from what is known about the child. */
  lemma NodeWalk(mem0: Memory, mem: Memory, mem1: Memory, mem2: Memory, mem': Memory, e0: Pte, e: Pte, e': Pte,
                 d: Pte, p: Path)
    requires Branches(e, |p|) && Branches(d, |p|) && e in {e0, DownPte(e0)} && e' in {e, DownPte(e)}
    requires WeakerBelow(mem0, mem, e0, |p|) && WeakerBelow(mem, mem1, e, |p|)
    requires Copied(mem1, mem2, e.frame, d.frame, |p| - 1, ENTRIES)
    requires TableOf(mem', d.frame) == TableOf(mem2, d.frame) && TableOf(mem', e.frame) == TableOf(mem2, e.frame)
    requires SameBelow(mem2, mem', TableOf(mem2, d.frame)[p[1]], |p| - 1)
    requires SameBelow(mem2, mem', TableOf(mem2, e.frame)[p[1]], |p| - 1)
    ensures WalkEntry(mem', d, p) == WalkEntry(mem', e', p) == Down(WalkEntry(mem0, e0, p))
  {
    hide Weaker, EntryRefs, RefsUpTo, SameBelow, WeakerBelow;
    var q: Path := p[1..];
    WeakerWalk(mem0, mem, e0, p);
    WeakerWalk(mem, mem1, e, p);
    assert Walk(mem1, e.frame, q) == WalkEntry(mem1, e, p);
    assert Walk(mem2, d.frame, q) == Walk(mem2, e.frame, q) == Down(WalkEntry(mem0, e0, p));
    SameWalk(mem2, mem', TableOf(mem2, d.frame)[q[0]], q);
    SameWalk(mem2, mem', TableOf(mem2, e.frame)[q[0]], q);
  }

  lemma NodeBelow(s0: State, s: State, s1: State, s2: State, mem': Memory, d: Pte, src: nat, dst: nat, level: nat,
                  i: nat, hi: nat, j: nat)
    requires NodeCopied(s0, s, s1, s2, mem', d, src, dst, level, i, hi) && j < ENTRIES
    ensures var c := s.mem[src][i].frame;
            && c < |mem'| && mem'[c] == s2.mem[c] && mem'[d.frame] == s2.mem[d.frame]
            && SameBelow(s2.mem, mem', s2.mem[d.frame][j], level - 1)
            && SameBelow(s2.mem, mem', s2.mem[c][j], level - 1)
  {
    hide CloneInv, CloneReady, Copied, Sound, SameBelow, Aside, Held, SourceTop;
    CloneBounds(s0, s, src, dst, level, i, hi);
    var c := s.mem[src][i].frame;
    CloneBounds(s1, s2, c, d.frame, level - 1, ENTRIES, ENTRIES);
    NodeAside(s0, s, s1, s2, mem', d, src, dst, level, i, hi);
    OffPath(s2.mem, d.frame, level - 1, ENTRIES, dst, mem'[dst]);
    NodeSource(s0, s, s1, s2, mem', d, src, dst, level, i, hi, j);
  }

  lemma NodeSource(s0: State, s: State, s1: State, s2: State, mem': Memory, d: Pte, src: nat, dst: nat, level: nat,
                   i: nat, hi: nat, j: nat)
    requires NodeCopied(s0, s, s1, s2, mem', d, src, dst, level, i, hi) && j < ENTRIES
    ensures SameBelow(s2.mem, mem', TableOf(s2.mem, s.mem[src][i].frame)[j], level - 1)
  {
    hide CloneInv, CloneReady, Copied, Sound;
    CloneBounds(s0, s, src, dst, level, i, hi);
    var c := s.mem[src][i].frame;
    CloneBounds(s1, s2, c, d.frame, level - 1, ENTRIES, ENTRIES);
    CloneKeeps(s1, s2, c, d.frame, level - 1, ENTRIES, ENTRIES);
    NodeAside(s0, s, s1, s2, mem', d, src, dst, level, i, hi);
    SourceBelow(s1, s2.mem, c, d.frame, level - 1, j, ENTRIES);
    RefsOfEntry(s1.mem, c, level - 1, j, ENTRIES, dst);
  }

  lemma NodeWalks(s0: State, s: State, s1: State, s2: State, mem': Memory, d: Pte, src: nat, dst: nat, level: nat,
                  i: nat, hi: nat, p: Path)
    requires NodeCopied(s0, s, s1, s2, mem', d, src, dst, level, i, hi)
    requires |p| == level && p[0] == i
    ensures Walk(mem', dst, p) == Down(Walk(s0.mem, src, p))
    ensures Walk(mem', src, p) == Down(Walk(s0.mem, src, p))
  {
    hide Sound;
    var e := s.mem[src][i];
    ChildBefore(s0, s, d.frame, src, dst, level, i, hi);
    NodeBelow(s0, s, s1, s2, mem', d, src, dst, level, i, hi, p[1]);
    assert Weaker(s0.mem[src], s.mem[src]) && Weaker(s.mem[src], mem'[src]);
    NodeWalk(s0.mem, s.mem, s1.mem, s2.mem, mem', s0.mem[src][i], e, mem'[src][i], d, p);
  }

  lemma NodeFresh(s0: State, s: State, s1: State, s2: State, mem': Memory, d: Pte, src: nat, dst: nat, level: nat,
                  i: nat, hi: nat)
    requires NodeCopied(s0, s, s1, s2, mem', d, src, dst, level, i, hi)
    ensures Fresh(s0.rc, s.rc) <= Fresh(s0.rc, s2.rc) && Fresh(s1.rc, s2.rc) <= Fresh(s0.rc, s2.rc)
    ensures d.frame in Fresh(s0.rc, s2.rc)
  {
    hide Copied, Sound, Aside, Held;
    ChildBefore(s0, s, d.frame, src, dst, level, i, hi);
    forall t | t in Fresh(s0.rc, s.rc)
      ensures t in Fresh(s0.rc, s2.rc)
    {
      assert RefsUpTo(s0.mem, src, level, hi, t) <= s0.rc[t] == 0;
    }
  }

  lemma NodeSound(s0: State, s: State, s1: State, s2: State, mem': Memory, d: Pte, src: nat, dst: nat, level: nat,
                  i: nat, hi: nat)
    requires NodeCopied(s0, s, s1, s2, mem', d, src, dst, level, i, hi)
    ensures EntrySound(mem', Fresh(s0.rc, s2.rc), d, level)
  {
    NodeFresh(s0, s, s1, s2, mem', d, src, dst, level, i, hi);
    NodeAside(s0, s, s1, s2, mem', d, src, dst, level, i, hi);
    OffPath(s2.mem, d.frame, level - 1, ENTRIES, dst, mem'[dst]);
    assert mem'[d.frame] == s2.mem[d.frame];
    forall j | 0 <= j < ENTRIES
      ensures EntrySound(mem', Fresh(s0.rc, s2.rc), mem'[d.frame][j], level - 1)
    {
      assert EntrySound(s2.mem, Fresh(s1.rc, s2.rc), s2.mem[d.frame][j], level - 1);
      WeakerSound(s2.mem, mem', Fresh(s1.rc, s2.rc), Fresh(s0.rc, s2.rc), s2.mem[d.frame][j], level - 1);
    }
  }

  lemma CopyNode(s0: State, s: State, s1: State, s2: State, mem': Memory, d: Pte, src: nat, dst: nat, level: nat,
                 i: nat, hi: nat)
    requires NodeCopied(s0, s, s1, s2, mem', d, src, dst, level, i, hi)
    ensures CloneInv(s0, s2.(mem := mem'), src, dst, level, i + 1, hi)
  {
    hide EntryRefs, RefsUpTo, CloneReady;
    NodeAside(s0, s, s1, s2, mem', d, src, dst, level, i, hi);
    NodeRefs(s0, s, s1, s2, mem', d, src, dst, level, i, hi);
    NodeFresh(s0, s, s1, s2, mem', d, src, dst, level, i, hi);
    NodeSound(s0, s, s1, s2, mem', d, src, dst, level, i, hi);
    forall p: Path | |p| == level && p[0] == i
      ensures Walk(mem', dst, p) == Down(Walk(s0.mem, src, p)) && Walk(mem', src, p) == Down(Walk(s0.mem, src, p))
    {
      NodeWalks(s0, s, s1, s2, mem', d, src, dst, level, i, hi, p);
    }
    Extend(s0, s, s2.(mem := mem'), src, dst, level, i, hi);
  }

  /** When the child's table has been taken and zeroed, the child is ready to be copied. */
  lemma ChildReady(s0: State, s: State, nf: nat, src: nat, dst: nat, level: nat, i: nat, hi: nat)
    requires CloneReady(s0, src, dst, level, hi) && i < hi && level > 1
    requires CloneInv(s0, s, src, dst, level, i, hi)
    requires Branches(s.mem[src][i], level) && 0 < nf < |s.rc| && !s.used[nf]
    ensures CloneReady(s.Take(nf, EmptyTable()), s.mem[src][i].frame, nf, level - 1, ENTRIES)
  {
    ChildBefore(s0, s, nf, src, dst, level, i, hi);
    var mem1 := s.mem[nf := EmptyTable()];
    WeakerRooted(s0.mem, s.mem, s0.mem[src][i], level);
    assert Weaker(s0.mem[src], s.mem[src]);
    WeakerRooted(s.mem, mem1, s.mem[src][i], level);
  }
}
