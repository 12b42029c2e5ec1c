/** What the processor lets a program do with a page: the user and write bits of every entry on the way to it have to
    be set, and no entry may forbid execution (Intel SDM volume 3A, section 4.6). */
module Rights {
  import opened Options
  import opened PageTable
  import opened Cloning
  import opened Mapping
  import opened TableWalk

  /** What is left of a page behind an entry with flags g. */
  function Narrow(g: Flags, e: Pte): Pte {
    e.(flags := e.flags.(user := e.flags.user && g.user, writable := e.flags.writable && g.writable,
                         nx := e.flags.nx || g.nx))
  }

  function Through(g: Option<Flags>, r: Option<Pte>): Option<Pte> {
    if g.Some? && r.Some? then Some(Narrow(g.value, r.value)) else r
  }

  /** The page as the processor sees it. */
  function AccessEntry(mem: Memory, e: Pte, p: Path): (r: Option<Pte>)
    decreases |p|
  {
    if Branches(e, |p|) then Through(Some(e.flags), AccessEntry(mem, TableOf(mem, e.frame)[p[1]], p[1..]))
    else WalkEntry(mem, e, p)
  }

  function Access(mem: Memory, f: nat, p: Path): (r: Option<Pte>) {
    AccessEntry(mem, TableOf(mem, f)[p[0]], p)
  }

  /** The flags of the last entry on the way to the table at v. */
  function Link(mem: Memory, f: nat, level: nat, v: seq<Index>): (r: Option<Flags>)
    requires v != []
    decreases |v|
  {
    var e := TableOf(mem, f)[v[0]];
    if !Branches(e, level) then None
    else if |v| == 1 then Some(e.flags)
    else Link(mem, e.frame, level - 1, v[1..])
  }

  lemma {:induction false} LinkAppend(mem: Memory, f: nat, level: nat, q: seq<Index>, j: Index)
    ensures Link(mem, f, level, q + [j]) ==
            match TableAt(mem, f, level, q)
            case None => None
            case Some(t) =>
              if |q| < level && Branches(TableOf(mem, t)[j], level - |q|) then Some(TableOf(mem, t)[j].flags) else None
    decreases |q|
  {
    if q != [] {
      assert (q + [j])[1..] == q[1..] + [j];
      if level > 0 {
        LinkAppend(mem, TableOf(mem, f)[q[0]].frame, level - 1, q[1..], j);
      }
    }
  }

  lemma {:induction false} LinkTable(mem: Memory, f: nat, level: nat, v: seq<Index>)
    requires v != []
    ensures Link(mem, f, level, v).Some? <==> TableAt(mem, f, level, v).Some?
    decreases |v|
  {
    if |v| > 1 && Branches(TableOf(mem, f)[v[0]], level) {
      LinkTable(mem, TableOf(mem, f)[v[0]].frame, level - 1, v[1..]);
    }
  }

  /** A page is narrowed by the links on the way to it and by nothing else. */
  lemma AccessLinks(mem: Memory, root: nat, p: Path)
    requires |p| == 4
    ensures Access(mem, root, p) ==
            Through(Link(mem, root, 4, p[..1]),
                    Through(Link(mem, root, 4, p[..2]), Through(Link(mem, root, 4, p[..3]), Walk(mem, root, p))))
  {
    var e := TableOf(mem, root)[p[0]];
    assert p[..2][1..] == p[1..][..1] && p[..3][1..] == p[1..][..2];
    if Branches(e, 4) {
      AccessThree(mem, e.frame, p[1..]);
    }
  }

  lemma AccessThree(mem: Memory, f: nat, p: Path)
    requires |p| == 3
    ensures Access(mem, f, p) ==
            Through(Link(mem, f, 3, p[..1]), Through(Link(mem, f, 3, p[..2]), Walk(mem, f, p)))
  {
    var e := TableOf(mem, f)[p[0]];
    assert p[..2][1..] == p[1..][..1];
    if Branches(e, 3) {
      AccessTwo(mem, e.frame, p[1..]);
    }
  }

  lemma AccessTwo(mem: Memory, f: nat, p: Path)
    requires |p| == 2
    ensures Access(mem, f, p) == Through(Link(mem, f, 2, p[..1]), Walk(mem, f, p))
  {
    var e := TableOf(mem, f)[p[0]];
    if Branches(e, 2) {
      var c := TableOf(mem, e.frame)[p[1]];
      assert AccessEntry(mem, c, p[1..]) == WalkEntry(mem, c, p[1..]);
    }
  }

  // ---------- Copying ----------

  predicate Below(q: seq<Index>, n: nat) {
    q != [] ==> q[0] < n
  }

  /** Table t is a last-level table of this tree. */
  ghost predicate LeafTable(mem: Memory, f: nat, level: nat, n: nat, t: nat) {
    exists q: seq<Index> :: |q| + 1 == level && Below(q, n) && TableAt(mem, f, level, q) == Some(t)
  }

  /** No table is reached both as a last-level table and further up. */
  ghost predicate Layered(mem: Memory, f: nat, level: nat, n: nat) {
    forall q: seq<Index>, u: seq<Index> ::
      |q| + 1 < level && |u| + 1 == level && Below(q, n) && Below(u, n) && TableAt(mem, f, level, q).Some? ==>
        TableAt(mem, f, level, q) != TableAt(mem, f, level, u)
  }

  /** Of the frames in use in s0 only last-level tables of the source were written. */
  ghost predicate LeavesOnly(s0: State, mem: Memory, src: nat, dst: nat, level: nat, hi: nat) {
    && |mem| == |s0.mem| == |s0.used|
    && forall t :: 0 <= t < |s0.used| && s0.used[t] && t != dst && mem[t] != s0.mem[t] ==>
         LeafTable(s0.mem, src, level, hi, t)
  }

  function Plain(r: Option<Flags>): Option<Flags> {
    if r.Some? then Some(r.value.(shared := false)) else None
  }

  /** The links of the copy are those of the source. */
  ghost predicate Mirrors(mem0: Memory, mem: Memory, src: nat, dst: nat, level: nat, i: nat) {
    forall v: seq<Index> :: 0 < |v| < level && v[0] < i ==>
      Plain(Link(mem, dst, level, v)) == Plain(Link(mem0, src, level, v))
  }

  /** What copying the first i entries does to the links of source and copy. */
  ghost predicate Shadows(s0: State, mem: Memory, src: nat, dst: nat, level: nat, i: nat, hi: nat) {
    Layered(s0.mem, src, level, hi) ==>
      LeavesOnly(s0, mem, src, dst, level, hi) && Mirrors(s0.mem, mem, src, dst, level, i)
  }

  /** All tables above the last level are the same. */
  ghost predicate UppersSame(mem: Memory, mem': Memory, f: nat, level: nat, n: nat) {
    forall q: seq<Index> :: |q| + 1 < level && Below(q, n) && TableAt(mem, f, level, q).Some? ==>
      TableOf(mem', TableAt(mem, f, level, q).value) == TableOf(mem, TableAt(mem, f, level, q).value)
  }

  lemma {:induction false} UppersTable(mem: Memory, mem': Memory, f: nat, level: nat, n: nat, q: seq<Index>)
    requires UppersSame(mem, mem', f, level, n) && |q| < level && Below(q, n)
    ensures TableAt(mem', f, level, q) == TableAt(mem, f, level, q)
    decreases |q|
  {
    if q != [] {
      var r, j := q[..|q| - 1], q[|q| - 1];
      assert q == r + [j];
      UppersTable(mem, mem', f, level, n, r);
      if TableAt(mem, f, level, r).Some? {
        TableAtAppend(mem, f, level, r, j);
        TableAtAppend(mem', f, level, r, j);
      } else {
        NoTable(mem, f, level, r, q);
        NoTable(mem', f, level, r, q);
      }
    }
  }

  lemma NoTable(mem: Memory, f: nat, level: nat, r: seq<Index>, q: seq<Index>)
    requires r <= q && TableAt(mem, f, level, r).None?
    ensures TableAt(mem, f, level, q).None?
  {
    if TableAt(mem, f, level, q).Some? {
      TableAtPrefix(mem, f, level, r, q);
    }
  }

  lemma UppersLink(mem: Memory, mem': Memory, f: nat, level: nat, n: nat, v: seq<Index>)
    requires UppersSame(mem, mem', f, level, n) && 0 < |v| < level && v[0] < n
    ensures Link(mem', f, level, v) == Link(mem, f, level, v)
  {
    var r, j := v[..|v| - 1], v[|v| - 1];
    assert v == r + [j];
    UppersTable(mem, mem', f, level, n, r);
    LinkAppend(mem, f, level, r, j);
    LinkAppend(mem', f, level, r, j);
  }

  /** The tables of the source are in use, and none of them is the table that is copied into. */
  lemma SourceTable(s0: State, src: nat, dst: nat, level: nat, hi: nat, q: seq<Index>)
    requires CloneReady(s0, src, dst, level, hi) && Below(q, hi) && TableAt(s0.mem, src, level, q).Some?
    ensures var t := TableAt(s0.mem, src, level, q).value; 0 < t < |s0.mem| && s0.used[t] && s0.rc[t] > 0 && t != dst
  {
    if q != [] {
      PathRefs(s0.mem, src, level, hi, q);
      RootedTable(s0.mem, src, level, hi, q);
    }
  }

  lemma {:induction false} RootedTable(mem: Memory, f: nat, level: nat, n: nat, q: seq<Index>)
    requires n <= ENTRIES && q != [] && q[0] < n && f < |mem| && TableAt(mem, f, level, q).Some?
    requires forall j :: 0 <= j < n ==> EntryRooted(mem, mem[f][j], level)
    ensures 0 < TableAt(mem, f, level, q).value < |mem|
    decreases |q|
  {
    var e := mem[f][q[0]];
    assert EntryRooted(mem, e, level);
    if |q| > 1 {
      RootedTable(mem, e.frame, level - 1, ENTRIES, q[1..]);
    } else {
      assert TableAt(mem, e.frame, level - 1, q[1..]) == Some(e.frame);
    }
  }

  lemma LayeredUppers(s0: State, mem: Memory, src: nat, dst: nat, level: nat, hi: nat)
    requires CloneReady(s0, src, dst, level, hi) && Layered(s0.mem, src, level, hi)
    requires LeavesOnly(s0, mem, src, dst, level, hi)
    ensures UppersSame(s0.mem, mem, src, level, hi)
  {
    hide CloneReady, TableAt;
    CloneReadySize(s0, src, dst, level, hi);
    forall q: seq<Index> | |q| + 1 < level && Below(q, hi) && TableAt(s0.mem, src, level, q).Some?
      ensures TableOf(mem, TableAt(s0.mem, src, level, q).value) ==
              TableOf(s0.mem, TableAt(s0.mem, src, level, q).value)
    {
      SourceTable(s0, src, dst, level, hi, q);
    }
  }

  lemma CloneReadySize(s0: State, src: nat, dst: nat, level: nat, hi: nat)
    requires CloneReady(s0, src, dst, level, hi)
    ensures |s0.mem| == |s0.rc| == |s0.used| && hi <= ENTRIES && 0 < src < |s0.mem| && 0 < dst < |s0.mem|
  {
  }

  lemma LayeredChild(mem: Memory, f: nat, level: nat, n: nat, i: Index)
    requires Layered(mem, f, level, n) && i < n && Branches(TableOf(mem, f)[i], level)
    ensures Layered(mem, TableOf(mem, f)[i].frame, level - 1, ENTRIES)
  {
    var c := TableOf(mem, f)[i].frame;
    forall q: seq<Index>, u: seq<Index> | |q| + 1 < level - 1 && |u| + 1 == level - 1 &&
        TableAt(mem, c, level - 1, q).Some?
      ensures TableAt(mem, c, level - 1, q) != TableAt(mem, c, level - 1, u)
    {
      assert ([i] + q)[1..] == q && ([i] + u)[1..] == u;
      assert TableAt(mem, f, level, [i] + q) == TableAt(mem, c, level - 1, q);
      assert TableAt(mem, f, level, [i] + u) == TableAt(mem, c, level - 1, u);
    }
  }

  lemma LayeredSame(mem: Memory, mem': Memory, f: nat, level: nat, n: nat)
    requires UppersSame(mem, mem', f, level, n) && Layered(mem, f, level, n)
    ensures Layered(mem', f, level, n)
  {
    hide UppersSame, TableAt;
    forall q: seq<Index>, u: seq<Index> | |q| + 1 < level && |u| + 1 == level && Below(q, n) && Below(u, n) &&
        TableAt(mem', f, level, q).Some?
      ensures TableAt(mem', f, level, q) != TableAt(mem', f, level, u)
    {
      UppersTable(mem, mem', f, level, n, q);
      UppersTable(mem, mem', f, level, n, u);
    }
  }

  lemma ShadowsStart(s0: State, src: nat, dst: nat, level: nat, hi: nat)
    requires CloneReady(s0, src, dst, level, hi)
    ensures Shadows(s0, s0.mem, src, dst, level, 0, hi)
  {
  }

  lemma ShadowsAbsent(s0: State, s: State, src: nat, dst: nat, level: nat, i: nat, hi: nat)
    requires CloneReady(s0, src, dst, level, hi) && i < hi
    requires CloneInv(s0, s, src, dst, level, i, hi) && Shadows(s0, s.mem, src, dst, level, i, hi)
    requires !s.mem[src][i].Present()
    ensures Shadows(s0, s.mem, src, dst, level, i + 1, hi)
  {
    hide Copied, Sound, RefsUpTo;
    assert Weaker(s0.mem[src], s.mem[src]);
    assert !s0.mem[src][i].Present() && s.mem[dst][i] == ABSENT;
  }

  /** At the last level there are no links. */
  lemma ShadowsLeaf(s0: State, s: State, s': State, src: nat, dst: nat, i: nat, hi: nat, e: Pte)
    requires CloneReady(s0, src, dst, 1, hi) && i < hi && Shadows(s0, s.mem, src, dst, 1, i, hi)
    requires |s.mem| == |s0.mem| && s'.mem == s.mem[src := s.mem[src][i := e]][dst := s.mem[dst][i := e]]
    ensures Shadows(s0, s'.mem, src, dst, 1, i + 1, hi)
  {
    assert TableAt(s0.mem, src, 1, []) == Some(src);
    assert LeafTable(s0.mem, src, 1, hi, src);
  }

  /** When the child's table is taken, the links of the source are what they were. */
  lemma LayeredBefore(s0: State, s: State, nf: nat, src: nat, dst: nat, level: nat, i: nat, hi: nat)
    requires CloneReady(s0, src, dst, level, hi) && i < hi && level > 1
    requires CloneInv(s0, s, src, dst, level, i, hi) && Shadows(s0, s.mem, src, dst, level, i, hi)
    requires Layered(s0.mem, src, level, hi)
    requires Branches(s.mem[src][i], level) && 0 < nf < |s.rc| && !s.used[nf]
    ensures s.mem[src] == s0.mem[src]
    ensures UppersSame(s0.mem, s.mem[nf := EmptyTable()], src, level, hi)
    ensures Layered(s.mem[nf := EmptyTable()], s.mem[src][i].frame, level - 1, ENTRIES)
  {
    hide Copied, Sound, RefsUpTo, Aside, Held, SourceTop, Layered, LeafTable, Mirrors;
    CloneBounds(s0, s, src, dst, level, i, hi);
    var mem1 := s.mem[nf := EmptyTable()];
    LayeredUppers(s0, s.mem, src, dst, level, hi);
    LayeredUppers(s0, mem1, src, dst, level, hi);
    assert TableAt(s0.mem, src, level, []) == Some(src);
    LayeredSame(s0.mem, mem1, src, level, hi);
    LayeredChild(mem1, src, level, hi, i);
  }

  /** A last-level table of the child is one of the source. */
  lemma ChildLeaf(s0: State, s: State, nf: nat, src: nat, dst: nat, level: nat, i: nat, hi: nat, t: nat)
    requires CloneReady(s0, src, dst, level, hi) && i < hi && level > 1
    requires CloneInv(s0, s, src, dst, level, i, hi) && Shadows(s0, s.mem, src, dst, level, i, hi)
    requires Layered(s0.mem, src, level, hi)
    requires Branches(s.mem[src][i], level) && 0 < nf < |s.rc| && !s.used[nf]
    requires LeafTable(s.mem[nf := EmptyTable()], s.mem[src][i].frame, level - 1, ENTRIES, t)
    ensures LeafTable(s0.mem, src, level, hi, t) && 0 < t < |s0.rc| && s0.rc[t] > 0
  {
    hide Copied, Sound, RefsUpTo, Aside, Held, SourceTop, Layered, Mirrors, UppersSame;
    CloneBounds(s0, s, src, dst, level, i, hi);
    LayeredBefore(s0, s, nf, src, dst, level, i, hi);
    var mem1, c := s.mem[nf := EmptyTable()], s.mem[src][i].frame;
    var q: seq<Index> :| |q| + 1 == level - 1 && Below(q, ENTRIES) && TableAt(mem1, c, level - 1, q) == Some(t);
    var u: seq<Index> := [i] + q;
    assert u[1..] == q && mem1[src] == s.mem[src];
    assert TableAt(mem1, src, level, u) == Some(t);
    UppersTable(s0.mem, mem1, src, level, hi, u);
    SourceTable(s0, src, dst, level, hi, u);
  }

  /** Copying the child writes last-level tables of the source only, whether or not it succeeds. */
  lemma LeavesStep(s0: State, s: State, nf: nat, mem2: Memory, src: nat, dst: nat, level: nat, i: nat, hi: nat)
    requires CloneReady(s0, src, dst, level, hi) && i < hi && level > 1
    requires CloneInv(s0, s, src, dst, level, i, hi) && Shadows(s0, s.mem, src, dst, level, i, hi)
    requires Layered(s0.mem, src, level, hi)
    requires Branches(s.mem[src][i], level) && 0 < nf < |s.rc| && !s.used[nf]
    requires LeavesOnly(s.Take(nf, EmptyTable()), mem2, s.mem[src][i].frame, nf, level - 1, ENTRIES)
    ensures LeavesOnly(s0, mem2, src, dst, level, hi)
    ensures forall t :: 0 <= t < |s.used| && s.used[t] && mem2[t] != s.mem[t] ==> s0.rc[t] > 0
  {
    hide Copied, Sound, RefsUpTo, Aside, Held, SourceTop, Layered, Mirrors, LeafTable;
    var s1, c := s.Take(nf, EmptyTable()), s.mem[src][i].frame;
    forall t | 0 <= t < |s.used| && s.used[t] && mem2[t] != s.mem[t]
      ensures LeafTable(s0.mem, src, level, hi, t) && s0.rc[t] > 0
    {
      assert s1.used[t] && t != nf && s1.mem[t] == s.mem[t];
      ChildLeaf(s0, s, nf, src, dst, level, i, hi, t);
    }
  }

  /** The tables of the copy are new, so that writing tables of the source does not touch them. */
  lemma {:induction false} CopyTable(s0: State, s: State, mem2: Memory, src: nat, dst: nat, level: nat, i: nat, hi: nat,
                                     q: seq<Index>)
    requires CloneReady(s0, src, dst, level, hi) && i <= hi && CloneInv(s0, s, src, dst, level, i, hi)
    requires |mem2| == |s.mem| && forall j :: 0 <= j < i ==> mem2[dst][j] == s.mem[dst][j]
    requires forall t :: 0 <= t < |s.used| && s.used[t] && t != dst && mem2[t] != s.mem[t] ==> s0.rc[t] > 0
    requires |q| < level && q != [] && q[0] < i
    ensures TableAt(mem2, dst, level, q) == TableAt(s.mem, dst, level, q)
    ensures var t := TableAt(s.mem, dst, level, q); t.Some? ==> TableOf(mem2, t.value) == TableOf(s.mem, t.value)
    decreases |q|
  {
    hide CloneInv, CloneReady, TableAt;
    CloneBounds(s0, s, src, dst, level, i, hi);
    var r, j := q[..|q| - 1], q[|q| - 1];
    assert q == r + [j];
    if r == [] {
      TopTable(s.mem, dst, level);
      TopTable(mem2, dst, level);
    } else {
      CopyTable(s0, s, mem2, src, dst, level, i, hi, r);
    }
    if TableAt(s.mem, dst, level, r).Some? {
      TableAtAppend(s.mem, dst, level, r, j);
      TableAtAppend(mem2, dst, level, r, j);
    } else {
      NoTable(s.mem, dst, level, r, q);
      NoTable(mem2, dst, level, r, q);
    }
    if TableAt(s.mem, dst, level, q).Some? {
      CopyFresh(s0, s, src, dst, level, i, hi, q);
    }
  }

  lemma TopTable(mem: Memory, f: nat, level: nat)
    ensures TableAt(mem, f, level, []) == Some(f)
  {
  }

  lemma CopyFresh(s0: State, s: State, src: nat, dst: nat, level: nat, i: nat, hi: nat, q: seq<Index>)
    requires CloneReady(s0, src, dst, level, hi) && i <= hi && CloneInv(s0, s, src, dst, level, i, hi)
    requires q != [] && q[0] < i && TableAt(s.mem, dst, level, q).Some?
    ensures var t := TableAt(s.mem, dst, level, q).value;
            0 < t < |s.used| == |s0.rc| && s.used[t] && s0.rc[t] == 0 && t != dst
  {
    hide Copied, Aside, Held, SourceTop, RefsUpTo, Sound, TableAt;
    SoundTable(s.mem, Fresh(s0.rc, s.rc), dst, level, i, q);
    NotTop(s0, s, src, dst, level, i, hi, q);
  }

  lemma NotTop(s0: State, s: State, src: nat, dst: nat, level: nat, i: nat, hi: nat, q: seq<Index>)
    requires CloneReady(s0, src, dst, level, hi) && i <= hi && CloneInv(s0, s, src, dst, level, i, hi)
    requires q != [] && q[0] < i && TableAt(s.mem, dst, level, q).Some?
    ensures TableAt(s.mem, dst, level, q) != Some(dst)
  {
    hide Copied, Aside, Held, SourceTop, Sound;
    PathRefs(s.mem, dst, level, i, q);
    RefsMonotone(s0.mem, src, level, i, hi, dst);
  }

  lemma CopyLink(s0: State, s: State, mem2: Memory, src: nat, dst: nat, level: nat, i: nat, hi: nat, v: seq<Index>)
    requires CloneReady(s0, src, dst, level, hi) && i <= hi && CloneInv(s0, s, src, dst, level, i, hi)
    requires |mem2| == |s.mem| && forall j :: 0 <= j < i ==> mem2[dst][j] == s.mem[dst][j]
    requires forall t :: 0 <= t < |s.used| && s.used[t] && t != dst && mem2[t] != s.mem[t] ==> s0.rc[t] > 0
    requires 0 < |v| < level && v[0] < i
    ensures Link(mem2, dst, level, v) == Link(s.mem, dst, level, v)
  {
    hide Copied, Aside, Held, SourceTop, RefsUpTo, Sound;
    var r, j := v[..|v| - 1], v[|v| - 1];
    assert v == r + [j];
    if r != [] {
      CopyTable(s0, s, mem2, src, dst, level, i, hi, r);
    }
    LinkAppend(s.mem, dst, level, r, j);
    LinkAppend(mem2, dst, level, r, j);
  }

  lemma ShadowsFailed(s0: State, s: State, nf: nat, mem2: Memory, src: nat, dst: nat, level: nat, i: nat, hi: nat)
    requires CloneReady(s0, src, dst, level, hi) && i < hi && level > 1
    requires CloneInv(s0, s, src, dst, level, i, hi) && Shadows(s0, s.mem, src, dst, level, i, hi)
    requires Branches(s.mem[src][i], level) && 0 < nf < |s.rc| && !s.used[nf] && |mem2| == |s.mem|
    requires mem2[dst] == s.mem[dst]
    requires Shadows(s.Take(nf, EmptyTable()), mem2, s.mem[src][i].frame, nf, level - 1, 0, ENTRIES)
    ensures Shadows(s0, mem2, src, dst, level, i, hi)
  {
    hide CloneInv, CloneReady, Layered, LeavesOnly;
    CloneBounds(s0, s, src, dst, level, i, hi);
    if Layered(s0.mem, src, level, hi) {
      LayeredBefore(s0, s, nf, src, dst, level, i, hi);
      LeavesStep(s0, s, nf, mem2, src, dst, level, i, hi);
      forall v: seq<Index> | 0 < |v| < level && v[0] < i
        ensures Plain(Link(mem2, dst, level, v)) == Plain(Link(s0.mem, src, level, v))
      {
        CopyLink(s0, s, mem2, src, dst, level, i, hi, v);
      }
    }
  }

  /** The new entry has the flags of the entry it was copied from, so the links below and above it agree. */
  lemma ShadowsNode(s0: State, s: State, s1: State, s2: State, mem': Memory, d: Pte, src: nat, dst: nat, level: nat,
                    i: nat, hi: nat)
    requires NodeCopied(s0, s, s1, s2, mem', d, src, dst, level, i, hi)
    requires Shadows(s0, s.mem, src, dst, level, i, hi) && Plain(Some(d.flags)) == Plain(Some(s.mem[src][i].flags))
    requires Shadows(s1, s2.mem, s.mem[src][i].frame, d.frame, level - 1, ENTRIES, ENTRIES)
    ensures Shadows(s0, mem', src, dst, level, i + 1, hi)
  {
    hide CloneInv, CloneReady, Layered, LeavesOnly, Link, UppersSame;
    CloneBounds(s0, s, src, dst, level, i, hi);
    CloneBounds(s1, s2, s.mem[src][i].frame, d.frame, level - 1, ENTRIES, ENTRIES);
    if Layered(s0.mem, src, level, hi) {
      LayeredBefore(s0, s, d.frame, src, dst, level, i, hi);
      LeavesStep(s0, s, d.frame, s2.mem, src, dst, level, i, hi);
      NodeLeaves(s0, s2.mem, src, dst, level, hi, mem'[dst]);
      forall v: seq<Index> | 0 < |v| < level && v[0] < i + 1
        ensures Plain(Link(mem', dst, level, v)) == Plain(Link(s0.mem, src, level, v))
      {
        if v[0] < i {
          NodeOldLink(s0, s, s1, s2, mem', d, src, dst, level, i, hi, v);
        } else {
          NodeNewLink(s0, s, s1, s2, mem', d, src, dst, level, i, hi, v);
        }
      }
    }
  }

  lemma NodeLeaves(s0: State, mem: Memory, src: nat, dst: nat, level: nat, hi: nat, t: Table)
    requires LeavesOnly(s0, mem, src, dst, level, hi) && dst < |mem|
    ensures LeavesOnly(s0, mem[dst := t], src, dst, level, hi)
  {
  }

  lemma NodeOldLink(s0: State, s: State, s1: State, s2: State, mem': Memory, d: Pte, src: nat, dst: nat, level: nat,
                    i: nat, hi: nat, v: seq<Index>)
    requires NodeCopied(s0, s, s1, s2, mem', d, src, dst, level, i, hi)
    requires forall t :: 0 <= t < |s.used| && s.used[t] && s2.mem[t] != s.mem[t] ==> s0.rc[t] > 0
    requires 0 < |v| < level && v[0] < i
    ensures Link(mem', dst, level, v) == Link(s.mem, dst, level, v)
  {
    hide CloneReady, Copied, Sound, Held, Aside, RefsUpTo;
    CloneBounds(s0, s, src, dst, level, i, hi);
    NodeAside(s0, s, s1, s2, mem', d, src, dst, level, i, hi);
    CopyLink(s0, s, mem', src, dst, level, i, hi, v);
  }

  lemma NodeNewLink(s0: State, s: State, s1: State, s2: State, mem': Memory, d: Pte, src: nat, dst: nat, level: nat,
                    i: nat, hi: nat, v: seq<Index>)
    requires NodeCopied(s0, s, s1, s2, mem', d, src, dst, level, i, hi)
    requires Plain(Some(d.flags)) == Plain(Some(s.mem[src][i].flags)) && s.mem[src] == s0.mem[src]
    requires UppersSame(s0.mem, s1.mem, src, level, hi)
    requires Mirrors(s1.mem, s2.mem, s.mem[src][i].frame, d.frame, level - 1, ENTRIES)
    requires 0 < |v| < level && v[0] == i
    ensures Plain(Link(mem', dst, level, v)) == Plain(Link(s0.mem, src, level, v))
  {
    hide CloneInv, CloneReady, UppersSame, RefsUpTo, TableAt, Link;
    CloneBounds(s0, s, src, dst, level, i, hi);
    var c := s.mem[src][i].frame;
    CloneBounds(s1, s2, c, d.frame, level - 1, ENTRIES, ENTRIES);
    SourceUsed(s0, s, src, dst, level, i, hi);
    UppersLink(s0.mem, s1.mem, src, level, hi, v);
    LinkStep(s1.mem, src, level, v);
    LinkStep(mem', dst, level, v);
    if |v| > 1 {
      NodeAside(s0, s, s1, s2, mem', d, src, dst, level, i, hi);
      LinkOff(s2.mem, d.frame, level - 1, dst, mem'[dst], v[1..]);
    }
  }

  lemma SourceUsed(s0: State, s: State, src: nat, dst: nat, level: nat, i: nat, hi: nat)
    requires CloneReady(s0, src, dst, level, hi) && CloneInv(s0, s, src, dst, level, i, hi)
    ensures src < |s.used| && s.used[src]
  {
  }

  lemma LinkStep(mem: Memory, f: nat, level: nat, v: seq<Index>)
    requires v != [] && Branches(TableOf(mem, f)[v[0]], level)
    ensures var e := TableOf(mem, f)[v[0]];
            Link(mem, f, level, v) == if |v| == 1 then Some(e.flags) else Link(mem, e.frame, level - 1, v[1..])
  {
  }

  /** Links that do not lead through table dst do not change with it. */
  lemma {:induction false} LinkOff(mem: Memory, f: nat, level: nat, dst: nat, t: Table, v: seq<Index>)
    requires dst < |mem| && f != dst && v != [] && RefsUpTo(mem, f, level, ENTRIES, dst) == 0
    ensures Link(mem[dst := t], f, level, v) == Link(mem, f, level, v)
    decreases |v|
  {
    var e := TableOf(mem, f)[v[0]];
    RefsOfEntry(mem, f, level, v[0], ENTRIES, dst);
    if Branches(e, level) && |v| > 1 {
      LinkOff(mem, e.frame, level - 1, dst, t, v[1..]);
    }
  }

  lemma ShadowsFewer(s0: State, mem: Memory, src: nat, dst: nat, level: nat, i: nat, hi: nat)
    requires Shadows(s0, mem, src, dst, level, i, hi)
    ensures Shadows(s0, mem, src, dst, level, 0, hi)
  {
    hide Link, LeavesOnly, Layered;
  }

  lemma ShadowsDropped(s0: State, mem: Memory, src: nat, root: nat, i: nat)
    requires Shadows(s0, mem, src, root, 4, i, USER_ENTRIES) && root < |s0.used| && !s0.used[root]
    ensures Shadows(s0, mem, src, |s0.mem|, 4, 0, USER_ENTRIES)
  {
    hide Link, Layered, LeafTable;
  }

  lemma UppersBack(mem: Memory, mem': Memory, f: nat, level: nat, n: nat)
    requires UppersSame(mem, mem', f, level, n)
    ensures UppersSame(mem', mem, f, level, n)
  {
    forall q: seq<Index> | |q| + 1 < level && Below(q, n) && TableAt(mem', f, level, q).Some?
      ensures TableOf(mem, TableAt(mem', f, level, q).value) == TableOf(mem', TableAt(mem', f, level, q).value)
    {
      UppersTable(mem, mem', f, level, n, q);
    }
  }

  /** The same with the table that is copied into not yet taken. */
  lemma ShadowsBefore(s0: State, s1: State, mem: Memory, src: nat, root: nat, level: nat, i: nat, hi: nat, dst: nat)
    requires CloneReady(s1, src, root, level, hi) && Shadows(s1, mem, src, root, level, i, hi) && i <= hi
    requires |s0.used| == |s0.mem| == |s1.mem| == |s1.used| && root < |s0.used| && !s0.used[root]
    requires s1.used == s0.used[root := true] && s1.mem == s0.mem[root := s1.mem[root]] && (dst == root || i == 0)
    ensures Shadows(s0, mem, src, dst, level, i, hi)
  {
    hide CloneReady, TableAt, Link, Layered, UppersSame;
    if Layered(s0.mem, src, level, hi) {
      BeforeUppers(s0, s1, src, root, level, hi);
      UppersBack(s1.mem, s0.mem, src, level, hi);
      LayeredSame(s0.mem, s1.mem, src, level, hi);
      forall t | 0 <= t < |s0.used| && s0.used[t] && t != dst && mem[t] != s0.mem[t]
        ensures LeafTable(s0.mem, src, level, hi, t)
      {
        assert s1.used[t] && s1.mem[t] == s0.mem[t];
        var q: seq<Index> :| |q| + 1 == level && Below(q, hi) && TableAt(s1.mem, src, level, q) == Some(t);
        UppersTable(s1.mem, s0.mem, src, level, hi, q);
      }
      forall v: seq<Index> | 0 < |v| < level && v[0] < i
        ensures Plain(Link(mem, dst, level, v)) == Plain(Link(s0.mem, src, level, v))
      {
        UppersLink(s1.mem, s0.mem, src, level, hi, v);
      }
    }
  }

  lemma BeforeUppers(s0: State, s1: State, src: nat, root: nat, level: nat, hi: nat)
    requires CloneReady(s1, src, root, level, hi)
    requires |s0.mem| == |s1.mem| && root < |s0.mem| && s1.mem == s0.mem[root := s1.mem[root]]
    ensures UppersSame(s1.mem, s0.mem, src, level, hi)
  {
    hide CloneReady, TableAt;
    forall q: seq<Index> | |q| + 1 < level && Below(q, hi) && TableAt(s1.mem, src, level, q).Some?
      ensures TableOf(s0.mem, TableAt(s1.mem, src, level, q).value) ==
              TableOf(s1.mem, TableAt(s1.mem, src, level, q).value)
    {
      SourceTable(s1, src, root, level, hi, q);
    }
  }

  // ---------- Mapping ----------

  predicate SameRights(g: Flags, f: Flags) {
    g.user == f.user && g.writable == f.writable && g.nx == f.nx
  }

  /** A new link at v allows what the huge page there allowed; where nothing was mapped it allows writing and
      execution, and user mode if asked to. */
  ghost predicate NewLink(mem: Memory, root: nat, v: seq<Index>, g: Flags, user: bool) {
    && (forall p: Path :: |p| == 4 && v <= p && Walk(mem, root, p).Some? ==>
          SameRights(g, Walk(mem, root, p).value.flags))
    && ((forall p: Path :: |p| == 4 && v <= p ==> Walk(mem, root, p) == None) ==>
          g.writable && g.user == user && !g.nx)
  }

  /** The links there were are kept. */
  ghost predicate Linked(mem: Memory, mem': Memory, root: nat, hi: nat, user: bool) {
    forall v: seq<Index> :: Inner(v, hi) && v != [] ==>
      if Link(mem, root, 4, v).Some? then Link(mem', root, 4, v) == Link(mem, root, 4, v)
      else Link(mem', root, 4, v).Some? ==> NewLink(mem, root, v, Link(mem', root, 4, v).value, user)
  }

  /** `user` only matters if tables may be added. */
  ghost predicate Passable(mem: Memory, mem': Memory, root: nat, hi: nat, user: bool, alloc: bool) {
    forall u: bool :: (u == user || !alloc) ==> Linked(mem, mem', root, hi, u)
  }

  lemma PassableSame(mem: Memory, root: nat, hi: nat, user: bool, alloc: bool)
    ensures Passable(mem, mem, root, hi, user, alloc)
  {
  }

  lemma LinkedTrans(a: Memory, b: Memory, c: Memory, root: nat, hi: nat, user: bool)
    requires Linked(a, b, root, hi, user) && Linked(b, c, root, hi, user) && SameSeen(a, b, root, hi)
    ensures Linked(a, c, root, hi, user)
  {
    hide Link, Walk;
    forall v: seq<Index> | Inner(v, hi) && v != [] && Link(a, root, 4, v).None? && Link(b, root, 4, v).None? &&
        Link(c, root, 4, v).Some?
      ensures NewLink(a, root, v, Link(c, root, 4, v).value, user)
    {
      NewLinkSeen(a, b, root, hi, v, Link(c, root, 4, v).value, user);
    }
  }

  lemma NewLinkSeen(a: Memory, b: Memory, root: nat, hi: nat, v: seq<Index>, g: Flags, user: bool)
    requires SameSeen(a, b, root, hi) && Inner(v, hi) && v != [] && NewLink(b, root, v, g, user)
    ensures NewLink(a, root, v, g, user)
  {
    hide Walk;
    forall p: Path | |p| == 4 && v <= p
      ensures Seen(Walk(b, root, p)) == Seen(Walk(a, root, p))
    {
      assert p[0] == v[0];
    }
  }

  lemma PassableTrans(a: Memory, b: Memory, c: Memory, root: nat, hi: nat, user: bool, alloc: bool)
    requires Passable(a, b, root, hi, user, alloc) && Passable(b, c, root, hi, user, alloc) && SameSeen(a, b, root, hi)
    ensures Passable(a, c, root, hi, user, alloc)
  {
    hide Linked, SameSeen;
    forall u: bool | u == user || !alloc
      ensures Linked(a, c, root, hi, u)
    {
      LinkedTrans(a, b, c, root, hi, u);
    }
  }

  lemma WalkedPassable(s0: State, s1: State, s2: State, root: nat, hi: nat, user: bool, alloc: bool)
    requires Walked(s0, s1, root, hi) && Passable(s0.mem, s1.mem, root, hi, user, alloc)
    requires Passable(s1.mem, s2.mem, root, hi, user, alloc)
    ensures Passable(s0.mem, s2.mem, root, hi, user, alloc)
  {
    hide Passable, SameSeen, TreeOk, OnlyTree, OnlyFree, UpperKept, Owned, Balanced, SameWalks;
    PassableTrans(s0.mem, s1.mem, s2.mem, root, hi, user, alloc);
  }

  /** Hooking in a table adds one link. */
  lemma GraftLinks(s: State, mem': Memory, root: nat, hi: nat, q: seq<Index>, i: Index, nf: nat, v: seq<Index>)
    requires Grafted(s, mem', root, hi, q, i, nf) && Inner(v, hi) && v != []
    ensures Link(mem', root, 4, v) ==
            if v == q + [i] then Some(mem'[TableAt(s.mem, root, 4, q).value][i].flags) else Link(s.mem, root, 4, v)
    ensures Link(s.mem, root, 4, q + [i]) == None
  {
    hide WalkEntry, Link, TableAt, TreeOk;
    var r, j := v[..|v| - 1], v[|v| - 1];
    assert v == r + [j];
    assert q != [] ==> (q + [i])[0] == q[0];
    LinkAppend(s.mem, root, 4, r, j);
    LinkAppend(mem', root, 4, r, j);
    LinkAppend(s.mem, root, 4, q, i);
    GraftTables(s, mem', root, hi, q, i, nf, r);
    TreeReplaced(s, mem', root, hi, q, i);
    if r == q + [i] {
      assert !Branches(mem'[nf][j], 3 - |q|);
      TableAtAppend(s.mem, root, 4, q, i);
    } else if TableAt(s.mem, root, 4, r).Some? && r != q {
      assert TableOf(mem', TableAt(s.mem, root, 4, r).value) == TableOf(s.mem, TableAt(s.mem, root, 4, r).value);
    }
  }

  lemma LinkedGraft(s: State, mem': Memory, root: nat, hi: nat, q: seq<Index>, i: Index, nf: nat, user: bool)
    requires Grafted(s, mem', root, hi, q, i, nf)
    requires var t := TableAt(s.mem, root, 4, q).value;
             var e, g := s.mem[t][i], mem'[t][i].flags;
             if e.Present() then SameRights(g, e.flags) else g.writable && g.user == user && !g.nx
    ensures Linked(s.mem, mem', root, hi, user)
  {
    hide WalkEntry, Walk, Link, TableAt, NewLink, Grafted;
    forall v: seq<Index> | Inner(v, hi) && v != []
      ensures if Link(s.mem, root, 4, v).Some? then Link(mem', root, 4, v) == Link(s.mem, root, 4, v)
              else Link(mem', root, 4, v).Some? ==> NewLink(s.mem, root, v, Link(mem', root, 4, v).value, user)
    {
      GraftLinks(s, mem', root, hi, q, i, nf, v);
      if v == q + [i] {
        GraftNew(s, mem', root, hi, q, i, nf, user);
      }
    }
  }

  lemma GraftNew(s: State, mem': Memory, root: nat, hi: nat, q: seq<Index>, i: Index, nf: nat, user: bool)
    requires Grafted(s, mem', root, hi, q, i, nf)
    requires var t := TableAt(s.mem, root, 4, q).value;
             var e, g := s.mem[t][i], mem'[t][i].flags;
             if e.Present() then SameRights(g, e.flags) else g.writable && g.user == user && !g.nx
    ensures NewLink(s.mem, root, q + [i], mem'[TableAt(s.mem, root, 4, q).value][i].flags, user)
  {
    hide WalkEntry, Walk, TableAt, TreeOk, Grafted;
    GraftSite(s, mem', root, hi, q, i, nf);
    var t := TableAt(s.mem, root, 4, q).value;
    var e, g := s.mem[t][i], mem'[t][i].flags;
    forall p: Path | |p| == 4 && q + [i] <= p
      ensures Walk(s.mem, root, p).Some? <==> e.Present()
      ensures e.Present() ==> SameRights(e.flags, Walk(s.mem, root, p).value.flags)
    {
      GraftPage(s, mem', root, hi, q, i, nf, p);
    }
    if e.Present() {
      var p := SomePath(q + [i]);
    }
  }

  lemma GraftSite(s: State, mem': Memory, root: nat, hi: nat, q: seq<Index>, i: Index, nf: nat)
    requires Grafted(s, mem', root, hi, q, i, nf)
    ensures |q| < 4 && TableAt(s.mem, root, 4, q).Some? && TableAt(s.mem, root, 4, q).value < |s.mem| == |mem'|
  {
    hide TableAt;
  }

  /** The pages behind the entry that is replaced. */
  lemma GraftPage(s: State, mem': Memory, root: nat, hi: nat, q: seq<Index>, i: Index, nf: nat, p: Path)
    requires Grafted(s, mem', root, hi, q, i, nf) && |p| == 4 && q + [i] <= p
    ensures |q| < 4 && TableAt(s.mem, root, 4, q).Some? && TableAt(s.mem, root, 4, q).value < |s.mem|
    ensures var e := s.mem[TableAt(s.mem, root, 4, q).value][i];
            && (Walk(s.mem, root, p).Some? <==> e.Present())
            && (e.Present() ==> SameRights(e.flags, Walk(s.mem, root, p).value.flags))
  {
    hide WalkEntry, Walk, TableAt, TreeOk;
    var e := s.mem[TableAt(s.mem, root, 4, q).value][i];
    assert q != [] ==> (q + [i])[0] == q[0];
    assert q == [] ==> (q + [i])[0] == i;
    TreeReplaced(s, mem', root, hi, q, i);
    assert [] + p == p;
    TopTable(s.mem, root, 4);
    WalkOn(s.mem, mem', root, hi, q, i, root, [], p);
    EntryFlags(s.mem, e, p[|q|..]);
  }

  /** An entry that does not branch gives its flags to the pages behind it. */
  lemma EntryFlags(mem: Memory, e: Pte, r: Path)
    requires !Branches(e, |r|)
    ensures WalkEntry(mem, e, r).Some? <==> e.Present()
    ensures e.Present() ==> WalkEntry(mem, e, r).value.flags == e.flags.(huge := false)
  {
  }

  lemma SomePath(v: seq<Index>) returns (p: Path)
    requires 0 < |v| <= 4
    ensures |p| == 4 && v <= p
  {
    p := v + seq(4 - |v|, _ => 0);
  }

  /** Free frames are no part of the links. */
  lemma LinkFree(s: State, mem1: Memory, root: nat, hi: nat, v: seq<Index>)
    requires TreeOk(s, root, hi) && Inner(v, hi) && v != []
    requires |mem1| == |s.mem| && forall g :: 0 <= g < |mem1| && s.used[g] ==> mem1[g] == s.mem[g]
    ensures Link(mem1, root, 4, v) == Link(s.mem, root, 4, v)
  {
    hide Link, TableAt;
    var r, j := v[..|v| - 1], v[|v| - 1];
    assert v == r + [j] && [] + r == r;
    TopTable(s.mem, root, 4);
    TableAtFree(s, mem1, root, hi, [], r, root);
    LinkAppend(s.mem, root, 4, r, j);
    LinkAppend(mem1, root, 4, r, j);
  }

  lemma PassableFree(s: State, mem1: Memory, root: nat, hi: nat, user: bool, alloc: bool)
    requires TreeOk(s, root, hi)
    requires |mem1| == |s.mem| && forall g :: 0 <= g < |mem1| && s.used[g] ==> mem1[g] == s.mem[g]
    ensures Passable(s.mem, mem1, root, hi, user, alloc)
  {
    hide Link, TreeOk, NewLink;
    forall v: seq<Index> | Inner(v, hi) && v != []
      ensures Link(mem1, root, 4, v) == Link(s.mem, root, 4, v)
    {
      LinkFree(s, mem1, root, hi, v);
    }
  }

  /** Writing a page changes no link. */
  lemma LinkedLeaf(s: State, mem': Memory, root: nat, hi: nat, p: Path, e: Pte, user: bool, alloc: bool)
    requires TreeOk(s, root, hi) && |p| == 4 && p[0] < hi && TableAt(s.mem, root, 4, p[..3]).Some?
    requires var t := TableAt(s.mem, root, 4, p[..3]).value; t < |s.mem| && mem' == s.mem[t := s.mem[t][p[3] := e]]
    ensures Passable(s.mem, mem', root, hi, user, alloc)
  {
    hide Link, TreeOk, NewLink, TableAt;
    forall v: seq<Index> | Inner(v, hi) && v != []
      ensures Link(mem', root, 4, v) == Link(s.mem, root, 4, v)
    {
      LeafLink(s, mem', root, hi, p, e, v);
    }
  }

  lemma LeafLink(s: State, mem': Memory, root: nat, hi: nat, p: Path, e: Pte, v: seq<Index>)
    requires TreeOk(s, root, hi) && |p| == 4 && p[0] < hi && TableAt(s.mem, root, 4, p[..3]).Some?
    requires var t := TableAt(s.mem, root, 4, p[..3]).value; t < |s.mem| && mem' == s.mem[t := s.mem[t][p[3] := e]]
    requires Inner(v, hi) && v != []
    ensures Link(mem', root, 4, v) == Link(s.mem, root, 4, v)
  {
    hide Link, TableAt;
    var r, j := v[..|v| - 1], v[|v| - 1];
    var q, i := p[..3], p[3];
    assert v == r + [j] && [] + r == r;
    TopTable(s.mem, root, 4);
    TreeReplaced(s, mem', root, hi, q, i);
    TableAtOff(s.mem, mem', root, hi, q, i, root, [], r);
    LinkAppend(s.mem, root, 4, r, j);
    LinkAppend(mem', root, 4, r, j);
    if TableAt(s.mem, root, 4, r).Some? {
      assert TableAt(s.mem, root, 4, r) != TableAt(s.mem, root, 4, q);
    }
  }

  lemma PassableSplit(s0: State, s: State, root: nat, hi: nat, q: seq<Index>, i: Index, nf: nat, user: bool,
                      alloc: bool)
    requires Splits(s0, s, root, hi, q, i, nf)
    ensures Passable(s0.mem, s.mem, root, hi, user, alloc)
  {
    hide Grafted, Linked, TableAt, TreeOk;
    SplitGrafts(s0, s, root, hi, q, i, nf);
    LinkedGraft(s0, s.mem, root, hi, q, i, nf, true);
    LinkedGraft(s0, s.mem, root, hi, q, i, nf, false);
  }

  lemma PassableAttach(s0: State, s: State, root: nat, hi: nat, q: seq<Index>, i: Index, nf: nat, user: bool)
    requires Attaches(s0, s, root, hi, q, i, nf, user)
    ensures Passable(s0.mem, s.mem, root, hi, user, true)
  {
    hide Grafted, Linked, TableAt, TreeOk;
    AttachGrafts(s0, s, root, hi, q, i, nf, user);
    LinkedGraft(s0, s.mem, root, hi, q, i, nf, user);
  }

  /** Walking to a page and then writing it. */
  lemma LeafPassable(s0: State, s: State, mem': Memory, root: nat, hi: nat, p: Path, e: Pte, user: bool, alloc: bool)
    requires Walked(s0, s, root, hi) && Passable(s0.mem, s.mem, root, hi, user, alloc)
    requires |p| == 4 && p[0] < hi && TableAt(s.mem, root, 4, p[..3]).Some?
    requires var t := TableAt(s.mem, root, 4, p[..3]).value; t < |s.mem| && mem' == s.mem[t := s.mem[t][p[3] := e]]
    ensures Passable(s0.mem, mem', root, hi, user, alloc)
  {
    hide Passable, TreeOk, SameSeen, OnlyTree, OnlyFree, UpperKept, Owned, Balanced, SameWalks, TableAt;
    LinkedLeaf(s, mem', root, hi, p, e, user, alloc);
    PassableTrans(s0.mem, s.mem, mem', root, hi, user, alloc);
  }

  // ---------- What pages may be used for ----------

  predicate Grants(g: Flags) {
    g.user && g.writable && !g.nx
  }

  /** The tables of the user half forbid nothing: what a page may be used for is up to the page. */
  ghost predicate Open(mem: Memory, root: nat) {
    forall v: seq<Index> :: Inner(v, USER_ENTRIES) && v != [] && Link(mem, root, 4, v).Some? ==>
      Grants(Link(mem, root, 4, v).value)
  }

  lemma OpenAccess(mem: Memory, root: nat, p: Path)
    requires Open(mem, root) && |p| == 4 && p[0] < USER_ENTRIES
    ensures Access(mem, root, p) == Walk(mem, root, p)
  {
    hide Link, Access, Walk;
    AccessLinks(mem, root, p);
    assert Inner(p[..1], USER_ENTRIES) && Inner(p[..2], USER_ENTRIES) && Inner(p[..3], USER_ENTRIES);
  }

  /** Every link on the way to page p meets the condition. */
  ghost predicate AllLinks(mem: Memory, root: nat, p: Path, ok: Flags -> bool)
    requires |p| == 4
  {
    forall k :: 1 <= k <= 3 && Link(mem, root, 4, p[..k]).Some? ==> ok(Link(mem, root, 4, p[..k]).value)
  }

  /** User code may reach, write or execute a page if and only if the page and all tables on the way allow it. */
  lemma AccessExact(mem: Memory, root: nat, p: Path)
    requires |p| == 4
    ensures var r, w := Access(mem, root, p), Walk(mem, root, p);
            && r.Some? == w.Some?
            && (r.Some? ==>
                  && (r.value.flags.user <==> w.value.flags.user && AllLinks(mem, root, p, (g: Flags) => g.user))
                  && (r.value.flags.writable <==>
                        w.value.flags.writable && AllLinks(mem, root, p, (g: Flags) => g.writable))
                  && (!r.value.flags.nx <==> !w.value.flags.nx && AllLinks(mem, root, p, (g: Flags) => !g.nx)))
  {
    hide Link, Access, Walk;
    AccessLinks(mem, root, p);
  }

  /** Tables can only take rights away. */
  lemma AccessNarrows(mem: Memory, root: nat, p: Path)
    requires |p| == 4
    ensures var r, w := Access(mem, root, p), Walk(mem, root, p);
            && r.Some? == w.Some?
            && (r.Some? ==> r.value.frame == w.value.frame && r.value.flags.shared == w.value.flags.shared)
            && (r.Some? && r.value.flags.writable ==> w.value.flags.writable)
            && (r.Some? && r.value.flags.user ==> w.value.flags.user)
            && (r.Some? && !r.value.flags.nx ==> !w.value.flags.nx)
  {
    hide Link, Access, Walk;
    AccessLinks(mem, root, p);
  }

  /** Steps of a walk do not change what a page may be used for. */
  lemma LinkedAccess(mem: Memory, mem': Memory, root: nat, hi: nat, user: bool, p: Path)
    requires Linked(mem, mem', root, hi, user) && |p| == 4 && p[0] < hi
    requires Seen(Walk(mem', root, p)) == Seen(Walk(mem, root, p))
    ensures Seen(Access(mem', root, p)) == Seen(Access(mem, root, p))
  {
    hide Link, Access, Walk;
    AccessLinks(mem, root, p);
    AccessLinks(mem', root, p);
    LinkOnPath(mem, mem', root, hi, user, p, 1);
    LinkOnPath(mem, mem', root, hi, user, p, 2);
    LinkOnPath(mem, mem', root, hi, user, p, 3);
  }

  lemma LinkOnPath(mem: Memory, mem': Memory, root: nat, hi: nat, user: bool, p: Path, k: nat)
    requires Linked(mem, mem', root, hi, user) && |p| == 4 && p[0] < hi && 1 <= k <= 3
    ensures var l, l' := Link(mem, root, 4, p[..k]), Link(mem', root, 4, p[..k]);
            || l' == l
            || (l == None && l'.Some? &&
                (Walk(mem, root, p).Some? ==> SameRights(l'.value, Walk(mem, root, p).value.flags)))
  {
    hide Link, Walk;
    assert Inner(p[..k], hi) && p[..k] <= p;
  }

  /** In an owned user half there is nothing below a link that is not there. */
  lemma NoLinkNoPage(s: State, root: nat, v: seq<Index>, p: Path)
    requires Owned(s, root) && Inner(v, USER_ENTRIES) && v != [] && Link(s.mem, root, 4, v) == None
    requires |p| == 4 && v <= p
    ensures Walk(s.mem, root, p) == None
  {
    hide RefsUpTo, SpaceRefs, TableAt, Link;
    FirstMissing(s.mem, Singles(s.rc), root, 4, USER_ENTRIES, v, p);
  }

  lemma {:induction false} FirstMissing(mem: Memory, tables: set<nat>, f: nat, level: nat, n: nat, v: seq<Index>,
                                        p: Path)
    requires n <= ENTRIES && Sound(mem, tables, f, level, n) && 0 < |v| < level == |p| && v <= p && v[0] < n
    requires Link(mem, f, level, v) == None
    ensures Walk(mem, f, p) == None
    decreases level
  {
    var e := TableOf(mem, f)[v[0]];
    assert EntrySound(mem, tables, e, level);
    if e.Present() {
      FirstMissing(mem, tables, e.frame, level - 1, ENTRIES, v[1..], p[1..]);
    }
  }

  lemma OpenLinked(s: State, mem': Memory, root: nat)
    requires Owned(s, root) && Open(s.mem, root) && Linked(s.mem, mem', root, USER_ENTRIES, true)
    ensures Open(mem', root)
  {
    hide Link, Owned, Walk;
    forall v: seq<Index> | Inner(v, USER_ENTRIES) && v != [] && Link(mem', root, 4, v).Some?
      ensures Grants(Link(mem', root, 4, v).value)
    {
      if Link(s.mem, root, 4, v).None? {
        forall p: Path | |p| == 4 && v <= p
          ensures Walk(s.mem, root, p) == None
        {
          NoLinkNoPage(s, root, v, p);
        }
      }
    }
  }

  lemma OwnedLayered(s: State, root: nat)
    requires Owned(s, root)
    ensures Layered(s.mem, root, 4, USER_ENTRIES)
  {
    hide Owned, TableAt;
    OwnedTree(s, root);
    forall q: seq<Index>, u: seq<Index> | |q| + 1 < 4 && |u| + 1 == 4 && Below(q, USER_ENTRIES) &&
        Below(u, USER_ENTRIES) && TableAt(s.mem, root, 4, q).Some?
      ensures TableAt(s.mem, root, 4, q) != TableAt(s.mem, root, 4, u)
    {
      assert Inner(q, USER_ENTRIES) && Inner(u, USER_ENTRIES) && q != u;
    }
  }

  /** A copy leaves the links of its owned source alone, whether or not it succeeds. */
  lemma OwnedUppers(s0: State, mem: Memory, src: nat, dst: nat, i: nat)
    requires Owned(s0, src) && Shadows(s0, mem, src, dst, 4, i, USER_ENTRIES)
    requires dst < |s0.used| ==> !s0.used[dst]
    ensures UppersSame(s0.mem, mem, src, 4, USER_ENTRIES)
  {
    hide Owned, TableAt, Mirrors;
    OwnedLayered(s0, src);
    OwnedTree(s0, src);
    forall q: seq<Index> | |q| + 1 < 4 && Below(q, USER_ENTRIES) && TableAt(s0.mem, src, 4, q).Some?
      ensures TableOf(mem, TableAt(s0.mem, src, 4, q).value) == TableOf(s0.mem, TableAt(s0.mem, src, 4, q).value)
    {
      assert Inner(q, USER_ENTRIES);
    }
  }

  lemma OpenSource(s0: State, mem: Memory, src: nat, dst: nat, i: nat)
    requires Owned(s0, src) && Open(s0.mem, src) && Shadows(s0, mem, src, dst, 4, i, USER_ENTRIES)
    requires dst < |s0.used| ==> !s0.used[dst]
    ensures Open(mem, src)
  {
    hide Owned, Link, Shadows, UppersSame;
    OwnedUppers(s0, mem, src, dst, i);
    forall v: seq<Index> | Inner(v, USER_ENTRIES) && v != [] && Link(mem, src, 4, v).Some?
      ensures Grants(Link(mem, src, 4, v).value)
    {
      UppersLink(s0.mem, mem, src, 4, USER_ENTRIES, v);
    }
  }

  lemma OpenCopy(s0: State, mem: Memory, src: nat, root: nat)
    requires Owned(s0, src) && Open(s0.mem, src) && Shadows(s0, mem, src, root, 4, USER_ENTRIES, USER_ENTRIES)
    ensures Open(mem, root)
  {
    hide Owned, Link, Layered, LeavesOnly;
    OwnedLayered(s0, src);
    forall v: seq<Index> | Inner(v, USER_ENTRIES) && v != [] && Link(mem, root, 4, v).Some?
      ensures Grants(Link(mem, root, 4, v).value)
    {
      assert Plain(Link(mem, root, 4, v)) == Plain(Link(s0.mem, src, 4, v));
    }
  }

  /** A copy may be used as its source, but for writing pages that are not shared. */
  lemma CopyAccess(s0: State, mem: Memory, src: nat, root: nat, p: Path)
    requires Shadows(s0, mem, src, root, 4, USER_ENTRIES, USER_ENTRIES) && Layered(s0.mem, src, 4, USER_ENTRIES)
    requires Copied(s0.mem, mem, src, root, 4, USER_ENTRIES) && |p| == 4 && p[0] < USER_ENTRIES
    ensures Access(mem, root, p) == Down(Access(s0.mem, src, p))
  {
    hide Link, Access, Walk, LeavesOnly, Layered, Through, Down, Plain;
    AccessLinks(mem, root, p);
    AccessLinks(s0.mem, src, p);
    var l1, l2, l3 := Link(s0.mem, src, 4, p[..1]), Link(s0.mem, src, 4, p[..2]), Link(s0.mem, src, 4, p[..3]);
    var w := Walk(s0.mem, src, p);
    ThroughPlain(Link(mem, root, 4, p[..3]), l3, Down(w));
    DownThrough(l3, w);
    ThroughPlain(Link(mem, root, 4, p[..2]), l2, Down(Through(l3, w)));
    DownThrough(l2, Through(l3, w));
    ThroughPlain(Link(mem, root, 4, p[..1]), l1, Down(Through(l2, Through(l3, w))));
    DownThrough(l1, Through(l2, Through(l3, w)));
  }

  lemma ThroughPlain(g: Option<Flags>, h: Option<Flags>, r: Option<Pte>)
    requires Plain(g) == Plain(h)
    ensures Through(g, r) == Through(h, r)
  {
  }

  lemma DownThrough(g: Option<Flags>, r: Option<Pte>)
    ensures Down(Through(g, r)) == Through(g, Down(r))
  {
  }

  /** Tables of an address space are referred to by it. */
  lemma ReferredUppers(mem: Memory, mem': Memory, root: nat)
    requires forall t: nat :: SpaceRefs(mem, root, t) > 0 ==> TableOf(mem', t) == TableOf(mem, t)
    ensures UppersSame(mem, mem', root, 4, USER_ENTRIES)
  {
    forall q: seq<Index> | |q| + 1 < 4 && Below(q, USER_ENTRIES) && TableAt(mem, root, 4, q).Some?
      ensures TableOf(mem', TableAt(mem, root, 4, q).value) == TableOf(mem, TableAt(mem, root, 4, q).value)
    {
      if q != [] {
        PathRefs(mem, root, 4, USER_ENTRIES, q);
      }
    }
  }
}
