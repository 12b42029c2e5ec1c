/** One level of a walk that may build tables or split huge pages: what get_next_level does to
    every translation, to the shape of the tree and to the reference counts. */
module TableWalk {
  import opened Options
  import opened PageTable
  import opened Cloning
  import opened Mapping

  /** Every translation is kept, except that a split may lose the shared bit. */
  ghost predicate SameSeen(mem: Memory, mem': Memory, root: nat, hi: nat) {
    forall p: Path :: |p| == 4 && p[0] < hi ==> Seen(Walk(mem', root, p)) == Seen(Walk(mem, root, p))
  }

  ghost predicate SameWalks(mem: Memory, mem': Memory, root: nat, hi: nat) {
    forall p: Path :: |p| == 4 && p[0] < hi ==> Walk(mem', root, p) == Walk(mem, root, p)
  }

  /** What was taken since s0 is exactly what the address space refers to in addition. */
  ghost predicate Balanced(s0: State, s: State, root: nat) {
    && |s.rc| == |s0.rc| > 0 && s.rc[0] == s0.rc[0]
    && forall g :: 0 < g < |s.rc| ==>
         s.rc[g] + SpaceRefs(s0.mem, root, g) == s0.rc[g] + SpaceRefs(s.mem, root, g)
  }

  /** Frames in use in s0 that are not part of this tree are untouched. */
  ghost predicate OnlyTree(s0: State, mem: Memory, root: nat, hi: nat) {
    && |mem| == |s0.mem| == |s0.used|
    && forall f :: 0 <= f < |mem| && s0.used[f] && mem[f] != s0.mem[f] ==>
         exists q: seq<Index> :: Inner(q, hi) && TableAt(s0.mem, root, 4, q) == Some(f)
  }

  /** The part of the top-level table from `hi` on is untouched. */
  ghost predicate UpperKept(mem: Memory, mem': Memory, root: nat, hi: nat) {
    forall j :: hi <= j < ENTRIES ==> TableOf(mem', root)[j] == TableOf(mem, root)[j]
  }

  /** Frames in use stay in use with their counts; a frame that is taken was free. */
  ghost predicate OnlyFree(s0: State, s: State) {
    && |s.rc| == |s0.rc| && s0.Tidy() && s.Tidy()
    && forall f :: 0 <= f < |s.rc| && s0.used[f] ==> s.used[f] && s.rc[f] == s0.rc[f]
  }

  /** The effect of get_next_level on entry i of the table at q; r is the table below, 0 if none. */
  ghost predicate Stepped(s0: State, s: State, root: nat, hi: nat, q: seq<Index>, i: Index, r: nat) {
    && TreeOk(s, root, hi) && SameSeen(s0.mem, s.mem, root, hi) && OnlyTree(s0, s.mem, root, hi)
    && OnlyFree(s0, s) && UpperKept(s0.mem, s.mem, root, hi)
    && (forall u: seq<Index> :: Inner(u, hi) && TableAt(s.mem, root, 4, u).Some? ==>
          TableAt(s.mem, root, 4, u) == TableAt(s0.mem, root, 4, u) || !s0.used[TableAt(s.mem, root, 4, u).value])
    && (r != 0 ==> TableAt(s.mem, root, 4, q + [i]) == Some(r))
    && (!SharedHuge(s0.mem, root, q, i) ==> SameWalks(s0.mem, s.mem, root, hi))
    && (hi == USER_ENTRIES && Owned(s0, root) ==> Owned(s, root) && Balanced(s0, s, root))
  }

  /** Entry i of the table at q is a huge page that is marked shared. */
  ghost predicate SharedHuge(mem: Memory, root: nat, q: seq<Index>, i: Index) {
    TableAt(mem, root, 4, q).Some? && |q| < 4 &&
    var e := TableOf(mem, TableAt(mem, root, 4, q).value)[i];
    e.Present() && e.flags.shared && Huge(e, 4 - |q|)
  }

  /** The entry get_next_level writes for a new table. */
  function NewTable(nf: nat, user: bool): Pte {
    Pte(nf, Flags(true, true, user, false, false, false, 0))
  }

  /** get_next_level finds nothing below entry e although there are free frames: it takes bit 7 of a
      top-level entry for a huge page, or was not asked to take a table. */
  predicate Blocked(e: Pte, level: nat, alloc: bool) {
    (e.Present() && e.flags.huge && level == 4) || (!e.Present() && !alloc)
  }

  /** Bit 7 is set in the top-level entry for page p. */
  predicate TopMarked(mem: Memory, root: nat, p: Path) {
    TableOf(mem, root)[p[0]].Present() && TableOf(mem, root)[p[0]].flags.huge
  }

  /** Where the walk is blocked below the top level, nothing is mapped. */
  lemma BlockedWalk(mem: Memory, root: nat, q: seq<Index>, t: nat, p: Path, alloc: bool)
    requires |p| == 4 && |q| < 3 && q < p && TableAt(mem, root, 4, q) == Some(t)
    ensures Blocked(TableOf(mem, t)[p[|q|]], 4 - |q|, alloc) ==>
              (q == [] && TopMarked(mem, root, p)) || (!alloc && Walk(mem, root, p) == None)
    ensures !TableOf(mem, t)[p[|q|]].Present() ==> Walk(mem, root, p) == None
  {
    assert p == q + p[|q|..];
    WalkTable(mem, root, q, p[|q|..]);
  }

  /** A walk from here may need free frames to split huge pages. */
  ghost predicate NeedsFrames(s: State, root: nat, hi: nat) {
    hi != USER_ENTRIES || !Owned(s, root)
  }

  lemma HugeNeedsFrames(s: State, root: nat, hi: nat, q: seq<Index>, i: Index)
    requires Inner(q + [i], hi) && TableAt(s.mem, root, 4, q).Some?
    requires var e := TableOf(s.mem, TableAt(s.mem, root, 4, q).value)[i]; e.Present() && e.flags.huge
    ensures q == [] || NeedsFrames(s, root, hi)
  {
    hide Owned;
    if q != [] && hi == USER_ENTRIES {
      HugeNotOwned(s, root, q, i);
    }
  }

  lemma TreeChild(s: State, root: nat, hi: nat, q: seq<Index>, i: Index)
    requires TreeOk(s, root, hi) && Inner(q + [i], hi) && TableAt(s.mem, root, 4, q).Some?
    requires var e := TableOf(s.mem, TableAt(s.mem, root, 4, q).value)[i]; e.Present() && !e.flags.huge
    ensures TableOf(s.mem, TableAt(s.mem, root, 4, q).value)[i].frame > 0
  {
    TableAtAppend(s.mem, root, 4, q, i);
  }

  lemma TreeTable(s: State, root: nat, hi: nat, q: seq<Index>, i: Index)
    requires TreeOk(s, root, hi) && |q| <= 2 && TableAt(s.mem, root, 4, q).Some? && Inner(q + [i], hi)
    ensures s.Tidy() && Inner(q, hi)
    ensures var t := TableAt(s.mem, root, 4, q).value; 0 < t < |s.mem| && s.used[t]
  {
    assert q != [] ==> (q + [i])[0] == q[0];
  }

  /** Writing entry i of the table at q, and a free frame, leaves the upper part of the top-level table alone. */
  lemma UpperWrite(s: State, mem': Memory, root: nat, hi: nat, q: seq<Index>, i: Index)
    requires TreeOk(s, root, hi) && Inner(q, hi) && TableAt(s.mem, root, 4, q).Some? && (q == [] ==> i < hi)
    requires |mem'| == |s.mem|
    requires var t := TableAt(s.mem, root, 4, q).value;
             && (forall f :: 0 <= f < |s.mem| && f != t && s.used[f] ==> mem'[f] == s.mem[f])
             && (forall j :: 0 <= j < ENTRIES && j != i ==> mem'[t][j] == s.mem[t][j])
    ensures UpperKept(s.mem, mem', root, hi)
  {
    var u: seq<Index> := [];
    assert Inner(u, hi) && TableAt(s.mem, root, 4, u) == Some(root);
    if q != u {
      assert TableAt(s.mem, root, 4, q) != TableAt(s.mem, root, 4, u);
    }
  }

  lemma UpperFree(s: State, mem': Memory, root: nat, hi: nat)
    requires TreeOk(s, root, hi) && |mem'| == |s.mem|
    requires forall f :: 0 <= f < |s.mem| && s.used[f] ==> mem'[f] == s.mem[f]
    ensures UpperKept(s.mem, mem', root, hi)
  {
    var u: seq<Index> := [];
    assert Inner(u, hi) && TableAt(s.mem, root, 4, u) == Some(root);
  }

  lemma StepDown(s0: State, root: nat, hi: nat, q: seq<Index>, i: Index)
    requires TreeOk(s0, root, hi) && Inner(q + [i], hi) && TableAt(s0.mem, root, 4, q).Some?
    requires var e := TableOf(s0.mem, TableAt(s0.mem, root, 4, q).value)[i]; e.Present() && !e.flags.huge
    ensures var e := TableOf(s0.mem, TableAt(s0.mem, root, 4, q).value)[i]; Stepped(s0, s0, root, hi, q, i, e.frame)
  {
    TableAtAppend(s0.mem, root, 4, q, i);
  }

  lemma StepFailed(s0: State, s: State, root: nat, hi: nat, q: seq<Index>, i: Index)
    requires TreeOk(s0, root, hi) && Inner(q + [i], hi) && TableAt(s0.mem, root, 4, q).Some?
    requires s.rc == s0.rc && s.used == s0.used && |s.mem| == |s0.mem| && s0.rc[0] > 0
    requires forall f :: 0 <= f < |s.mem| && s.used[f] ==> s.mem[f] == s0.mem[f]
    ensures Stepped(s0, s, root, hi, q, i, 0)
  {
    hide Owned, WalkEntry, Walk, SameSeen, SameWalks, TableAt, SharedHuge;
    if hi == USER_ENTRIES && Owned(s0, root) {
      OwnedFree(s0, s.mem, root);
    }
    FailedWalks(s0, s, root, hi);
    FailedTables(s0, s, root, hi);
    UpperFree(s0, s.mem, root, hi);
  }

  lemma FailedWalks(s0: State, s: State, root: nat, hi: nat)
    requires TreeOk(s0, root, hi) && |s.mem| == |s0.mem|
    requires forall f :: 0 <= f < |s.mem| && s0.used[f] ==> s.mem[f] == s0.mem[f]
    ensures SameWalks(s0.mem, s.mem, root, hi) && SameSeen(s0.mem, s.mem, root, hi)
  {
    hide WalkEntry, Walk, TreeOk, Seen;
    forall p: Path | |p| == 4 && p[0] < hi
      ensures Walk(s.mem, root, p) == Walk(s0.mem, root, p)
    {
      assert [] + p == p;
      FailedWalk(s0, s, root, hi, p);
    }
  }

  lemma FailedWalk(s0: State, s: State, root: nat, hi: nat, p: Path)
    requires TreeOk(s0, root, hi) && |s.mem| == |s0.mem| && |p| == 4 && p[0] < hi
    requires forall f :: 0 <= f < |s.mem| && s0.used[f] ==> s.mem[f] == s0.mem[f]
    ensures Walk(s.mem, root, p) == Walk(s0.mem, root, p)
  {
    hide WalkEntry, Walk;
    assert [] + p == p;
    WalkFree(s0, s.mem, root, hi, [], p, root);
  }

  lemma FailedTables(s0: State, s: State, root: nat, hi: nat)
    requires TreeOk(s0, root, hi) && |s.mem| == |s0.mem|
    requires forall f :: 0 <= f < |s.mem| && s0.used[f] ==> s.mem[f] == s0.mem[f]
    ensures forall u: seq<Index> :: Inner(u, hi) ==> TableAt(s.mem, root, 4, u) == TableAt(s0.mem, root, 4, u)
  {
    hide WalkEntry, Walk;
    forall u: seq<Index> | Inner(u, hi)
      ensures TableAt(s.mem, root, 4, u) == TableAt(s0.mem, root, 4, u)
    {
      assert [] + u == u;
      TableAtFree(s0, s.mem, root, hi, [], u, root);
    }
  }

  /** What both ways of adding a table have in common. */
  lemma StepGraft(s0: State, s: State, root: nat, hi: nat, q: seq<Index>, i: Index, nf: nat)
    requires Grafted(s0, s.mem, root, hi, q, i, nf) && s.rc == s0.rc[nf := 1] && s.used == s0.used[nf := true]
    requires var e := s0.mem[TableAt(s0.mem, root, 4, q).value][i];
             e.Present() && e.flags.shared ==> Huge(e, 4 - |q|)
    requires hi == USER_ENTRIES && Owned(s0, root) ==> Owned(s, root) && Balanced(s0, s, root)
    ensures Stepped(s0, s, root, hi, q, i, nf)
  {
    hide Owned, Balanced, WalkEntry, Walk;
    GraftKeeps(s0, s.mem, root, hi, q, i, nf);
    assert q != [] ==> (q + [i])[0] == q[0];
    assert q == [] ==> (q + [i])[0] == i;
    UpperWrite(s0, s.mem, root, hi, q, i);
    forall u: seq<Index> | Inner(u, hi)
      ensures TableAt(s.mem, root, 4, u) == if u == q + [i] then Some(nf) else TableAt(s0.mem, root, 4, u)
    {
      GraftTables(s0, s.mem, root, hi, q, i, nf, u);
    }
  }

  /** There are no huge pages in the user half of an owned address space. */
  lemma HugeNotOwned(s0: State, root: nat, q: seq<Index>, i: Index)
    requires Inner(q + [i], USER_ENTRIES) && TableAt(s0.mem, root, 4, q).Some?
    requires var e := TableOf(s0.mem, TableAt(s0.mem, root, 4, q).value)[i]; e.Present() && Huge(e, 4 - |q|)
    ensures !Owned(s0, root)
  {
    assert (q + [i])[0] == q[0];
    if Owned(s0, root) {
      SoundAt(s0.mem, Singles(s0.rc), root, 4, USER_ENTRIES, q, i);
    }
  }

  /** Table nf takes the place of a huge page. */
  ghost predicate Splits(s0: State, s: State, root: nat, hi: nat, q: seq<Index>, i: Index, nf: nat) {
    && TreeOk(s0, root, hi) && Inner(q + [i], hi) && TableAt(s0.mem, root, 4, q).Some?
    && var t := TableAt(s0.mem, root, 4, q).value;
       && 0 < t < |s0.mem| && s0.mem[t][i].Present() && Huge(s0.mem[t][i], 4 - |q|) && |s.mem| == |s0.mem|
       && 0 < nf < |s0.mem| && !s0.used[nf] && s.rc == s0.rc[nf := 1] && s.used == s0.used[nf := true]
       && s.mem == s0.mem[nf := s.mem[nf]][t := s0.mem[t][i := Pte(nf, SplitFlags(s0.mem[t][i]))]]
       && (forall j :: 0 <= j < ENTRIES ==> s.mem[nf][j] == SplitEntry(s0.mem[t][i], 4 - |q|, j))
  }

  lemma StepSplit(s0: State, s: State, root: nat, hi: nat, q: seq<Index>, i: Index, nf: nat)
    requires Splits(s0, s, root, hi, q, i, nf)
    ensures Stepped(s0, s, root, hi, q, i, nf)
  {
    hide Stepped, WalkEntry, Balanced, Grafted, TreeOk;
    SplitGrafts(s0, s, root, hi, q, i, nf);
    if hi == USER_ENTRIES {
      HugeNotOwned(s0, root, q, i);
    }
    StepGraft(s0, s, root, hi, q, i, nf);
  }

  lemma SplitGrafts(s0: State, s: State, root: nat, hi: nat, q: seq<Index>, i: Index, nf: nat)
    requires Splits(s0, s, root, hi, q, i, nf)
    ensures Grafted(s0, s.mem, root, hi, q, i, nf)
  {
    hide WalkEntry;
    var t := TableAt(s0.mem, root, 4, q).value;
    var e, e' := s0.mem[t][i], Pte(nf, SplitFlags(s0.mem[t][i]));
    assert q != [] ==> (q + [i])[0] == q[0];
    assert t != nf;
    forall r: Path | |r| == 4 - |q|
      ensures WalkEntry(s.mem, e', r) == Unshared(e, WalkEntry(s0.mem, e, r))
    {
      SplitWalk(s0.mem, s.mem, e, e', r);
    }
  }

  /** Table nf is hooked in where nothing was. */
  ghost predicate Attaches(s0: State, s: State, root: nat, hi: nat, q: seq<Index>, i: Index, nf: nat, user: bool) {
    && TreeOk(s0, root, hi) && Inner(q + [i], hi) && TableAt(s0.mem, root, 4, q).Some?
    && var t := TableAt(s0.mem, root, 4, q).value;
       && 0 < t < |s0.mem| && !s0.mem[t][i].Present() && |s.mem| == |s0.mem|
       && 0 < nf < |s0.mem| && !s0.used[nf] && s.rc == s0.rc[nf := 1] && s.used == s0.used[nf := true]
       && s.mem == s0.mem[nf := EmptyTable()][t := s0.mem[t][i := NewTable(nf, user)]]
  }

  lemma AttachGrafts(s0: State, s: State, root: nat, hi: nat, q: seq<Index>, i: Index, nf: nat, user: bool)
    requires Attaches(s0, s, root, hi, q, i, nf, user)
    ensures Grafted(s0, s.mem, root, hi, q, i, nf)
  {
    var t := TableAt(s0.mem, root, 4, q).value;
    assert q != [] ==> (q + [i])[0] == q[0];
    assert t != nf;
    forall r: Path | |r| == 4 - |q|
      ensures WalkEntry(s.mem, NewTable(nf, user), r) == None
    {
      assert !TableOf(s.mem, nf)[r[1]].Present();
    }
  }

  lemma StepAttach(s0: State, s: State, root: nat, hi: nat, q: seq<Index>, i: Index, nf: nat, user: bool)
    requires Attaches(s0, s, root, hi, q, i, nf, user)
    ensures Stepped(s0, s, root, hi, q, i, nf)
  {
    hide Stepped, Owned, SpaceRefs, Grafted;
    AttachGrafts(s0, s, root, hi, q, i, nf, user);
    if hi == USER_ENTRIES && Owned(s0, root) {
      AttachOwned(s0, s.mem, root, q, i, nf);
    }
    StepGraft(s0, s, root, hi, q, i, nf);
  }

  // ---------- The whole walk ----------

  /** The effect of any number of such steps. */
  ghost predicate Walked(s0: State, s: State, root: nat, hi: nat) {
    && TreeOk(s, root, hi) && SameSeen(s0.mem, s.mem, root, hi) && OnlyTree(s0, s.mem, root, hi)
    && OnlyFree(s0, s) && UpperKept(s0.mem, s.mem, root, hi)
    && (forall u: seq<Index> :: Inner(u, hi) && TableAt(s.mem, root, 4, u).Some? ==>
          TableAt(s.mem, root, 4, u) == TableAt(s0.mem, root, 4, u) || !s0.used[TableAt(s.mem, root, 4, u).value])
    && (hi == USER_ENTRIES && Owned(s0, root) ==>
          Owned(s, root) && Balanced(s0, s, root) && SameWalks(s0.mem, s.mem, root, hi))
  }

  lemma WalkedTree(s0: State, s: State, root: nat, hi: nat)
    requires Walked(s0, s, root, hi)
    ensures TreeOk(s, root, hi)
  {
  }

  lemma NeedsFramesKept(s0: State, s: State, root: nat, hi: nat)
    requires Walked(s0, s, root, hi)
    ensures NeedsFrames(s, root, hi) ==> NeedsFrames(s0, root, hi)
  {
    hide Owned, TreeOk, SameSeen, OnlyTree, Balanced, SameWalks;
  }

  lemma WalkedNone(s0: State, s: State, root: nat, hi: nat, p: Path)
    requires Walked(s0, s, root, hi) && |p| == 4 && p[0] < hi
    ensures Walk(s.mem, root, p) == None ==> Walk(s0.mem, root, p) == None
  {
    hide Owned, TreeOk, OnlyTree, Balanced, SameWalks, Walk;
  }

  lemma WalkedStart(s0: State, root: nat, hi: nat)
    requires TreeOk(s0, root, hi)
    ensures Walked(s0, s0, root, hi)
  {
  }

  lemma WalkedStep(s0: State, s1: State, s2: State, root: nat, hi: nat, q: seq<Index>, i: Index, r: nat)
    requires Walked(s0, s1, root, hi) && Stepped(s1, s2, root, hi, q, i, r)
    requires Inner(q + [i], hi) && TableAt(s1.mem, root, 4, q).Some?
    ensures Walked(s0, s2, root, hi)
  {
    hide Owned, Balanced, Walk, SharedHuge, SameSeen, SameWalks, TableAt, OnlyTree;
    SeenTransitive(s0.mem, s1.mem, s2.mem, root, hi);
    WalkedOnly(s0, s1, s2, root, hi, q, i, r);
    if hi == USER_ENTRIES && Owned(s0, root) {
      WalkedOwned(s0, s1, s2, root, q, i, r);
    }
  }

  lemma SeenTransitive(a: Memory, b: Memory, c: Memory, root: nat, hi: nat)
    requires SameSeen(a, b, root, hi) && SameSeen(b, c, root, hi)
    ensures SameSeen(a, c, root, hi)
  {
  }

  lemma WalkedOwned(s0: State, s1: State, s2: State, root: nat, q: seq<Index>, i: Index, r: nat)
    requires Walked(s0, s1, root, USER_ENTRIES) && Stepped(s1, s2, root, USER_ENTRIES, q, i, r)
    requires Inner(q + [i], USER_ENTRIES) && TableAt(s1.mem, root, 4, q).Some? && Owned(s0, root)
    ensures Owned(s2, root) && Balanced(s0, s2, root) && SameWalks(s0.mem, s2.mem, root, USER_ENTRIES)
  {
    hide Owned, SpaceRefs, Walk, TreeOk, SameSeen, OnlyTree;
    if SharedHuge(s1.mem, root, q, i) {
      HugeNotOwned(s1, root, q, i);
    }
  }

  lemma WalkedOnly(s0: State, s1: State, s2: State, root: nat, hi: nat, q: seq<Index>, i: Index, r: nat)
    requires Walked(s0, s1, root, hi) && Stepped(s1, s2, root, hi, q, i, r)
    ensures OnlyTree(s0, s2.mem, root, hi)
  {
    hide Owned, Balanced, Walk, TreeOk, SameSeen, SameWalks;
    forall f | 0 <= f < |s0.rc| && s0.used[f] && s2.mem[f] != s0.mem[f]
      ensures exists u: seq<Index> :: Inner(u, hi) && TableAt(s0.mem, root, 4, u) == Some(f)
    {
      if s1.mem[f] == s0.mem[f] {
        var u: seq<Index> :| Inner(u, hi) && TableAt(s1.mem, root, 4, u) == Some(f);
        assert TableAt(s0.mem, root, 4, u) == Some(f);
      }
    }
  }

  /** What an entry of a last-level table maps. */
  function LeafOf(e: Pte): Option<Pte> {
    if e.Present() then Some(Pte(e.frame, e.flags.(huge := false))) else None
  }

  predicate Maps(r: Option<Pte>, g: nat) {
    r.Some? && r.value.frame == g
  }

  /** Entry `e` was written for page `p`, and nothing else happened to any page. */
  ghost predicate Mapped(s0: State, s: State, root: nat, hi: nat, p: Path, e: Pte) {
    && TreeOk(s, root, hi) && OnlyTree(s0, s.mem, root, hi)
    && OnlyFree(s0, s) && UpperKept(s0.mem, s.mem, root, hi)
    && Seen(Walk(s.mem, root, p)) == Seen(LeafOf(e))
    && (forall p': Path :: |p'| == 4 && p'[0] < hi && p' != p ==>
          Seen(Walk(s.mem, root, p')) == Seen(Walk(s0.mem, root, p')))
    && (hi == USER_ENTRIES && Owned(s0, root) ==> MappedOwned(s0, s, root, p, e))
  }

  /** In an owned address space the shared bits are kept too, and the references change by the old
      and the new page and the tables that were taken. */
  ghost predicate MappedOwned(s0: State, s: State, root: nat, p: Path, e: Pte) {
    && s.Tidy() && |s.rc| == |s0.rc| && 0 < root < |s.rc| && s.rc[root] == 1 && s.rc[0] == s0.rc[0]
    && Sound(s.mem, Singles(s.rc), root, 4, USER_ENTRIES) && TopClear(s.mem, root)
    && Walk(s.mem, root, p) == LeafOf(e)
    && (forall p': Path :: |p'| == 4 && p'[0] < USER_ENTRIES && p' != p ==>
          Walk(s.mem, root, p') == Walk(s0.mem, root, p'))
    && (forall g :: 0 < g < |s.rc| ==>
          s.rc[g] + SpaceRefs(s0.mem, root, g) + (if Maps(LeafOf(e), g) then 1 else 0) ==
          s0.rc[g] + SpaceRefs(s.mem, root, g) + (if Maps(Walk(s0.mem, root, p), g) then 1 else 0))
  }

  lemma MapLeaf(s0: State, s: State, s': State, root: nat, hi: nat, p: Path, e: Pte)
    requires Walked(s0, s, root, hi) && |p| == 4 && p[0] < hi && TableAt(s.mem, root, 4, p[..3]).Some?
    requires var t := TableAt(s.mem, root, 4, p[..3]).value;
             0 < t < |s.mem| && s' == s.(mem := s.mem[t := s.mem[t][p[3] := e]])
    ensures Mapped(s0, s', root, hi, p, e)
  {
    hide Owned, Balanced, SameWalks, MappedOwned, Walk, WalkEntry, TreeOk;
    var q, t := p[..3], TableAt(s.mem, root, 4, p[..3]).value;
    assert p == q + [p[3]];
    LeafWrite(s, s'.mem, root, hi, q, p[3], e);
    UpperWrite(s, s'.mem, root, hi, q, p[3]);
    LeafEntry(e, p[3]);
    forall f | 0 <= f < |s0.rc| && s0.used[f] && s'.mem[f] != s0.mem[f]
      ensures exists u: seq<Index> :: Inner(u, hi) && TableAt(s0.mem, root, 4, u) == Some(f)
    {
      if f == t {
        assert TableAt(s0.mem, root, 4, q) == Some(f);
      }
    }
    if hi == USER_ENTRIES && Owned(s0, root) {
      MapLeafOwned(s0, s, s', root, p, e);
    }
  }

  lemma LeafEntry(e: Pte, i: Index)
    ensures WalkEntry([], e, [i]) == LeafOf(e)
  {
  }

  lemma MapLeafOwned(s0: State, s: State, s': State, root: nat, p: Path, e: Pte)
    requires Walked(s0, s, root, USER_ENTRIES) && Owned(s0, root)
    requires |p| == 4 && p[0] < USER_ENTRIES && TableAt(s.mem, root, 4, p[..3]).Some?
    requires var t := TableAt(s.mem, root, 4, p[..3]).value;
             0 < t < |s.mem| && s' == s.(mem := s.mem[t := s.mem[t][p[3] := e]])
    ensures MappedOwned(s0, s', root, p, e)
  {
    hide WalkEntry, Walk, Walked, TreeOk, Owned, TableAt, SpaceRefs, Sound, Singles, LeafOf, TopClear;
    var q, t := p[..3], TableAt(s.mem, root, 4, p[..3]).value;
    assert p == q + [p[3]];
    WalkedFacts(s0, s, root);
    LeafTop(s, s'.mem, root, q, p[3], e);
    LeafOwned(s, s'.mem, root, q, p[3], e);
    LeafWrite(s, s'.mem, root, USER_ENTRIES, q, p[3], e);
    LeafEntry(e, p[3]);
    WalkTable(s.mem, root, q, [p[3]]);
    OldLeaf(s.mem, t, p[3]);
    LeafMaps(e);
    LeafMaps(s.mem[t][p[3]]);
  }

  /** A last-level table is not the top-level table. */
  lemma LeafTop(s: State, mem': Memory, root: nat, q: seq<Index>, i: Index, e: Pte)
    requires TreeOk(s, root, USER_ENTRIES) && Owned(s, root) && Inner(q, USER_ENTRIES) && |q| == 3
    requires TableAt(s.mem, root, 4, q).Some?
    requires var t := TableAt(s.mem, root, 4, q).value; 0 < t < |s.mem| && mem' == s.mem[t := s.mem[t][i := e]]
    ensures TopClear(mem', root)
  {
    hide Sound, RefsUpTo;
    assert Inner([], USER_ENTRIES) && TableAt(s.mem, root, 4, []) == Some(root);
    assert TableAt(s.mem, root, 4, q).value != root;
  }

  /** Bit 7 is never set at the top of an owned address space. */
  lemma OwnedUnmarked(s: State, root: nat, p: Path)
    requires Owned(s, root) && p[0] < USER_ENTRIES
    ensures !TopMarked(s.mem, root, p)
  {
    hide Sound, RefsUpTo;
  }

  lemma LeafMaps(e: Pte)
    ensures forall g :: Maps(LeafOf(e), g) <==> e.Present() && e.frame == g
  {
  }

  lemma WalkedFacts(s0: State, s: State, root: nat)
    requires Walked(s0, s, root, USER_ENTRIES) && Owned(s0, root)
    ensures TreeOk(s, root, USER_ENTRIES) && Owned(s, root) && Balanced(s0, s, root)
    ensures SameWalks(s0.mem, s.mem, root, USER_ENTRIES)
    ensures |s.mem| == |s.rc| == |s0.rc| && 0 < root < |s.rc| && s.rc[root] == 1
  {
    hide TreeOk, RefsUpTo, Sound, TableAt, Walk;
  }

  lemma OldLeaf(mem: Memory, t: nat, i: Index)
    ensures Walk(mem, t, [i]) == LeafOf(TableOf(mem, t)[i])
  {
  }

  lemma MappedAbsent(s0: State, s: State, root: nat, hi: nat, p: Path)
    requires Mapped(s0, s, root, hi, p, ABSENT)
    ensures Walk(s.mem, root, p) == None
  {
    hide TreeOk, OnlyTree, Walk, MappedOwned;
  }

  lemma LeafAbsent(mem: Memory, root: nat, p: Path)
    requires |p| == 4 && TableAt(mem, root, 4, p[..3]).Some?
    requires !TableOf(mem, TableAt(mem, root, 4, p[..3]).value)[p[3]].Present()
    ensures Walk(mem, root, p) == None
  {
    assert p == p[..3] + [p[3]];
    WalkTable(mem, root, p[..3], [p[3]]);
  }

  function Branch(frame: nat, huge: bool): Table {
    EmptyTable()[0 := Pte(frame, NO_FLAGS.(present := true, huge := huge))]
  }

  /** Bit 7 at the top: the page walk passes it, so page 0 is mapped, but get_next_level gives up there. */
  lemma MarkedIsMapped()
    ensures var mem := [EmptyTable(), Branch(2, true), Branch(3, false), Branch(4, false), Branch(9, false)];
            var p: Path := [0, 0, 0, 0];
            TopMarked(mem, 1, p) && Walk(mem, 1, p) == Some(Pte(9, NO_FLAGS.(present := true)))
  {
    var mem := [EmptyTable(), Branch(2, true), Branch(3, false), Branch(4, false), Branch(9, false)];
    var p1: Path, p2: Path, p3: Path := [0], [0, 0], [0, 0, 0];
    assert TableOf(mem, 4)[0].frame == 9 && TableOf(mem, 3)[0].frame == 4 && TableOf(mem, 2)[0].frame == 3;
    assert WalkEntry(mem, TableOf(mem, 4)[0], p1) == Some(Pte(9, NO_FLAGS.(present := true)));
    assert p2[1..] == p1 && p3[1..] == p2 && [0, 0, 0, 0][1..] == p3;
    assert WalkEntry(mem, TableOf(mem, 3)[0], p2) == WalkEntry(mem, TableOf(mem, 4)[0], p1);
    assert WalkEntry(mem, TableOf(mem, 2)[0], p3) == WalkEntry(mem, TableOf(mem, 3)[0], p2);
  }
}
