/** Updating page tables in place: which table a walk reaches, and what replacing one entry of one
    table does to every translation and to every reference count. */
module Mapping {
  import opened Options
  import opened PageTable
  import opened Cloning

  /** The table that the indices `q` lead to from table `f` at `level`. */
  function TableAt(mem: Memory, f: nat, level: nat, q: seq<Index>): (r: Option<nat>)
    decreases |q|
  {
    if q == [] then Some(f)
    else
      var e := TableOf(mem, f)[q[0]];
      if level > 0 && Branches(e, level) then TableAt(mem, e.frame, level - 1, q[1..]) else None
  }

  /** The indices of a table below the top level, in the part of the top-level table below `hi`. */
  predicate Inner(q: seq<Index>, hi: nat) {
    |q| <= 3 && (q != [] ==> q[0] < hi)
  }

  /** Every table is in use, be it held or reserved, and none is reached in two ways. */
  ghost predicate TreeOk(s: State, root: nat, hi: nat) {
    && s.Tidy()
    && (forall q: seq<Index> :: Inner(q, hi) && TableAt(s.mem, root, 4, q).Some? ==>
          var t := TableAt(s.mem, root, 4, q).value; 0 < t < |s.mem| && s.used[t])
    && (forall q: seq<Index>, q': seq<Index> ::
          Inner(q, hi) && Inner(q', hi) && TableAt(s.mem, root, 4, q).Some? ==>
            TableAt(s.mem, root, 4, q) == TableAt(s.mem, root, 4, q') ==> q == q')
  }

  lemma {:induction false} TableAtAppend(mem: Memory, f: nat, level: nat, q: seq<Index>, j: Index)
    requires TableAt(mem, f, level, q).Some?
    ensures |q| <= level
    ensures var e := TableOf(mem, TableAt(mem, f, level, q).value)[j];
            TableAt(mem, f, level, q + [j]) ==
            if |q| < level && Branches(e, level - |q|) then Some(e.frame) else None
    decreases |q|
  {
    if q != [] {
      assert (q + [j])[1..] == q[1..] + [j];
      TableAtAppend(mem, TableOf(mem, f)[q[0]].frame, level - 1, q[1..], j);
    }
  }

  /** mem' is mem with entry i of the table at q replaced; tables outside the tree may differ. */
  ghost predicate Replaced(mem: Memory, mem': Memory, root: nat, hi: nat, q: seq<Index>, i: Index) {
    && Inner(q, hi) && TableAt(mem, root, 4, q).Some? && (q == [] ==> i < hi)
    && (forall u: seq<Index> :: Inner(u, hi) && u != q && TableAt(mem, root, 4, u).Some? ==>
          TableOf(mem', TableAt(mem, root, 4, u).value) == TableOf(mem, TableAt(mem, root, 4, u).value))
    && (forall j :: 0 <= j < ENTRIES && j != i ==>
          TableOf(mem', TableAt(mem, root, 4, q).value)[j] == TableOf(mem, TableAt(mem, root, 4, q).value)[j])
  }

  lemma WalkInto(mem: Memory, f: nat, p: Path)
    requires |p| > 1 && Branches(TableOf(mem, f)[p[0]], |p|)
    ensures Walk(mem, f, p) == Walk(mem, TableOf(mem, f)[p[0]].frame, p[1..])
  {
  }

  lemma WalkEnds(mem: Memory, mem': Memory, f: nat, p: Path)
    requires TableOf(mem', f)[p[0]] == TableOf(mem, f)[p[0]] && !(|p| > 1 && Branches(TableOf(mem, f)[p[0]], |p|))
    ensures Walk(mem', f, p) == Walk(mem, f, p)
  {
  }

  /** Off the replaced entry both memories have the same entry. */
  lemma SameEntry(mem: Memory, mem': Memory, root: nat, hi: nat, q: seq<Index>, i: Index, f: nat, u: seq<Index>,
                  p: Path)
    requires Replaced(mem, mem', root, hi, q, i)
    requires TableAt(mem, root, 4, u) == Some(f) && |u| + |p| == 4 && (u + p)[0] < hi && !(q + [i] <= u + p)
    ensures Inner(u, hi) && TableOf(mem', f)[p[0]] == TableOf(mem, f)[p[0]]
    ensures |p| > 1 ==> u + p == (u + [p[0]]) + p[1..]
  {
    hide TableAt;
    assert Inner(u, hi);
    assert u == q ==> p[0] != i;
  }

  /** A walk that does not go through the replaced entry is not changed. */
  lemma {:induction false} WalkOff(mem: Memory, mem': Memory, root: nat, hi: nat, q: seq<Index>, i: Index,
                                   f: nat, u: seq<Index>, p: Path)
    requires Replaced(mem, mem', root, hi, q, i)
    requires TableAt(mem, root, 4, u) == Some(f) && |u| + |p| == 4 && (u + p)[0] < hi
    requires !(q + [i] <= u + p)
    ensures Walk(mem', f, p) == Walk(mem, f, p)
    decreases |p|
  {
    hide Replaced, TableAt, Walk, WalkEntry;
    SameEntry(mem, mem', root, hi, q, i, f, u, p);
    var e := TableOf(mem, f)[p[0]];
    if |p| > 1 && Branches(e, |p|) {
      TableAtAppend(mem, root, 4, u, p[0]);
      WalkOff(mem, mem', root, hi, q, i, e.frame, u + [p[0]], p[1..]);
      WalkInto(mem, f, p);
      WalkInto(mem', f, p);
    } else {
      WalkEnds(mem, mem', f, p);
    }
  }

  /** One step along a path that goes through the entry i of q. */
  lemma PathStep(q: seq<Index>, i: Index, u: seq<Index>, p: Path)
    requires |u| + |p| == 4 && u <= q && u != q && q + [i] <= u + p
    ensures |p| > 1 && p[0] == q[|u|] && u + [p[0]] <= q && q + [i] <= (u + [p[0]]) + p[1..]
    ensures p[1..][|q| - |u| - 1..] == p[|q| - |u|..]
  {
    assert p[0] == (u + p)[|u|] == (q + [i])[|u|] == q[|u|];
    assert u + p == (u + [p[0]]) + p[1..];
  }

  /** A walk through the replaced entry reaches it before as after. */
  lemma {:induction false} WalkOn(mem: Memory, mem': Memory, root: nat, hi: nat, q: seq<Index>, i: Index,
                                  f: nat, u: seq<Index>, p: Path)
    requires Replaced(mem, mem', root, hi, q, i)
    requires TableAt(mem, root, 4, u) == Some(f) && |u| + |p| == 4 && u <= q && q + [i] <= u + p
    ensures var t, r := TableAt(mem, root, 4, q).value, p[|q| - |u|..];
            && Walk(mem, f, p) == WalkEntry(mem, TableOf(mem, t)[i], r)
            && Walk(mem', f, p) == WalkEntry(mem', TableOf(mem', t)[i], r)
    decreases |p|
  {
    if u == q {
      assert p[0] == (u + p)[|q|] == (q + [i])[|q|];
    } else {
      hide WalkEntry, Walk, TableAt;
      PathStep(q, i, u, p);
      var e := TableOf(mem, f)[p[0]];
      TableAtAppend(mem, root, 4, u, p[0]);
      TableAtPrefix(mem, root, 4, u + [p[0]], q);
      WalkOn(mem, mem', root, hi, q, i, e.frame, u + [p[0]], p[1..]);
      WalkInto(mem, f, p);
      WalkInto(mem', f, p);
    }
  }

  lemma {:induction false} TableAtPrefix(mem: Memory, f: nat, level: nat, u: seq<Index>, q: seq<Index>)
    requires u <= q && TableAt(mem, f, level, q).Some?
    ensures TableAt(mem, f, level, u).Some?
    decreases |q|
  {
    if u != [] {
      TableAtPrefix(mem, TableOf(mem, f)[q[0]].frame, level - 1, u[1..], q[1..]);
    }
  }

  lemma {:induction false} TableAtOff(mem: Memory, mem': Memory, root: nat, hi: nat, q: seq<Index>, i: Index,
                                      f: nat, u: seq<Index>, v: seq<Index>)
    requires Replaced(mem, mem', root, hi, q, i)
    requires TableAt(mem, root, 4, u) == Some(f) && Inner(u + v, hi) && Inner(u, hi)
    requires !(q + [i] <= u + v)
    ensures TableAt(mem', f, 4 - |u|, v) == TableAt(mem, f, 4 - |u|, v)
    decreases |v|
  {
    if v != [] {
      var e := TableOf(mem, f)[v[0]];
      assert u == q ==> v[0] != i;
      assert TableOf(mem', f)[v[0]] == e;
      if Branches(e, 4 - |u|) {
        TableAtAppend(mem, root, 4, u, v[0]);
        assert u + v == (u + [v[0]]) + v[1..];
        TableAtOff(mem, mem', root, hi, q, i, e.frame, u + [v[0]], v[1..]);
      }
    }
  }

  /** Indices that go through a replaced entry: nothing is reached if it does not branch, and only the
      table it points to if none of that table's entries branch. */
  lemma {:induction false} TableAtOn(mem: Memory, f: nat, level: nat, q: seq<Index>, i: Index, v: seq<Index>)
    requires TableAt(mem, f, level, q).Some? && |q| < level && q + [i] <= v
    requires var e := TableOf(mem, TableAt(mem, f, level, q).value)[i];
             Branches(e, level - |q|) ==>
               forall j :: 0 <= j < ENTRIES ==> !Branches(TableOf(mem, e.frame)[j], level - |q| - 1)
    ensures var e := TableOf(mem, TableAt(mem, f, level, q).value)[i];
            TableAt(mem, f, level, v) ==
            if v == q + [i] && Branches(e, level - |q|) then Some(e.frame) else None
    decreases |q|
  {
    if q == [] {
      assert v[0] == i;
      assert v == [i] + v[1..];
    } else {
      assert v[0] == q[0];
      assert q[1..] + [i] <= v[1..];
      TableAtOn(mem, TableOf(mem, f)[q[0]].frame, level - 1, q[1..], i, v[1..]);
      assert v == q + [i] <==> v[1..] == q[1..] + [i];
    }
  }

  /** In a tree, updating one table and a free frame is a replacement. */
  lemma TreeReplaced(s: State, mem': Memory, root: nat, hi: nat, q: seq<Index>, i: Index)
    requires TreeOk(s, root, hi) && Inner(q, hi) && TableAt(s.mem, root, 4, q).Some? && (q == [] ==> i < hi)
    requires |mem'| == |s.mem|
    requires var t := TableAt(s.mem, root, 4, q).value;
             && (forall f :: 0 <= f < |s.mem| && f != t && s.used[f] ==> mem'[f] == s.mem[f])
             && (forall j :: 0 <= j < ENTRIES && j != i ==> mem'[t][j] == s.mem[t][j])
    ensures Replaced(s.mem, mem', root, hi, q, i)
  {
    forall u: seq<Index> | Inner(u, hi) && u != q && TableAt(s.mem, root, 4, u).Some?
      ensures TableOf(mem', TableAt(s.mem, root, 4, u).value) == TableOf(s.mem, TableAt(s.mem, root, 4, u).value)
    {
      assert TableAt(s.mem, root, 4, u) != TableAt(s.mem, root, 4, q);
    }
  }

  /** What a walk finds, without the software bit that marks shared pages. */
  function Seen(r: Option<Pte>): Option<Pte> {
    if r.Some? then Some(r.value.(flags := r.value.flags.(shared := false))) else None
  }

  /** Splitting entry `e` loses the shared bit of a huge page. */
  function Unshared(e: Pte, r: Option<Pte>): Option<Pte> {
    if e.Present() && e.flags.shared then Seen(r) else r
  }

  /** Table `nf`, free until now, is hooked into entry i of the table at q in place of an entry that
      did not branch, such that the entry still means the same. */
  ghost predicate Grafted(s: State, mem': Memory, root: nat, hi: nat, q: seq<Index>, i: Index, nf: nat) {
    && TreeOk(s, root, hi) && Inner(q + [i], hi) && TableAt(s.mem, root, 4, q).Some? && |mem'| == |s.mem|
    && 0 < nf < |s.mem| && !s.used[nf]
    && var t := TableAt(s.mem, root, 4, q).value;
      && 0 < t < |s.mem| && !Branches(s.mem[t][i], 4 - |q|)
      && (forall f :: 0 <= f < |s.mem| && f != t && f != nf ==> mem'[f] == s.mem[f])
      && (forall j :: 0 <= j < ENTRIES && j != i ==> mem'[t][j] == s.mem[t][j])
      && mem'[t][i].frame == nf && Branches(mem'[t][i], 4 - |q|)
      && (forall j :: 0 <= j < ENTRIES ==> !Branches(mem'[nf][j], 3 - |q|))
      && (forall r: Path :: |r| == 4 - |q| ==>
            WalkEntry(mem', mem'[t][i], r) == Unshared(s.mem[t][i], WalkEntry(s.mem, s.mem[t][i], r)))
  }

  lemma GraftTables(s: State, mem': Memory, root: nat, hi: nat, q: seq<Index>, i: Index, nf: nat, v: seq<Index>)
    requires Grafted(s, mem', root, hi, q, i, nf) && Inner(v, hi)
    ensures TableAt(mem', root, 4, v) == if v == q + [i] then Some(nf) else TableAt(s.mem, root, 4, v)
  {
    hide WalkEntry;
    assert [] + v == v;
    if q + [i] <= v {
      GraftBelow(s, mem', root, hi, q, i, nf, v);
    } else {
      TreeReplaced(s, mem', root, hi, q, i);
      TableAtOff(s.mem, mem', root, hi, q, i, root, [], v);
    }
  }

  lemma GraftBelow(s: State, mem': Memory, root: nat, hi: nat, q: seq<Index>, i: Index, nf: nat, v: seq<Index>)
    requires Grafted(s, mem', root, hi, q, i, nf) && Inner(v, hi) && q + [i] <= v
    ensures TableAt(mem', root, 4, v) == if v == q + [i] then Some(nf) else TableAt(s.mem, root, 4, v)
  {
    hide WalkEntry;
    assert q == [] ==> (q + [i])[0] == i;
    assert q != [] ==> (q + [i])[0] == q[0];
    TreeReplaced(s, mem', root, hi, q, i);
    assert [] + q == q;
    TableAtOff(s.mem, mem', root, hi, q, i, root, [], q);
    TableAtOn(s.mem, root, 4, q, i, v);
    TableAtOn(mem', root, 4, q, i, v);
  }

  /** Grafting a table changes no translation and keeps the tables a tree. */
  lemma GraftKeeps(s: State, mem': Memory, root: nat, hi: nat, q: seq<Index>, i: Index, nf: nat)
    requires Grafted(s, mem', root, hi, q, i, nf)
    ensures forall p: Path :: |p| == 4 && p[0] < hi ==> Seen(Walk(mem', root, p)) == Seen(Walk(s.mem, root, p))
    ensures var e := s.mem[TableAt(s.mem, root, 4, q).value][i];
            !(e.Present() && e.flags.shared) ==>
              forall p: Path :: |p| == 4 && p[0] < hi ==> Walk(mem', root, p) == Walk(s.mem, root, p)
    ensures TableAt(mem', root, 4, q + [i]) == Some(nf)
    ensures TreeOk(State(s.rc[nf := 1], mem', s.used[nf := true]), root, hi)
  {
    hide Walk, WalkEntry, TreeOk, TableAt;
    var e := s.mem[TableAt(s.mem, root, 4, q).value][i];
    forall p: Path | |p| == 4 && p[0] < hi
      ensures Seen(Walk(mem', root, p)) == Seen(Walk(s.mem, root, p))
      ensures !(e.Present() && e.flags.shared) ==> Walk(mem', root, p) == Walk(s.mem, root, p)
    {
      GraftWalk(s, mem', root, hi, q, i, nf, p);
    }
    GraftTree(s, mem', root, hi, q, i, nf);
  }

  lemma GraftWalk(s: State, mem': Memory, root: nat, hi: nat, q: seq<Index>, i: Index, nf: nat, p: Path)
    requires Grafted(s, mem', root, hi, q, i, nf) && |p| == 4 && p[0] < hi
    ensures Seen(Walk(mem', root, p)) == Seen(Walk(s.mem, root, p))
    ensures var e := s.mem[TableAt(s.mem, root, 4, q).value][i];
            !(e.Present() && e.flags.shared) ==> Walk(mem', root, p) == Walk(s.mem, root, p)
  {
    hide Walk, WalkEntry;
    assert q == [] ==> (q + [i])[0] == i;
    assert q != [] ==> (q + [i])[0] == q[0];
    TreeReplaced(s, mem', root, hi, q, i);
    assert [] + p == p;
    if q + [i] <= p {
      WalkOn(s.mem, mem', root, hi, q, i, root, [], p);
    } else {
      WalkOff(s.mem, mem', root, hi, q, i, root, [], p);
    }
  }

  lemma GraftTree(s: State, mem': Memory, root: nat, hi: nat, q: seq<Index>, i: Index, nf: nat)
    requires Grafted(s, mem', root, hi, q, i, nf)
    ensures TableAt(mem', root, 4, q + [i]) == Some(nf)
    ensures TreeOk(State(s.rc[nf := 1], mem', s.used[nf := true]), root, hi)
  {
    hide WalkEntry, Walk;
    forall v: seq<Index> | Inner(v, hi)
      ensures TableAt(mem', root, 4, v) == if v == q + [i] then Some(nf) else TableAt(s.mem, root, 4, v)
      ensures TableAt(s.mem, root, 4, v) != Some(nf)
    {
      GraftTables(s, mem', root, hi, q, i, nf, v);
    }
  }

  /** Writing an entry of a last-level table changes exactly one translation. */
  lemma LeafWrite(s: State, mem': Memory, root: nat, hi: nat, q: seq<Index>, i: Index, e: Pte)
    requires TreeOk(s, root, hi) && Inner(q, hi) && |q| == 3 && TableAt(s.mem, root, 4, q).Some?
    requires var t := TableAt(s.mem, root, 4, q).value; 0 < t < |s.mem| && mem' == s.mem[t := s.mem[t][i := e]]
    ensures forall p: Path :: |p| == 4 && p[0] < hi ==>
              Walk(mem', root, p) == if p == q + [i] then WalkEntry([], e, [i]) else Walk(s.mem, root, p)
    ensures TreeOk(s.(mem := mem'), root, hi)
  {
    TreeReplaced(s, mem', root, hi, q, i);
    forall p: Path | |p| == 4 && p[0] < hi
      ensures Walk(mem', root, p) == if p == q + [i] then WalkEntry([], e, [i]) else Walk(s.mem, root, p)
    {
      assert [] + p == p;
      if p == q + [i] {
        WalkOn(s.mem, mem', root, hi, q, i, root, [], p);
        assert p[3..] == [i];
      } else {
        WalkOff(s.mem, mem', root, hi, q, i, root, [], p);
      }
    }
    forall v: seq<Index> | Inner(v, hi)
      ensures TableAt(mem', root, 4, v) == TableAt(s.mem, root, 4, v)
    {
      assert [] + v == v;
      TableAtOff(s.mem, mem', root, hi, q, i, root, [], v);
    }
  }

  // ---------- References ----------

  lemma {:induction false} RefsReplace(mem: Memory, mem': Memory, f: nat, level: nat, n: nat, k: nat, g: nat)
    requires k < n <= ENTRIES
    requires forall j :: 0 <= j < n && j != k ==>
               EntryRefs(mem', TableOf(mem', f)[j], level, g) == EntryRefs(mem, TableOf(mem, f)[j], level, g)
    ensures RefsUpTo(mem', f, level, n, g) - RefsUpTo(mem, f, level, n, g) ==
            EntryRefs(mem', TableOf(mem', f)[k], level, g) - EntryRefs(mem, TableOf(mem, f)[k], level, g)
    decreases n
  {
    if k < n - 1 {
      RefsReplace(mem, mem', f, level, n - 1, k, g);
    } else {
      RefsEqual(mem, mem', f, level, n - 1, g);
    }
  }

  lemma {:induction false} RefsEqual(mem: Memory, mem': Memory, f: nat, level: nat, n: nat, g: nat)
    requires n <= ENTRIES
    requires forall j :: 0 <= j < n ==>
               EntryRefs(mem', TableOf(mem', f)[j], level, g) == EntryRefs(mem, TableOf(mem, f)[j], level, g)
    ensures RefsUpTo(mem', f, level, n, g) == RefsUpTo(mem, f, level, n, g)
  {
    if n > 0 {
      RefsEqual(mem, mem', f, level, n - 1, g);
    }
  }

  lemma {:induction false} RefsTwice(mem: Memory, f: nat, level: nat, n: nat, j: nat, k: nat, g: nat)
    requires j < k < n <= ENTRIES
    ensures EntryRefs(mem, TableOf(mem, f)[j], level, g) + EntryRefs(mem, TableOf(mem, f)[k], level, g) <=
            RefsUpTo(mem, f, level, n, g)
    decreases n
  {
    if k < n - 1 {
      RefsTwice(mem, f, level, n - 1, j, k, g);
    } else {
      RefsOfEntry(mem, f, level, j, n - 1, g);
    }
  }

  /** The frame that the entry at indices `q` refers to, be it a table or a page. */
  function RefAt(mem: Memory, f: nat, level: nat, q: seq<Index>): (r: Option<nat>)
    decreases |q|
  {
    if q == [] || level == 0 then None
    else
      var e := TableOf(mem, f)[q[0]];
      if !e.Present() then None
      else if |q| == 1 then Some(e.frame)
      else if Branches(e, level) then RefAt(mem, e.frame, level - 1, q[1..])
      else None
  }

  lemma {:induction false} OneRef(mem: Memory, f: nat, level: nat, n: nat, q: seq<Index>)
    requires n <= ENTRIES && RefAt(mem, f, level, q).Some? && q[0] < n
    ensures 1 <= EntryRefs(mem, TableOf(mem, f)[q[0]], level, RefAt(mem, f, level, q).value)
              <= RefsUpTo(mem, f, level, n, RefAt(mem, f, level, q).value)
    decreases |q|
  {
    var e, t := TableOf(mem, f)[q[0]], RefAt(mem, f, level, q).value;
    if |q| > 1 {
      OneRef(mem, e.frame, level - 1, ENTRIES, q[1..]);
    }
    RefsOfEntry(mem, f, level, q[0], n, t);
  }

  /** A frame that is referred to at two places is counted twice. */
  lemma {:induction false} TwoRefs(mem: Memory, f: nat, level: nat, n: nat, q: seq<Index>, q': seq<Index>)
    requires n <= ENTRIES && RefAt(mem, f, level, q).Some? && q[0] < n && q != q'
    requires RefAt(mem, f, level, q') == RefAt(mem, f, level, q) && q'[0] < n
    ensures RefsUpTo(mem, f, level, n, RefAt(mem, f, level, q).value) >= 2
    decreases |q|
  {
    var e, t := TableOf(mem, f)[q[0]], RefAt(mem, f, level, q).value;
    if q[0] == q'[0] {
      assert q == [q[0]] + q[1..] && q' == [q'[0]] + q'[1..];
      if |q| > 1 && |q'| > 1 {
        TwoRefs(mem, e.frame, level - 1, ENTRIES, q[1..], q'[1..]);
      } else if |q| > 1 {
        OneRef(mem, e.frame, level - 1, ENTRIES, q[1..]);
      } else {
        OneRef(mem, e.frame, level - 1, ENTRIES, q'[1..]);
      }
      RefsOfEntry(mem, f, level, q[0], n, t);
    } else {
      OneRef(mem, f, level, n, q);
      OneRef(mem, f, level, n, q');
      if q[0] < q'[0] {
        RefsTwice(mem, f, level, n, q[0], q'[0], t);
      } else {
        RefsTwice(mem, f, level, n, q'[0], q[0], t);
      }
    }
  }

  /** Whatever is counted is referred to somewhere. */
  lemma {:induction false} RefWitness(mem: Memory, f: nat, level: nat, n: nat, g: nat) returns (q: seq<Index>)
    requires n <= ENTRIES && RefsUpTo(mem, f, level, n, g) > 0
    ensures 0 < |q| <= level && q[0] < n && RefAt(mem, f, level, q) == Some(g)
    decreases level, n
  {
    var e := TableOf(mem, f)[n - 1];
    if RefsUpTo(mem, f, level, n - 1, g) > 0 {
      q := RefWitness(mem, f, level, n - 1, g);
    } else if e.frame == g {
      q := [n - 1];
    } else {
      var r := RefWitness(mem, e.frame, level - 1, ENTRIES, g);
      q := [n - 1] + r;
      assert q[1..] == r;
    }
  }

  /** In a sound tree a page is referred to where it is mapped. */
  lemma {:induction false} LeafRef(mem: Memory, tables: set<nat>, f: nat, n: nat, p: Path)
    requires n <= ENTRIES && p[0] < n && Sound(mem, tables, f, |p|, n)
    ensures RefAt(mem, f, |p|, p) == match Walk(mem, f, p) case None => None case Some(e) => Some(e.frame)
    decreases |p|
  {
    var e := TableOf(mem, f)[p[0]];
    assert EntrySound(mem, tables, e, |p|);
    if e.Present() && |p| > 1 {
      LeafRef(mem, tables, e.frame, ENTRIES, p[1..]);
    }
  }

  lemma {:induction false} TableRef(mem: Memory, f: nat, level: nat, q: seq<Index>)
    requires q != [] && TableAt(mem, f, level, q).Some?
    ensures RefAt(mem, f, level, q) == TableAt(mem, f, level, q)
    decreases |q|
  {
    var e := TableOf(mem, f)[q[0]];
    if |q| > 1 {
      TableRef(mem, e.frame, level - 1, q[1..]);
    } else {
      assert TableAt(mem, e.frame, level - 1, q[1..]) == Some(e.frame);
    }
  }

  /** Above the last level a sound tree refers only to tables. */
  lemma {:induction false} InnerRef(mem: Memory, tables: set<nat>, f: nat, level: nat, n: nat, q: seq<Index>)
    requires n <= ENTRIES && Sound(mem, tables, f, level, n)
    requires 0 < |q| < level && q[0] < n && RefAt(mem, f, level, q).Some?
    ensures RefAt(mem, f, level, q).value in tables
    decreases |q|
  {
    var e := TableOf(mem, f)[q[0]];
    assert EntrySound(mem, tables, e, level);
    if |q| > 1 {
      InnerRef(mem, tables, e.frame, level - 1, ENTRIES, q[1..]);
    }
  }

  /** A table that is reached is referred to. */
  lemma PathRefs(mem: Memory, f: nat, level: nat, n: nat, q: seq<Index>)
    requires n <= ENTRIES && q != [] && q[0] < n && TableAt(mem, f, level, q).Some?
    ensures var e, t := TableOf(mem, f)[q[0]], TableAt(mem, f, level, q).value;
            1 <= EntryRefs(mem, e, level, t) <= RefsUpTo(mem, f, level, n, t)
  {
    TableRef(mem, f, level, q);
    OneRef(mem, f, level, n, q);
  }

  /** A table that is reached in two ways is referred to twice. */
  lemma TwoPaths(mem: Memory, f: nat, level: nat, n: nat, q: seq<Index>, q': seq<Index>)
    requires n <= ENTRIES && q != q' && (q != [] ==> q[0] < n) && (q' != [] ==> q'[0] < n)
    requires TableAt(mem, f, level, q).Some? && TableAt(mem, f, level, q) == TableAt(mem, f, level, q')
    ensures var t := TableAt(mem, f, level, q).value;
            RefsUpTo(mem, f, level, n, t) + (if f == t then 1 else 0) >= 2
  {
    if q == [] {
      PathRefs(mem, f, level, n, q');
    } else if q' == [] {
      PathRefs(mem, f, level, n, q);
    } else {
      TableRef(mem, f, level, q);
      TableRef(mem, f, level, q');
      TwoRefs(mem, f, level, n, q, q');
    }
  }

  /** Replacing entry i of the table at q replaces what that entry refers to, provided the table is
      referred to only once. */
  lemma {:induction false} RefsAlong(mem: Memory, mem': Memory, f: nat, level: nat, n: nat, q: seq<Index>, i: Index,
                                     g: nat)
    requires n <= ENTRIES && TableAt(mem, f, level, q).Some? && |q| < level
    requires if q == [] then i < n else q[0] < n
    requires var t := TableAt(mem, f, level, q).value;
             && t < |mem| && |mem'| == |mem| && mem' == mem[t := mem[t][i := mem'[t][i]]]
             && RefsUpTo(mem, f, level, n, t) + (if f == t then 1 else 0) <= 1
    ensures var t := TableAt(mem, f, level, q).value;
            RefsUpTo(mem', f, level, n, g) == RefsUpTo(mem, f, level, n, g)
              - EntryRefs(mem, mem[t][i], level - |q|, g) + EntryRefs(mem', mem'[t][i], level - |q|, g)
    decreases |q|
  {
    var t := TableAt(mem, f, level, q).value;
    var k := if q == [] then i else q[0];
    if q != [] {
      PathRefs(mem, f, level, n, q);
      assert f != t;
      var c := TableOf(mem, f)[k].frame;
      RefsAlong(mem, mem', c, level - 1, ENTRIES, q[1..], i, g);
    }
    forall j | 0 <= j < n && j != k
      ensures EntryRefs(mem', TableOf(mem', f)[j], level, g) == EntryRefs(mem, TableOf(mem, f)[j], level, g)
    {
      OffEntry(mem, mem', f, level, n, q, i, j, g);
    }
    RefsReplace(mem, mem', f, level, n, k, g);
  }

  lemma OffEntry(mem: Memory, mem': Memory, f: nat, level: nat, n: nat, q: seq<Index>, i: Index, j: nat, g: nat)
    requires n <= ENTRIES && TableAt(mem, f, level, q).Some? && |q| < level
    requires if q == [] then i < n && j != i else q[0] < n && j != q[0]
    requires j < n
    requires var t := TableAt(mem, f, level, q).value;
             && t < |mem| && |mem'| == |mem| && mem' == mem[t := mem[t][i := mem'[t][i]]]
             && RefsUpTo(mem, f, level, n, t) + (if f == t then 1 else 0) <= 1
    ensures TableOf(mem', f)[j] == TableOf(mem, f)[j]
    ensures WeakerBelow(mem, mem', TableOf(mem, f)[j], level)
    ensures EntryRefs(mem', TableOf(mem', f)[j], level, g) == EntryRefs(mem, TableOf(mem, f)[j], level, g)
  {
    var t, e := TableAt(mem, f, level, q).value, TableOf(mem, f)[j];
    if q == [] {
      RefsOfEntry(mem, f, level, j, n, t);
    } else {
      PathRefs(mem, f, level, n, q);
      if j < q[0] {
        RefsTwice(mem, f, level, n, j, q[0], t);
      } else {
        RefsTwice(mem, f, level, n, q[0], j, t);
      }
    }
    assert EntryRefs(mem, e, level, t) == 0;
    WeakerRefs(mem, mem', e, level, g);
  }

  /** The same for soundness. */
  lemma {:induction false} SoundAlong(mem: Memory, mem': Memory, tables: set<nat>, tables': set<nat>, f: nat,
                                      level: nat, n: nat, q: seq<Index>, i: Index)
    requires n <= ENTRIES && TableAt(mem, f, level, q).Some? && |q| < level
    requires if q == [] then i < n else q[0] < n
    requires var t := TableAt(mem, f, level, q).value;
             && t < |mem| && |mem'| == |mem| && mem' == mem[t := mem[t][i := mem'[t][i]]]
             && RefsUpTo(mem, f, level, n, t) + (if f == t then 1 else 0) <= 1
             && EntrySound(mem', tables', mem'[t][i], level - |q|)
    requires tables <= tables' && Sound(mem, tables, f, level, n)
    ensures Sound(mem', tables', f, level, n)
    decreases |q|
  {
    var t := TableAt(mem, f, level, q).value;
    var k := if q == [] then i else q[0];
    forall j | 0 <= j < n
      ensures EntrySound(mem', tables', TableOf(mem', f)[j], level)
    {
      assert EntrySound(mem, tables, TableOf(mem, f)[j], level);
      if j != k {
        OffEntry(mem, mem', f, level, n, q, i, j, 0);
        WeakerSound(mem, mem', tables, tables', TableOf(mem, f)[j], level);
      } else if q != [] {
        PathRefs(mem, f, level, n, q);
        SoundAlong(mem, mem', tables, tables', TableOf(mem, f)[k].frame, level - 1, ENTRIES, q[1..], i);
      }
    }
  }

  // ---------- Address spaces ----------

  ghost function Singles(rc: seq<nat>): set<nat> {
    set t | 0 < t < |rc| && rc[t] == 1
  }

  /** How often an address space refers to frame `g`: its top-level table and its user half. */
  ghost function SpaceRefs(mem: Memory, root: nat, g: nat): nat {
    RefsUpTo(mem, root, 4, USER_ENTRIES, g) + (if g == root then 1 else 0)
  }

  /** No top-level entry of the user half has bit 7 set. */
  ghost predicate TopClear(mem: Memory, root: nat) {
    forall j :: 0 <= j < USER_ENTRIES ==> !(TableOf(mem, root)[j].Present() && TableOf(mem, root)[j].flags.huge)
  }

  /** The tables of the user half are held by this address space only, and its pages are held. */
  ghost predicate Owned(s: State, root: nat) {
    && s.Tidy() && 0 < root < |s.rc| && s.rc[root] == 1
    && Sound(s.mem, Singles(s.rc), root, 4, USER_ENTRIES) && TopClear(s.mem, root)
    && forall g :: 0 < g < |s.rc| ==> SpaceRefs(s.mem, root, g) <= s.rc[g]
  }

  lemma {:induction false} SoundTable(mem: Memory, tables: set<nat>, f: nat, level: nat, n: nat, q: seq<Index>)
    requires n <= ENTRIES && Sound(mem, tables, f, level, n)
    requires q != [] && q[0] < n && TableAt(mem, f, level, q).Some?
    ensures TableAt(mem, f, level, q).value in tables
    decreases |q|
  {
    var e := TableOf(mem, f)[q[0]];
    assert EntrySound(mem, tables, e, level);
    if |q| > 1 {
      SoundTable(mem, tables, e.frame, level - 1, ENTRIES, q[1..]);
    } else {
      assert TableAt(mem, e.frame, level - 1, q[1..]) == Some(e.frame);
    }
  }

  /** Tables that are held once each form a tree. */
  lemma OwnedTree(s: State, root: nat)
    requires Owned(s, root)
    ensures TreeOk(s, root, USER_ENTRIES)
    ensures forall q: seq<Index> :: Inner(q, USER_ENTRIES) && TableAt(s.mem, root, 4, q).Some? ==>
              var t := TableAt(s.mem, root, 4, q).value; 0 < t < |s.rc| && s.rc[t] == 1 == SpaceRefs(s.mem, root, t)
  {
    forall q: seq<Index> | Inner(q, USER_ENTRIES) && TableAt(s.mem, root, 4, q).Some?
      ensures var t := TableAt(s.mem, root, 4, q).value; 0 < t < |s.rc| && s.rc[t] == 1 == SpaceRefs(s.mem, root, t)
    {
      if q != [] {
        SoundTable(s.mem, Singles(s.rc), root, 4, USER_ENTRIES, q);
        PathRefs(s.mem, root, 4, USER_ENTRIES, q);
      }
    }
    forall q: seq<Index>, q': seq<Index> | Inner(q, USER_ENTRIES) && Inner(q', USER_ENTRIES) &&
        TableAt(s.mem, root, 4, q).Some? && TableAt(s.mem, root, 4, q) == TableAt(s.mem, root, 4, q')
      ensures q == q'
    {
      if q != q' {
        TwoPaths(s.mem, root, 4, USER_ENTRIES, q, q');
      }
    }
  }

  /** Clearing a free frame changes nothing in an owned address space. */
  lemma ZeroFree(s: State, mem1: Memory, root: nat, nf: nat)
    requires Owned(s, root) && 0 < nf < |s.rc| && !s.used[nf] && mem1 == s.mem[nf := EmptyTable()]
    ensures forall g :: SpaceRefs(mem1, root, g) == SpaceRefs(s.mem, root, g)
    ensures Owned(s.(mem := mem1), root)
  {
    assert SpaceRefs(s.mem, root, nf) <= s.rc[nf];
    OffPath(s.mem, root, 4, USER_ENTRIES, nf, EmptyTable());
    forall j | 0 <= j < USER_ENTRIES
      ensures EntrySound(mem1, Singles(s.rc), TableOf(mem1, root)[j], 4)
    {
      assert EntrySound(s.mem, Singles(s.rc), TableOf(s.mem, root)[j], 4);
      WeakerSound(s.mem, mem1, Singles(s.rc), Singles(s.rc), TableOf(s.mem, root)[j], 4);
    }
  }

  /** Hooking an empty table into an absent entry. */
  lemma AttachOwned(s: State, mem': Memory, root: nat, q: seq<Index>, i: Index, nf: nat)
    requires Owned(s, root) && Inner(q + [i], USER_ENTRIES) && TableAt(s.mem, root, 4, q).Some?
    requires 0 < nf < |s.rc| && !s.used[nf]
    requires var t := TableAt(s.mem, root, 4, q).value;
             && 0 < t < |s.mem| && !s.mem[t][i].Present() && |mem'| == |s.mem|
             && mem' == s.mem[nf := EmptyTable()][t := s.mem[t][i := mem'[t][i]]]
             && mem'[t][i].frame == nf && Branches(mem'[t][i], 4 - |q|) && !mem'[t][i].flags.huge
    ensures forall g :: SpaceRefs(mem', root, g) == SpaceRefs(s.mem, root, g) + (if g == nf then 1 else 0)
    ensures Owned(State(s.rc[nf := 1], mem', s.used[nf := true]), root)
  {
    hide Owned, SpaceRefs;
    OwnedTree(s, root);
    var mem1 := s.mem[nf := EmptyTable()];
    ZeroFree(s, mem1, root, nf);
    assert [] + q == q;
    assert q != [] ==> (q + [i])[0] == q[0];
    TableAtFree(s, mem1, root, USER_ENTRIES, [], q, root);
    assert TableAt(s.mem, root, 4, q).value != nf;
    AttachEmpty(s.(mem := mem1), mem', root, q, i, nf);
  }

  ghost predicate Attaching(s: State, mem': Memory, root: nat, q: seq<Index>, i: Index, nf: nat) {
    && Owned(s, root) && Inner(q + [i], USER_ENTRIES) && TableAt(s.mem, root, 4, q).Some?
    && 0 < nf < |s.rc| && !s.used[nf] && s.mem[nf] == EmptyTable()
    && var t := TableAt(s.mem, root, 4, q).value;
      && 0 < t < |s.mem| && !s.mem[t][i].Present() && |mem'| == |s.mem|
      && mem' == s.mem[t := s.mem[t][i := mem'[t][i]]]
      && mem'[t][i].frame == nf && Branches(mem'[t][i], 4 - |q|) && !mem'[t][i].flags.huge
  }

  lemma AttachRefs(s: State, mem': Memory, root: nat, q: seq<Index>, i: Index, nf: nat, g: nat)
    requires Attaching(s, mem', root, q, i, nf)
    ensures SpaceRefs(mem', root, g) == SpaceRefs(s.mem, root, g) + (if g == nf then 1 else 0)
  {
    hide Owned, Sound, RefsUpTo, EntryRefs;
    var t := TableAt(s.mem, root, 4, q).value;
    OwnedTree(s, root);
    assert q == [] ==> (q + [i])[0] == i;
    assert q != [] ==> (q + [i])[0] == q[0];
    RefsAlong(s.mem, mem', root, 4, USER_ENTRIES, q, i, g);
    assert mem'[nf] == EmptyTable();
    EmptyEntryRefs(mem', mem'[t][i], 4 - |q|, g);
    AbsentEntryRefs(s.mem, s.mem[t][i], 4 - |q|, g);
  }

  lemma AttachSound(s: State, mem': Memory, root: nat, q: seq<Index>, i: Index, nf: nat)
    requires Attaching(s, mem', root, q, i, nf)
    ensures Sound(mem', Singles(s.rc[nf := 1]), root, 4, USER_ENTRIES)
  {
    hide RefsUpTo, EntryRefs;
    OwnedTree(s, root);
    assert q == [] ==> (q + [i])[0] == i;
    assert q != [] ==> (q + [i])[0] == q[0];
    assert mem'[nf] == EmptyTable();
    assert Singles(s.rc) <= Singles(s.rc[nf := 1]);
    SoundAlong(s.mem, mem', Singles(s.rc), Singles(s.rc[nf := 1]), root, 4, USER_ENTRIES, q, i);
  }

  lemma AttachTop(s: State, mem': Memory, root: nat, q: seq<Index>, i: Index, nf: nat)
    requires Attaching(s, mem', root, q, i, nf)
    ensures TopClear(mem', root)
  {
    hide SpaceRefs, Sound;
    var t := TableAt(s.mem, root, 4, q).value;
    forall j | 0 <= j < USER_ENTRIES
      ensures !(TableOf(mem', root)[j].Present() && TableOf(mem', root)[j].flags.huge)
    {
      assert TableOf(mem', root)[j] == TableOf(s.mem, root)[j] || (root == t && j == i);
    }
  }

  lemma AttachEmpty(s: State, mem': Memory, root: nat, q: seq<Index>, i: Index, nf: nat)
    requires Attaching(s, mem', root, q, i, nf)
    ensures forall g :: SpaceRefs(mem', root, g) == SpaceRefs(s.mem, root, g) + (if g == nf then 1 else 0)
    ensures Owned(State(s.rc[nf := 1], mem', s.used[nf := true]), root)
  {
    hide SpaceRefs, Sound, TopClear;
    AttachSound(s, mem', root, q, i, nf);
    AttachTop(s, mem', root, q, i, nf);
    forall g
      ensures SpaceRefs(mem', root, g) == SpaceRefs(s.mem, root, g) + (if g == nf then 1 else 0)
    {
      AttachRefs(s, mem', root, q, i, nf, g);
    }
  }

  lemma {:induction false} EmptyRefs(mem: Memory, f: nat, level: nat, n: nat, g: nat)
    requires n <= ENTRIES && forall j :: 0 <= j < ENTRIES ==> !TableOf(mem, f)[j].Present()
    ensures RefsUpTo(mem, f, level, n, g) == 0
  {
    if n > 0 {
      EmptyRefs(mem, f, level, n - 1, g);
    }
  }

  lemma EmptyEntryRefs(mem: Memory, e: Pte, level: nat, g: nat)
    requires Branches(e, level) && TableOf(mem, e.frame) == EmptyTable()
    ensures EntryRefs(mem, e, level, g) == if e.frame == g then 1 else 0
  {
    EmptyRefs(mem, e.frame, level - 1, ENTRIES, g);
  }

  lemma AbsentEntryRefs(mem: Memory, e: Pte, level: nat, g: nat)
    requires !e.Present()
    ensures EntryRefs(mem, e, level, g) == 0
  {
  }

  /** Changes to frames that are not in use move no table and change no translation. */
  lemma {:induction false} TableAtFree(s: State, mem1: Memory, root: nat, hi: nat, u: seq<Index>, v: seq<Index>, f: nat)
    requires TreeOk(s, root, hi) && Inner(u + v, hi) && Inner(u, hi) && TableAt(s.mem, root, 4, u) == Some(f)
    requires |mem1| == |s.mem| && forall g :: 0 <= g < |mem1| && s.used[g] ==> mem1[g] == s.mem[g]
    ensures TableAt(mem1, f, 4 - |u|, v) == TableAt(s.mem, f, 4 - |u|, v)
    decreases |v|
  {
    if v != [] {
      var e := TableOf(s.mem, f)[v[0]];
      if Branches(e, 4 - |u|) {
        TableAtAppend(s.mem, root, 4, u, v[0]);
        assert u + v == (u + [v[0]]) + v[1..];
        TableAtFree(s, mem1, root, hi, u + [v[0]], v[1..], e.frame);
      }
    }
  }

  lemma {:induction false} WalkFree(s: State, mem1: Memory, root: nat, hi: nat, u: seq<Index>, p: Path, f: nat)
    requires TreeOk(s, root, hi) && |u| + |p| == 4 && (u + p)[0] < hi && TableAt(s.mem, root, 4, u) == Some(f)
    requires |mem1| == |s.mem| && forall g :: 0 <= g < |mem1| && s.used[g] ==> mem1[g] == s.mem[g]
    ensures Walk(mem1, f, p) == Walk(s.mem, f, p)
    decreases |p|
  {
    assert Inner(u, hi);
    var e := TableOf(s.mem, f)[p[0]];
    if Branches(e, |p|) {
      TableAtAppend(s.mem, root, 4, u, p[0]);
      assert u + p == (u + [p[0]]) + p[1..];
      WalkFree(s, mem1, root, hi, u + [p[0]], p[1..], e.frame);
    }
  }

  lemma OwnedFree(s: State, mem1: Memory, root: nat)
    requires Owned(s, root) && s.rc[0] > 0
    requires |mem1| == |s.mem| && forall g :: 0 <= g < |mem1| && s.used[g] ==> mem1[g] == s.mem[g]
    ensures forall g :: SpaceRefs(mem1, root, g) == SpaceRefs(s.mem, root, g)
    ensures Owned(s.(mem := mem1), root)
  {
    hide EntrySound, EntryRefs, WeakerBelow, RefsUpTo;
    forall j | 0 <= j < USER_ENTRIES
      ensures WeakerBelow(s.mem, mem1, TableOf(s.mem, root)[j], 4)
      ensures EntrySound(mem1, Singles(s.rc), TableOf(mem1, root)[j], 4)
    {
      OwnedEntry(s, mem1, root, j);
    }
    forall g
      ensures SpaceRefs(mem1, root, g) == SpaceRefs(s.mem, root, g)
    {
      PrefixRefs(s.mem, mem1, root, 4, USER_ENTRIES, g);
    }
  }

  lemma OwnedEntry(s: State, mem1: Memory, root: nat, j: nat)
    requires Owned(s, root) && s.rc[0] > 0 && j < USER_ENTRIES
    requires |mem1| == |s.mem| && forall g :: 0 <= g < |mem1| && s.used[g] ==> mem1[g] == s.mem[g]
    ensures WeakerBelow(s.mem, mem1, TableOf(s.mem, root)[j], 4)
    ensures EntrySound(mem1, Singles(s.rc), TableOf(mem1, root)[j], 4)
  {
    hide EntrySound, EntryRefs, RefsUpTo;
    OwnedBelow(s, root, j);
    assert EntrySound(s.mem, Singles(s.rc), TableOf(s.mem, root)[j], 4);
    WeakerSound(s.mem, mem1, Singles(s.rc), Singles(s.rc), TableOf(s.mem, root)[j], 4);
  }

  lemma OwnedBelow(s: State, root: nat, j: nat)
    requires Owned(s, root) && j < USER_ENTRIES
    ensures forall t :: 0 < t < |s.rc| && EntryRefs(s.mem, TableOf(s.mem, root)[j], 4, t) > 0 ==> s.rc[t] > 0
  {
    forall t | 0 < t < |s.rc| && EntryRefs(s.mem, TableOf(s.mem, root)[j], 4, t) > 0
      ensures s.rc[t] > 0
    {
      RefsOfEntry(s.mem, root, 4, j, USER_ENTRIES, t);
      assert SpaceRefs(s.mem, root, t) <= s.rc[t];
    }
  }

  /** Entries of the tables of a sound tree are sound. */
  lemma {:induction false} SoundAt(mem: Memory, tables: set<nat>, f: nat, level: nat, n: nat, q: seq<Index>, i: Index)
    requires n <= ENTRIES && Sound(mem, tables, f, level, n) && TableAt(mem, f, level, q).Some? && |q| < level
    requires if q == [] then i < n else q[0] < n
    ensures EntrySound(mem, tables, TableOf(mem, TableAt(mem, f, level, q).value)[i], level - |q|)
    decreases |q|
  {
    if q != [] {
      assert EntrySound(mem, tables, TableOf(mem, f)[q[0]], level);
      SoundAt(mem, tables, TableOf(mem, f)[q[0]].frame, level - 1, ENTRIES, q[1..], i);
    }
  }

  /** Writing an entry of a last-level table of an owned address space. */
  lemma LeafOwned(s: State, mem': Memory, root: nat, q: seq<Index>, i: Index, e: Pte)
    requires Owned(s, root) && Inner(q, USER_ENTRIES) && |q| == 3 && TableAt(s.mem, root, 4, q).Some?
    requires var t := TableAt(s.mem, root, 4, q).value; 0 < t < |s.mem| && mem' == s.mem[t := s.mem[t][i := e]]
    ensures var prior := s.mem[TableAt(s.mem, root, 4, q).value][i];
            forall g :: SpaceRefs(mem', root, g) == SpaceRefs(s.mem, root, g)
                          - (if prior.Present() && prior.frame == g then 1 else 0)
                          + (if e.Present() && e.frame == g then 1 else 0)
    ensures Sound(mem', Singles(s.rc), root, 4, USER_ENTRIES)
  {
    OwnedTree(s, root);
    forall g
      ensures var prior := s.mem[TableAt(s.mem, root, 4, q).value][i];
              SpaceRefs(mem', root, g) == SpaceRefs(s.mem, root, g)
                - (if prior.Present() && prior.frame == g then 1 else 0)
                + (if e.Present() && e.frame == g then 1 else 0)
    {
      RefsAlong(s.mem, mem', root, 4, USER_ENTRIES, q, i, g);
    }
    SoundAlong(s.mem, mem', Singles(s.rc), Singles(s.rc), root, 4, USER_ENTRIES, q, i);
  }

  /** A walk from a table continues from whatever table its first indices lead to. */
  lemma {:induction false} WalkTable(mem: Memory, f: nat, q: seq<Index>, r: Path)
    requires TableAt(mem, f, |q| + |r|, q).Some?
    ensures Walk(mem, f, q + r) == Walk(mem, TableAt(mem, f, |q| + |r|, q).value, r)
    decreases |q|
  {
    if q == [] {
      assert q + r == r;
    } else {
      assert (q + r)[1..] == q[1..] + r;
      WalkTable(mem, TableOf(mem, f)[q[0]].frame, q[1..], r);
    }
  }

  // ---------- Splitting huge pages ----------

  /** The flags handed down by split_huge_page: the low attribute bits and NX, but not PTE_SHARED. */
  function SplitFlags(e: Pte): Flags {
    e.flags.(huge := false, shared := false)
  }

  /** Entry i of the table that replaces huge entry `e` of a table at `level`. */
  function SplitEntry(e: Pte, level: nat, i: nat): Pte {
    if level == 3 then Pte(e.frame / 262144 * 262144 + 512 * i, SplitFlags(e).(huge := true))
    else Pte(e.frame / 512 * 512 + i, SplitFlags(e).(huge := e.frame % 2 == 1))
  }

  /** The parts of a 1 GiB page begin at 2 MiB borders. */
  lemma PartBorder(f: nat, k: nat)
    ensures (f / 262144 * 262144 + 512 * k) / 512 * 512 == f / 262144 * 262144 + 512 * k
  {
    var n := f / 262144;
    assert n * 262144 + 512 * k == 512 * (512 * n + k);
  }

  lemma SplitLarge(mem: Memory, mem': Memory, e: Pte, c: Pte, r: Path)
    requires e.Present() && Huge(e, 2) && |r| == 2 && c == SplitEntry(e, 2, r[1])
    ensures WalkEntry(mem', c, r[1..]) == Seen(WalkEntry(mem, e, r))
  {
  }

  lemma SplitHuge(mem: Memory, mem': Memory, e: Pte, c: Pte, r: Path)
    requires e.Present() && Huge(e, 3) && |r| == 3 && c == SplitEntry(e, 3, r[1])
    ensures WalkEntry(mem', c, r[1..]) == Seen(WalkEntry(mem, e, r))
  {
    PartBorder(e.frame, r[1]);
    assert r[1..][1] == r[2];
  }

  lemma EntryInto(mem: Memory, e: Pte, r: Path)
    requires |r| > 1 && Branches(e, |r|)
    ensures WalkEntry(mem, e, r) == WalkEntry(mem, TableOf(mem, e.frame)[r[1]], r[1..])
  {
  }

  /** Splitting keeps every translation, but for the shared bit. */
  lemma SplitWalk(mem: Memory, mem': Memory, e: Pte, e': Pte, r: Path)
    requires e.Present() && Huge(e, |r|) && e'.flags == SplitFlags(e)
    requires forall i :: 0 <= i < ENTRIES ==> TableOf(mem', e'.frame)[i] == SplitEntry(e, |r|, i)
    ensures WalkEntry(mem', e', r) == Seen(WalkEntry(mem, e, r)) == Unshared(e, WalkEntry(mem, e, r))
  {
    hide SplitEntry, TableOf;
    EntryInto(mem', e', r);
    var c := TableOf(mem', e'.frame)[r[1]];
    if |r| == 2 {
      SplitLarge(mem, mem', e, c, r);
    } else {
      SplitHuge(mem, mem', e, c, r);
    }
  }

  /** The shared bit survives a split exactly when there was none to lose. */
  lemma SplitExact(mem: Memory, mem': Memory, e: Pte, e': Pte, r: Path)
    requires e.Present() && Huge(e, |r|) && e'.flags == SplitFlags(e)
    requires forall i :: 0 <= i < ENTRIES ==> TableOf(mem', e'.frame)[i] == SplitEntry(e, |r|, i)
    ensures WalkEntry(mem', e', r) == WalkEntry(mem, e, r) <==> !e.flags.shared
  {
    SplitWalk(mem, mem', e, e', r);
  }

  // ---------- Virtual addresses ----------

  const USER_LIMIT: nat := 0x8000_0000_0000
  const KERNEL_STACK_TOP: nat := 0xFFFF_FF80_0000_0000

  function PathOf(virt: nat): (p: Path)
    ensures |p| == 4 && (virt < USER_LIMIT ==> p[0] < USER_ENTRIES)
  {
    [virt / 0x80_0000_0000 % 512, virt / 0x4000_0000 % 512, virt / 0x20_0000 % 512, virt / 0x1000 % 512]
  }

  /** vmm_virt_to_phys_in. */
  function VirtToPhys(mem: Memory, root: nat, virt: nat): (phys: nat) {
    if root == 0 then 0
    else
      var e4 := TableOf(mem, root)[virt / 0x80_0000_0000 % 512];
      if !e4.Present() then 0
      else
        var e3 := TableOf(mem, e4.frame)[virt / 0x4000_0000 % 512];
        if !e3.Present() then 0
        else if e3.flags.huge then e3.frame / 0x4_0000 * 0x4000_0000 + virt % 0x4000_0000
        else
          var e2 := TableOf(mem, e3.frame)[virt / 0x20_0000 % 512];
          if !e2.Present() then 0
          else if e2.flags.huge then e2.frame / 0x200 * 0x20_0000 + virt % 0x20_0000
          else
            var e1 := TableOf(mem, e2.frame)[virt / 0x1000 % 512];
            if !e1.Present() then 0 else e1.frame * 0x1000 + virt % 0x1000
  }

  /** vmm_virt_to_phys_in computes the walk. */
  lemma VirtToPhysIsWalk(mem: Memory, root: nat, virt: nat)
    ensures VirtToPhys(mem, root, virt) ==
            match Walk(mem, root, PathOf(virt))
            case None => 0
            case Some(e) => if root == 0 then 0 else e.frame * 0x1000 + virt % 0x1000
  {
    var p := PathOf(virt);
    var e4 := TableOf(mem, root)[p[0]];
    if e4.Present() {
      var e3 := TableOf(mem, e4.frame)[p[1]];
      WalkDown(mem, e4, p);
      if e3.Present() {
        HugeAddress(e3.frame, virt);
        if !e3.flags.huge {
          var e2 := TableOf(mem, e3.frame)[p[2]];
          WalkDown(mem, e3, p[1..]);
          if e2.Present() {
            HugeAddress(e2.frame, virt);
            if !e2.flags.huge {
              WalkDown(mem, e2, p[1..][1..]);
            }
          }
        }
      }
    }
  }

  lemma WalkDown(mem: Memory, e: Pte, p: Path)
    requires Branches(e, |p|)
    ensures WalkEntry(mem, e, p) == WalkEntry(mem, TableOf(mem, e.frame)[p[1]], p[1..])
  {
  }

  /** Adding the offset in a huge page to its base is resolving it to a 4 KiB page first. */
  lemma HugeAddress(frame: nat, virt: nat)
    ensures frame / 0x4_0000 * 0x4000_0000 + virt % 0x4000_0000 ==
            (frame / 262144 * 262144 + 512 * (virt / 0x20_0000 % 512) + virt / 0x1000 % 512) * 0x1000 + virt % 0x1000
    ensures frame / 0x200 * 0x20_0000 + virt % 0x20_0000 ==
            (frame / 512 * 512 + virt / 0x1000 % 512) * 0x1000 + virt % 0x1000
  {
    var page, o := virt / 0x1000, virt % 0x1000;
    var big, i := page / 512, page % 512;
    assert virt == 0x1000 * page + o && page == 512 * big + i;
    assert virt / 0x20_0000 == big;
    assert big == 512 * (big / 512) + big % 512;
    assert virt == 0x4000_0000 * (big / 512) + (0x20_0000 * (big % 512) + 0x1000 * i + o);
    assert virt % 0x4000_0000 == 0x20_0000 * (big % 512) + 0x1000 * i + o;
  }
}
