/** The list of virtual memory areas of a process, kept sorted by address. */
module Vma {
  import opened Options
  import opened PageTable

  datatype Kind = Generic | Text | Data | Stack | Heap | Mmio | Anonymous | Shared

  /** The addresses start <= a < end, with the flags their pages are mapped with. */
  datatype Area = Area(start: nat, end: nat, flags: Flags, kind: Kind, isCow: bool) {
    predicate Has(a: nat) { start <= a < end }
  }

  /** The first area with the address. */
  function Find(list: seq<Area>, a: nat): (r: Option<Area>)
    ensures r.Some? ==> r.value in list && r.value.Has(a)
    ensures r.None? ==> forall v :: v in list ==> !v.Has(a)
  {
    if list == [] then None
    else if list[0].Has(a) then Some(list[0])
    else Find(list[1..], a)
  }

  /** What the process may do with an address; areas are compared by what they say about their pages. */
  datatype Rights = Rights(flags: Flags, kind: Kind, isCow: bool)

  function Lookup(list: seq<Area>, a: nat): Option<Rights> {
    match Find(list, a)
    case None => None
    case Some(v) => Some(Rights(v.flags, v.kind, v.isCow))
  }

  /** Sorted and pairwise disjoint; the sentinel [0, 0) may come first. */
  ghost predicate Sorted(list: seq<Area>) {
    && (forall i :: 0 <= i < |list| ==> list[i].start <= list[i].end)
    && (forall i, j :: 0 <= i < j < |list| ==> list[i].end <= list[j].start)
    && (forall i :: 0 < i < |list| ==> list[i].start < list[i].end)
  }

  const SENTINEL := Area(0, 0, Flags(false, false, false, false, false, false, 0), Generic, false)

  /** What vma_add and vma_unmap keep: a list that was ever added to starts with the sentinel. */
  ghost predicate Kept(list: seq<Area>) {
    Sorted(list) && (list != [] ==> list[0] == SENTINEL)
  }

  /** In a sorted list the area that has an address is the only one. */
  lemma {:induction false} FindAt(list: seq<Area>, i: nat, a: nat)
    requires Sorted(list) && i < |list| && list[i].Has(a)
    ensures Find(list, a) == Some(list[i])
  {
    if i > 0 {
      assert list[0].end <= list[i].start;
      FindAt(list[1..], i - 1, a);
    }
  }

  lemma {:induction false} FindAppend(xs: seq<Area>, ys: seq<Area>, a: nat)
    ensures Find(xs + ys, a) == if Find(xs, a).Some? then Find(xs, a) else Find(ys, a)
  {
    if xs == [] {
      assert xs + ys == ys;
    } else {
      FindAppend(xs[1..], ys, a);
      assert (xs + ys)[1..] == xs[1..] + ys;
    }
  }

  /** The range [s, e) meets no area. */
  ghost predicate Vacant(list: seq<Area>, s: nat, e: nat) {
    forall i :: 0 <= i < |list| ==> e <= list[i].start || list[i].end <= s
  }

  /** The list with area v put in somewhere, and the sentinel at its head. */
  ghost predicate Inserted(list: seq<Area>, v: Area, list': seq<Area>) {
    var base := if list == [] then [SENTINEL] else list;
    exists k :: 0 <= k <= |base| && list' == base[..k] + [v] + base[k..]
  }

  /** Adding a vacant range changes the rights of exactly its addresses. */
  lemma InsertLookup(xs: seq<Area>, v: Area, ys: seq<Area>)
    requires Kept(xs + ys) && xs != [] && Vacant(xs + ys, v.start, v.end) && v.start < v.end
    requires forall i :: 0 <= i < |xs| ==> xs[i].start < v.start
    requires forall i :: 0 <= i < |ys| ==> v.start <= ys[i].start
    ensures Kept(xs + [v] + ys)
    ensures forall a: nat :: Lookup(xs + [v] + ys, a) ==
                             if v.Has(a) then Some(Rights(v.flags, v.kind, v.isCow)) else Lookup(xs + ys, a)
  {
    var prior, updated := xs + ys, xs + [v] + ys;
    forall i | 0 <= i < |updated|
      ensures updated[i].start <= updated[i].end && (0 < i ==> updated[i].start < updated[i].end)
      ensures forall j :: i < j < |updated| ==> updated[i].end <= updated[j].start
    {
      assert i < |xs| ==> updated[i] == prior[i];
      assert i > |xs| ==> updated[i] == prior[i - 1];
      forall j | i < j < |updated|
        ensures updated[i].end <= updated[j].start
      {
        assert j < |xs| ==> updated[j] == prior[j];
        assert j > |xs| ==> updated[j] == prior[j - 1];
      }
    }
    forall a: nat
      ensures Find(updated, a) == if v.Has(a) then Some(v) else Find(prior, a)
    {
      if v.Has(a) {
        FindAt(updated, |xs|, a);
      } else {
        FindAppend(xs + [v], ys, a);
        FindAppend(xs, [v], a);
        FindAppend(xs, ys, a);
      }
    }
  }

  /** The range lies inside the area, with something left on both sides. */
  predicate Inside(v: Area, s: nat, e: nat) {
    v.start < s && e < v.end
  }

  /** The parts of an area that vma_unmap leaves. */
  function Cut(v: Area, s: nat, e: nat): seq<Area> {
    if e <= v.start || s >= v.end then [v]
    else if s <= v.start && e >= v.end then []
    else if s <= v.start then [v.(start := e)]
    else if e >= v.end then [v.(end := s)]
    else [v.(end := s), v.(start := e)]
  }

  function Cuts(list: seq<Area>, s: nat, e: nat): seq<Area> {
    if list == [] then [] else Cuts(list[..|list| - 1], s, e) + Cut(list[|list| - 1], s, e)
  }

  lemma CutFind(v: Area, s: nat, e: nat, a: nat)
    requires s < e
    ensures var r := Find(Cut(v, s, e), a);
            if v.Has(a) && !(s <= a < e) then r.Some? && r.value.(start := v.start, end := v.end) == v else r.None?
  {
    FindAppend([v.(end := s)], [v.(start := e)], a);
  }

  lemma FindOne(v: Area, a: nat)
    ensures Find([v], a) == if v.Has(a) then Some(v) else None
  {
  }

  /** The parts are nonempty, in order, and inside the area. */
  lemma CutOrder(v: Area, s: nat, e: nat)
    requires s < e && v.start < v.end
    ensures Sorted(Cut(v, s, e))
    ensures forall p :: p in Cut(v, s, e) ==> v.start <= p.start < p.end <= v.end
  {
  }

  lemma SortedAppend(xs: seq<Area>, ys: seq<Area>, m: nat)
    requires Sorted(xs) && Sorted(ys) && xs != []
    requires forall p :: p in xs ==> p.end <= m
    requires forall p :: p in ys ==> m <= p.start < p.end
    ensures Sorted(xs + ys)
  {
    var zs := xs + ys;
    forall i, j | 0 <= i < j < |zs|
      ensures zs[i].end <= zs[j].start
    {
      if i < |xs| <= j {
        assert zs[i] in xs && zs[j] in ys;
      }
    }
    forall i | |xs| <= i < |zs|
      ensures zs[i].start < zs[i].end
    {
      assert zs[i] in ys;
    }
  }

  /** Unmapping removes the rights of exactly [s, e). */
  lemma {:induction false} CutsLookup(list: seq<Area>, s: nat, e: nat, a: nat)
    requires s < e
    ensures Lookup(Cuts(list, s, e), a) == if s <= a < e then None else Lookup(list, a)
  {
    hide Cut;
    if list != [] {
      var n := |list| - 1;
      var xs, v := list[..n], list[n];
      CutsLookup(xs, s, e, a);
      FindAppend(Cuts(xs, s, e), Cut(v, s, e), a);
      CutFind(v, s, e, a);
      FindAppend(xs, [v], a);
      FindOne(v, a);
      assert list == xs + [v];
    }
  }

  lemma CutSentinel(s: nat, e: nat)
    requires s < e
    ensures Cut(SENTINEL, s, e) == [SENTINEL]
  {
  }

  lemma {:induction false} CutsSorted(list: seq<Area>, s: nat, e: nat)
    requires Sorted(list) && s < e && (list != [] ==> list[0] == SENTINEL)
    ensures Sorted(Cuts(list, s, e))
    ensures list != [] ==> Cuts(list, s, e) != [] && Cuts(list, s, e)[0] == SENTINEL
    ensures forall p :: p in Cuts(list, s, e) ==> p.end <= list[|list| - 1].end
  {
    hide Cut;
    if |list| > 1 {
      var n := |list| - 1;
      var xs, v := list[..n], list[n];
      CutsSorted(xs, s, e);
      assert list[n - 1].end <= v.start;
      CutOrder(v, s, e);
      SortedAppend(Cuts(xs, s, e), Cut(v, s, e), v.start);
    } else if |list| == 1 {
      assert list[..0] == [];
      CutSentinel(s, e);
    }
  }

  lemma CutsStep(list: seq<Area>, k: nat, s: nat, e: nat)
    requires k < |list|
    ensures Cuts(list[..k + 1], s, e) == Cuts(list[..k], s, e) + Cut(list[k], s, e)
  {
    assert list[..k + 1][..k] == list[..k];
  }

  /** A range strictly inside one area leaves the areas before it alone. */
  lemma {:induction false} CutsBefore(list: seq<Area>, s: nat, e: nat)
    requires forall i :: 0 <= i < |list| ==> list[i].end <= s
    ensures Cuts(list, s, e) == list
  {
    if list != [] {
      CutsBefore(list[..|list| - 1], s, e);
    }
  }

  lemma SplitFails(list: seq<Area>, k: nat, s: nat, e: nat)
    requires Sorted(list) && k < |list| && list[k].start < s
    ensures Cuts(list[..k], s, e) + list[k..] == list
  {
    CutsBefore(list[..k], s, e);
  }

  lemma CutsNothing(s: nat, e: nat)
    ensures Cuts([], s, e) == []
  {
  }

  /** vma_clone, when malloc has room for `nodes` more nodes: all or nothing. */
  method CloneList(list: seq<Area>, nodes: nat) returns (copy: seq<Area>)
    ensures copy == if |list| <= nodes then list else []
  {
    copy := [];
    for i := 0 to |list|
      invariant copy == list[..i] && i <= nodes
    {
      if i == nodes {
        return [];
      }
      copy := copy + [list[i]];
    }
  }

  class AreaList {
    var list: seq<Area>

    constructor (list: seq<Area>)
      ensures this.list == list
    {
      this.list := list;
    }

    /** vma_find. */
    method FindArea(a: nat) returns (r: Option<Area>)
      ensures r == Find(list, a)
    {
      for i := 0 to |list|
        invariant Find(list, a) == Find(list[i..], a)
      {
        if list[i].Has(a) {
          return Some(list[i]);
        }
      }
      return None;
    }

    /** vma_add; the two flags say whether malloc succeeds for the sentinel and for the area. */
    method Add(start: nat, end: nat, flags: Flags, kind: Kind, sentinelOk: bool, nodeOk: bool) returns (ok: bool)
      requires Kept(list)
      modifies this
      ensures Kept(list)
      ensures ok <==> 0 < start < end && Vacant(old(list), start, end) && nodeOk && (old(list) != [] || sentinelOk)
      ensures forall a: nat :: Lookup(list, a) ==
                if ok && start <= a < end then Some(Rights(flags, kind, false)) else Lookup(old(list), a)
      ensures ok ==> Inserted(old(list), Area(start, end, flags, kind, false), list)
      ensures !ok ==> list == old(list) || (old(list) == [] && list == [SENTINEL])
    {
      if start >= end {
        return false;
      }
      if list == [] {
        if !sentinelOk {
          return false;
        }
        list := [SENTINEL];
      }
      var i := 0;
      while i < |list| && list[i].start < start
        invariant i <= |list|
        invariant forall k :: 0 <= k < i ==> list[k].start < start && list[k].end <= start
      {
        if start < list[i].end {
          return false;
        }
        i := i + 1;
      }
      if i < |list| && end > list[i].start {
        return false;
      }
      if !nodeOk {
        return false;
      }
      var v := Area(start, end, flags, kind, false);
      assert list == list[..i] + list[i..];
      InsertLookup(list[..i], v, list[i..]);
      list := list[..i] + [v] + list[i..];
      return true;
    }

    /** The loop body of vma_unmap: replaces area i by its parts and moves on. */
    method UnmapAt(i: nat, start: nat, end: nat, splitOk: bool) returns (next: nat, ok: bool)
      requires i < |list| && start < end
      modifies this
      ensures ok ==> list == old(list)[..i] + Cut(old(list)[i], start, end) + old(list)[i + 1..]
      ensures ok ==> next == i + |Cut(old(list)[i], start, end)|
      ensures !ok ==> list == old(list)
      ensures ok <==> splitOk || !Inside(old(list)[i], start, end)
    {
      var v := list[i];
      if end <= v.start || start >= v.end {
        return i + 1, true;
      }
      if start <= v.start && end >= v.end {
        list := list[..i] + list[i + 1..];
        return i, true;
      }
      if start <= v.start && end < v.end {
        list := list[i := v.(start := end)];
        return i + 1, true;
      }
      if start > v.start && end >= v.end {
        list := list[i := v.(end := start)];
        return i + 1, true;
      }
      if !splitOk {
        return i, false;
      }
      list := list[..i] + [v.(end := start), v.(start := end)] + list[i + 1..];
      return i + 2, true;
    }

    /** vma_unmap; splitOk says whether malloc succeeds when an area is split. */
    method Unmap(start: nat, end: nat, splitOk: bool) returns (ok: bool)
      requires Kept(list)
      modifies this
      ensures Kept(list)
      ensures !ok ==> list == old(list)
      ensures ok <==> start < end && (splitOk || forall v :: v in old(list) ==> !Inside(v, start, end))
      ensures ok ==> list == Cuts(old(list), start, end)
      ensures ok ==> forall a: nat :: Lookup(list, a) == if start <= a < end then None else Lookup(old(list), a)
    {
      hide Cuts, Cut, Lookup, Sorted;
      if start >= end {
        return false;
      }
      ghost var was, k := list, 0;
      ghost var done: seq<Area> := [];
      CutsNothing(start, end);
      var i := 0;
      while i < |list|
        invariant k <= |was| && done == Cuts(was[..k], start, end) && i == |done| && list == done + was[k..]
        invariant splitOk || forall v :: v in was[..k] ==> !Inside(v, start, end)
        decreases |was| - k
      {
        assert list[i] == was[k];
        CutsStep(was, k, start, end);
        i, ok := UnmapAt(i, start, end, splitOk);
        if !ok {
          SplitFails(was, k, start, end);
          return;
        }
        k, done := k + 1, done + Cut(was[k], start, end);
      }
      assert was[..k] == was && list == done;
      CutsSorted(was, start, end);
      forall a: nat
        ensures Lookup(list, a) == if start <= a < end then None else Lookup(was, a)
      {
        CutsLookup(was, start, end, a);
      }
      return true;
    }
  }
}
