/** The boot loader's memory map: retyping a range of addresses. */
module BootMap {
  import opened Options

  const U64_MAX: nat := 0xFFFF_FFFF_FFFF_FFFF

  /** BootMemoryMapEntry; the three numbers are 64-bit. */
  datatype Entry = Entry(base: nat, length: nat, kind: nat)

  /** range_end: the end of a range, cut off at the last address. */
  function RangeEnd(base: nat, length: nat): nat {
    if length == 0 then base else if base + length > U64_MAX then U64_MAX else base + length
  }

  predicate Has(e: Entry, a: nat) {
    e.base <= a < RangeEnd(e.base, e.length)
  }

  /** The types of all entries that have an address, in order. */
  function Kinds(es: seq<Entry>, a: nat): seq<nat> {
    if es == [] then []
    else Kinds(es[..|es| - 1], a) + if Has(es[|es| - 1], a) then [es[|es| - 1].kind] else []
  }

  /** The parts of one entry after [lo, hi) got a new type. */
  function Parts(e: Entry, lo: nat, hi: nat, kind: nat): seq<Entry> {
    var end := RangeEnd(e.base, e.length);
    if end <= lo || e.base >= hi then [e]
    else
      var from, to := if e.base > lo then e.base else lo, if end < hi then end else hi;
      (if e.base < lo then [Entry(e.base, lo - e.base, e.kind)] else []) +
      (if to > from then [Entry(from, to - from, kind)] else []) +
      (if end > hi then [Entry(hi, end - hi, e.kind)] else [])
  }

  function AllParts(es: seq<Entry>, lo: nat, hi: nat, kind: nat): seq<Entry> {
    if es == [] then [] else AllParts(es[..|es| - 1], lo, hi, kind) + Parts(es[|es| - 1], lo, hi, kind)
  }

  /** What happens to the types at one address. */
  function Retyped(ks: seq<nat>, inside: bool, kind: nat): (r: seq<nat>)
    ensures |r| == |ks|
  {
    if !inside then ks else seq(|ks|, _ => kind)
  }

  lemma {:induction false} KindsAppend(xs: seq<Entry>, ys: seq<Entry>, a: nat)
    ensures Kinds(xs + ys, a) == Kinds(xs, a) + Kinds(ys, a)
  {
    if ys == [] {
      assert xs + ys == xs;
    } else {
      var n := |ys| - 1;
      KindsAppend(xs, ys[..n], a);
      assert (xs + ys)[..|xs| + n] == xs + ys[..n];
    }
  }

  lemma KindsOne(e: Entry, a: nat)
    ensures Kinds([e], a) == if Has(e, a) then [e.kind] else []
  {
    assert [e][..0] == [];
  }

  lemma PartsKinds(e: Entry, lo: nat, hi: nat, kind: nat, a: nat)
    requires lo <= hi <= U64_MAX
    ensures Kinds(Parts(e, lo, hi, kind), a) ==
            if Has(e, a) then [if lo <= a < hi then kind else e.kind] else []
  {
    hide Kinds;
    var end := RangeEnd(e.base, e.length);
    if end <= lo || e.base >= hi {
      KindsOne(e, a);
    } else {
      var from, to := if e.base > lo then e.base else lo, if end < hi then end else hi;
      var x := if e.base < lo then [Entry(e.base, lo - e.base, e.kind)] else [];
      var y := if to > from then [Entry(from, to - from, kind)] else [];
      var z := if end > hi then [Entry(hi, end - hi, e.kind)] else [];
      KindsAppend(x + y, z, a);
      KindsAppend(x, y, a);
      NoKinds(a);
      KindsOne(Entry(e.base, if e.base < lo then lo - e.base else 0, e.kind), a);
      KindsOne(Entry(from, if to > from then to - from else 0, kind), a);
      KindsOne(Entry(hi, if end > hi then end - hi else 0, e.kind), a);
    }
  }

  /** Where a part of an entry lies: below the range, in it or above it. */
  function Zone(p: Entry, lo: nat, hi: nat): int {
    if p.base < lo then -1 else if p.base < hi then 0 else 1
  }

  /** The parts cover the entry from its start to its end, one after the other, each in one zone with the type of that
      zone, and no two of them in the same zone. */
  lemma PartsTile(e: Entry, lo: nat, hi: nat, kind: nat)
    requires lo < hi <= U64_MAX && 0 < e.length && e.base < U64_MAX
    ensures var ps := Parts(e, lo, hi, kind);
            && ps != [] && ps[0].base == e.base
            && RangeEnd(ps[|ps| - 1].base, ps[|ps| - 1].length) == RangeEnd(e.base, e.length)
            && (forall i :: 0 <= i < |ps| ==> ps[i].length > 0)
            && (forall i :: 0 <= i < |ps| ==> ps[i].kind == if Zone(ps[i], lo, hi) == 0 then kind else e.kind)
            && (forall i :: 0 <= i < |ps| - 1 ==>
                  ps[i].base + ps[i].length == ps[i + 1].base && Zone(ps[i], lo, hi) < Zone(ps[i + 1], lo, hi))
  {
  }

  /** The end of a range is the sum where that is an address, and never beyond the last one. */
  lemma EndMeans(base: nat, length: nat, a: nat)
    requires base <= U64_MAX
    ensures Has(Entry(base, length, 0), a) <==> base <= a < base + length && a < U64_MAX
  {
  }

  lemma NoKinds(a: nat)
    ensures Kinds([], a) == []
  {
  }

  /** A pointwise update: every address stays in as many entries as before, and its type changes exactly
      inside the range. */
  lemma {:induction false} AllPartsKinds(es: seq<Entry>, lo: nat, hi: nat, kind: nat, a: nat)
    requires lo <= hi <= U64_MAX
    ensures Kinds(AllParts(es, lo, hi, kind), a) == Retyped(Kinds(es, a), lo <= a < hi, kind)
  {
    hide Parts, Has;
    if es != [] {
      var n := |es| - 1;
      AllPartsKinds(es[..n], lo, hi, kind, a);
      PartsKinds(es[n], lo, hi, kind, a);
      KindsAppend(AllParts(es[..n], lo, hi, kind), Parts(es[n], lo, hi, kind), a);
    }
  }

  /** overlay_memory_range. */
  method Overlay(entries: array<Entry>, count: nat, max: nat, base: nat, length: nat, kind: nat)
    returns (ok: bool, count': nat)
    requires base <= U64_MAX && length <= U64_MAX && max <= entries.Length
    modifies entries
    ensures count > max || length == 0 ==> ok && count' == count && entries[..] == old(entries[..])
    ensures count <= max && length > 0 ==>
              ok == (|AllParts(old(entries[..count]), base, RangeEnd(base, length), kind)| <= max)
    ensures count <= max && length > 0 && ok ==>
              count' <= max && entries[..count'] == AllParts(old(entries[..count]), base, RangeEnd(base, length), kind)
    ensures !ok ==> count' == count && entries[..] == old(entries[..])
  {
    hide Parts;
    if count > max || length == 0 {
      return true, count;
    }
    ghost var was := entries[..count];
    var limit := RangeEnd(base, length);
    var temp: seq<Entry> := [];
    for i := 0 to count
      invariant temp == AllParts(was[..i], base, limit, kind) && |temp| <= max && entries[..] == old(entries[..])
    {
      assert was[..i + 1][..i] == was[..i] && was[i] == entries[i];
      var next := PushParts(temp, max, entries[i], base, limit, kind);
      if next.None? {
        PartsGrow(was, i + 1, base, limit, kind);
        return false, count;
      }
      temp := next.value;
    }
    assert was[..count] == was;
    for i := 0 to |temp|
      invariant forall k :: 0 <= k < i ==> entries[k] == temp[k]
    {
      entries[i] := temp[i];
    }
    return true, |temp|;
  }

  /** The parts of one entry are appended; None when the buffer is full. */
  method PushParts(temp: seq<Entry>, max: nat, e: Entry, lo: nat, hi: nat, kind: nat) returns (r: Option<seq<Entry>>)
    requires |temp| <= max
    ensures r.None? <==> |temp| + |Parts(e, lo, hi, kind)| > max
    ensures r.Some? ==> r.value == temp + Parts(e, lo, hi, kind)
  {
    var out := temp;
    var end := RangeEnd(e.base, e.length);
    if end <= lo || e.base >= hi {
      if |out| >= max {
        return None;
      }
      return Some(out + [e]);
    }
    if e.base < lo {
      if |out| >= max {
        return None;
      }
      out := out + [Entry(e.base, lo - e.base, e.kind)];
    }
    var from, to := if e.base > lo then e.base else lo, if end < hi then end else hi;
    if to > from {
      if |out| >= max {
        return None;
      }
      out := out + [Entry(from, to - from, kind)];
    }
    if end > hi {
      if |out| >= max {
        return None;
      }
      out := out + [Entry(hi, end - hi, e.kind)];
    }
    return Some(out);
  }

  lemma {:induction false} PartsGrow(es: seq<Entry>, n: nat, lo: nat, hi: nat, kind: nat)
    requires n <= |es|
    ensures |AllParts(es[..n], lo, hi, kind)| <= |AllParts(es, lo, hi, kind)|
    decreases |es| - n
  {
    hide Parts;
    if n < |es| {
      PartsGrow(es, n + 1, lo, hi, kind);
      assert es[..n + 1][..n] == es[..n];
    } else {
      assert es[..n] == es;
    }
  }
}
