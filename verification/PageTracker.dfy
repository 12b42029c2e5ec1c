/** The heap's table of pages: open addressing with linear probing and tombstones. It is proved to be
    a map from page addresses to block counts. */
module PageTracker {

  const MAX_TRACKED: nat := 65536
  const EMPTY: nat := 0
  const TOMBSTONE: nat := 1

  datatype Slot = Slot(page: nat, bucket: nat, free: nat, total: nat)

  datatype Info = Info(bucket: nat, free: nat, total: nat)

  function InfoOf(s: Slot): Info { Info(s.bucket, s.free, s.total) }

  function Mix(virt: bv64): bv64 {
    var v := virt ^ (virt >> 33);
    var w := v * 0xff51afd7ed558ccd;
    w ^ (w >> 33)
  }

  /** hash_page. */
  function Hash(page: nat): (h: nat)
    ensures h < MAX_TRACKED
  {
    (Mix((page % 0x1_0000_0000_0000_0000) as bv64) as nat) % MAX_TRACKED
  }

  /** The i-th probe for a page. */
  function Probe(page: nat, i: nat): (k: nat)
    ensures k < MAX_TRACKED
  {
    (Hash(page) + i) % MAX_TRACKED
  }

  /** The page is met at probe d, with no empty slot before it. */
  ghost predicate FoundAt(s: seq<Slot>, page: nat, d: nat)
    requires |s| == MAX_TRACKED
  {
    && d < MAX_TRACKED && s[Probe(page, d)].page == page
    && forall i: nat :: i < d ==> s[Probe(page, i)].page != EMPTY
  }

  ghost predicate Reachable(s: seq<Slot>, page: nat)
    requires |s| == MAX_TRACKED
  {
    exists d :: FoundAt(s, page, d)
  }

  /** The table holds exactly this map, and probing reaches every page of it. */
  ghost predicate Represents(s: seq<Slot>, view: map<nat, Info>) {
    && |s| == MAX_TRACKED
    && (forall k :: 0 <= k < |s| && s[k].page > TOMBSTONE ==> s[k].page in view && view[s[k].page] == InfoOf(s[k]))
    && (forall k, l :: 0 <= k < l < |s| && s[k].page > TOMBSTONE ==> s[k].page != s[l].page)
    && (forall p :: p in view ==> p > TOMBSTONE && Reachable(s, p))
  }

  /** Writing slot k keeps every other page reachable if the slot does not become empty. */
  lemma StillFound(s: seq<Slot>, k: nat, x: Slot, page: nat)
    requires |s| == MAX_TRACKED && k < |s| && x.page != EMPTY && (s[k].page == page ==> x.page == page)
    requires Reachable(s, page)
    ensures Reachable(s[k := x], page)
  {
    hide Probe;
    var d :| FoundAt(s, page, d);
    assert FoundAt(s[k := x], page, d);
  }

  lemma PutKeeps(s: seq<Slot>, view: map<nat, Info>, k: nat, x: Slot)
    requires Represents(s, view) && k < |s| && x.page > TOMBSTONE
    requires s[k].page > TOMBSTONE ==> s[k].page == x.page
    requires s[k].page <= TOMBSTONE ==> x.page !in view && Reachable(s[k := x], x.page)
    ensures Represents(s[k := x], view[x.page := InfoOf(x)])
  {
    hide FoundAt, Reachable;
    forall p | p in view
      ensures Reachable(s[k := x], p)
    {
      StillFound(s, k, x, p);
    }
  }

  lemma DropKeeps(s: seq<Slot>, view: map<nat, Info>, k: nat, x: Slot)
    requires Represents(s, view) && k < |s| && s[k].page > TOMBSTONE && x.page == TOMBSTONE
    ensures Represents(s[k := x], view - {s[k].page})
  {
    hide FoundAt, Reachable;
    forall p | p in view - {s[k].page}
      ensures Reachable(s[k := x], p)
    {
      StillFound(s, k, x, p);
    }
  }

  class Tracker {
    const slots: array<Slot>
    ghost var view: map<nat, Info>

    ghost predicate Valid()
      reads this, slots
    {
      slots.Length == MAX_TRACKED && Represents(slots[..], view)
    }

    /** Every slot is taken by a page. */
    ghost predicate Full()
      reads slots
    {
      forall k :: 0 <= k < slots.Length ==> slots[k].page > TOMBSTONE
    }

    lemma PageKey(p: nat)
      requires Valid() && p in view
      ensures p > TOMBSTONE
    {
    }

    /** heap_init. */
    constructor ()
      ensures Valid() && view == map[] && fresh(slots)
    {
      slots := new Slot[MAX_TRACKED](_ => Slot(EMPTY, 0, 0, 0));
      view := map[];
    }

    /** page_tracker_find: the slot of a page, or -1 exactly when it is not tracked. */
    method Find(page: nat) returns (k: int)
      requires Valid() && page > TOMBSTONE
      ensures k >= 0 ==> k < MAX_TRACKED && slots[k].page == page && page in view && view[page] == InfoOf(slots[k])
      ensures k < 0 <==> page !in view
    {
      hide Probe;
      ghost var s := slots[..];
      for i := 0 to MAX_TRACKED
        invariant forall j: nat :: j < i ==> s[Probe(page, j)].page != page && s[Probe(page, j)].page != EMPTY
      {
        var probe := Probe(page, i);
        assert slots[probe] == s[probe];
        if slots[probe].page == page {
          assert s[probe].page > TOMBSTONE;
          return probe;
        }
        if slots[probe].page == EMPTY {
          return -1;
        }
      }
      return -1;
    }

    /** page_tracker_add: fails only when every slot is taken by a page. */
    method Add(page: nat, bucket: nat, total: nat) returns (ok: bool)
      requires Valid() && page > TOMBSTONE && page !in view
      modifies this, slots
      ensures Valid()
      ensures ok ==> view == old(view)[page := Info(bucket, total, total)]
      ensures !ok ==> view == old(view) && slots[..] == old(slots[..])
      ensures !ok ==> Full()
    {
      hide Probe;
      ghost var s := slots[..];
      for i := 0 to MAX_TRACKED
        invariant slots[..] == s && view == old(view)
        invariant forall j: nat :: j < i ==> s[Probe(page, j)].page > TOMBSTONE
      {
        var probe := Probe(page, i);
        assert slots[probe] == s[probe];
        if slots[probe].page == EMPTY || slots[probe].page == TOMBSTONE {
          var x := Slot(page, bucket, total, total);
          assert FoundAt(s[probe := x], page, i);
          PutKeeps(s, view, probe, x);
          slots[probe] := x;
          assert slots[..] == s[probe := x];
          view := view[page := InfoOf(x)];
          return true;
        }
      }
      forall k | 0 <= k < MAX_TRACKED
        ensures slots[k].page > TOMBSTONE
      {
        Reached(page, k);
        assert slots[k] == s[k];
      }
      return false;
    }

    /** Sets the number of free blocks of a tracked page. */
    method SetFree(k: nat, free: nat)
      requires Valid() && k < MAX_TRACKED && slots[k].page > TOMBSTONE
      modifies this, slots
      ensures Valid() && slots[k] == old(slots[k]).(free := free)
      ensures view == old(view)[old(slots[k].page) := InfoOf(old(slots[k])).(free := free)]
    {
      ghost var s := slots[..];
      var x := slots[k].(free := free);
      PutKeeps(s, view, k, x);
      slots[k] := x;
      assert slots[..] == s[k := x];
      view := view[x.page := InfoOf(x)];
    }

    /** Leaves a tombstone. */
    method Remove(k: nat)
      requires Valid() && k < MAX_TRACKED && slots[k].page > TOMBSTONE
      modifies this, slots
      ensures Valid() && view == old(view) - {old(slots[k].page)}
    {
      ghost var s := slots[..];
      var x := slots[k].(page := TOMBSTONE);
      DropKeeps(s, view, k, x);
      view := view - {slots[k].page};
      slots[k] := x;
      assert slots[..] == s[k := x];
    }
  }

  /** The probes of a page reach every slot. */
  lemma Reached(page: nat, k: nat)
    requires k < MAX_TRACKED
    ensures exists i: nat :: i < MAX_TRACKED && Probe(page, i) == k
  {
    var h := Hash(page);
    var i := if k >= h then k - h else k + MAX_TRACKED - h;
    assert Probe(page, i) == k;
  }
}
